/** A device left in the middle of a frame by a failed write, under two rules for a packet out of place. */
module Stalled {
  import opened Wrappers
  import opened Bytes
  import opened Packets
  import opened Framing
  import opened Strict
  import opened Apdu
  import opened Links
  import opened Pairing

  /** A device in the middle of a frame, or one that has met a packet it cannot place. */
  predicate Stuck(p: Peer) {
    p.assembler.Broken? || MidFrame(p.assembler)
  }

  /** A packet that opens a frame of a command. */
  predicate StartsFrame(packet: seq<byte>) {
    |packet| >= 5 && packet[0] == APDU_COMMAND_TAG && FromU16Be(packet[1], packet[2]) == 0
  }

  lemma FrameStarts(raw: seq<byte>, mtu: nat)
    requires |raw| <= U16_MAX
    ensures var ps := Frame(APDU_COMMAND_TAG, raw, mtu).packets;
            ps != [] && StartsFrame(ps[0])
  {
  }

  lemma StuckStep(p: Peer, packet: seq<byte>)
    requires Stuck(p) && StartsFrame(packet)
    ensures Hear(p, packet) == Peer(Broken, p.heard)
  {
  }

  lemma {:induction false} BrokenHearsNothing(h: seq<seq<byte>>, packets: seq<seq<byte>>)
    ensures HearAll(Peer(Broken, h), packets) == Peer(Broken, h)
    decreases |packets|
  {
    if packets != [] {
      BrokenHearsNothing(h, packets[1..]);
    }
  }

  /** A stuck device takes the opening packet of a new frame for a misplaced one. */
  lemma StuckHearsNothing(p: Peer, ps: seq<seq<byte>>, k: nat)
    requires Stuck(p) && ps != [] && StartsFrame(ps[0]) && k <= |ps|
    ensures Stuck(HearAll(p, ps[..k])) && HearAll(p, ps[..k]).heard == p.heard
  {
    if k > 0 {
      StuckStep(p, ps[0]);
      HearFirst(p, ps, k);
      BrokenHearsNothing(p.heard, ps[1..][..k - 1]);
    }
  }

  /** What a peer makes of everything written from `l` to `l'`. */
  function PeerSince(p: Peer, l: Link, l': Link): Peer
    requires |l.delivered| <= |l'.delivered|
  {
    HearAll(p, l'.delivered[|l.delivered|..])
  }

  /** What an exchange writes is the first packets of its frame. */
  lemma ExchangeDelivers(l: Link, c: ApduCommand) returns (k: nat)
    ensures var ps := PacketsFor(c.Serialized(), MtuInForce(l.mtu));
            k <= |ps| && ExchangeOn(l, c).link.delivered == l.delivered + ps[..k]
  {
    if |c.Serialized()| <= U16_MAX {
      k := WriteAllLands(l, Frame(APDU_COMMAND_TAG, c.Serialized(), MtuInForce(l.mtu)).packets);
    } else {
      k := 0;
      assert l.delivered + [] == l.delivered;
    }
  }

  lemma StuckExchange(p: Peer, l: Link, c: ApduCommand)
    requires Stuck(p)
    ensures var l' := ExchangeOn(l, c).link;
            && l.delivered <= l'.delivered
            && Stuck(PeerSince(p, l, l')) && PeerSince(p, l, l').heard == p.heard
  {
    var k := ExchangeDelivers(l, c);
    var ps := PacketsFor(c.Serialized(), MtuInForce(l.mtu));
    DropPrefix(l.delivered, ps[..k]);
    if k > 0 {
      FrameStarts(c.Serialized(), MtuInForce(l.mtu));
      StuckHearsNothing(p, ps, k);
    }
  }

  lemma PeerChain(p: Peer, l: Link, m: Link, l': Link)
    requires l.delivered <= m.delivered <= l'.delivered
    ensures PeerSince(p, l, l') == PeerSince(PeerSince(p, l, m), m, l')
  {
    var a, b := m.delivered[|l.delivered|..], l'.delivered[|m.delivered|..];
    assert l'.delivered[|l.delivered|..] == a + b;
    HearConcat(p, a, b);
  }

  /**
   * The link has no way to abandon a frame: once a failed write has left the device in the middle of one,
   * it hears nothing of any later run, however long and at whatever packet size.
   */
  lemma {:induction false} StuckForever(p: Peer, l: Link, commands: seq<ApduCommand>)
    requires Stuck(p)
    ensures l.delivered <= After(l, commands).delivered
    ensures Stuck(PeerSince(p, l, After(l, commands))) && PeerSince(p, l, After(l, commands)).heard == p.heard
    decreases |commands|
  {
    if commands != [] {
      var n := |commands| - 1;
      var m := After(l, commands[..n]);
      StuckForever(p, l, commands[..n]);
      StuckExchange(PeerSince(p, l, m), m, commands[n]);
      PeerChain(p, l, m, ExchangeOn(m, commands[n]).link);
    }
  }

  /**
   * An exchange leaves an idle device stuck exactly if its write failed with some of the frame delivered, but
   * not all.
   */
  lemma StuckExactly(l: Link, h: seq<seq<byte>>, c: ApduCommand)
    requires SessionMtu(l.mtu) && |c.Serialized()| <= U16_MAX
    ensures l.delivered <= ExchangeOn(l, c).link.delivered
    ensures Stuck(HeardSince(h, l, ExchangeOn(l, c).link))
       <==> 0 < |ExchangeOn(l, c).link.delivered| - |l.delivered| < |PacketsFor(c.Serialized(), MtuInForce(l.mtu))|
  {
    var ps := PacketsFor(c.Serialized(), MtuInForce(l.mtu));
    var k := ExchangeDelivers(l, c);
    DropPrefix(l.delivered, ps[..k]);
    FrameIsHeard(h, c.Serialized(), MtuInForce(l.mtu), k);
  }

  // ---------------------------------------------------------------- a device that starts anew

  /** As strict as `Hear`, except that a packet that starts a frame is never out of place: earlier ones are dropped. */
  function HearAnew(p: Peer, raw: seq<byte>): Peer {
    Hear(if StartsFrame(raw) then Peer(Idle, p.heard) else p, raw)
  }

  function HearAllAnew(p: Peer, packets: seq<seq<byte>>): Peer
    decreases |packets|
  {
    if packets == [] then p else HearAllAnew(HearAnew(p, packets[0]), packets[1..])
  }

  lemma {:induction false} HearAnewConcat(p: Peer, a: seq<seq<byte>>, b: seq<seq<byte>>)
    ensures HearAllAnew(p, a + b) == HearAllAnew(HearAllAnew(p, a), b)
    decreases |a|
  {
    if a == [] {
      assert a + b == b;
    } else {
      TailOfConcat(a, b);
      HearAnewConcat(HearAnew(p, a[0]), a[1..], b);
    }
  }

  /** The later packets of a frame start none, so on them the two rules are the same. */
  lemma {:induction false} SameInsideFrame(
    p: Peer, index: nat, packets: seq<seq<byte>>, rest: seq<byte>, k: nat)
    requires index > 0 && Spells(APDU_COMMAND_TAG, index, packets, rest) && k <= |packets|
    ensures HearAllAnew(p, packets[..k]) == HearAll(p, packets[..k])
    decreases |packets|
  {
    if k > 0 {
      SliceOfTail(packets, k - 1);
      assert !StartsFrame(packets[0]);
      SameInsideFrame(Hear(p, packets[0]), index + 1, packets[1..], rest[|packets[0]| - 3..], k - 1);
    }
  }

  /** Whatever state it is in, such a device takes the packets of a command as an idle one does. */
  lemma FrameStartsAnew(p: Peer, payload: seq<byte>, mtu: nat, k: nat)
    requires |payload| <= U16_MAX && mtu >= 5
    requires 0 < k <= |Frame(APDU_COMMAND_TAG, payload, mtu).packets|
    ensures var ps := Frame(APDU_COMMAND_TAG, payload, mtu).packets;
            HearAllAnew(p, ps[..k]) == HearAll(Peer(Idle, p.heard), ps[..k])
  {
    var ps := Frame(APDU_COMMAND_TAG, payload, mtu).packets;
    var cut := FirstCut(|payload|, mtu);
    CounterOverflowsExactly(APDU_COMMAND_TAG, payload, mtu);
    FrameSpells(APDU_COMMAND_TAG, payload, mtu);
    FrameStarts(payload, mtu);
    SliceOfTail(ps, k - 1);
    SameInsideFrame(Hear(Peer(Idle, p.heard), ps[0]), 1, ps[1..], payload[cut..], k - 1);
  }

  /** What such a device makes of everything written from `l` to `l'`. */
  function AnewSince(p: Peer, l: Link, l': Link): Peer
    requires |l.delivered| <= |l'.delivered|
  {
    HearAllAnew(p, l'.delivered[|l.delivered|..])
  }

  /** All packets of the command arrive, whatever is reported of their writes. */
  predicate ArrivesWhole(l: Link, c: ApduCommand) {
    |ExchangeOn(l, c).link.delivered| == |l.delivered| + |PacketsFor(c.Serialized(), MtuInForce(l.mtu))|
  }

  lemma WrittenArrives(l: Link, c: ApduCommand)
    requires SessionMtu(l.mtu) && |c.Serialized()| <= U16_MAX && ExchangeOn(l, c).result != Err(WriteFailed)
    ensures ArrivesWhole(l, c)
  {
    var ps := PacketsFor(c.Serialized(), MtuInForce(l.mtu));
    PacketBound(APDU_COMMAND_TAG, c.Serialized(), MtuInForce(l.mtu));
    var k := WriteAllLands(l, ps);
    assert ExchangeOn(l, c).link.delivered == l.delivered + ps[..k];
  }

  /** The commands of a run that arrive whole. */
  function Arrived(l: Link, commands: seq<ApduCommand>): seq<ApduCommand>
    decreases |commands|
  {
    var n := |commands| - 1;
    if commands == [] then []
    else Arrived(l, commands[..n])
         + (if ArrivesWhole(After(l, commands[..n]), commands[n]) then [commands[n]] else [])
  }

  lemma AnewExchange(p: Peer, l: Link, c: ApduCommand)
    requires SessionMtu(l.mtu) && |c.Serialized()| <= U16_MAX
    ensures var l' := ExchangeOn(l, c).link;
            && l.delivered <= l'.delivered
            && AnewSince(p, l, l').heard == p.heard + (if ArrivesWhole(l, c) then [c.Serialized()] else [])
            && (ArrivesWhole(l, c) ==> AnewSince(p, l, l').assembler == Idle)
  {
    var ps := PacketsFor(c.Serialized(), MtuInForce(l.mtu));
    var k := ExchangeDelivers(l, c);
    DropPrefix(l.delivered, ps[..k]);
    assert ArrivesWhole(l, c) <==> k == |ps|;
    if k > 0 {
      FrameStartsAnew(p, c.Serialized(), MtuInForce(l.mtu), k);
      FrameIsHeard(p.heard, c.Serialized(), MtuInForce(l.mtu), k);
    }
  }

  lemma AnewChain(p: Peer, l: Link, m: Link, l': Link)
    requires l.delivered <= m.delivered <= l'.delivered
    ensures AnewSince(p, l, l') == AnewSince(AnewSince(p, l, m), m, l')
  {
    var a, b := m.delivered[|l.delivered|..], l'.delivered[|m.delivered|..];
    assert l'.delivered[|l.delivered|..] == a + b;
    HearAnewConcat(p, a, b);
  }

  /**
   * Over every link and from whatever state, such a device hears exactly the commands of a run that arrive
   * whole, so no failed write costs more than the commands it cut.
   */
  lemma {:induction false} AnewHearsWhatArrives(p: Peer, l: Link, commands: seq<ApduCommand>)
    requires SessionMtu(l.mtu) && Sendable(commands)
    ensures l.delivered <= After(l, commands).delivered
    ensures AnewSince(p, l, After(l, commands)).heard == p.heard + SerializedAll(Arrived(l, commands))
    decreases |commands|
  {
    if commands == [] {
      assert p.heard + SerializedAll(Arrived(l, commands)) == p.heard;
    } else {
      var n := |commands| - 1;
      var m, early := After(l, commands[..n]), Arrived(l, commands[..n]);
      AnewHearsWhatArrives(p, l, commands[..n]);
      SessionIsSafe(l, commands[..n]);
      AnewExchange(AnewSince(p, l, m), m, commands[n]);
      AnewChain(p, l, m, ExchangeOn(m, commands[n]).link);
      if ArrivesWhole(m, commands[n]) {
        SerializedSnoc(p.heard, early + [commands[n]]);
        assert (early + [commands[n]])[..|early|] == early;
      } else {
        assert early + [] == early;
      }
    }
  }
}
