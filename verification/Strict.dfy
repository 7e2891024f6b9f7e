/**
 * The documented framing protocol, enforced to the letter: packets of a frame are numbered 0, 1, 2, ...
 * and carry exactly the declared number of bytes. The device end of the link and the reference receiver use it.
 */
module Strict {
  import opened Wrappers
  import opened Bytes
  import opened Packets
  import opened Framing
  import opened Receiving

  datatype Assembler =
    | Idle
    | Partial(total: nat, next: nat, buffer: seq<byte>)
    | Complete(frame: seq<byte>)
    | Broken

  function Settle(total: nat, next: nat, buffer: seq<byte>): Assembler {
    if |buffer| < total then Partial(total, next, buffer)
    else if |buffer| == total then Complete(buffer)
    else Broken
  }

  /** One packet. Packets of another tag are passed over, as long as they are long enough to be packets at all. */
  function Feed(tag: byte, a: Assembler, raw: seq<byte>): Assembler {
    match a
    case Idle =>
      if raw == [] then Broken
      else if raw[0] != tag then Idle
      else if |raw| < 5 || FromU16Be(raw[1], raw[2]) != 0 then Broken
      else Settle(FromU16Be(raw[3], raw[4]), 1, raw[5..])
    case Partial(total, next, buffer) =>
      if |raw| < 3 then Broken
      else if raw[0] != tag then a
      else if FromU16Be(raw[1], raw[2]) != next then Broken
      else Settle(total, next + 1, buffer + raw[3..])
    case Complete(_) => a
    case Broken => a
  }

  /** Reads a stream strictly until a frame is complete; gives the frame and the events left. */
  function StrictReceive(tag: byte, a: Assembler, inbox: seq<Event>): Option<(seq<byte>, seq<Event>)>
    decreases |inbox|
  {
    match a
    case Complete(frame) => Some((frame, inbox))
    case Broken => None
    case _ =>
      if inbox == [] || inbox[0].TimedOut? then None
      else StrictReceive(tag, Feed(tag, a, inbox[0].value), inbox[1..])
  }

  /** The packets of `tag` among `seen` are numbered `next`, `next + 1`, ... */
  predicate Numbered(tag: byte, seen: seq<Event>, next: nat) {
    if seen == [] then true
    else if Foreign(tag, seen[0]) then Numbered(tag, seen[1..], next)
    else
      && WellFormed(seen[0])
      && FromU16Be(seen[0].value[1], seen[0].value[2]) == next
      && Numbered(tag, seen[1..], next + 1)
  }

  /** Bytes carried by the packets of `tag` among `seen`; the first has the longer header unless a frame is open. */
  function Load(tag: byte, seen: seq<Event>, inside: bool): int {
    if seen == [] then 0
    else if Foreign(tag, seen[0]) || seen[0].TimedOut? then Load(tag, seen[1..], inside)
    else |seen[0].value| - (if inside then 3 else 5) + Load(tag, seen[1..], true)
  }

  /** The events a receive consumed. */
  function Consumed(inbox: seq<Event>, rest: seq<Event>): seq<Event> {
    if |rest| <= |inbox| then inbox[..|inbox| - |rest|] else []
  }

  /** What the strict reader asks beyond the lenient one. */
  predicate Exact(tag: byte, seen: seq<Event>, b: seq<byte>) {
    Numbered(tag, seen, 0) && Load(tag, seen, false) == |b|
  }

  lemma {:induction false} CollectConsumes(tag: byte, total: nat, buffer: seq<byte>, inbox: seq<Event>)
    ensures |Collect(tag, total, buffer, inbox).rest| <= |inbox|
    decreases |inbox|
  {
    if |buffer| < total && inbox != [] && WellFormed(inbox[0]) {
      CollectStep(tag, total, buffer, inbox);
      CollectConsumes(tag, total, buffer + PayloadOf(tag, inbox[0]), inbox[1..]);
    }
  }

  lemma ConsumedStep(inbox: seq<Event>, rest: seq<Event>)
    requires inbox != [] && |rest| < |inbox|
    ensures var seen := Consumed(inbox, rest);
            seen != [] && seen[0] == inbox[0] && seen[1..] == Consumed(inbox[1..], rest)
  {
  }

  /** The lenient loop ends with `b` and `rest`, and what it read meets the strict reader's further demands. */
  predicate CollectsExactly(
    tag: byte, total: nat, next: nat, buffer: seq<byte>, inbox: seq<Event>, b: seq<byte>, rest: seq<Event>) {
    && Collect(tag, total, buffer, inbox) == Received(Ok(b), rest)
    && Numbered(tag, Consumed(inbox, rest), next)
    && |buffer| + Load(tag, Consumed(inbox, rest), true) == |b|
  }

  lemma ExactForeign(
    tag: byte, total: nat, next: nat, buffer: seq<byte>, inbox: seq<Event>, b: seq<byte>, rest: seq<Event>)
    requires |buffer| < total && inbox != [] && WellFormed(inbox[0]) && Foreign(tag, inbox[0])
    ensures CollectsExactly(tag, total, next, buffer, inbox, b, rest)
       <==> CollectsExactly(tag, total, next, buffer, inbox[1..], b, rest)
  {
    CollectStep(tag, total, buffer, inbox);
    assert buffer + [] == buffer;
    CollectConsumes(tag, total, buffer, inbox[1..]);
    if |rest| < |inbox| {
      ConsumedStep(inbox, rest);
    }
  }

  lemma ExactPacket(
    tag: byte, total: nat, next: nat, buffer: seq<byte>, inbox: seq<Event>, b: seq<byte>, rest: seq<Event>)
    requires |buffer| < total && inbox != [] && WellFormed(inbox[0]) && inbox[0].value[0] == tag
    ensures CollectsExactly(tag, total, next, buffer, inbox, b, rest)
       <==> && FromU16Be(inbox[0].value[1], inbox[0].value[2]) == next
            && CollectsExactly(tag, total, next + 1, buffer + inbox[0].value[3..], inbox[1..], b, rest)
  {
    CollectStep(tag, total, buffer, inbox);
    CollectConsumes(tag, total, buffer + PayloadOf(tag, inbox[0]), inbox[1..]);
    if |rest| < |inbox| {
      ConsumedStep(inbox, rest);
    }
  }

  lemma ExactEnd(tag: byte, total: nat, next: nat, buffer: seq<byte>, inbox: seq<Event>, b: seq<byte>, rest: seq<Event>)
    requires |buffer| >= total
    ensures CollectsExactly(tag, total, next, buffer, inbox, b, rest)
       <==> |buffer| == total && b == buffer && rest == inbox
  {
    assert Consumed(inbox, inbox) == [];
    assert |buffer| == total ==> buffer[..total] == buffer;
  }

  /** Inside a frame, strict and lenient reading differ only by numbering and overshoot. */
  lemma {:induction false} StrictCollect(
    tag: byte, total: nat, next: nat, buffer: seq<byte>, inbox: seq<Event>, b: seq<byte>, rest: seq<Event>)
    ensures StrictReceive(tag, Settle(total, next, buffer), inbox) == Some((b, rest))
       <==> CollectsExactly(tag, total, next, buffer, inbox, b, rest)
    decreases |inbox|
  {
    if |buffer| >= total {
      ExactEnd(tag, total, next, buffer, inbox, b, rest);
    } else if inbox != [] && WellFormed(inbox[0]) {
      var v := inbox[0].value;
      if v[0] == tag {
        ExactPacket(tag, total, next, buffer, inbox, b, rest);
        StrictCollect(tag, total, next + 1, buffer + v[3..], inbox[1..], b, rest);
      } else {
        ExactForeign(tag, total, next, buffer, inbox, b, rest);
        StrictCollect(tag, total, next, buffer, inbox[1..], b, rest);
      }
    }
  }

  lemma ReceiveConsumes(tag: byte, inbox: seq<Event>)
    ensures |Receive(tag, inbox).rest| <= |inbox|
  {
    var first := AwaitFirst(tag, inbox);
    if first.result.Ok? && |first.result.value| >= 5 {
      var p := InitialPacket.TryFrom(first.result.value).value;
      CollectConsumes(tag, p.dataLength, p.payload, first.rest);
    }
  }

  /**
   * Lenient refines strict, exactly: the strict reader accepts a frame precisely when `recv_framed` returns it
   * and the packets read were numbered 0, 1, 2, ... and held no byte beyond the declared length.
   */
  lemma {:induction false} StrictIsExactLenient(tag: byte, inbox: seq<Event>, b: seq<byte>, rest: seq<Event>)
    ensures StrictReceive(tag, Idle, inbox) == Some((b, rest))
       <==> Receive(tag, inbox) == Received(Ok(b), rest) && Exact(tag, Consumed(inbox, rest), b)
    decreases |inbox|
  {
    if inbox != [] && Foreign(tag, inbox[0]) {
      ReceiveConsumes(tag, inbox[1..]);
      if |rest| < |inbox| {
        ConsumedStep(inbox, rest);
      }
      StrictIsExactLenient(tag, inbox[1..], b, rest);
    } else if inbox != [] && Opens(tag, inbox[0]) {
      var total, first := DeclaredLength(inbox[0]), inbox[0].value[5..];
      CollectConsumes(tag, total, first, inbox[1..]);
      if |rest| < |inbox| {
        ConsumedStep(inbox, rest);
      }
      StrictCollect(tag, total, 1, first, inbox[1..], b, rest);
    }
  }

  // ---------------------------------------------------------------- the device end of the link

  /** A peer that reassembles strictly the packets written to it, and keeps the frames it heard. */
  datatype Peer = Peer(assembler: Assembler, heard: seq<seq<byte>>)

  function Hear(p: Peer, raw: seq<byte>): Peer {
    match Feed(APDU_COMMAND_TAG, p.assembler, raw)
    case Complete(frame) => Peer(Idle, p.heard + [frame])
    case a => Peer(a, p.heard)
  }

  function HearAll(p: Peer, packets: seq<seq<byte>>): Peer
    decreases |packets|
  {
    if packets == [] then p else HearAll(Hear(p, packets[0]), packets[1..])
  }

  lemma {:induction false} HearConcat(p: Peer, a: seq<seq<byte>>, b: seq<seq<byte>>)
    ensures HearAll(p, a + b) == HearAll(HearAll(p, a), b)
    decreases |a|
  {
    if a == [] {
      assert a + b == b;
    } else {
      TailOfConcat(a, b);
      HearConcat(Hear(p, a[0]), a[1..], b);
    }
  }

  lemma {:induction false} HearFirst(p: Peer, packets: seq<seq<byte>>, k: nat)
    requires 0 < k <= |packets|
    ensures HearAll(p, packets[..k]) == HearAll(Hear(p, packets[0]), packets[1..][..k - 1])
  {
    assert packets[..k][1..] == packets[1..][..k - 1];
  }

  /** Waiting for a packet other than the first of a frame. */
  predicate MidFrame(a: Assembler) {
    a.Partial? && a.next > 0
  }

  /** Any first packets of a frame leave the peer waiting, with nothing new heard; all of them deliver the frame. */
  lemma {:induction false} HearSpelled(
    h: seq<seq<byte>>, buffer: seq<byte>, rest: seq<byte>, index: nat, packets: seq<seq<byte>>, k: nat)
    requires packets != [] && index > 0 && Spells(APDU_COMMAND_TAG, index, packets, rest) && k <= |packets|
    ensures var p := HearAll(Peer(Partial(|buffer| + |rest|, index, buffer), h), packets[..k]);
            if k == |packets| then p == Peer(Idle, h + [buffer + rest])
            else MidFrame(p.assembler) && p.heard == h
    decreases |packets|
  {
    if k > 0 {
      var piece, left := packets[0][3..], rest[|packets[0]| - 3..];
      assert piece + left == rest;
      Assoc(buffer, piece, left);
      HearFirst(Peer(Partial(|buffer| + |rest|, index, buffer), h), packets, k);
      if packets[1..] == [] {
        assert left == [] && buffer + piece == buffer + rest;
      } else {
        assert |packets[1]| > 3 && left != [];
        HearSpelled(h, buffer + piece, left, index + 1, packets[1..], k - 1);
      }
    }
  }

  /** A frame in the documented format is heard once, at its last packet, and byte for byte. */
  lemma SpelledFrameIsHeard(h: seq<seq<byte>>, packets: seq<seq<byte>>, payload: seq<byte>, cut: nat, k: nat)
    requires SpellsFrame(APDU_COMMAND_TAG, packets, payload, cut) && k <= |packets|
    ensures var p := HearAll(Peer(Idle, h), packets[..k]);
            && (k == |packets| ==> p == Peer(Idle, h + [payload]))
            && (k == 0 ==> p == Peer(Idle, h))
            && (0 < k < |packets| ==> p.heard == h && MidFrame(p.assembler))
  {
    if k > 0 {
      var more := packets[1..];
      HearFirst(Peer(Idle, h), packets, k);
      assert payload[..|payload|] == payload;
      assert more == [] <==> cut == |payload|;
      if more != [] {
        HearSpelled(h, payload[..cut], payload[cut..], 1, more, k - 1);
        assert payload[..cut] + payload[cut..] == payload;
      }
    }
  }

  /** So is what `send_framed` writes, at any MTU that leaves room for data. */
  lemma FrameIsHeard(h: seq<seq<byte>>, payload: seq<byte>, mtu: nat, k: nat)
    requires |payload| <= U16_MAX && mtu >= 5
    requires k <= |Frame(APDU_COMMAND_TAG, payload, mtu).packets|
    ensures var ps := Frame(APDU_COMMAND_TAG, payload, mtu).packets;
            var p := HearAll(Peer(Idle, h), ps[..k]);
            && (k == |ps| ==> p == Peer(Idle, h + [payload]))
            && (k == 0 ==> p == Peer(Idle, h))
            && (0 < k < |ps| ==> p.heard == h && MidFrame(p.assembler))
  {
    CounterOverflowsExactly(APDU_COMMAND_TAG, payload, mtu);
    FrameSpells(APDU_COMMAND_TAG, payload, mtu);
    SpelledFrameIsHeard(h, Frame(APDU_COMMAND_TAG, payload, mtu).packets, payload, FirstCut(|payload|, mtu), k);
  }
}
