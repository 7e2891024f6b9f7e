/** The sending side: how `send_framed` cuts a payload into packets. */
module Framing {
  import opened Bytes
  import opened Packets

  /** The packets written in order, and whether the `u16` sequence counter overflows after the last of them. */
  datatype Framed = Framed(packets: seq<seq<byte>>, overflow: bool)

  function Subsequents(tag: byte, rest: seq<byte>, width: nat, index: u16): Framed
    decreases 0x1_0000 - index, |rest|
  {
    if rest == [] then Framed([], false)
    else
      var cut := Min(width, |rest|);
      var packet := SubsequentPacket(tag, index, rest[..cut]).Encoded();
      if index == U16_MAX then Framed([packet], true)
      else
        var more := Subsequents(tag, rest[cut..], width, index + 1);
        Framed([packet] + more.packets, more.overflow)
  }

  function FirstCut(len: nat, mtu: nat): nat {
    Min(SaturatingSub(mtu, 5), len)
  }

  function Opening(tag: byte, payload: seq<byte>, mtu: nat): seq<byte>
    requires |payload| <= U16_MAX
  {
    InitialPacket(tag, |payload|, payload[..FirstCut(|payload|, mtu)]).Encoded()
  }

  function Frame(tag: byte, payload: seq<byte>, mtu: nat): Framed
    requires |payload| <= U16_MAX
  {
    var more := Subsequents(tag, payload[FirstCut(|payload|, mtu)..], SaturatingSub(mtu, 3), 1);
    Framed([Opening(tag, payload, mtu)] + more.packets, more.overflow)
  }

  /** Packets used when every packet is filled before the next is started. */
  function PacketCount(len: nat, mtu: nat): nat
    requires mtu >= 4
  {
    1 + CeilDiv(len - FirstCut(len, mtu), mtu - 3)
  }

  lemma {:induction false} SubsequentsCount(tag: byte, rest: seq<byte>, width: nat, index: u16)
    requires width > 0
    ensures var f := Subsequents(tag, rest, width, index);
            && (f.overflow <==> index + CeilDiv(|rest|, width) > U16_MAX)
            && (!f.overflow ==> |f.packets| == CeilDiv(|rest|, width))
    decreases |rest|
  {
    if rest == [] {
      CeilDivIsLeast(0, width, 0);
    } else {
      CeilDivStep(|rest|, width);
      if index < U16_MAX {
        SubsequentsCount(tag, rest[Min(width, |rest|)..], width, index + 1);
      }
    }
  }

  /** With no room for data the loop never advances, so only the counter stops it. */
  lemma {:induction false} NoRoomOverflows(tag: byte, rest: seq<byte>, index: u16)
    requires rest != []
    ensures Subsequents(tag, rest, 0, index).overflow
    decreases 0x1_0000 - index
  {
    if index < U16_MAX {
      assert rest[0..] == rest;
      NoRoomOverflows(tag, rest, index + 1);
    }
  }

  /** The counter survives exactly when the number of packets fits it. */
  lemma CounterSafeByCount(tag: byte, payload: seq<byte>, mtu: nat)
    requires |payload| <= U16_MAX && mtu >= 4
    ensures !Frame(tag, payload, mtu).overflow <==> PacketCount(|payload|, mtu) <= U16_MAX
    ensures !Frame(tag, payload, mtu).overflow ==> |Frame(tag, payload, mtu).packets| == PacketCount(|payload|, mtu)
  {
    SubsequentsCount(tag, payload[FirstCut(|payload|, mtu)..], mtu - 3, 1);
  }

  /**
   * Which calls of `send_framed` overflow the sequence counter, over every MTU and every payload past the size
   * guard.
   */
  lemma CounterOverflowsExactly(tag: byte, payload: seq<byte>, mtu: nat)
    requires |payload| <= U16_MAX
    ensures Frame(tag, payload, mtu).overflow <==>
            (mtu <= 3 && payload != []) || (mtu == 4 && |payload| == U16_MAX)
  {
    if mtu <= 3 {
      if payload != [] {
        assert payload[0..] == payload;
        NoRoomOverflows(tag, payload, 1);
      }
    } else {
      CounterSafeByCount(tag, payload, mtu);
      if mtu >= 5 {
        CeilDivBound(|payload| - FirstCut(|payload|, mtu), mtu - 3, 2, 32768);
      }
    }
  }

  /** At any MTU a session can hold, at most 21846 packets are written and the counter is far from its limit. */
  lemma PacketBound(tag: byte, payload: seq<byte>, mtu: nat)
    requires |payload| <= U16_MAX && mtu >= 6
    ensures !Frame(tag, payload, mtu).overflow
    ensures |Frame(tag, payload, mtu).packets| == PacketCount(|payload|, mtu) <= 21846
  {
    CounterOverflowsExactly(tag, payload, mtu);
    CounterSafeByCount(tag, payload, mtu);
    CeilDivBound(|payload| - FirstCut(|payload|, mtu), mtu - 3, 3, 21845);
  }

  /** The bound is reached by the largest payload at the smallest session MTU. */
  lemma PacketBoundIsTight(tag: byte, payload: seq<byte>)
    requires |payload| == U16_MAX
    ensures |Frame(tag, payload, 6).packets| == 21846
  {
    PacketBound(tag, payload, 6);
  }

  /** Packets numbered from `index` that carry `rest` between them, each at least one byte of it. */
  ghost predicate Spells(tag: byte, index: nat, packets: seq<seq<byte>>, rest: seq<byte>)
    decreases |packets|
  {
    if packets == [] then rest == []
    else
      && |packets[0]| > 3 && packets[0][0] == tag
      && FromU16Be(packets[0][1], packets[0][2]) == index
      && packets[0][3..] <= rest
      && Spells(tag, index + 1, packets[1..], rest[|packets[0]| - 3..])
  }

  lemma {:induction false} SubsequentsSpell(tag: byte, rest: seq<byte>, width: nat, index: u16)
    requires rest != [] ==> width > 0
    requires !Subsequents(tag, rest, width, index).overflow
    ensures Spells(tag, index, Subsequents(tag, rest, width, index).packets, rest)
    decreases |rest|
  {
    if rest != [] {
      var cut := Min(width, |rest|);
      SubsequentsSpell(tag, rest[cut..], width, index + 1);
      var packet := SubsequentPacket(tag, index, rest[..cut]).Encoded();
      assert packet[3..] == rest[..cut];
      U16RoundTrip(index);
    }
  }

  /** A packet in the initial format: sequence 0, the total length, the first piece. */
  predicate IsInitial(tag: byte, raw: seq<byte>, total: nat, piece: seq<byte>) {
    && |raw| >= 5 && raw[0] == tag
    && FromU16Be(raw[1], raw[2]) == 0
    && FromU16Be(raw[3], raw[4]) == total
    && raw[5..] == piece
  }

  lemma EncodedIsInitial(p: InitialPacket)
    ensures IsInitial(p.tag, p.Encoded(), p.dataLength, p.payload)
  {
    InitialPacketRoundTrip(p, p.Encoded());
    assert p.Encoded()[5..] == p.payload;
  }

  /** The documented format: an initial packet with the first `cut` bytes, then numbered packets with the others. */
  ghost predicate SpellsFrame(tag: byte, packets: seq<seq<byte>>, payload: seq<byte>, cut: nat) {
    && packets != [] && cut <= |payload| <= U16_MAX
    && IsInitial(tag, packets[0], |payload|, payload[..cut])
    && Spells(tag, 1, packets[1..], payload[cut..])
  }

  /** Whenever `send_framed` completes, what it wrote is in the documented format. */
  lemma FrameSpells(tag: byte, payload: seq<byte>, mtu: nat)
    requires |payload| <= U16_MAX && !Frame(tag, payload, mtu).overflow
    ensures SpellsFrame(tag, Frame(tag, payload, mtu).packets, payload, FirstCut(|payload|, mtu))
  {
    var cut := FirstCut(|payload|, mtu);
    assert payload[cut..] != [] ==> SaturatingSub(mtu, 3) > 0 by {
      CounterOverflowsExactly(tag, payload, mtu);
    }
    SubsequentsSpell(tag, payload[cut..], SaturatingSub(mtu, 3), 1);
    EncodedIsInitial(InitialPacket(tag, |payload|, payload[..cut]));
  }

  lemma {:induction false} SubsequentSizes(tag: byte, rest: seq<byte>, width: nat, index: u16)
    requires width > 0
    ensures var ps := Subsequents(tag, rest, width, index).packets;
            && (forall i | 0 <= i < |ps| :: 3 < |ps[i]| <= width + 3)
            && (forall i | 0 <= i < |ps| - 1 :: |ps[i]| == width + 3)
    ensures |rest| > 0 ==> |Subsequents(tag, rest, width, index).packets| > 0
    decreases |rest|
  {
    if rest != [] && index < U16_MAX {
      var cut := Min(width, |rest|);
      SubsequentSizes(tag, rest[cut..], width, index + 1);
      var ps := Subsequents(tag, rest, width, index).packets;
      var more := Subsequents(tag, rest[cut..], width, index + 1).packets;
      forall i | 0 < i < |ps| ensures ps[i] == more[i - 1] {
      }
    }
  }

  /** Packets never exceed the MTU and all but the last fill it. */
  lemma PacketSizes(tag: byte, payload: seq<byte>, mtu: nat)
    requires |payload| <= U16_MAX && mtu >= 5
    ensures var ps := Frame(tag, payload, mtu).packets;
            && (forall i | 0 <= i < |ps| :: |ps[i]| <= mtu)
            && (forall i | 0 <= i < |ps| - 1 :: |ps[i]| == mtu)
  {
    var cut := FirstCut(|payload|, mtu);
    SubsequentSizes(tag, payload[cut..], mtu - 3, 1);
    var ps, more := Frame(tag, payload, mtu).packets, Subsequents(tag, payload[cut..], mtu - 3, 1).packets;
    forall i | 0 < i < |ps| ensures ps[i] == more[i - 1] {
    }
  }

  /** Any other way to carry a payload: a first piece beside a 5-byte header, further pieces beside 3-byte headers. */
  ghost predicate Carriage(pieces: seq<seq<byte>>, payload: seq<byte>, mtu: nat) {
    && pieces != []
    && Flatten(pieces) == payload
    && |pieces[0]| + 5 <= mtu
    && forall i | 1 <= i < |pieces| :: |pieces[i]| + 3 <= mtu
  }

  lemma {:induction false} FlattenBound(pieces: seq<seq<byte>>, width: nat)
    requires forall i | 0 <= i < |pieces| :: |pieces[i]| <= width
    ensures |Flatten(pieces)| <= |pieces| * width
  {
    if pieces != [] {
      FlattenBound(pieces[1..], width);
      assert |pieces| * width == (|pieces| - 1) * width + width;
    }
  }

  /** Filling every packet is optimal: nothing carries the payload in fewer packets. */
  lemma GreedyIsOptimal(tag: byte, payload: seq<byte>, mtu: nat, pieces: seq<seq<byte>>)
    requires |payload| <= U16_MAX
    requires Carriage(pieces, payload, mtu)
    ensures |Frame(tag, payload, mtu).packets| <= |pieces|
  {
    CounterOverflowsExactly(tag, payload, mtu);
    CounterSafeByCount(tag, payload, mtu);
    var w, k, left := mtu - 3, |pieces| - 1, |payload| - FirstCut(|payload|, mtu);
    assert left <= k * w by {
      FlattenBound(pieces[1..], w);
      assert payload == pieces[0] + Flatten(pieces[1..]);
    }
    CeilDivIsLeast(left, w, k);
  }
}
