/** Sending and receiving put together, with other traffic in between. */
module RoundTrip {
  import opened Wrappers
  import opened Bytes
  import opened Packets
  import opened Framing
  import opened Receiving

  /** The packets as notifications, each preceded by some others. */
  function Interleave(noise: seq<seq<Event>>, packets: seq<seq<byte>>): seq<Event>
    requires |noise| == |packets|
  {
    if packets == [] then []
    else noise[0] + [Data(packets[0])] + Interleave(noise[1..], packets[1..])
  }

  /** Foreign packets that may stand inside a frame. */
  predicate Tolerated(tag: byte, es: seq<Event>) {
    AllForeign(tag, es) && AllWellFormed(es)
  }

  predicate AllTolerated(tag: byte, noise: seq<seq<Event>>) {
    noise == [] || (Tolerated(tag, noise[0]) && AllTolerated(tag, noise[1..]))
  }

  /** Noise before a frame need only be non-empty; noise inside it must be long enough to parse. */
  predicate Admissible(tag: byte, noise: seq<seq<Event>>) {
    && noise != []
    && AllForeign(tag, noise[0])
    && AllTolerated(tag, noise[1..])
  }

  lemma {:induction false} ForeignCarryNothing(tag: byte, es: seq<Event>)
    requires Tolerated(tag, es)
    ensures Payloads(tag, es) == []
    decreases |es|
  {
    if es != [] {
      assert Foreign(tag, es[0]);
      ForeignCarryNothing(tag, es[1..]);
    }
  }

  lemma {:induction false} InterleaveStep(noise: seq<seq<Event>>, packets: seq<seq<byte>>, more: seq<Event>)
    requires |noise| == |packets| > 0
    ensures Interleave(noise, packets) + more
         == noise[0] + [Data(packets[0])] + (Interleave(noise[1..], packets[1..]) + more)
  {
  }

  /** One packet, with tolerated noise before it. */
  lemma {:induction false} CollectNoisyPacket(
    tag: byte, total: nat, buffer: seq<byte>, noise: seq<Event>, packet: seq<byte>, after: seq<Event>)
    requires |buffer| < total && Tolerated(tag, noise)
    requires |packet| >= 3 && packet[0] == tag
    ensures Collect(tag, total, buffer, noise + [Data(packet)] + after)
         == Collect(tag, total, buffer + packet[3..], after)
  {
    var stream := [Data(packet)] + after;
    assert noise + [Data(packet)] + after == noise + stream;
    ForeignCarryNothing(tag, noise);
    if noise != [] {
      ForeignCarryNothing(tag, noise[..|noise| - 1]);
    }
    assert buffer + [] == buffer;
    CollectAbsorbs(tag, total, buffer, noise, stream);
    assert stream[1..] == after;
    CollectStep(tag, total, buffer, stream);
  }

  lemma {:induction false} CollectNoisy(
    tag: byte, total: nat, buffer: seq<byte>, rest: seq<byte>, index: nat, noise: seq<seq<Event>>,
    packets: seq<seq<byte>>, more: seq<Event>)
    requires Spells(tag, index, packets, rest) && total == |buffer| + |rest|
    requires |noise| == |packets| && AllTolerated(tag, noise)
    ensures Collect(tag, total, buffer, Interleave(noise, packets) + more) == Received(Ok(buffer + rest), more)
    decreases |packets|
  {
    if packets == [] {
      assert Interleave(noise, packets) + more == more;
      assert buffer + rest == buffer == buffer[..total];
    } else {
      var piece := packets[0][3..];
      InterleaveStep(noise, packets, more);
      CollectNoisyPacket(tag, total, buffer, noise[0], packets[0], Interleave(noise[1..], packets[1..]) + more);
      CollectNoisy(tag, total, buffer + piece, rest[|piece|..], index + 1, noise[1..], packets[1..], more);
      assert piece + rest[|piece|..] == rest;
      Assoc(buffer, piece, rest[|piece|..]);
    }
  }

  /** The opening packet, with foreign packets before it, enters the collecting loop with the bytes it carries. */
  lemma {:induction false} ReceiveNoisyOpening(
    tag: byte, raw: seq<byte>, total: nat, piece: seq<byte>, noise: seq<Event>, after: seq<Event>)
    requires IsInitial(tag, raw, total, piece) && AllForeign(tag, noise)
    ensures Receive(tag, noise + [Data(raw)] + after) == Collect(tag, total, piece, after)
  {
    var stream := [Data(raw)] + after;
    assert noise + [Data(raw)] + after == noise + stream;
    AwaitSkips(tag, noise, stream);
    assert stream[1..] == after;
  }

  /**
   * Any frame in the documented format comes back unchanged, whatever admissible traffic stands between its
   * packets.
   */
  lemma {:induction false} SpelledRoundTrip(
    tag: byte, payload: seq<byte>, cut: nat, packets: seq<seq<byte>>, noise: seq<seq<Event>>, more: seq<Event>)
    requires SpellsFrame(tag, packets, payload, cut)
    requires |noise| == |packets| && Admissible(tag, noise)
    ensures Receive(tag, Interleave(noise, packets) + more) == Received(Ok(payload), more)
  {
    InterleaveStep(noise, packets, more);
    ReceiveNoisyOpening(tag, packets[0], |payload|, payload[..cut], noise[0],
                        Interleave(noise[1..], packets[1..]) + more);
    CollectNoisy(tag, |payload|, payload[..cut], payload[cut..], 1, noise[1..], packets[1..], more);
    assert payload[..cut] + payload[cut..] == payload;
  }

  /**
   * The noisy round trip: wherever the sender itself completes, the receiver returns exactly its payload
   * and leaves the events after its last packet unread.
   */
  lemma {:induction false} NoisyRoundTrip(
    tag: byte, payload: seq<byte>, mtu: nat, noise: seq<seq<Event>>, more: seq<Event>)
    requires |payload| <= U16_MAX
    requires !Frame(tag, payload, mtu).overflow
    requires |noise| == |Frame(tag, payload, mtu).packets| && Admissible(tag, noise)
    ensures Receive(tag, Interleave(noise, Frame(tag, payload, mtu).packets) + more) == Received(Ok(payload), more)
  {
    FrameSpells(tag, payload, mtu);
    SpelledRoundTrip(tag, payload, FirstCut(|payload|, mtu), Frame(tag, payload, mtu).packets, noise, more);
  }

  /** Such a stream is one frame in the sense of the receiver's characterisation, however the sender cut it. */
  lemma {:induction false} SpelledFrameCarries(
    tag: byte, payload: seq<byte>, cut: nat, packets: seq<seq<byte>>, noise: seq<seq<Event>>)
    requires SpellsFrame(tag, packets, payload, cut)
    requires |noise| == |packets| && Admissible(tag, noise)
    ensures Carries(tag, Interleave(noise, packets), payload)
  {
    var events := Interleave(noise, packets);
    SpelledRoundTrip(tag, payload, cut, packets, noise, []);
    assert events + [] == events;
    ReceivesExactlyFrames(tag, events, payload, []);
    var seen :| events == seen + [] && Carries(tag, seen, payload);
    assert seen == events;
  }
}
