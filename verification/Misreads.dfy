/** How answers are misread once an exchange has failed, and that a caller can rule it out by nothing else. */
module Misreads {
  import opened Wrappers
  import opened Bytes
  import opened Packets
  import opened Framing
  import opened Receiving
  import opened Strict
  import opened Noise
  import opened Apdu
  import opened Links
  import opened Pairing
  import opened Turns

  // ---------------------------------------------------------------- the next command gets the answer

  /** A write that arrived but was reported as failed: the device hears `c`, and its answer is returned for `d`. */
  lemma UnacknowledgedIsMisread(
    l: Link, h: seq<seq<byte>>, c: ApduCommand, d: ApduCommand, frame: seq<Event>, answer: seq<byte>,
    fates: seq<WriteFate>, rest: seq<Event>)
    requires SessionMtu(l.mtu) && |c.Serialized()| <= U16_MAX && |d.Serialized()| <= U16_MAX
    requires Carries(APDU_COMMAND_TAG, frame, answer)
    requires l.fates == seq(|PacketsFor(c.Serialized(), MtuInForce(l.mtu))| - 1, _ => Acked) + [Unacked]
                        + (seq(|PacketsFor(d.Serialized(), MtuInForce(l.mtu))|, _ => Acked) + fates)
    requires l.inbox == frame + rest
    ensures ExchangeOn(l, c).result == Err(WriteFailed)
    ensures l.delivered <= ExchangeOn(l, c).link.delivered
    ensures HeardSince(h, l, ExchangeOn(l, c).link) == Peer(Idle, h + [c.Serialized()])
    ensures ExchangeOn(ExchangeOn(l, c).link, d).result == ApduAnswer.FromAnswer(answer)
  {
    var mtu := MtuInForce(l.mtu);
    var ps, qs := PacketsFor(c.Serialized(), mtu), PacketsFor(d.Serialized(), mtu);
    var turn, next := Cut(|ps| - 1, Unacked), Told(frame, answer);
    PacketBound(APDU_COMMAND_TAG, c.Serialized(), mtu);
    assert [] + l.inbox == l.inbox;
    ExchangeTakesTurn(l, c, turn, FatesOf(next, qs) + fates, l.inbox);
    var m := ExchangeOn(l, c).link;
    assert m.history[|m.history| - 1] == Step(c, Err(WriteFailed));
    ExchangeKeeps(l, c);
    DropPrefix(l.delivered, ps[..|ps|]);
    TurnIsHeard(h, c, turn, mtu);
    ExchangeTakesTurn(m, d, next, fates, rest);
    var m' := ExchangeOn(m, d).link;
    assert m'.history[|m'.history| - 1] == Step(d, ApduAnswer.FromAnswer(answer));
    ExchangeKeeps(m, d);
  }

  /**
   * A receive that fails before the frame of its answer begins, at a timeout or at a malformed notification:
   * the answer is returned for the next command.
   */
  lemma LateFrameIsMisread(
    l: Link, c: ApduCommand, d: ApduCommand, seen: seq<Event>, error: TransportError, frame: seq<Event>,
    answer: seq<byte>, fates: seq<WriteFate>, rest: seq<Event>)
    requires SessionMtu(l.mtu) && |c.Serialized()| <= U16_MAX && |d.Serialized()| <= U16_MAX
    requires BreaksOff(APDU_COMMAND_TAG, seen, error) && Carries(APDU_COMMAND_TAG, frame, answer)
    requires l.fates == seq(|PacketsFor(c.Serialized(), MtuInForce(l.mtu))|, _ => Acked)
                        + (seq(|PacketsFor(d.Serialized(), MtuInForce(l.mtu))|, _ => Acked) + fates)
    requires l.inbox == seen + (frame + rest)
    ensures ExchangeOn(l, c).result == Err(error)
    ensures ExchangeOn(ExchangeOn(l, c).link, d).result == ApduAnswer.FromAnswer(answer)
  {
    var mtu := MtuInForce(l.mtu);
    var turn, next := Failed(seen, error), Told(frame, answer);
    ExchangeTakesTurn(l, c, turn, FatesOf(next, PacketsFor(d.Serialized(), mtu)) + fates, frame + rest);
    var m := ExchangeOn(l, c).link;
    assert m.history[|m.history| - 1] == Step(c, Err(error));
    ExchangeKeeps(l, c);
    ExchangeTakesTurn(m, d, next, fates, rest);
    var m' := ExchangeOn(m, d).link;
    assert m'.history[|m'.history| - 1] == Step(d, ApduAnswer.FromAnswer(answer));
    ExchangeKeeps(m, d);
  }

  /** An empty notification is enough, with no timeout at all. */
  lemma NothingIsEnough()
    ensures BreaksOff(APDU_COMMAND_TAG, [Data([])], InvalidPacket) && Readable([Data([])]) == []
    ensures BreaksOff(APDU_COMMAND_TAG, [TimedOut], Timeout) && Readable([TimedOut]) == []
  {
    var nothing, late := [Data([])], [TimedOut];
    assert FailsAt(APDU_COMMAND_TAG, nothing, 0, false, InvalidPacket, []);
    assert FailsAt(APDU_COMMAND_TAG, late, 0, false, Timeout, []);
    assert nothing[1..] == [] && late[1..] == [];
  }

  // ---------------------------------------------------------------- failures inside a frame

  lemma {:induction false} PrefixUnfinished(tag: byte, skipped: seq<Event>, opening: Event, tail: seq<Event>, k: nat)
    requires Unfinished(tag, skipped, opening, tail) && k <= |tail|
    ensures Unfinished(tag, skipped, opening, tail[..k])
    decreases |tail|
  {
    if k < |tail| {
      ShorterIsUnfinished(tag, skipped, opening, tail);
      PrefixUnfinished(tag, skipped, opening, tail[..|tail| - 1], k);
      assert tail[..|tail| - 1][..k] == tail[..k];
    } else {
      assert tail[..k] == tail;
    }
  }

  /** Every proper beginning of a frame is pending. */
  lemma FramePrefixIsPending(tag: byte, frame: seq<Event>, b: seq<byte>, k: nat)
    requires Carries(tag, frame, b) && k < |frame|
    ensures exists inside :: Pending(tag, frame[..k], inside)
  {
    var skipped, opening, tail :| frame == skipped + [opening] + tail && FrameOf(tag, skipped, opening, tail, b);
    if k <= |skipped| {
      assert frame[..k] == skipped[..k];
      assert Pending(tag, frame[..k], false);
    } else {
      var m := k - |skipped| - 1;
      PrefixUnfinished(tag, skipped, opening, tail[..|tail| - 1], m);
      assert tail[..|tail| - 1][..m] == tail[..m];
      assert frame[..k] == skipped + [opening] + tail[..m];
      assert Pending(tag, frame[..k], true);
    }
  }

  /** The error by which a receive that meets an unreadable event fails. */
  function ErrorOf(noise: Event): TransportError {
    if noise.TimedOut? then Timeout else InvalidPacket
  }

  /**
   * An unreadable event inside a frame leaves the rest of that frame to be read as if it were the beginning of
   * one, unless it is a foreign notification before the opening packet.
   */
  lemma CutFrameIsLeft(tag: byte, frame: seq<Event>, b: seq<byte>, k: nat, noise: Event, rest: seq<Event>)
    requires Carries(tag, frame, b) && k < |frame| && !WellFormed(noise)
    requires !(Foreign(tag, noise) && AllForeign(tag, frame[..k]))
    ensures Receive(tag, frame[..k] + [noise] + (frame[k..] + rest)) == Received(Err(ErrorOf(noise)), frame[k..] + rest)
  {
    var inbox := frame[..k] + [noise] + (frame[k..] + rest);
    FramePrefixIsPending(tag, frame, b, k);
    var inside :| Pending(tag, frame[..k], inside);
    assert inbox[..k] == frame[..k] && inbox[k] == noise && inbox[k + 1..] == frame[k..] + rest;
    assert FailsAt(tag, inbox, k, inside, ErrorOf(noise), frame[k..] + rest);
    BrokenFrameFails(tag, inbox, k, inside, ErrorOf(noise), frame[k..] + rest);
  }

  /** Two packets that together are one frame. */
  predicate Joined(tag: byte, e: Event, f: Event) {
    && Opens(tag, e) && WellFormed(f) && f.value[0] == tag
    && |e.value| - 5 < DeclaredLength(e) == |e.value| + |f.value| - 8
  }

  /** A packet that is a frame. */
  predicate Lone(tag: byte, f: Event) {
    Opens(tag, f) && DeclaredLength(f) == |f.value| - 5
  }

  lemma LoneIsFrame(tag: byte, f: Event)
    requires Lone(tag, f)
    ensures Carries(tag, [f], f.value[5..]) && Readable([f]) == [f]
  {
    assert Carried(tag, f, []) == f.value[5..] == f.value[5..][..DeclaredLength(f)];
    assert FrameOf(tag, [], f, [], f.value[5..]);
    assert [f] == [] + [f] + [];
  }

  lemma JoinedIsFrame(tag: byte, e: Event, f: Event)
    requires Joined(tag, e, f)
    ensures Carries(tag, [e, f], e.value[5..] + f.value[3..]) && Readable([e, f]) == [e, f]
  {
    var b := e.value[5..] + f.value[3..];
    assert [f][1..] == [] && [f][..0] == [];
    assert Payloads(tag, [f]) == f.value[3..] + [] == f.value[3..];
    assert Carried(tag, e, [f]) == b == b[..DeclaredLength(e)];
    assert Carried(tag, e, []) == e.value[5..];
    assert FrameOf(tag, [], e, [f], b);
    assert [e, f] == [] + [e] + [f];
    ReadableWhole([e, f]);
  }

  /** A frame of two packets cut between them fails there and leaves the second. */
  lemma JoinedIsCut(tag: byte, e: Event, noise: Event, f: Event, rest: seq<Event>)
    requires Joined(tag, e, f) && !WellFormed(noise)
    ensures Receive(tag, [e, noise, f] + rest) == Received(Err(ErrorOf(noise)), [f] + rest)
  {
    var frame := [e, f];
    JoinedIsFrame(tag, e, f);
    assert frame[..1] == [e] && frame[1..] == [f] && !Foreign(tag, frame[..1][0]);
    assert [e] + [noise] + ([f] + rest) == [e, noise, f] + rest;
    CutFrameIsLeft(tag, frame, e.value[5..] + f.value[3..], 1, noise, rest);
  }

  /**
   * If the second packet would also pass for a frame of its own, cutting the answer between the two gives first
   * an error, and then bytes from the middle of the answer to the next command.
   */
  lemma CutAnswerIsForged(tag: byte, e: Event, noise: Event, f: Event, rest: seq<Event>)
    requires Joined(tag, e, f) && Lone(tag, f) && !WellFormed(noise)
    ensures Receive(tag, [e, f] + rest) == Received(Ok(e.value[5..] + f.value[3..]), rest)
    ensures Receive(tag, [e, noise, f] + rest) == Received(Err(ErrorOf(noise)), [f] + rest)
    ensures Receive(tag, [f] + rest) == Received(Ok(f.value[5..]), rest)
  {
    JoinedIsFrame(tag, e, f);
    LoneIsFrame(tag, f);
    FrameIsReceived(tag, [e, f], e.value[5..] + f.value[3..], rest);
    FrameIsReceived(tag, [f], f.value[5..], rest);
    JoinedIsCut(tag, e, noise, f, rest);
  }

  /** So the answer [1, 2, 0, 2, 0x90, 0] can give the next command a bare acceptance. */
  lemma CutAnswerCanAccept(noise: Event)
    requires noise == TimedOut || noise == Data([8])
    ensures var e, f := Data([5, 0, 0, 0, 6, 1, 2]), Data([5, 0, 1, 0, 2, 0x90, 0]);
            && Receive(APDU_COMMAND_TAG, [e, f]).result == Ok([1, 2, 0, 2, 0x90, 0])
            && Receive(APDU_COMMAND_TAG, [e, noise, f]) == Received(Err(ErrorOf(noise)), [f])
            && Receive(APDU_COMMAND_TAG, [f]).result == Ok([0x90, 0])
    ensures Accepted(ApduAnswer.FromAnswer([0x90, 0]))
  {
    var v: seq<byte> := [5, 0, 0, 0, 6, 1, 2];
    var w: seq<byte> := [5, 0, 1, 0, 2, 0x90, 0];
    var e, f := Data(v), Data(w);
    assert v[5..] + w[3..] == [1, 2, 0, 2, 0x90, 0] && w[5..] == [0x90, 0];
    CutAnswerIsForged(APDU_COMMAND_TAG, e, noise, f, []);
    assert [e, f] + [] == [e, f] && [e, noise, f] + [] == [e, noise, f] && [f] + [] == [f];
  }

  /**
   * If instead the second packet and the next frame pass for one frame, the cut swallows that frame, and the
   * exchange after the misread one gets its own answer again: visible trouble does not prove later answers wrong.
   */
  lemma CutCanResynchronise(e: Event, noise: Event, f: Event, g: Event, k: Event)
    requires Joined(APDU_COMMAND_TAG, e, f) && Joined(APDU_COMMAND_TAG, f, g) && !WellFormed(noise)
    requires Lone(APDU_COMMAND_TAG, g) && Lone(APDU_COMMAND_TAG, k)
    ensures Answering(Readable([e, noise, f, g, k]), [[e, f], [g], [k]],
                      [e.value[5..] + f.value[3..], g.value[5..], k.value[5..]], [])
    ensures Receive(APDU_COMMAND_TAG, [e, noise, f, g, k]) == Received(Err(ErrorOf(noise)), [f, g, k])
    ensures Receive(APDU_COMMAND_TAG, [f, g, k]) == Received(Ok(f.value[5..] + g.value[3..]), [k])
    ensures Receive(APDU_COMMAND_TAG, [k]) == Received(Ok(k.value[5..]), [])
  {
    ThreeFrames(e, noise, f, g, k);
    JoinedIsFrame(APDU_COMMAND_TAG, f, g);
    LoneIsFrame(APDU_COMMAND_TAG, k);
    JoinedIsCut(APDU_COMMAND_TAG, e, noise, f, [g, k]);
    FrameIsReceived(APDU_COMMAND_TAG, [f, g], f.value[5..] + g.value[3..], [k]);
    FrameIsReceived(APDU_COMMAND_TAG, [k], k.value[5..], []);
    assert [e, noise, f] + [g, k] == [e, noise, f, g, k] && [f] + [g, k] == [f, g, k] && [f, g] + [k] == [f, g, k];
    assert [k] + [] == [k];
  }

  lemma ThreeFrames(e: Event, noise: Event, f: Event, g: Event, k: Event)
    requires Joined(APDU_COMMAND_TAG, e, f) && !WellFormed(noise)
    requires Lone(APDU_COMMAND_TAG, g) && Lone(APDU_COMMAND_TAG, k)
    ensures Answering(Readable([e, noise, f, g, k]), [[e, f], [g], [k]],
                      [e.value[5..] + f.value[3..], g.value[5..], k.value[5..]], [])
  {
    JoinedIsFrame(APDU_COMMAND_TAG, e, f);
    LoneIsFrame(APDU_COMMAND_TAG, g);
    LoneIsFrame(APDU_COMMAND_TAG, k);
    NoiseDrops(e, noise, [f, g, k]);
    assert [e] + [noise] + [f, g, k] == [e, noise, f, g, k];
    assert [e] + [f, g, k] == [e, f] + ([g] + [k]);
    ThreeAnswered([e] + [f, g, k], [e, f], [g], [k], e.value[5..] + f.value[3..], g.value[5..], k.value[5..]);
  }

  lemma ThreeAnswered(
    inbox: seq<Event>, x: seq<Event>, y: seq<Event>, z: seq<Event>, a: seq<byte>, b: seq<byte>, c: seq<byte>)
    requires Carries(APDU_COMMAND_TAG, x, a) && Carries(APDU_COMMAND_TAG, y, b) && Carries(APDU_COMMAND_TAG, z, c)
    requires inbox == x + (y + z)
    ensures Answering(inbox, [x, y, z], [a, b, c], [])
  {
    var frames, answers := [x, y, z], [a, b, c];
    FlattenThree(x, y, z);
    forall i | 0 <= i < |frames| ensures Carries(APDU_COMMAND_TAG, frames[i], answers[i]) {
      assert frames[i] == if i == 0 then x else if i == 1 then y else z;
      assert answers[i] == if i == 0 then a else if i == 1 then b else c;
    }
  }

  lemma NoiseDrops(e: Event, noise: Event, tail: seq<Event>)
    requires WellFormed(e) && !WellFormed(noise) && AllWellFormed(tail)
    ensures Readable([e] + [noise] + tail) == [e] + tail
  {
    ReadableWhole([e]);
    ReadableWhole(tail);
    ReadableConcat([e] + [noise], tail);
    ReadableConcat([e], [noise]);
    assert Readable([noise]) == [] + Readable([noise][1..]) == [];
    assert [e] + [] == [e];
  }

  lemma FlattenThree<T>(x: seq<T>, y: seq<T>, z: seq<T>)
    ensures Flatten([x, y, z]) == x + (y + z)
  {
    FlattenOne(z);
    assert [x, y, z][1..] == [y, z] && [y, z][1..] == [z];
  }

  lemma FlattenOne<T>(x: seq<T>)
    ensures Flatten([x]) == x
  {
    assert [x][1..] == [];
    assert x + [] == x;
  }

  /** Such packets exist: the second of three commands gets an acceptance made of two answers, the third its own. */
  lemma ResynchronisedStream()
    ensures var e, f := Data([5, 0, 0, 0, 6, 1, 2]), Data([5, 0, 1, 0, 6, 0x90, 0]);
            var g, k := Data([5, 0, 0, 0, 2, 0x90, 0]), Data([5, 0, 0, 0, 2, 0x6E, 1]);
            && Receive(APDU_COMMAND_TAG, [e, TimedOut, f, g, k]) == Received(Err(Timeout), [f, g, k])
            && Receive(APDU_COMMAND_TAG, [f, g, k]) == Received(Ok([0x90, 0, 0, 2, 0x90, 0]), [k])
            && Receive(APDU_COMMAND_TAG, [k]) == Received(Ok([0x6E, 1]), [])
            && Answering(Readable([e, TimedOut, f, g, k]), [[e, f], [g], [k]],
                         [[1, 2, 0, 6, 0x90, 0], [0x90, 0], [0x6E, 1]], [])
  {
    var u: seq<byte> := [5, 0, 0, 0, 6, 1, 2];
    var v: seq<byte> := [5, 0, 1, 0, 6, 0x90, 0];
    var w: seq<byte> := [5, 0, 0, 0, 2, 0x90, 0];
    var x: seq<byte> := [5, 0, 0, 0, 2, 0x6E, 1];
    assert u[5..] + v[3..] == [1, 2, 0, 6, 0x90, 0] && v[5..] + w[3..] == [0x90, 0, 0, 2, 0x90, 0];
    assert w[5..] == [0x90, 0] && x[5..] == [0x6E, 1];
    CutCanResynchronise(Data(u), TimedOut, Data(v), Data(w), Data(x));
  }
}
