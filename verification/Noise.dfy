/** What timeouts and malformed notifications anywhere in a stream do to the frames in it. */
module Noise {
  import opened Wrappers
  import opened Bytes
  import opened Packets
  import opened Receiving

  /** The notifications of at least three bytes; timeouts and shorter ones are left out. */
  function Readable(es: seq<Event>): seq<Event>
    decreases |es|
  {
    if es == [] then [] else (if WellFormed(es[0]) then [es[0]] else []) + Readable(es[1..])
  }

  lemma {:induction false} ReadableConcat(a: seq<Event>, b: seq<Event>)
    ensures Readable(a + b) == Readable(a) + Readable(b)
    decreases |a|
  {
    if a == [] {
      assert a + b == b;
    } else {
      TailOfConcat(a, b);
      ReadableConcat(a[1..], b);
      Assoc(if WellFormed(a[0]) then [a[0]] else [], Readable(a[1..]), Readable(b));
    }
  }

  lemma {:induction false} ReadableWhole(es: seq<Event>)
    requires AllWellFormed(es)
    ensures Readable(es) == es
    decreases |es|
  {
    if es != [] {
      assert WellFormed(es[0]);
      ReadableWhole(es[1..]);
    }
  }

  lemma {:induction false} ReadableForeign(tag: byte, es: seq<Event>)
    requires AllForeign(tag, es)
    ensures AllForeign(tag, Readable(es))
    decreases |es|
  {
    if es != [] {
      assert Foreign(tag, es[0]);
      ReadableForeign(tag, es[1..]);
    }
  }

  lemma {:induction false} ReadableParts(skipped: seq<Event>, opening: Event, tail: seq<Event>)
    requires WellFormed(opening) && AllWellFormed(tail)
    ensures Readable(skipped + [opening] + tail) == Readable(skipped) + [opening] + tail
  {
    ReadableConcat(skipped + [opening], tail);
    ReadableConcat(skipped, [opening]);
    ReadableWhole([opening]);
    ReadableWhole(tail);
  }

  /** A frame without its unreadable events, which can only be short foreign ones before its opening packet. */
  lemma {:induction false} ReadableFrame(tag: byte, seen: seq<Event>, b: seq<byte>)
    requires Carries(tag, seen, b)
    ensures Carries(tag, Readable(seen), b)
  {
    var skipped, opening, tail :| seen == skipped + [opening] + tail && FrameOf(tag, skipped, opening, tail, b);
    ReadableForeign(tag, skipped);
    ReadableParts(skipped, opening, tail);
    if tail != [] {
      assert Unfinished(tag, Readable(skipped), opening, tail[..|tail| - 1]);
    }
    assert FrameOf(tag, Readable(skipped), opening, tail, b);
  }

  lemma {:induction false} ReadablePending(tag: byte, seen: seq<Event>, inside: bool)
    requires Pending(tag, seen, inside)
    ensures Pending(tag, Readable(seen), inside)
  {
    if inside {
      var skipped, opening, tail :| seen == skipped + [opening] + tail && Unfinished(tag, skipped, opening, tail);
      ReadableForeign(tag, skipped);
      ReadableParts(skipped, opening, tail);
      assert Unfinished(tag, Readable(skipped), opening, tail);
    } else {
      ReadableForeign(tag, seen);
    }
  }

  /** A pending beginning of a stream is shorter than the frame the stream begins with. */
  lemma PendingIsShorter(
    tag: byte, seen: seq<Event>, inside: bool, more: seq<Event>, frame: seq<Event>, b: seq<byte>, rest: seq<Event>)
    requires Pending(tag, seen, inside) && Carries(tag, frame, b) && seen + more == frame + rest
    ensures |seen| < |frame|
  {
    if |seen| >= |frame| {
      assert (seen + more)[..|frame|] == frame;
      assert frame <= seen;
      assert seen[..|seen|] == seen;
      assert FailsAt(tag, seen, |seen|, inside, StreamEnded, []);
      FrameIsUnique(tag, seen, frame, b, frame, b);
    }
  }

  /** Behind foreign packets only, the next event of a frame is a foreign packet or opens it. */
  lemma AfterForeign(tag: byte, frame: seq<Event>, b: seq<byte>, n: nat)
    requires Carries(tag, frame, b) && n < |frame| && AllForeign(tag, frame[..n])
    ensures Foreign(tag, frame[n]) || Opens(tag, frame[n])
  {
    var skipped, opening, tail :| frame == skipped + [opening] + tail && FrameOf(tag, skipped, opening, tail, b);
    var m := |skipped|;
    forall i | 0 <= i < n ensures Foreign(tag, frame[i]) {
      assert frame[i] == frame[..n][i];
    }
    assert frame[m] == opening;
    assert n < m ==> frame[n] == skipped[n];
  }

  /** The event that makes a receive fail before a frame is complete is none of the frame's own. */
  lemma FaultIsUnreadable(
    tag: byte, seen: seq<Event>, inside: bool, e: Event, more: seq<Event>, frame: seq<Event>, b: seq<byte>,
    rest: seq<Event>)
    requires Pending(tag, seen, inside) && Fault(tag, inside, e).Some? && Carries(tag, frame, b)
    requires |seen| < |frame| && seen + more == frame + rest
    requires WellFormed(e) ==> more != [] && more[0] == e
    ensures !WellFormed(e)
  {
    var n := |seen|;
    assert frame[..n] == (frame + rest)[..n] == (seen + more)[..n] == seen;
    assert frame[n] == (seen + more)[n];
    assert WellFormed(e) ==> e == frame[n];
    if !inside {
      AfterForeign(tag, frame, b, n);
    }
  }

  /**
   * Over every stream whose readable notifications begin with a frame, wherever timeouts and malformed ones
   * stand in it: the receiver returns what the frame carries, or fails inside the frame and leaves the part of
   * it that it has not read.
   */
  lemma ReceivesOrFails(
    tag: byte, inbox: seq<Event>, frame: seq<Event>, b: seq<byte>, rest: seq<Event>) returns (k: nat)
    requires Carries(tag, frame, b) && Readable(inbox) == frame + rest
    ensures k <= |frame|
    ensures var r := Receive(tag, inbox);
            && Readable(r.rest) == frame[k..] + rest
            && (if k == |frame| then r.result == Ok(b) else r.result == Err(Timeout) || r.result == Err(InvalidPacket))
  {
    var r := Receive(tag, inbox);
    ReceiveCases(tag, inbox);
    match r.result
    case Ok(b') =>
      var seen :| inbox == seen + r.rest && Carries(tag, seen, b');
      ReadableConcat(seen, r.rest);
      ReadableFrame(tag, seen, b');
      FrameIsUnique(tag, frame + rest, frame, b, Readable(seen), b');
      k := |frame|;
      assert (Readable(seen) + Readable(r.rest))[|frame|..] == Readable(r.rest);
      assert frame[k..] + rest == rest;
    case Err(e) =>
      var n, inside :| FailsAt(tag, inbox, n, inside, e, r.rest);
      k := FailsInside(tag, inbox, n, inside, e, r.rest, frame, b, rest);
  }

  lemma FailsInside(
    tag: byte, inbox: seq<Event>, n: nat, inside: bool, e: TransportError, left: seq<Event>,
    frame: seq<Event>, b: seq<byte>, rest: seq<Event>) returns (k: nat)
    requires Carries(tag, frame, b) && Readable(inbox) == frame + rest
    requires FailsAt(tag, inbox, n, inside, e, left)
    ensures k < |frame| && Readable(left) == frame[k..] + rest
    ensures e == Timeout || e == InvalidPacket
  {
    var seen, more := inbox[..n], inbox[n..];
    assert inbox == seen + more;
    ReadableConcat(seen, more);
    ReadablePending(tag, seen, inside);
    PendingIsShorter(tag, Readable(seen), inside, Readable(more), frame, b, rest);
    k := |Readable(seen)|;
    assert Readable(more) == (Readable(seen) + Readable(more))[k..] == (frame + rest)[k..] == frame[k..] + rest;
    assert more != [] && more[0] == inbox[n] && more[1..] == left;
    FaultIsUnreadable(tag, Readable(seen), inside, inbox[n], Readable(more), frame, b, rest);
    assert Readable(more) == [] + Readable(left) == Readable(left);
  }
}
