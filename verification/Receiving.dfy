/** The receiving side: what `recv_framed` makes of a stream of notifications. */
module Receiving {
  import opened Wrappers
  import opened Bytes
  import opened Packets

  /** Outcome of a receive, with the events it left unread. */
  datatype Received = Received(result: Result<seq<byte>, TransportError>, rest: seq<Event>)

  function Next(inbox: seq<Event>): Received {
    if inbox == [] then Received(Err(StreamEnded), [])
    else match inbox[0]
      case Data(value) => Received(Ok(value), inbox[1..])
      case TimedOut => Received(Err(Timeout), inbox[1..])
  }

  /** Reads up to the first notification with the wanted tag. */
  function AwaitFirst(tag: byte, inbox: seq<Event>): (r: Received)
    ensures |r.rest| <= |inbox|
    ensures r.result.Ok? ==> r.result.value != [] && r.result.value[0] == tag
    decreases |inbox|
  {
    var n := Next(inbox);
    if n.result.Err? then n
    else if n.result.value == [] then Received(Err(InvalidPacket), n.rest)
    else if n.result.value[0] == tag then n
    else AwaitFirst(tag, n.rest)
  }

  /** Collects payloads until `total` bytes are there, and drops what goes beyond. */
  function Collect(tag: byte, total: nat, buffer: seq<byte>, inbox: seq<Event>): Received
    decreases |inbox|
  {
    if |buffer| >= total then Received(Ok(buffer[..total]), inbox)
    else
      var n := Next(inbox);
      if n.result.Err? then n
      else match SubsequentPacket.TryFrom(n.result.value)
        case Err(e) => Received(Err(e), n.rest)
        case Ok(p) => Collect(tag, total, if p.tag == tag then buffer + p.payload else buffer, n.rest)
  }

  function Receive(tag: byte, inbox: seq<Event>): Received {
    var first := AwaitFirst(tag, inbox);
    if first.result.Err? then first
    else match InitialPacket.TryFrom(first.result.value)
      case Err(e) => Received(Err(e), first.rest)
      case Ok(p) => Collect(tag, p.dataLength, p.payload, first.rest)
  }

  // ---------------------------------------------------------------- what a frame is

  predicate Foreign(tag: byte, e: Event) {
    e.Data? && e.value != [] && e.value[0] != tag
  }

  predicate Opens(tag: byte, e: Event) {
    e.Data? && |e.value| >= 5 && e.value[0] == tag
  }

  predicate WellFormed(e: Event) {
    e.Data? && |e.value| >= 3
  }

  predicate AllForeign(tag: byte, es: seq<Event>) {
    forall i | 0 <= i < |es| :: Foreign(tag, es[i])
  }

  predicate AllWellFormed(es: seq<Event>) {
    forall i | 0 <= i < |es| :: WellFormed(es[i])
  }

  function PayloadOf(tag: byte, e: Event): seq<byte>
    requires WellFormed(e)
  {
    if e.value[0] == tag then e.value[3..] else []
  }

  /** Payload bytes of the packets of `tag` among well-formed subsequent packets. */
  function Payloads(tag: byte, tail: seq<Event>): seq<byte>
    requires AllWellFormed(tail)
  {
    if tail == [] then [] else PayloadOf(tag, tail[0]) + Payloads(tag, tail[1..])
  }

  function DeclaredLength(opening: Event): nat
    requires opening.Data? && |opening.value| >= 5
  {
    FromU16Be(opening.value[3], opening.value[4])
  }

  /** Everything carried by an opening packet and the packets after it. */
  function Carried(tag: byte, opening: Event, tail: seq<Event>): seq<byte>
    requires Opens(tag, opening) && AllWellFormed(tail)
  {
    opening.value[5..] + Payloads(tag, tail)
  }

  /** Foreign packets, an opening packet and well-formed packets that do not yet fill the declared length. */
  ghost predicate Unfinished(tag: byte, skipped: seq<Event>, opening: Event, tail: seq<Event>) {
    && AllForeign(tag, skipped)
    && Opens(tag, opening)
    && AllWellFormed(tail)
    && |Carried(tag, opening, tail)| < DeclaredLength(opening)
  }

  /** A frame carrying `b`: the declared length is first reached at the last packet, and `b` is that many bytes. */
  ghost predicate FrameOf(tag: byte, skipped: seq<Event>, opening: Event, tail: seq<Event>, b: seq<byte>) {
    && AllForeign(tag, skipped)
    && Opens(tag, opening)
    && AllWellFormed(tail)
    && |Carried(tag, opening, tail)| >= DeclaredLength(opening)
    && b == Carried(tag, opening, tail)[..DeclaredLength(opening)]
    && (tail != [] ==> Unfinished(tag, skipped, opening, tail[..|tail| - 1]))
  }

  /** `seen` is, as a whole, one frame carrying `b`, foreign packets included. */
  ghost predicate Carries(tag: byte, seen: seq<Event>, b: seq<byte>) {
    exists skipped, opening, tail :: seen == skipped + [opening] + tail && FrameOf(tag, skipped, opening, tail, b)
  }

  /** `seen` is a proper beginning of a frame: before its opening packet, or inside it. */
  ghost predicate Pending(tag: byte, seen: seq<Event>, inside: bool) {
    if inside then
      exists skipped, opening, tail :: seen == skipped + [opening] + tail && Unfinished(tag, skipped, opening, tail)
    else
      AllForeign(tag, seen)
  }

  /** The error an event causes where it stands, if any. */
  function Fault(tag: byte, inside: bool, e: Event): Option<TransportError> {
    if e.TimedOut? then Some(Timeout)
    else if inside then (if |e.value| < 3 then Some(InvalidPacket) else None)
    else if e.value == [] || (e.value[0] == tag && |e.value| < 5) then Some(InvalidPacket)
    else None
  }

  /** Reading stopped with error `e` after `n` harmless events: at the end of the stream, or at a faulty event. */
  ghost predicate FailsAt(tag: byte, inbox: seq<Event>, n: nat, inside: bool, e: TransportError, rest: seq<Event>) {
    && n <= |inbox|
    && Pending(tag, inbox[..n], inside)
    && if n == |inbox| then e == StreamEnded && rest == []
       else Fault(tag, inside, inbox[n]) == Some(e) && rest == inbox[n + 1..]
  }

  // ---------------------------------------------------------------- collecting

  /** Dropping the last packet never adds bytes. */
  lemma {:induction false} PayloadsGrow(tag: byte, tail: seq<Event>)
    requires tail != [] && AllWellFormed(tail)
    ensures |Payloads(tag, tail[..|tail| - 1])| <= |Payloads(tag, tail)|
    decreases |tail|
  {
    if |tail| > 1 {
      SliceOfTail(tail, |tail| - 2);
      PayloadsGrow(tag, tail[1..]);
    }
  }

  lemma {:induction false} AbsorbOne(tag: byte, buffer: seq<byte>, tail: seq<Event>)
    requires tail != [] && AllWellFormed(tail)
    ensures buffer + Payloads(tag, tail) == (buffer + PayloadOf(tag, tail[0])) + Payloads(tag, tail[1..])
  {
    Assoc(buffer, PayloadOf(tag, tail[0]), Payloads(tag, tail[1..]));
  }

  lemma {:induction false} CollectStep(tag: byte, total: nat, buffer: seq<byte>, inbox: seq<Event>)
    requires |buffer| < total && inbox != [] && WellFormed(inbox[0])
    ensures Collect(tag, total, buffer, inbox) == Collect(tag, total, buffer + PayloadOf(tag, inbox[0]), inbox[1..])
  {
    assert buffer + [] == buffer;
  }

  /** Packets that do not fill the buffer are absorbed one by one. */
  lemma {:induction false} CollectAbsorbs(tag: byte, total: nat, buffer: seq<byte>, tail: seq<Event>, more: seq<Event>)
    requires AllWellFormed(tail)
    requires tail != [] ==> |buffer + Payloads(tag, tail[..|tail| - 1])| < total
    ensures Collect(tag, total, buffer, tail + more) == Collect(tag, total, buffer + Payloads(tag, tail), more)
    decreases |tail|
  {
    if tail == [] {
      assert tail + more == more && buffer + [] == buffer;
    } else {
      var most, next := tail[..|tail| - 1], buffer + PayloadOf(tag, tail[0]);
      if most != [] {
        AbsorbOne(tag, buffer, most);
        assert most[1..] == tail[1..][..|tail| - 2];
      }
      TailOfConcat(tail, more);
      CollectStep(tag, total, buffer, tail + more);
      CollectAbsorbs(tag, total, next, tail[1..], more);
      AbsorbOne(tag, buffer, tail);
    }
  }

  /** Skipping foreign packets before a frame. */
  lemma {:induction false} AwaitSkips(tag: byte, skipped: seq<Event>, more: seq<Event>)
    requires AllForeign(tag, skipped)
    ensures AwaitFirst(tag, skipped + more) == AwaitFirst(tag, more)
    decreases |skipped|
  {
    if skipped == [] {
      assert skipped + more == more;
    } else {
      assert Foreign(tag, skipped[0]);
      TailOfConcat(skipped, more);
      AwaitSkips(tag, skipped[1..], more);
    }
  }

  /** Reading as far as an unfinished frame leaves the collecting loop with exactly the bytes carried so far. */
  lemma {:induction false} ReceiveEnters(
    tag: byte, skipped: seq<Event>, opening: Event, tail: seq<Event>, more: seq<Event>)
    requires AllForeign(tag, skipped)
    requires Opens(tag, opening)
    requires AllWellFormed(tail)
    requires tail != [] ==> Unfinished(tag, skipped, opening, tail[..|tail| - 1])
    ensures Receive(tag, skipped + [opening] + tail + more)
         == Collect(tag, DeclaredLength(opening), Carried(tag, opening, tail), more)
  {
    var body := [opening] + (tail + more);
    assert skipped + [opening] + tail + more == skipped + body;
    AwaitSkips(tag, skipped, body);
    assert body[1..] == tail + more;
    CollectAbsorbs(tag, DeclaredLength(opening), opening.value[5..], tail, more);
  }

  /** The collecting loop absorbed the first `n` events, and then returned `r`. */
  ghost predicate StopsAfter(tag: byte, total: nat, buffer: seq<byte>, inbox: seq<Event>, n: nat, r: Received) {
    && n <= |inbox| && AllWellFormed(inbox[..n])
    && (n > 0 ==> |buffer + Payloads(tag, inbox[..n - 1])| < total)
    && var all := buffer + Payloads(tag, inbox[..n]);
       match r.result
       case Ok(b) => |all| >= total && b == all[..total] && r.rest == inbox[n..]
       case Err(e) =>
         && |all| < total
         && if n == |inbox| then e == StreamEnded && r.rest == []
            else Fault(tag, true, inbox[n]) == Some(e) && r.rest == inbox[n + 1..]
  }

  lemma {:induction false} CollectStops(tag: byte, total: nat, buffer: seq<byte>, inbox: seq<Event>) returns (n: nat)
    ensures StopsAfter(tag, total, buffer, inbox, n, Collect(tag, total, buffer, inbox))
    decreases |inbox|
  {
    if |buffer| >= total || inbox == [] || !WellFormed(inbox[0]) {
      n := 0;
      assert buffer + Payloads(tag, inbox[..0]) == buffer;
    } else {
      var next := buffer + PayloadOf(tag, inbox[0]);
      var m := CollectStops(tag, total, next, inbox[1..]);
      CollectStep(tag, total, buffer, inbox);
      StopsLater(tag, total, buffer, inbox, m, Collect(tag, total, buffer, inbox));
      n := m + 1;
    }
  }

  lemma StopsLater(tag: byte, total: nat, buffer: seq<byte>, inbox: seq<Event>, m: nat, r: Received)
    requires |buffer| < total && inbox != [] && WellFormed(inbox[0])
    requires StopsAfter(tag, total, buffer + PayloadOf(tag, inbox[0]), inbox[1..], m, r)
    ensures StopsAfter(tag, total, buffer, inbox, m + 1, r)
  {
    SliceOfTail(inbox, m);
    WellFormedStep(inbox, m);
    AbsorbOne(tag, buffer, inbox[..m + 1]);
    if m > 0 {
      SliceOfTail(inbox, m - 1);
      AbsorbOne(tag, buffer, inbox[..m]);
    } else {
      assert buffer + Payloads(tag, inbox[..0]) == buffer;
    }
  }

  lemma WellFormedStep(inbox: seq<Event>, m: nat)
    requires m < |inbox| && WellFormed(inbox[0]) && AllWellFormed(inbox[1..][..m])
    ensures AllWellFormed(inbox[..m + 1]) && AllWellFormed(inbox[..m])
  {
    forall i | 0 < i <= m ensures WellFormed(inbox[i]) {
      assert inbox[i] == inbox[1..][..m][i - 1];
    }
  }

  /** Where the search for the opening packet stops. */
  lemma {:induction false} AwaitStops(tag: byte, inbox: seq<Event>) returns (n: nat)
    ensures n <= |inbox| && AllForeign(tag, inbox[..n])
    ensures var r := AwaitFirst(tag, inbox);
            if n == |inbox| then r == Received(Err(StreamEnded), [])
            else
              && r.rest == inbox[n + 1..]
              && match r.result
                 case Ok(raw) => inbox[n] == Data(raw) && raw != [] && raw[0] == tag
                 case Err(e) => Fault(tag, false, inbox[n]) == Some(e)
    decreases |inbox|
  {
    if inbox == [] || !Foreign(tag, inbox[0]) {
      n := 0;
    } else {
      var m := AwaitStops(tag, inbox[1..]);
      n := m + 1;
      assert inbox[..n] == [inbox[0]] + inbox[1..][..m];
    }
  }

  // ---------------------------------------------------------------- the characterisation

  /** Every way a receive can end, told from the stream alone. */
  lemma ReceiveCases(tag: byte, inbox: seq<Event>)
    ensures var r := Receive(tag, inbox);
            match r.result
            case Ok(b) => exists seen :: inbox == seen + r.rest && Carries(tag, seen, b)
            case Err(e) => exists n, inside :: FailsAt(tag, inbox, n, inside, e, r.rest)
  {
    var r := Receive(tag, inbox);
    var n := AwaitStops(tag, inbox);
    var skipped := inbox[..n];
    var first := AwaitFirst(tag, inbox);
    if first.result.Err? || |first.result.value| < 5 {
      assert FailsAt(tag, inbox, n, false, r.result.error, r.rest);
    } else {
      assert inbox[n].value == first.result.value;
      var stream := inbox[n + 1..];
      var m := CollectStops(tag, DeclaredLength(inbox[n]), inbox[n].value[5..], stream);
      if r.result.Ok? {
        StopsAtFrame(tag, inbox, n, m, r);
      } else {
        StopsInsideFrame(tag, inbox, n, m, r);
      }
    }
  }

  lemma StopsAtFrame(tag: byte, inbox: seq<Event>, n: nat, m: nat, r: Received)
    requires n < |inbox| && AllForeign(tag, inbox[..n]) && Opens(tag, inbox[n])
    requires StopsAfter(tag, DeclaredLength(inbox[n]), inbox[n].value[5..], inbox[n + 1..], m, r) && r.result.Ok?
    ensures inbox == inbox[..n + 1 + m] + r.rest && Carries(tag, inbox[..n + 1 + m], r.result.value)
  {
    var skipped, opening, tail := inbox[..n], inbox[n], inbox[n + 1..][..m];
    if m > 0 {
      assert tail[..m - 1] == inbox[n + 1..][..m - 1];
      assert Unfinished(tag, skipped, opening, tail[..|tail| - 1]);
    }
    assert FrameOf(tag, skipped, opening, tail, r.result.value);
    assert inbox[..n + 1 + m] == skipped + [opening] + tail;
  }

  lemma StopsInsideFrame(tag: byte, inbox: seq<Event>, n: nat, m: nat, r: Received)
    requires n < |inbox| && AllForeign(tag, inbox[..n]) && Opens(tag, inbox[n])
    requires StopsAfter(tag, DeclaredLength(inbox[n]), inbox[n].value[5..], inbox[n + 1..], m, r) && r.result.Err?
    ensures FailsAt(tag, inbox, n + 1 + m, true, r.result.error, r.rest)
  {
    var skipped, opening, stream := inbox[..n], inbox[n], inbox[n + 1..];
    var tail := stream[..m];
    assert Unfinished(tag, skipped, opening, tail);
    assert inbox[..n + 1 + m] == skipped + [opening] + tail;
    assert Pending(tag, inbox[..n + 1 + m], true);
    if m < |stream| {
      assert stream[m] == inbox[n + 1 + m] && stream[m + 1..] == inbox[n + 1 + m + 1..];
    }
  }

  /** A frame is received as the bytes it carries, and nothing after it is touched. */
  lemma FrameIsReceived(tag: byte, seen: seq<Event>, b: seq<byte>, rest: seq<Event>)
    requires Carries(tag, seen, b)
    ensures Receive(tag, seen + rest) == Received(Ok(b), rest)
  {
    var skipped, opening, tail :| seen == skipped + [opening] + tail && FrameOf(tag, skipped, opening, tail, b);
    ReceiveEnters(tag, skipped, opening, tail, rest);
  }

  /** A stream that breaks off or turns bad before a frame is complete gives exactly that error. */
  lemma BrokenFrameFails(tag: byte, inbox: seq<Event>, n: nat, inside: bool, e: TransportError, rest: seq<Event>)
    requires FailsAt(tag, inbox, n, inside, e, rest)
    ensures Receive(tag, inbox) == Received(Err(e), rest)
  {
    var more := inbox[n..];
    assert n < |inbox| ==> more[0] == inbox[n] && more[1..] == inbox[n + 1..];
    if inside {
      var skipped, opening, tail :|
        inbox[..n] == skipped + [opening] + tail && Unfinished(tag, skipped, opening, tail);
      assert inbox == skipped + [opening] + tail + more;
      if tail != [] {
        ShorterIsUnfinished(tag, skipped, opening, tail);
      }
      ReceiveEnters(tag, skipped, opening, tail, more);
    } else {
      assert inbox == inbox[..n] + more;
      AwaitSkips(tag, inbox[..n], more);
    }
  }

  lemma ShorterIsUnfinished(tag: byte, skipped: seq<Event>, opening: Event, tail: seq<Event>)
    requires Unfinished(tag, skipped, opening, tail) && tail != []
    ensures Unfinished(tag, skipped, opening, tail[..|tail| - 1])
  {
    PayloadsGrow(tag, tail);
  }

  /** `recv_framed` succeeds with `b` exactly on the streams that begin with a frame carrying `b`. */
  lemma ReceivesExactlyFrames(tag: byte, inbox: seq<Event>, b: seq<byte>, rest: seq<Event>)
    ensures Receive(tag, inbox) == Received(Ok(b), rest)
       <==> exists seen :: inbox == seen + rest && Carries(tag, seen, b)
  {
    ReceiveCases(tag, inbox);
    if seen :| inbox == seen + rest && Carries(tag, seen, b) {
      FrameIsReceived(tag, seen, b, rest);
    }
  }

  /** It fails with `e` exactly when the stream ends, times out or turns malformed before a frame is complete. */
  lemma FailsExactlyOnBrokenFrames(tag: byte, inbox: seq<Event>, e: TransportError, rest: seq<Event>)
    ensures Receive(tag, inbox) == Received(Err(e), rest)
       <==> exists n, inside :: FailsAt(tag, inbox, n, inside, e, rest)
  {
    ReceiveCases(tag, inbox);
    if n, inside :| FailsAt(tag, inbox, n, inside, e, rest) {
      BrokenFrameFails(tag, inbox, n, inside, e, rest);
    }
  }

  /** The shape is unique: a stream begins with at most one frame, and never both with a frame and with a broken one. */
  lemma FrameIsUnique(tag: byte, inbox: seq<Event>, seen: seq<Event>, b: seq<byte>, seen': seq<Event>, b': seq<byte>)
    requires seen <= inbox && Carries(tag, seen, b)
    requires seen' <= inbox && Carries(tag, seen', b')
    ensures seen == seen' && b == b'
    ensures !exists n, inside, e, rest :: FailsAt(tag, inbox, n, inside, e, rest)
  {
    var rest, rest' := inbox[|seen|..], inbox[|seen'|..];
    assert inbox == seen + rest && inbox == seen' + rest';
    FrameIsReceived(tag, seen, b, rest);
    FrameIsReceived(tag, seen', b', rest');
    forall n, inside, e, left | FailsAt(tag, inbox, n, inside, e, left) ensures false {
      BrokenFrameFails(tag, inbox, n, inside, e, left);
    }
  }

  // ---------------------------------------------------------------- sequence numbers are ignored

  /** Two events that differ at most in the two sequence bytes. */
  predicate SameButSequence(e: Event, f: Event) {
    match (e, f)
    case (Data(v), Data(w)) => |v| == |w| && forall i | 0 <= i < |v| && i != 1 && i != 2 :: v[i] == w[i]
    case (TimedOut, TimedOut) => true
    case _ => false
  }

  predicate SameStreamButSequence(a: seq<Event>, b: seq<Event>) {
    |a| == |b| && forall i | 0 <= i < |a| :: SameButSequence(a[i], b[i])
  }

  lemma {:induction false} CollectIgnoresSequence(
    tag: byte, total: nat, buffer: seq<byte>, a: seq<Event>, b: seq<Event>)
    requires SameStreamButSequence(a, b)
    ensures var r, s := Collect(tag, total, buffer, a), Collect(tag, total, buffer, b);
            r.result == s.result && SameStreamButSequence(r.rest, s.rest)
    decreases |a|
  {
    if |buffer| < total && a != [] {
      assert SameButSequence(a[0], b[0]);
      if WellFormed(a[0]) {
        assert a[0].value[3..] == b[0].value[3..];
        var next := if a[0].value[0] == tag then buffer + a[0].value[3..] else buffer;
        CollectIgnoresSequence(tag, total, next, a[1..], b[1..]);
      }
    }
  }

  lemma {:induction false} AwaitIgnoresSequence(tag: byte, a: seq<Event>, b: seq<Event>)
    requires SameStreamButSequence(a, b)
    ensures var r, s := AwaitFirst(tag, a), AwaitFirst(tag, b);
            && SameStreamButSequence(r.rest, s.rest)
            && match r.result
               case Ok(v) => s.result.Ok? && SameButSequence(Data(v), Data(s.result.value))
               case Err(e) => s.result == r.result
    decreases |a|
  {
    if a != [] {
      assert SameButSequence(a[0], b[0]);
      if Foreign(tag, a[0]) {
        AwaitIgnoresSequence(tag, a[1..], b[1..]);
      }
    }
  }

  /** Rewriting the sequence bytes of any packets changes neither the bytes received nor how many events are read. */
  lemma ReceiveIgnoresSequence(tag: byte, a: seq<Event>, b: seq<Event>)
    requires SameStreamButSequence(a, b)
    ensures Receive(tag, a).result == Receive(tag, b).result
    ensures |Receive(tag, a).rest| == |Receive(tag, b).rest|
  {
    AwaitIgnoresSequence(tag, a, b);
    var r, s := AwaitFirst(tag, a), AwaitFirst(tag, b);
    if r.result.Ok? && |r.result.value| >= 5 {
      var v, w := r.result.value, s.result.value;
      assert v[5..] == w[5..];
      CollectIgnoresSequence(tag, FromU16Be(v[3], v[4]), v[5..], r.rest, s.rest);
    }
  }
}
