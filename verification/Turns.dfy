/** Runs in which exchanges may fail, turn by turn: every run on every link is one. */
module Turns {
  import opened Wrappers
  import opened Bytes
  import opened Packets
  import opened Framing
  import opened Receiving
  import opened Strict
  import opened Apdu
  import opened Links
  import opened Pairing
  import opened Stalled

  /**
   * How an exchange can go: its packets are acknowledged and a whole frame comes, or the stream turns bad
   * before a frame is complete, or the write after the first `sent` packets is reported as failed, whether or
   * not that packet arrived.
   */
  datatype Turn =
    | Told(frame: seq<Event>, answer: seq<byte>)
    | Failed(seen: seq<Event>, error: TransportError)
    | Cut(sent: nat, fate: WriteFate)

  /** A beginning of a frame and then the timeout or malformed notification that makes the receive fail. */
  ghost predicate BreaksOff(tag: byte, seen: seq<Event>, error: TransportError) {
    exists n: nat, inside :: n + 1 == |seen| && FailsAt(tag, seen, n, inside, error, [])
  }

  ghost predicate Fits(turn: Turn, packets: seq<seq<byte>>) {
    match turn
    case Told(frame, answer) => Carries(APDU_COMMAND_TAG, frame, answer)
    case Failed(seen, error) => BreaksOff(APDU_COMMAND_TAG, seen, error)
    case Cut(sent, fate) => sent < |packets| && !fate.Acked?
  }

  function EventsOf(turn: Turn): seq<Event> {
    match turn
    case Told(frame, _) => frame
    case Failed(seen, _) => seen
    case Cut(_, _) => []
  }

  function FatesOf(turn: Turn, packets: seq<seq<byte>>): seq<WriteFate> {
    if turn.Cut? then seq(turn.sent, _ => Acked) + [turn.fate] else seq(|packets|, _ => Acked)
  }

  function ReplyOf(turn: Turn): Reply {
    match turn
    case Told(_, answer) => ApduAnswer.FromAnswer(answer)
    case Failed(_, error) => Err(error)
    case Cut(_, _) => Err(WriteFailed)
  }

  /** How many of the packets reach the device. */
  function Arriving(turn: Turn, packets: seq<seq<byte>>): nat {
    if turn.Cut? then (if turn.fate.Unacked? then turn.sent + 1 else turn.sent) else |packets|
  }

  function PacketsAt(commands: seq<ApduCommand>, mtu: nat, i: nat): seq<seq<byte>>
    requires i < |commands|
  {
    PacketsFor(commands[i].Serialized(), mtu)
  }

  // ---------------------------------------------------------------- what a run of turns is

  function AllFates(commands: seq<ApduCommand>, turns: seq<Turn>, mtu: nat): seq<WriteFate>
    requires |turns| == |commands|
    decreases |turns|
  {
    var n := |turns| - 1;
    if turns == [] then []
    else AllFates(commands[..n], turns[..n], mtu) + FatesOf(turns[n], PacketsAt(commands, mtu, n))
  }

  function AllEvents(turns: seq<Turn>): seq<Event>
    decreases |turns|
  {
    if turns == [] then [] else AllEvents(turns[..|turns| - 1]) + EventsOf(turns[|turns| - 1])
  }

  ghost predicate AllFit(commands: seq<ApduCommand>, turns: seq<Turn>, mtu: nat)
    requires |turns| == |commands|
    decreases |turns|
  {
    var n := |turns| - 1;
    turns == [] || (AllFit(commands[..n], turns[..n], mtu) && Fits(turns[n], PacketsAt(commands, mtu, n)))
  }

  /** Each command with the reply its turn gives. */
  function Replied(commands: seq<ApduCommand>, turns: seq<Turn>): (steps: seq<Step>)
    requires |turns| == |commands|
    ensures |steps| == |turns|
  {
    seq(|turns|, i requires 0 <= i < |turns| => Step(commands[i], ReplyOf(turns[i])))
  }

  /** What the writes to come and the stream hold is these turns, and then `fates` and `rest`. */
  ghost predicate Unfolds(
    l: Link, commands: seq<ApduCommand>, turns: seq<Turn>, fates: seq<WriteFate>, rest: seq<Event>) {
    && |turns| == |commands|
    && AllFit(commands, turns, MtuInForce(l.mtu))
    && l.fates == AllFates(commands, turns, MtuInForce(l.mtu)) + fates
    && l.inbox == AllEvents(turns) + rest
  }

  // ---------------------------------------------------------------- one turn

  lemma {:induction false} WriteAllCut(l: Link, packets: seq<seq<byte>>, turn: Turn, fates: seq<WriteFate>)
    requires turn.Cut? && Fits(turn, packets) && l.fates == FatesOf(turn, packets) + fates
    ensures WriteAll(l, packets)
         == On(l.(fates := fates, delivered := l.delivered + packets[..Arriving(turn, packets)]), Err(WriteFailed))
    decreases |packets|
  {
    var w := WriteOn(l, packets[0]).link;
    if turn.sent == 0 {
      assert packets[..0] == [] && packets[..1] == [packets[0]];
      assert l.delivered + packets[..0] == l.delivered;
      assert l.fates[1..] == fates;
    } else {
      var later := turn.(sent := turn.sent - 1);
      var k := Arriving(later, packets[1..]);
      assert l.fates[1..] == FatesOf(later, packets[1..]) + fates;
      WriteAllCut(w, packets[1..], later, fates);
      assert packets[..k + 1] == [packets[0]] + packets[1..][..k];
      Assoc(l.delivered, [packets[0]], packets[1..][..k]);
    }
  }

  lemma {:induction false} WriteAllWhole(l: Link, packets: seq<seq<byte>>, turn: Turn, fates: seq<WriteFate>)
    requires !turn.Cut? && l.fates == FatesOf(turn, packets) + fates
    ensures WriteAll(l, packets) == On(l.(fates := fates, delivered := l.delivered + packets), Ok(()))
  {
    WriteAllSucceeds(l, packets);
    assert l.fates[|packets|..] == fates;
  }

  lemma BrokenOffIsLost(tag: byte, seen: seq<Event>, error: TransportError, rest: seq<Event>)
    requires BreaksOff(tag, seen, error)
    ensures Receive(tag, seen + rest) == Received(Err(error), rest)
    ensures error == Timeout || error == InvalidPacket
  {
    var n: nat, inside :| n + 1 == |seen| && FailsAt(tag, seen, n, inside, error, []);
    assert (seen + rest)[..n] == seen[..n] && (seen + rest)[n] == seen[n] && (seen + rest)[n + 1..] == rest;
    BrokenFrameFails(tag, seen + rest, n, inside, error, rest);
  }

  /** One exchange goes as its turn says, and leaves the link where the next turn begins. */
  lemma ExchangeTakesTurn(l: Link, c: ApduCommand, turn: Turn, fates: seq<WriteFate>, rest: seq<Event>)
    requires SessionMtu(l.mtu) && |c.Serialized()| <= U16_MAX
    requires Fits(turn, PacketsFor(c.Serialized(), MtuInForce(l.mtu)))
    requires l.fates == FatesOf(turn, PacketsFor(c.Serialized(), MtuInForce(l.mtu))) + fates
    requires l.inbox == EventsOf(turn) + rest
    ensures var ps := PacketsFor(c.Serialized(), MtuInForce(l.mtu));
            && ExchangeOn(l, c).link
               == Link(fates, ExchangeOn(l, c).link.delivered, rest, l.mtu, l.history + [Step(c, ReplyOf(turn))])
            && Arriving(turn, ps) <= |ps|
            && ExchangeOn(l, c).link.delivered == l.delivered + ps[..Arriving(turn, ps)]
  {
    var ps := PacketsFor(c.Serialized(), MtuInForce(l.mtu));
    PacketBound(APDU_COMMAND_TAG, c.Serialized(), MtuInForce(l.mtu));
    assert ps[..|ps|] == ps;
    match turn
    case Cut(_, _) =>
      WriteAllCut(l, ps, turn, fates);
      assert [] + rest == rest;
    case Failed(seen, error) =>
      WriteAllWhole(l, ps, turn, fates);
      BrokenOffIsLost(APDU_COMMAND_TAG, seen, error, rest);
    case Told(frame, answer) =>
      WriteAllWhole(l, ps, turn, fates);
      FrameIsReceived(APDU_COMMAND_TAG, frame, answer, rest);
  }

  // ---------------------------------------------------------------- runs of any length

  lemma UnfoldsButLast(l: Link, commands: seq<ApduCommand>, turns: seq<Turn>, fates: seq<WriteFate>, rest: seq<Event>)
    requires Unfolds(l, commands, turns, fates, rest) && turns != []
    ensures var n := |turns| - 1;
            && Fits(turns[n], PacketsAt(commands, MtuInForce(l.mtu), n))
            && Unfolds(l, commands[..n], turns[..n],
                       FatesOf(turns[n], PacketsAt(commands, MtuInForce(l.mtu), n)) + fates,
                       EventsOf(turns[n]) + rest)
  {
    var n, mtu := |turns| - 1, MtuInForce(l.mtu);
    Assoc(AllFates(commands[..n], turns[..n], mtu), FatesOf(turns[n], PacketsAt(commands, mtu, n)), fates);
    Assoc(AllEvents(turns[..n]), EventsOf(turns[n]), rest);
  }

  /** From `l`, some exchanges led to `l'`, recorded as `steps`, with `fates` and `rest` still to come. */
  ghost predicate Reaches(l: Link, steps: seq<Step>, fates: seq<WriteFate>, rest: seq<Event>, l': Link) {
    l'.fates == fates && l'.inbox == rest && l'.mtu == l.mtu && l'.history == l.history + steps
  }

  lemma TurnStep(
    l: Link, m: Link, steps: seq<Step>, c: ApduCommand, turn: Turn, fates: seq<WriteFate>, rest: seq<Event>)
    requires SessionMtu(l.mtu) && |c.Serialized()| <= U16_MAX
    requires Fits(turn, PacketsFor(c.Serialized(), MtuInForce(l.mtu)))
    requires Reaches(l, steps, FatesOf(turn, PacketsFor(c.Serialized(), MtuInForce(l.mtu))) + fates,
                     EventsOf(turn) + rest, m)
    ensures Reaches(l, steps + [Step(c, ReplyOf(turn))], fates, rest, ExchangeOn(m, c).link)
  {
    ExchangeTakesTurn(m, c, turn, fates, rest);
    Assoc(l.history, steps, [Step(c, ReplyOf(turn))]);
  }

  /** Over runs of any length every exchange gets the reply of its turn, and the link is left after the last turn. */
  lemma {:induction false} EveryTurnIsTaken(
    l: Link, commands: seq<ApduCommand>, turns: seq<Turn>, fates: seq<WriteFate>, rest: seq<Event>)
    requires SessionMtu(l.mtu) && Sendable(commands) && Unfolds(l, commands, turns, fates, rest)
    ensures Reaches(l, Replied(commands, turns), fates, rest, After(l, commands))
    decreases |turns|
  {
    if turns == [] {
      NoTurnIsTaken(l, commands, turns, fates, rest);
    } else {
      var n := |turns| - 1;
      var ps := PacketsAt(commands, MtuInForce(l.mtu), n);
      UnfoldsButLast(l, commands, turns, fates, rest);
      EveryTurnIsTaken(l, commands[..n], turns[..n], FatesOf(turns[n], ps) + fates, EventsOf(turns[n]) + rest);
      LastTurnIsTaken(l, commands, turns, fates, rest);
    }
  }

  lemma {:induction false} NoTurnIsTaken(
    l: Link, commands: seq<ApduCommand>, turns: seq<Turn>, fates: seq<WriteFate>, rest: seq<Event>)
    requires Unfolds(l, commands, turns, fates, rest) && turns == []
    ensures Reaches(l, Replied(commands, turns), fates, rest, After(l, commands))
  {
    assert [] + rest == rest && [] + fates == fates;
    assert l.history + [] == l.history;
  }

  lemma {:induction false} LastTurnIsTaken(
    l: Link, commands: seq<ApduCommand>, turns: seq<Turn>, fates: seq<WriteFate>, rest: seq<Event>)
    requires SessionMtu(l.mtu) && Sendable(commands) && |turns| == |commands| > 0
    requires Fits(turns[|turns| - 1], PacketsAt(commands, MtuInForce(l.mtu), |turns| - 1))
    requires var n := |turns| - 1;
             Reaches(l, Replied(commands[..n], turns[..n]),
                     FatesOf(turns[n], PacketsAt(commands, MtuInForce(l.mtu), n)) + fates,
                     EventsOf(turns[n]) + rest, After(l, commands[..n]))
    ensures Reaches(l, Replied(commands, turns), fates, rest, After(l, commands))
  {
    var n := |turns| - 1;
    TurnStep(l, After(l, commands[..n]), Replied(commands[..n], turns[..n]), commands[n], turns[n], fates, rest);
    RepliedSnoc(commands, turns);
  }

  lemma RepliedSnoc(commands: seq<ApduCommand>, turns: seq<Turn>)
    requires |turns| == |commands| > 0
    ensures Replied(commands, turns) ==
            (var n := |turns| - 1;
             Replied(commands[..n], turns[..n]) + [Step(commands[n], ReplyOf(turns[n]))])
  {
  }

  // ---------------------------------------------------------------- every run is a run of turns

  /** The first of the next `n` fates that is no acknowledgement, or `n`. */
  lemma {:induction false} FirstCutAmong(fates: seq<WriteFate>, n: nat) returns (k: nat)
    requires n <= |fates|
    ensures k <= n && fates[..k] == seq(k, _ => Acked) && (k < n ==> !fates[k].Acked?)
    decreases n
  {
    if n == 0 {
      k := 0;
    } else {
      k := FirstCutAmong(fates, n - 1);
      if k == n - 1 && fates[k].Acked? {
        assert fates[..n] == fates[..k] + [Acked];
        k := n;
      }
    }
  }

  /** Whatever an exchange meets, unless the stream ends, is one of the turns. */
  lemma ExchangeIsTurn(l: Link, c: ApduCommand)
    returns (turn: Turn, fates: seq<WriteFate>, rest: seq<Event>)
    requires SessionMtu(l.mtu) && |c.Serialized()| <= U16_MAX
    requires |PacketsFor(c.Serialized(), MtuInForce(l.mtu))| <= |l.fates|
    requires ExchangeOn(l, c).result != Err(StreamEnded)
    ensures Fits(turn, PacketsFor(c.Serialized(), MtuInForce(l.mtu)))
    ensures l.fates == FatesOf(turn, PacketsFor(c.Serialized(), MtuInForce(l.mtu))) + fates
    ensures l.inbox == EventsOf(turn) + rest
  {
    var ps := PacketsFor(c.Serialized(), MtuInForce(l.mtu));
    var k := FirstCutAmong(l.fates, |ps|);
    if k < |ps| {
      turn, fates, rest := Cut(k, l.fates[k]), l.fates[k + 1..], l.inbox;
      assert l.fates == l.fates[..k] + [l.fates[k]] + fates;
      assert l.inbox == [] + rest;
    } else {
      fates := l.fates[k..];
      assert l.fates == l.fates[..k] + fates;
      assert Acknowledged(l.fates, |ps|);
      ReceivedWhenWritten(l, c);
      turn, rest := StreamIsTurn(l.inbox);
    }
  }

  lemma ReceivedWhenWritten(l: Link, c: ApduCommand)
    requires SessionMtu(l.mtu) && |c.Serialized()| <= U16_MAX
    requires Acknowledged(l.fates, |PacketsFor(c.Serialized(), MtuInForce(l.mtu))|)
    ensures ExchangeOn(l, c).result != Err(StreamEnded) ==>
              Receive(APDU_COMMAND_TAG, l.inbox).result != Err(StreamEnded)
  {
    PacketBound(APDU_COMMAND_TAG, c.Serialized(), MtuInForce(l.mtu));
    WriteAllSucceeds(l, PacketsFor(c.Serialized(), MtuInForce(l.mtu)));
  }

  lemma StreamIsTurn(inbox: seq<Event>) returns (turn: Turn, rest: seq<Event>)
    requires Receive(APDU_COMMAND_TAG, inbox).result != Err(StreamEnded)
    ensures !turn.Cut? && Fits(turn, []) && inbox == EventsOf(turn) + rest
  {
    var r := Receive(APDU_COMMAND_TAG, inbox);
    rest := r.rest;
    ReceiveCases(APDU_COMMAND_TAG, inbox);
    match r.result
    case Ok(b) =>
      var seen :| inbox == seen + rest && Carries(APDU_COMMAND_TAG, seen, b);
      turn := Told(seen, b);
    case Err(e) =>
      var n: nat, inside :| FailsAt(APDU_COMMAND_TAG, inbox, n, inside, e, rest);
      var seen := inbox[..n + 1];
      turn := Failed(seen, e);
      assert seen[..n] == inbox[..n] && seen[n] == inbox[n] && seen[n + 1..] == [];
      assert n + 1 == |seen| && FailsAt(APDU_COMMAND_TAG, seen, n, inside, e, []);
  }

  /** No exchange of the run found the stream at its end. */
  predicate StreamLasts(l: Link, l': Link) {
    |l.history| <= |l'.history| && forall i | |l.history| <= i < |l'.history| :: l'.history[i].reply != Err(StreamEnded)
  }

  lemma {:induction false} StreamLastedBefore(l: Link, commands: seq<ApduCommand>)
    requires commands != [] && StreamLasts(l, After(l, commands))
    ensures var n := |commands| - 1;
            && StreamLasts(l, After(l, commands[..n]))
            && ExchangeOn(After(l, commands[..n]), commands[n]).result != Err(StreamEnded)
  {
    var n := |commands| - 1;
    var m, l' := After(l, commands[..n]), After(l, commands);
    HistoryGrows(l, commands, n);
    ExchangeKeeps(m, commands[n]);
    assert forall i | |l.history| <= i < |m.history| :: m.history[i] == l'.history[i];
    assert l'.history[|m.history|].reply == ExchangeOn(m, commands[n]).result;
  }

  lemma FatesOfOne(turn: Turn, packets: seq<seq<byte>>)
    requires Fits(turn, packets)
    ensures |FatesOf(turn, packets)| <= |packets|
  {
  }

  lemma {:induction false} FatesAtMost(commands: seq<ApduCommand>, turns: seq<Turn>, mtu: nat)
    requires |turns| == |commands| && AllFit(commands, turns, mtu)
    ensures |AllFates(commands, turns, mtu)| <= |PacketsOf(commands, mtu)|
    decreases |turns|
  {
    if turns != [] {
      var n := |turns| - 1;
      FatesAtMost(commands[..n], turns[..n], mtu);
      FatesOfOne(turns[n], PacketsAt(commands, mtu, n));
    }
  }

  lemma UnfoldsSnoc(
    l: Link, commands: seq<ApduCommand>, turns: seq<Turn>, fates: seq<WriteFate>, rest: seq<Event>, turn: Turn,
    fates': seq<WriteFate>, rest': seq<Event>)
    requires commands != [] && Unfolds(l, commands[..|commands| - 1], turns, fates, rest)
    requires Fits(turn, PacketsAt(commands, MtuInForce(l.mtu), |commands| - 1))
    requires fates == FatesOf(turn, PacketsAt(commands, MtuInForce(l.mtu), |commands| - 1)) + fates'
    requires rest == EventsOf(turn) + rest'
    ensures Unfolds(l, commands, turns + [turn], fates', rest')
  {
    var n, mtu := |commands| - 1, MtuInForce(l.mtu);
    assert (turns + [turn])[..n] == turns;
    Assoc(AllFates(commands[..n], turns, mtu), FatesOf(turn, PacketsAt(commands, mtu, n)), fates');
    Assoc(AllEvents(turns), EventsOf(turn), rest');
  }

  /**
   * The turns leave nothing out: on every link, whatever its writes and its stream hold, every run that does not
   * reach the end of either is a run of turns.
   */
  lemma {:induction false} EveryRunUnfolds(l: Link, commands: seq<ApduCommand>)
    returns (turns: seq<Turn>, fates: seq<WriteFate>, rest: seq<Event>)
    requires SessionMtu(l.mtu) && Sendable(commands)
    requires |PacketsOf(commands, MtuInForce(l.mtu))| <= |l.fates| && StreamLasts(l, After(l, commands))
    ensures Unfolds(l, commands, turns, fates, rest)
    decreases |commands|
  {
    if commands == [] {
      turns, fates, rest := [], l.fates, l.inbox;
      assert l.fates == [] + fates && l.inbox == [] + rest;
    } else {
      var n, mtu := |commands| - 1, MtuInForce(l.mtu);
      StreamLastedBefore(l, commands);
      turns, fates, rest := EveryRunUnfolds(l, commands[..n]);
      EveryTurnIsTaken(l, commands[..n], turns, fates, rest);
      FatesAtMost(commands[..n], turns, mtu);
      var turn, fates', rest' := ExchangeIsTurn(After(l, commands[..n]), commands[n]);
      UnfoldsSnoc(l, commands, turns, fates, rest, turn, fates', rest');
      turns, fates, rest := turns + [turn], fates', rest';
    }
  }

  // ---------------------------------------------------------------- what the device hears in such a run

  /** The device hears the command of a turn: all of its packets arrive. */
  predicate Hears(turn: Turn, packets: seq<seq<byte>>) {
    Arriving(turn, packets) == |packets|
  }

  /** No turn leaves the device in the middle of a frame. */
  predicate Whole(commands: seq<ApduCommand>, turns: seq<Turn>, mtu: nat)
    requires |turns| == |commands|
  {
    forall i | 0 <= i < |turns| ::
      Hears(turns[i], PacketsAt(commands, mtu, i)) || Arriving(turns[i], PacketsAt(commands, mtu, i)) == 0
  }

  /** The commands the device hears. */
  function HeardOf(commands: seq<ApduCommand>, turns: seq<Turn>, mtu: nat): seq<ApduCommand>
    requires |turns| == |commands|
    decreases |turns|
  {
    var n := |turns| - 1;
    if turns == [] then []
    else HeardOf(commands[..n], turns[..n], mtu)
         + (if Hears(turns[n], PacketsAt(commands, mtu, n)) then [commands[n]] else [])
  }

  /** The number of answers read. */
  function ReadOf(turns: seq<Turn>): nat
    decreases |turns|
  {
    if turns == [] then 0 else ReadOf(turns[..|turns| - 1]) + (if turns[|turns| - 1].Told? then 1 else 0)
  }

  lemma {:induction false} HeardOfIsSendable(commands: seq<ApduCommand>, turns: seq<Turn>, mtu: nat)
    requires |turns| == |commands| && Sendable(commands)
    ensures Sendable(HeardOf(commands, turns, mtu))
    decreases |turns|
  {
    if turns != [] {
      HeardOfIsSendable(commands[..|turns| - 1], turns[..|turns| - 1], mtu);
    }
  }

  lemma TurnIsHeard(h: seq<seq<byte>>, c: ApduCommand, turn: Turn, mtu: nat)
    requires |c.Serialized()| <= U16_MAX && mtu >= 6
    requires Arriving(turn, PacketsFor(c.Serialized(), mtu)) <= |PacketsFor(c.Serialized(), mtu)|
    requires Hears(turn, PacketsFor(c.Serialized(), mtu)) || Arriving(turn, PacketsFor(c.Serialized(), mtu)) == 0
    ensures var ps := PacketsFor(c.Serialized(), mtu);
            HearAll(Peer(Idle, h), ps[..Arriving(turn, ps)]) ==
            Peer(Idle, if Hears(turn, ps) then h + [c.Serialized()] else h)
  {
    FrameIsHeard(h, c.Serialized(), mtu, Arriving(turn, PacketsFor(c.Serialized(), mtu)));
  }

  /**
   * As long as no failure leaves it in the middle of a frame, the device hears exactly the commands that
   * arrived whole.
   */
  lemma {:induction false} TurnsAreHeard(
    l: Link, h: seq<seq<byte>>, commands: seq<ApduCommand>, turns: seq<Turn>, fates: seq<WriteFate>, rest: seq<Event>)
    requires SessionMtu(l.mtu) && Sendable(commands) && Unfolds(l, commands, turns, fates, rest)
    requires Whole(commands, turns, MtuInForce(l.mtu))
    ensures l.delivered <= After(l, commands).delivered
    ensures HeardSince(h, l, After(l, commands))
         == Peer(Idle, h + SerializedAll(HeardOf(commands, turns, MtuInForce(l.mtu))))
    decreases |turns|
  {
    var mtu := MtuInForce(l.mtu);
    if turns == [] {
      assert h + SerializedAll(HeardOf(commands, turns, mtu)) == h;
    } else {
      var n := |turns| - 1;
      var heard, ps := HeardOf(commands[..n], turns[..n], mtu), PacketsAt(commands, mtu, n);
      var fates', rest' := FatesOf(turns[n], ps) + fates, EventsOf(turns[n]) + rest;
      UnfoldsButLast(l, commands, turns, fates, rest);
      WholeButLast(commands, turns, mtu);
      TurnsAreHeard(l, h, commands[..n], turns[..n], fates', rest');
      EveryTurnIsTaken(l, commands[..n], turns[..n], fates', rest');
      TurnHeardStep(l, h, After(l, commands[..n]), heard, commands[n], turns[n], fates, rest);
    }
  }

  lemma TurnHeardStep(
    l: Link, h: seq<seq<byte>>, m: Link, heard: seq<ApduCommand>, c: ApduCommand, turn: Turn, fates: seq<WriteFate>,
    rest: seq<Event>)
    requires SessionMtu(m.mtu) && |c.Serialized()| <= U16_MAX
    requires Fits(turn, PacketsFor(c.Serialized(), MtuInForce(m.mtu)))
    requires m.fates == FatesOf(turn, PacketsFor(c.Serialized(), MtuInForce(m.mtu))) + fates
    requires m.inbox == EventsOf(turn) + rest
    requires l.delivered <= m.delivered && HeardSince(h, l, m) == Peer(Idle, h + SerializedAll(heard))
    requires var ps := PacketsFor(c.Serialized(), MtuInForce(m.mtu));
             Hears(turn, ps) || Arriving(turn, ps) == 0
    ensures var ps, l' := PacketsFor(c.Serialized(), MtuInForce(m.mtu)), ExchangeOn(m, c).link;
            && l.delivered <= l'.delivered
            && HeardSince(h, l, l') == Peer(Idle, h + SerializedAll(heard + (if Hears(turn, ps) then [c] else [])))
  {
    var ps := PacketsFor(c.Serialized(), MtuInForce(m.mtu));
    ExchangeTakesTurn(m, c, turn, fates, rest);
    TurnIsHeard(h + SerializedAll(heard), c, turn, MtuInForce(m.mtu));
    HeardStep(h, l, m, ExchangeOn(m, c).link, ps[..Arriving(turn, ps)]);
    if Hears(turn, ps) {
      SerializedSnoc(h, heard + [c]);
      assert (heard + [c])[..|heard|] == heard;
    } else {
      assert heard + [] == heard;
    }
  }

  lemma WholePrefix(commands: seq<ApduCommand>, turns: seq<Turn>, mtu: nat, k: nat)
    requires |turns| == |commands| && k <= |turns| && Whole(commands, turns, mtu)
    ensures Whole(commands[..k], turns[..k], mtu)
  {
    forall i | 0 <= i < k
      ensures var ps := PacketsAt(commands[..k], mtu, i);
              Hears(turns[..k][i], ps) || Arriving(turns[..k][i], ps) == 0
    {
      assert PacketsAt(commands[..k], mtu, i) == PacketsAt(commands, mtu, i);
    }
  }

  lemma WholeButLast(commands: seq<ApduCommand>, turns: seq<Turn>, mtu: nat)
    requires |turns| == |commands| > 0 && Whole(commands, turns, mtu)
    ensures Whole(commands[..|turns| - 1], turns[..|turns| - 1], mtu)
    ensures var n := |turns| - 1;
            var ps := PacketsAt(commands, mtu, n);
            Hears(turns[n], ps) || Arriving(turns[n], ps) == 0
  {
    WholePrefix(commands, turns, mtu, |turns| - 1);
  }

  lemma {:induction false} HeardStep(h: seq<seq<byte>>, l: Link, m: Link, l': Link, packets: seq<seq<byte>>)
    requires l.delivered <= m.delivered && l'.delivered == m.delivered + packets
    ensures l.delivered <= l'.delivered
    ensures HeardSince(h, l, l') == HearAll(HeardSince(h, l, m), packets)
  {
    var before := m.delivered[|l.delivered|..];
    assert l'.delivered[|l.delivered|..] == before + packets;
    HearConcat(Peer(Idle, h), before, packets);
  }

  /** A device that starts anew hears every command that arrives whole, cut frames in between or not. */
  lemma {:induction false} ArrivedAreHeard(
    l: Link, commands: seq<ApduCommand>, turns: seq<Turn>, fates: seq<WriteFate>, rest: seq<Event>)
    requires SessionMtu(l.mtu) && Sendable(commands) && Unfolds(l, commands, turns, fates, rest)
    ensures Arrived(l, commands) == HeardOf(commands, turns, MtuInForce(l.mtu))
    decreases |turns|
  {
    if turns != [] {
      var n, mtu := |turns| - 1, MtuInForce(l.mtu);
      var ps := PacketsAt(commands, mtu, n);
      var fates', rest' := FatesOf(turns[n], ps) + fates, EventsOf(turns[n]) + rest;
      UnfoldsButLast(l, commands, turns, fates, rest);
      ArrivedAreHeard(l, commands[..n], turns[..n], fates', rest');
      EveryTurnIsTaken(l, commands[..n], turns[..n], fates', rest');
      TurnArrives(After(l, commands[..n]), commands[n], turns[n], fates, rest);
    }
  }

  lemma TurnArrives(l: Link, c: ApduCommand, turn: Turn, fates: seq<WriteFate>, rest: seq<Event>)
    requires SessionMtu(l.mtu) && |c.Serialized()| <= U16_MAX
    requires Fits(turn, PacketsFor(c.Serialized(), MtuInForce(l.mtu)))
    requires l.fates == FatesOf(turn, PacketsFor(c.Serialized(), MtuInForce(l.mtu))) + fates
    requires l.inbox == EventsOf(turn) + rest
    ensures ArrivesWhole(l, c) <==> Hears(turn, PacketsFor(c.Serialized(), MtuInForce(l.mtu)))
  {
    ExchangeTakesTurn(l, c, turn, fates, rest);
  }
}
