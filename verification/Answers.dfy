/** Which answer each exchange of a run reads, and exactly when it is its own. */
module Answers {
  import opened Wrappers
  import opened Bytes
  import opened Packets
  import opened Framing
  import opened Receiving
  import opened Strict
  import opened Noise
  import opened Apdu
  import opened Links
  import opened Pairing
  import opened Stalled
  import opened Turns

  /** A reply by which a caller sees that the exchange failed and an answer may have been left behind. */
  predicate Troubled(reply: Reply) {
    reply == Err(Timeout) || reply == Err(InvalidPacket) || reply == Err(WriteFailed)
  }

  predicate Calm(steps: seq<Step>) {
    forall i | 0 <= i < |steps| :: !Troubled(steps[i].reply)
  }

  // ---------------------------------------------------------------- on every link, as long as nothing fails

  /**
   * One exchange on any link whose readable notifications begin with a frame: it returns the answer carried by
   * the frame, or fails visibly and leaves what it has not read of the frame.
   */
  lemma AnswersOrTrouble(
    l: Link, c: ApduCommand, frame: seq<Event>, answer: seq<byte>, rest: seq<Event>) returns (k: nat)
    requires SessionMtu(l.mtu) && |c.Serialized()| <= U16_MAX
    requires Carries(APDU_COMMAND_TAG, frame, answer) && Readable(l.inbox) == frame + rest
    ensures k <= |frame|
    ensures var x := ExchangeOn(l, c);
            && Readable(x.link.inbox) == frame[k..] + rest
            && (if k == |frame| then x.result == ApduAnswer.FromAnswer(answer) else Troubled(x.result))
  {
    PacketBound(APDU_COMMAND_TAG, c.Serialized(), MtuInForce(l.mtu));
    var written := WriteAllLands(l, PacketsFor(c.Serialized(), MtuInForce(l.mtu)));
    if ExchangeOn(l, c).result == Err(WriteFailed) && ExchangeOn(l, c).link.inbox == l.inbox {
      k := 0;
      FrameIsNotEmpty(APDU_COMMAND_TAG, frame, answer);
      assert frame[0..] == frame;
    } else {
      k := ReceivesOrFails(APDU_COMMAND_TAG, l.inbox, frame, answer, rest);
    }
  }

  lemma FrameIsNotEmpty(tag: byte, frame: seq<Event>, b: seq<byte>)
    requires Carries(tag, frame, b)
    ensures frame != []
  {
  }

  lemma CalmPrefix(a: seq<Step>, b: seq<Step>, c: seq<Step>)
    requires a <= b < c && Calm(c[|a|..])
    ensures Calm(b[|a|..]) && !Troubled(c[|c| - 1].reply)
  {
    assert forall i | 0 <= i < |b| - |a| :: b[|a|..][i] == c[|a|..][i];
    assert c[|c| - 1] == c[|a|..][|c| - |a| - 1];
  }

  /**
   * On every link, whatever becomes of its writes and wherever timeouts and malformed notifications stand in its
   * stream, even inside frames: if the readable notifications are one frame per command, foreign packets
   * included, then in a run without visible trouble each command gets its own answer, and the stream is left at
   * a frame boundary.
   */
  lemma {:induction false} CalmRunPairs(
    l: Link, commands: seq<ApduCommand>, frames: seq<seq<Event>>, answers: seq<seq<byte>>, rest: seq<Event>)
    requires SessionMtu(l.mtu) && Sendable(commands) && |answers| == |commands|
    requires Answering(Readable(l.inbox), frames, answers, rest)
    requires l.history <= After(l, commands).history && Calm(After(l, commands).history[|l.history|..])
    ensures After(l, commands).history == l.history + Paired(commands, answers)
    ensures Readable(After(l, commands).inbox) == rest
    decreases |commands|
  {
    if commands == [] {
      assert [] + rest == rest && l.history + Paired(commands, answers) == l.history;
    } else {
      var n := |commands| - 1;
      var m, l' := After(l, commands[..n]), After(l, commands);
      HistoryGrows(l, commands, n);
      HistoryGrows(l, commands[..n], 0);
      CalmPrefix(l.history, m.history, l'.history);
      FramesSnoc(frames, rest);
      CalmRunPairs(l, commands[..n], frames[..n], answers[..n], frames[n] + rest);
      SessionIsSafe(l, commands[..n]);
      ExchangeKeeps(m, commands[n]);
      var k := AnswersOrTrouble(m, commands[n], frames[n], answers[n], rest);
      assert frames[n][|frames[n]|..] + rest == rest;
      PairedSnoc(commands, answers);
      Assoc(l.history, Paired(commands[..n], answers[..n]), [Step(commands[n], ApduAnswer.FromAnswer(answers[n]))]);
    }
  }

  // ---------------------------------------------------------------- reading frames turn by turn

  /** Every receive that failed did so between frames: it read nothing readable. */
  predicate BetweenFrames(turns: seq<Turn>) {
    forall i | 0 <= i < |turns| && turns[i].Failed? :: Readable(turns[i].seen) == []
  }

  lemma {:induction false} TurnReads(
    turn: Turn, packets: seq<seq<byte>>, more: seq<Event>, frames: seq<seq<Event>>, answers: seq<seq<byte>>,
    rest: seq<Event>)
    requires Fits(turn, packets) && (turn.Failed? ==> Readable(turn.seen) == [])
    requires Answering(Readable(EventsOf(turn) + more), frames, answers, rest)
    requires turn.Told? ==> frames != []
    ensures if turn.Told? then turn.answer == answers[0] && Answering(Readable(more), frames[1..], answers[1..], rest)
            else Answering(Readable(more), frames, answers, rest)
  {
    ReadableConcat(EventsOf(turn), more);
    if turn.Told? {
      var own, left := Readable(turn.frame), Flatten(frames[1..]) + rest;
      ReadableFrame(APDU_COMMAND_TAG, turn.frame, turn.answer);
      Assoc(frames[0], Flatten(frames[1..]), rest);
      FrameIsUnique(APDU_COMMAND_TAG, frames[0] + left, own, turn.answer, frames[0], answers[0]);
      assert (own + Readable(more))[|own|..] == Readable(more) && (frames[0] + left)[|own|..] == left;
    } else {
      assert [] + Readable(more) == Readable(more);
    }
  }

  /** The turns of a run read the frames of the stream in order, as many as there are answers read. */
  lemma {:induction false} TurnsReadFrames(
    commands: seq<ApduCommand>, turns: seq<Turn>, mtu: nat, more: seq<Event>, frames: seq<seq<Event>>,
    answers: seq<seq<byte>>, rest: seq<Event>)
    requires |turns| == |commands| && AllFit(commands, turns, mtu) && BetweenFrames(turns)
    requires Answering(Readable(AllEvents(turns) + more), frames, answers, rest) && ReadOf(turns) <= |frames|
    ensures Answering(Readable(more), frames[ReadOf(turns)..], answers[ReadOf(turns)..], rest)
    ensures turns != [] && turns[|turns| - 1].Told? ==> turns[|turns| - 1].answer == answers[ReadOf(turns) - 1]
    decreases |turns|
  {
    if turns == [] {
      assert [] + more == more && frames[0..] == frames && answers[0..] == answers;
    } else {
      var n := |turns| - 1;
      var r := ReadOf(turns[..n]);
      Assoc(AllEvents(turns[..n]), EventsOf(turns[n]), more);
      TurnsReadFrames(commands[..n], turns[..n], mtu, EventsOf(turns[n]) + more, frames, answers, rest);
      TurnReads(turns[n], PacketsAt(commands, mtu, n), more, frames[r..], answers[r..], rest);
      if turns[n].Told? {
        assert frames[r..][1..] == frames[r + 1..] && answers[r..][1..] == answers[r + 1..];
      }
    }
  }

  // ---------------------------------------------------------------- whose answer is it

  /** Among the first `i` turns, every command heard was also answered in its own turn. */
  predicate InStep(commands: seq<ApduCommand>, turns: seq<Turn>, mtu: nat, i: nat)
    requires |turns| == |commands| && i <= |turns|
  {
    forall j | 0 <= j < i && Hears(turns[j], PacketsAt(commands, mtu, j)) :: turns[j].Told?
  }

  lemma InStepPrefix(commands: seq<ApduCommand>, turns: seq<Turn>, mtu: nat, i: nat)
    requires |turns| == |commands| && i <= |turns|
    ensures InStep(commands[..i], turns[..i], mtu, i) <==> InStep(commands, turns, mtu, i)
  {
    assert forall j | 0 <= j < i ::
        PacketsAt(commands[..i], mtu, j) == PacketsAt(commands, mtu, j) && turns[..i][j] == turns[j];
  }

  /** Never more answers read than commands heard, and as many exactly if the run is in step. */
  lemma {:induction false} ReadAtMostHeard(commands: seq<ApduCommand>, turns: seq<Turn>, mtu: nat)
    requires |turns| == |commands|
    ensures ReadOf(turns) <= |HeardOf(commands, turns, mtu)| <= |turns|
    ensures ReadOf(turns) == |HeardOf(commands, turns, mtu)| <==> InStep(commands, turns, mtu, |turns|)
    decreases |turns|
  {
    if turns != [] {
      ReadAtMostHeard(commands[..|turns| - 1], turns[..|turns| - 1], mtu);
      InStepPrefix(commands, turns, mtu, |turns| - 1);
    }
  }

  /** What the device has heard after `i` turns is the beginning of what it hears in all. */
  lemma {:induction false} HeardGrows(commands: seq<ApduCommand>, turns: seq<Turn>, mtu: nat, i: nat)
    requires |turns| == |commands| && i <= |turns|
    ensures HeardOf(commands[..i], turns[..i], mtu) <= HeardOf(commands, turns, mtu)
    decreases |turns| - i
  {
    if i == |turns| {
      assert commands[..i] == commands && turns[..i] == turns;
    } else {
      HeardStepOf(commands, turns, mtu, i);
      HeardGrows(commands, turns, mtu, i + 1);
    }
  }

  lemma {:induction false} HeardStepOf(commands: seq<ApduCommand>, turns: seq<Turn>, mtu: nat, i: nat)
    requires |turns| == |commands| && i < |turns|
    ensures HeardOf(commands[..i + 1], turns[..i + 1], mtu)
         == HeardOf(commands[..i], turns[..i], mtu)
            + (if Hears(turns[i], PacketsAt(commands, mtu, i)) then [commands[i]] else [])
  {
    assert commands[..i + 1][..i] == commands[..i] && turns[..i + 1][..i] == turns[..i];
  }

  /** Answers that can be told apart. */
  predicate Distinct(answers: seq<seq<byte>>) {
    && (forall i | 0 <= i < |answers| :: |answers[i]| >= 2)
    && (forall i, j | 0 <= i < j < |answers| :: answers[i] != answers[j])
  }

  lemma DistinctReplies(answers: seq<seq<byte>>, a: nat, b: nat)
    requires Distinct(answers) && a < |answers| && b < |answers|
    requires ApduAnswer.FromAnswer(answers[a]) == ApduAnswer.FromAnswer(answers[b])
    ensures a == b
  {
    AnswerRoundTrip([], 0, answers[a]);
    AnswerRoundTrip([], 0, answers[b]);
  }

  lemma {:induction false} TurnReplies(
    l: Link, commands: seq<ApduCommand>, turns: seq<Turn>, fates: seq<WriteFate>, rest: seq<Event>)
    requires SessionMtu(l.mtu) && Sendable(commands) && Unfolds(l, commands, turns, fates, rest)
    ensures var history := After(l, commands).history;
            && |history| == |l.history| + |commands|
            && forall j | 0 <= j < |commands| :: history[|l.history|..][j] == Step(commands[j], ReplyOf(turns[j]))
  {
    EveryTurnIsTaken(l, commands, turns, fates, rest);
    DropPrefix(l.history, Replied(commands, turns));
  }

  lemma {:induction false} OwnIsAnswered(commands: seq<ApduCommand>, turns: seq<Turn>, mtu: nat, i: nat)
    requires |turns| == |commands| && i < |turns| && turns[i].Told?
    ensures |HeardOf(commands[..i], turns[..i], mtu)| < |HeardOf(commands, turns, mtu)|
  {
    HeardStepOf(commands, turns, mtu, i);
    HeardGrows(commands, turns, mtu, i + 1);
  }

  lemma {:induction false} UnfoldsPrefix(
    l: Link, commands: seq<ApduCommand>, turns: seq<Turn>, fates: seq<WriteFate>, rest: seq<Event>,
    k: nat) returns (fates': seq<WriteFate>, rest': seq<Event>)
    requires Unfolds(l, commands, turns, fates, rest) && k <= |turns|
    ensures Unfolds(l, commands[..k], turns[..k], fates', rest')
    decreases |turns|
  {
    if k == |turns| {
      fates', rest' := fates, rest;
      assert commands[..k] == commands && turns[..k] == turns;
    } else {
      var n := |turns| - 1;
      var ps := PacketsAt(commands, MtuInForce(l.mtu), n);
      UnfoldsButLast(l, commands, turns, fates, rest);
      fates', rest' := UnfoldsPrefix(l, commands[..n], turns[..n],
                                     FatesOf(turns[n], ps) + fates, EventsOf(turns[n]) + rest, k);
      assert commands[..n][..k] == commands[..k] && turns[..n][..k] == turns[..k];
    }
  }

  lemma OneMoreRead(turns: seq<Turn>, i: nat)
    requires i < |turns| && turns[i].Told? && BetweenFrames(turns[..i])
    ensures BetweenFrames(turns[..i + 1]) && ReadOf(turns[..i + 1]) == ReadOf(turns[..i]) + 1
  {
    assert turns[..i + 1][..i] == turns[..i];
    assert forall j | 0 <= j < i :: turns[..i + 1][j] == turns[..i][j];
  }

  lemma {:induction false} ReadsLast(
    l: Link, commands: seq<ApduCommand>, turns: seq<Turn>, fates: seq<WriteFate>, left: seq<Event>,
    frames: seq<seq<Event>>, answers: seq<seq<byte>>, rest: seq<Event>)
    requires Unfolds(l, commands, turns, fates, left) && Answering(Readable(l.inbox), frames, answers, rest)
    requires turns != [] && turns[|turns| - 1].Told? && BetweenFrames(turns) && 0 < ReadOf(turns) <= |answers|
    ensures turns[|turns| - 1].answer == answers[ReadOf(turns) - 1]
  {
    TurnsReadFrames(commands, turns, MtuInForce(l.mtu), left, frames, answers, rest);
  }

  /** The answer read in turn `i` is the one numbered by the answers read before. */
  lemma ReadsNext(
    l: Link, commands: seq<ApduCommand>, turns: seq<Turn>, fates: seq<WriteFate>, left: seq<Event>,
    frames: seq<seq<Event>>, answers: seq<seq<byte>>, rest: seq<Event>, i: nat)
    requires Unfolds(l, commands, turns, fates, left) && Answering(Readable(l.inbox), frames, answers, rest)
    requires i < |turns| && turns[i].Told? && BetweenFrames(turns[..i]) && ReadOf(turns[..i]) < |answers|
    ensures turns[i].answer == answers[ReadOf(turns[..i])]
  {
    var fates', left' := UnfoldsPrefix(l, commands, turns, fates, left, i + 1);
    OneMoreRead(turns, i);
    ReadsLast(l, commands[..i + 1], turns[..i + 1], fates', left', frames, answers, rest);
  }

  /**
   * Exactly when pairing holds, over runs of any length in which writes fail and receives fail between frames.
   * The device answers the commands it hears in order, `answers[k]` being the answer to the one with number k,
   * by one frame each. The exchange `i` that reads an answer reads the one numbered by the answers read before
   * it, while its own is numbered by the commands heard before it. The two agree if and only if every earlier
   * command that was heard was answered in its own turn.
   */
  lemma {:induction false} PairsExactlyInStep(
    l: Link, commands: seq<ApduCommand>, turns: seq<Turn>, fates: seq<WriteFate>, left: seq<Event>,
    frames: seq<seq<Event>>, answers: seq<seq<byte>>, rest: seq<Event>, i: nat)
    requires SessionMtu(l.mtu) && Sendable(commands) && Unfolds(l, commands, turns, fates, left)
    requires Answering(Readable(l.inbox), frames, answers, rest)
    requires |answers| >= |HeardOf(commands, turns, MtuInForce(l.mtu))|
    requires i < |turns| && turns[i].Told? && BetweenFrames(turns[..i])
    ensures |After(l, commands).history| == |l.history| + |commands|
    ensures var read, own := ReadOf(turns[..i]), |HeardOf(commands[..i], turns[..i], MtuInForce(l.mtu))|;
            var reply := After(l, commands).history[|l.history|..][i].reply;
            && read <= own < |answers|
            && reply == ApduAnswer.FromAnswer(answers[read])
            && (read == own <==> InStep(commands, turns, MtuInForce(l.mtu), i))
            && (Distinct(answers) ==> (reply == ApduAnswer.FromAnswer(answers[own]) <==> read == own))
  {
    var mtu := MtuInForce(l.mtu);
    TurnReplies(l, commands, turns, fates, left);
    ReadAtMostHeard(commands[..i], turns[..i], mtu);
    InStepPrefix(commands, turns, mtu, i);
    OwnIsAnswered(commands, turns, mtu, i);
    ReadsNext(l, commands, turns, fates, left, frames, answers, rest, i);
    var read, own := ReadOf(turns[..i]), |HeardOf(commands[..i], turns[..i], mtu)|;
    if Distinct(answers) && ApduAnswer.FromAnswer(answers[read]) == ApduAnswer.FromAnswer(answers[own]) {
      DistinctReplies(answers, read, own);
    }
  }

  /**
   * The condition as a caller sees it. If no earlier exchange of the run was in trouble, the answer read is the
   * own one, wherever in the stream later failures fall. And where the earlier failures fell between frames and
   * the device heard the earlier commands, as it does whenever the writes are acknowledged, only then.
   */
  lemma {:induction false} PairsExactlyWithoutTrouble(
    l: Link, commands: seq<ApduCommand>, turns: seq<Turn>, fates: seq<WriteFate>, left: seq<Event>,
    frames: seq<seq<Event>>, answers: seq<seq<byte>>, rest: seq<Event>, i: nat)
    requires SessionMtu(l.mtu) && Sendable(commands) && Unfolds(l, commands, turns, fates, left)
    requires Answering(Readable(l.inbox), frames, answers, rest)
    requires |answers| >= |HeardOf(commands, turns, MtuInForce(l.mtu))|
    requires i < |turns| && turns[i].Told?
    ensures |After(l, commands).history| == |l.history| + |commands|
    ensures var mtu, steps := MtuInForce(l.mtu), After(l, commands).history[|l.history|..];
            var read, own := ReadOf(turns[..i]), |HeardOf(commands[..i], turns[..i], mtu)|;
            var calm := Calm(steps[..i]);
            && read <= own < |answers|
            && (calm ==> read == own && steps[i].reply == ApduAnswer.FromAnswer(answers[own]))
            && (BetweenFrames(turns[..i]) ==> steps[i].reply == ApduAnswer.FromAnswer(answers[read]))
            && ((forall j | 0 <= j < i :: Hears(turns[j], PacketsAt(commands, mtu, j))) ==> (read == own <==> calm))
  {
    var mtu := MtuInForce(l.mtu);
    TurnReplies(l, commands, turns, fates, left);
    ReadAtMostHeard(commands[..i], turns[..i], mtu);
    InStepPrefix(commands, turns, mtu, i);
    OwnIsAnswered(commands, turns, mtu, i);
    CalmIsTold(commands, turns, mtu, After(l, commands).history[|l.history|..], i);
    if BetweenFrames(turns[..i]) {
      PairsExactlyInStep(l, commands, turns, fates, left, frames, answers, rest, i);
    }
  }

  lemma {:induction false} FitsAt(commands: seq<ApduCommand>, turns: seq<Turn>, mtu: nat, j: nat)
    requires |turns| == |commands| && AllFit(commands, turns, mtu) && j < |turns|
    ensures Fits(turns[j], PacketsAt(commands, mtu, j))
    decreases |turns|
  {
    var n := |turns| - 1;
    if j < n {
      FitsAt(commands[..n], turns[..n], mtu, j);
    }
  }

  lemma ToldIsNotTrouble(turn: Turn, packets: seq<seq<byte>>)
    requires Fits(turn, packets)
    ensures Troubled(ReplyOf(turn)) <==> !turn.Told?
  {
    if turn.Failed? {
      BrokenOffIsLost(APDU_COMMAND_TAG, turn.seen, turn.error, []);
    }
  }

  lemma {:induction false} CalmIsTold(
    commands: seq<ApduCommand>, turns: seq<Turn>, mtu: nat, steps: seq<Step>, i: nat)
    requires |commands| == |turns| && AllFit(commands, turns, mtu) && i <= |turns| <= |steps|
    requires forall j | 0 <= j < |turns| :: steps[j].reply == ReplyOf(turns[j])
    ensures Calm(steps[..i]) <==> forall j | 0 <= j < i :: turns[j].Told?
    ensures Calm(steps[..i]) ==> BetweenFrames(turns[..i])
  {
    forall j | 0 <= j < i ensures Troubled(steps[..i][j].reply) <==> !turns[j].Told? {
      FitsAt(commands, turns, mtu, j);
      ToldIsNotTrouble(turns[j], PacketsAt(commands, mtu, j));
    }
  }

  // ---------------------------------------------------------------- the closed loop with failures

  /** The answers a device gives to the commands it hears, each computed from all it has heard up to that command. */
  ghost predicate Responses(
    responder: seq<seq<byte>> -> seq<byte>, h: seq<seq<byte>>, heard: seq<ApduCommand>, answers: seq<seq<byte>>) {
    && |answers| == |heard|
    && forall k | 0 <= k < |answers| :: answers[k] == responder(h + SerializedAll(heard[..k + 1]))
  }

  /** The reply a device that has heard what `p` has means to give. */
  function AnswerTo(responder: seq<seq<byte>> -> seq<byte>, p: Peer): Reply {
    ApduAnswer.FromAnswer(responder(p.heard))
  }

  /**
   * The closed loop with failures: the reply of an exchange is the answer the device computes from all it has
   * heard once this exchange is over, if and only if every command heard before was answered in its own turn.
   * The device may start anew at every frame; if no write failed inside a frame, it may also be one that does not.
   */
  lemma {:induction false} ReplyIsOwnExactlyInStep(
    l: Link, h: seq<seq<byte>>, responder: seq<seq<byte>> -> seq<byte>, commands: seq<ApduCommand>, turns: seq<Turn>,
    fates: seq<WriteFate>, left: seq<Event>, frames: seq<seq<Event>>, answers: seq<seq<byte>>, rest: seq<Event>,
    i: nat)
    requires SessionMtu(l.mtu) && Sendable(commands) && Unfolds(l, commands, turns, fates, left)
    requires Answering(Readable(l.inbox), frames, answers, rest)
    requires i < |turns| && turns[i].Told? && BetweenFrames(turns[..i])
    requires Responses(responder, h, HeardOf(commands, turns, MtuInForce(l.mtu)), answers) && Distinct(answers)
    ensures l.delivered <= After(l, commands[..i + 1]).delivered
    ensures |After(l, commands).history| == |l.history| + |commands|
    ensures var reply := After(l, commands).history[|l.history|..][i].reply;
            var inStep := InStep(commands, turns, MtuInForce(l.mtu), i);
            && (forall a ::
                  (reply == AnswerTo(responder, AnewSince(Peer(a, h), l, After(l, commands[..i + 1]))) <==> inStep))
            && (Whole(commands, turns, MtuInForce(l.mtu)) ==>
                  (reply == AnswerTo(responder, HeardSince(h, l, After(l, commands[..i + 1]))) <==> inStep))
  {
    PairsExactlyInStep(l, commands, turns, fates, left, frames, answers, rest, i);
    DeviceAfterTurn(l, h, commands, turns, fates, left, i);
  }

  /** After a turn that reads an answer, the device has heard the commands up to this one. */
  lemma {:induction false} DeviceAfterTurn(
    l: Link, h: seq<seq<byte>>, commands: seq<ApduCommand>, turns: seq<Turn>, fates: seq<WriteFate>, rest: seq<Event>,
    i: nat)
    requires SessionMtu(l.mtu) && Sendable(commands) && Unfolds(l, commands, turns, fates, rest)
    requires i < |turns| && turns[i].Told?
    ensures l.delivered <= After(l, commands[..i + 1]).delivered
    ensures var mtu := MtuInForce(l.mtu);
            var heard, own := HeardOf(commands, turns, mtu), |HeardOf(commands[..i], turns[..i], mtu)|;
            && own < |heard|
            && (forall a :: AnewSince(Peer(a, h), l, After(l, commands[..i + 1])).heard
                            == h + SerializedAll(heard[..own + 1]))
            && (Whole(commands, turns, mtu) ==>
                  HeardSince(h, l, After(l, commands[..i + 1])).heard == h + SerializedAll(heard[..own + 1]))
  {
    var mtu := MtuInForce(l.mtu);
    var fates', rest' := UnfoldsPrefix(l, commands, turns, fates, rest, i + 1);
    HeardUpTo(commands, turns, mtu, i);
    if Whole(commands, turns, mtu) {
      WholePrefix(commands, turns, mtu, i + 1);
    }
    DeviceAfterTurns(l, h, commands[..i + 1], turns[..i + 1], fates', rest');
  }

  lemma {:induction false} DeviceAfterTurns(
    l: Link, h: seq<seq<byte>>, commands: seq<ApduCommand>, turns: seq<Turn>, fates: seq<WriteFate>, rest: seq<Event>)
    requires SessionMtu(l.mtu) && Sendable(commands) && Unfolds(l, commands, turns, fates, rest)
    ensures l.delivered <= After(l, commands).delivered
    ensures var heard := h + SerializedAll(HeardOf(commands, turns, MtuInForce(l.mtu)));
            && (forall a :: AnewSince(Peer(a, h), l, After(l, commands)).heard == heard)
            && (Whole(commands, turns, MtuInForce(l.mtu)) ==> HeardSince(h, l, After(l, commands)).heard == heard)
  {
    var mtu := MtuInForce(l.mtu);
    ArrivedAreHeard(l, commands, turns, fates, rest);
    SessionIsSafe(l, commands);
    forall a
      ensures AnewSince(Peer(a, h), l, After(l, commands)).heard == h + SerializedAll(HeardOf(commands, turns, mtu))
    {
      AnewHearsWhatArrives(Peer(a, h), l, commands);
    }
    if Whole(commands, turns, mtu) {
      TurnsAreHeard(l, h, commands, turns, fates, rest);
    }
  }

  lemma {:induction false} HeardUpTo(commands: seq<ApduCommand>, turns: seq<Turn>, mtu: nat, i: nat)
    requires |turns| == |commands| && i < |turns| && turns[i].Told?
    ensures var heard, own := HeardOf(commands, turns, mtu), |HeardOf(commands[..i], turns[..i], mtu)|;
            own < |heard| && heard[..own + 1] == HeardOf(commands[..i + 1], turns[..i + 1], mtu)
  {
    HeardStepOf(commands, turns, mtu, i);
    HeardGrows(commands, turns, mtu, i + 1);
  }
}
