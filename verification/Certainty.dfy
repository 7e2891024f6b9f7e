/** Visible trouble is all that a caller can go by: whatever else it has seen, the next reply may be misread. */
module Certainty {
  import opened Wrappers
  import opened Bytes
  import opened Packets
  import opened Receiving
  import opened Strict
  import opened Noise
  import opened Apdu
  import opened Links
  import opened Pairing
  import opened Turns
  import opened Answers
  import opened Misreads

  /** A reply an exchange can give as long as the link lasts: an answer that fits a frame, or a failure. */
  predicate Possible(reply: Reply) {
    match reply
    case Ok(answer) => |answer.data| + 2 <= U16_MAX
    case Err(e) => e == ResponseTooShort || Troubled(reply)
  }

  lemma AnswerFitsFrame(tag: byte, frame: seq<Event>, answer: seq<byte>)
    requires Carries(tag, frame, answer)
    ensures |answer| <= U16_MAX
  {
  }

  lemma AnswerIsPossible(answer: seq<byte>)
    requires |answer| <= U16_MAX
    ensures Possible(ApduAnswer.FromAnswer(answer))
  {
  }

  /** Indeed every turn gives such a reply, so every run of a link that lasts does. */
  lemma TurnsReplyPossibly(turn: Turn, packets: seq<seq<byte>>)
    requires Fits(turn, packets)
    ensures Possible(ReplyOf(turn))
  {
    match turn
    case Told(frame, answer) =>
      AnswerFitsFrame(APDU_COMMAND_TAG, frame, answer);
      AnswerIsPossible(answer);
    case Failed(seen, error) => BrokenOffIsLost(APDU_COMMAND_TAG, seen, error, []);
    case Cut(_, _) =>
  }

  function RawOf(reply: Reply): seq<byte> {
    match reply
    case Ok(answer) => answer.data + U16Be(answer.retcode)
    case Err(_) => []
  }

  /** One packet that carries the answer. */
  function PacketOf(answer: seq<byte>): Event
    requires |answer| <= U16_MAX
  {
    Data(InitialPacket(APDU_COMMAND_TAG, |answer|, answer).Encoded())
  }

  lemma PacketIsFrame(answer: seq<byte>)
    requires |answer| <= U16_MAX
    ensures Carries(APDU_COMMAND_TAG, [PacketOf(answer)], answer)
    ensures Readable([PacketOf(answer)]) == [PacketOf(answer)]
  {
    U16RoundTrip(|answer|);
    assert PacketOf(answer).value[5..] == answer;
    LoneIsFrame(APDU_COMMAND_TAG, PacketOf(answer));
  }

  /** A turn with this reply, in which the device hears the command. */
  function TurnFor(reply: Reply, packets: seq<seq<byte>>): Turn
    requires Possible(reply) && packets != []
  {
    if reply == Err(Timeout) then Failed([TimedOut], Timeout)
    else if reply == Err(InvalidPacket) then Failed([Data([])], InvalidPacket)
    else if reply == Err(WriteFailed) then Cut(|packets| - 1, Unacked)
    else Told([PacketOf(RawOf(reply))], RawOf(reply))
  }

  /** A turn whose frame, if there is one, holds nothing unreadable, and whose failure, if any, falls between frames. */
  ghost predicate Plain(turn: Turn) {
    match turn
    case Told(frame, answer) => Carries(APDU_COMMAND_TAG, frame, answer) && Readable(frame) == frame
    case Failed(seen, _) => Readable(seen) == []
    case Cut(_, _) => true
  }

  lemma TurnForFits(reply: Reply, packets: seq<seq<byte>>)
    requires Possible(reply) && packets != []
    ensures var turn := TurnFor(reply, packets);
            && Fits(turn, packets) && Plain(turn) && Hears(turn, packets)
            && ReplyOf(turn) == reply && (turn.Told? <==> !Troubled(reply))
  {
    NothingIsEnough();
    if !Troubled(reply) {
      PacketIsFrame(RawOf(reply));
      match reply
      case Ok(answer) => AnswerRoundTrip(answer.data, answer.retcode, []);
      case Err(_) => AnswerRoundTrip([], 0, []);
    }
  }

  // ---------------------------------------------------------------- the stream such turns leave

  function ToldFrames(turns: seq<Turn>): seq<seq<Event>>
    decreases |turns|
  {
    var n := |turns| - 1;
    if turns == [] then [] else ToldFrames(turns[..n]) + (if turns[n].Told? then [turns[n].frame] else [])
  }

  function ToldAnswers(turns: seq<Turn>): seq<seq<byte>>
    decreases |turns|
  {
    var n := |turns| - 1;
    if turns == [] then [] else ToldAnswers(turns[..n]) + (if turns[n].Told? then [turns[n].answer] else [])
  }

  ghost predicate AllPlain(turns: seq<Turn>)
    decreases |turns|
  {
    turns == [] || (AllPlain(turns[..|turns| - 1]) && Plain(turns[|turns| - 1]))
  }

  /** Appending one answered frame. */
  lemma AnsweringSnoc(
    inbox: seq<Event>, frames: seq<seq<Event>>, answers: seq<seq<byte>>, frame: seq<Event>, answer: seq<byte>)
    requires Answering(inbox, frames, answers, []) && Carries(APDU_COMMAND_TAG, frame, answer)
    ensures Answering(inbox + frame, frames + [frame], answers + [answer], [])
  {
    FlattenSnoc(frames, frame);
    assert inbox == Flatten(frames);
    assert inbox + frame == Flatten(frames + [frame]) + [];
  }

  lemma {:induction false} ToldStream(turns: seq<Turn>)
    requires AllPlain(turns)
    ensures |ToldAnswers(turns)| == ReadOf(turns)
    ensures Answering(Readable(AllEvents(turns)), ToldFrames(turns), ToldAnswers(turns), [])
    decreases |turns|
  {
    if turns != [] {
      var n := |turns| - 1;
      var before := Readable(AllEvents(turns[..n]));
      ToldStream(turns[..n]);
      ReadableConcat(AllEvents(turns[..n]), EventsOf(turns[n]));
      if turns[n].Told? {
        AnsweringSnoc(before, ToldFrames(turns[..n]), ToldAnswers(turns[..n]), turns[n].frame, turns[n].answer);
      } else {
        assert before + [] == before;
        assert ToldFrames(turns[..n]) + [] == ToldFrames(turns[..n]);
        assert ToldAnswers(turns[..n]) + [] == ToldAnswers(turns[..n]);
      }
    }
  }

  /** After an answered stream, `m` more frames that carry `answer` each. */
  lemma {:induction false} MoreAnswers(
    inbox: seq<Event>, frames: seq<seq<Event>>, answers: seq<seq<byte>>, answer: seq<byte>, m: nat)
    returns (left: seq<Event>, frames': seq<seq<Event>>)
    requires Answering(Readable(inbox), frames, answers, []) && |answer| <= U16_MAX
    ensures Answering(Readable(inbox + left), frames', answers + seq(m, _ => answer), [])
    decreases m
  {
    if m == 0 {
      left, frames' := [], frames;
      assert inbox + left == inbox && answers + seq(m, _ => answer) == answers;
    } else {
      left, frames' := MoreAnswers(inbox, frames, answers, answer, m - 1);
      var frame := [PacketOf(answer)];
      PacketIsFrame(answer);
      ReadableConcat(inbox + left, frame);
      AnsweringSnoc(Readable(inbox + left), frames', answers + seq(m - 1, _ => answer), frame, answer);
      Assoc(inbox, left, frame);
      assert answers + seq(m - 1, _ => answer) + [answer] == answers + seq(m, _ => answer);
      left, frames' := left + frame, frames' + [frame];
    }
  }

  // ---------------------------------------------------------------- turns with given replies

  /** A turn that gives this reply, in which the device hears the command whatever the reply says. */
  ghost predicate GivesOne(turn: Turn, packets: seq<seq<byte>>, reply: Reply) {
    && Fits(turn, packets) && Plain(turn) && Hears(turn, packets)
    && ReplyOf(turn) == reply && (turn.Told? <==> !Troubled(reply))
  }

  ghost predicate Gives(commands: seq<ApduCommand>, turns: seq<Turn>, mtu: nat, replies: seq<Reply>)
    decreases |turns|
  {
    var n := |turns| - 1;
    && |turns| == |commands| == |replies|
    && (turns == [] ||
        (&& Gives(commands[..n], turns[..n], mtu, replies[..n])
         && GivesOne(turns[n], PacketsAt(commands, mtu, n), replies[n])))
  }

  lemma {:induction false} TurnsGive(commands: seq<ApduCommand>, mtu: nat, replies: seq<Reply>)
    returns (turns: seq<Turn>)
    requires |replies| == |commands| && Sendable(commands)
    requires forall i | 0 <= i < |replies| :: Possible(replies[i])
    ensures Gives(commands, turns, mtu, replies)
    decreases |commands|
  {
    if commands == [] {
      turns := [];
    } else {
      var n := |commands| - 1;
      var early := TurnsGive(commands[..n], mtu, replies[..n]);
      TurnForFits(replies[n], PacketsAt(commands, mtu, n));
      turns := early + [TurnFor(replies[n], PacketsAt(commands, mtu, n))];
      assert turns[..n] == early;
    }
  }

  lemma {:induction false} GivenFit(commands: seq<ApduCommand>, turns: seq<Turn>, mtu: nat, replies: seq<Reply>)
    requires Gives(commands, turns, mtu, replies)
    ensures AllFit(commands, turns, mtu) && AllPlain(turns)
    decreases |turns|
  {
    if turns != [] {
      var n := |turns| - 1;
      GivenFit(commands[..n], turns[..n], mtu, replies[..n]);
    }
  }

  lemma {:induction false} GivenAreHeard(commands: seq<ApduCommand>, turns: seq<Turn>, mtu: nat, replies: seq<Reply>)
    requires Gives(commands, turns, mtu, replies)
    ensures HeardOf(commands, turns, mtu) == commands
    decreases |turns|
  {
    if turns != [] {
      var n := |turns| - 1;
      GivenAreHeard(commands[..n], turns[..n], mtu, replies[..n]);
      HeardToo(commands, turns, mtu);
    }
  }

  lemma HeardToo(commands: seq<ApduCommand>, turns: seq<Turn>, mtu: nat)
    requires |turns| == |commands| > 0
    requires var n := |turns| - 1;
             HeardOf(commands[..n], turns[..n], mtu) == commands[..n] && Hears(turns[n], PacketsAt(commands, mtu, n))
    ensures HeardOf(commands, turns, mtu) == commands
  {
    assert commands == commands[..|turns| - 1] + [commands[|turns| - 1]];
  }

  lemma {:induction false} GivenAt(
    commands: seq<ApduCommand>, turns: seq<Turn>, mtu: nat, replies: seq<Reply>, i: nat)
    requires Gives(commands, turns, mtu, replies) && i < |turns|
    ensures Hears(turns[i], PacketsAt(commands, mtu, i)) && ReplyOf(turns[i]) == replies[i]
    decreases |turns|
  {
    var n := |turns| - 1;
    if i < n {
      GivenAt(commands[..n], turns[..n], mtu, replies[..n], i);
    }
  }

  lemma GivenReplies(commands: seq<ApduCommand>, turns: seq<Turn>, mtu: nat, replies: seq<Reply>)
    requires Gives(commands, turns, mtu, replies)
    ensures Whole(commands, turns, mtu) && Replied(commands, turns) == StepsOf(commands, replies)
  {
    forall i | 0 <= i < |turns|
      ensures Hears(turns[i], PacketsAt(commands, mtu, i)) && ReplyOf(turns[i]) == replies[i]
    {
      GivenAt(commands, turns, mtu, replies, i);
    }
  }

  /** With trouble among the replies, fewer answers were read than commands heard. */
  lemma {:induction false} FewerRead(
    commands: seq<ApduCommand>, turns: seq<Turn>, mtu: nat, replies: seq<Reply>, j: nat)
    requires Gives(commands, turns, mtu, replies) && j < |replies| && Troubled(replies[j])
    ensures ReadOf(turns) < |turns|
    decreases |turns|
  {
    var n := |turns| - 1;
    if j < n {
      FewerRead(commands[..n], turns[..n], mtu, replies[..n], j);
    } else {
      ReadAtMostHeard(commands[..n], turns[..n], mtu);
    }
  }

  // ---------------------------------------------------------------- the theorem

  function StepsOf(commands: seq<ApduCommand>, replies: seq<Reply>): (steps: seq<Step>)
    requires |replies| == |commands|
    ensures |steps| == |commands|
  {
    seq(|commands|, i requires 0 <= i < |commands| => Step(commands[i], replies[i]))
  }

  /** A link on which these replies are given to these commands while a device hears and answers all of them. */
  ghost predicate Witness(
    l: Link, h: seq<seq<byte>>, commands: seq<ApduCommand>, replies: seq<Reply>, frames: seq<seq<Event>>,
    answers: seq<seq<byte>>) {
    && |answers| == |replies| == |commands|
    && Answering(Readable(l.inbox), frames, answers, [])
    && After(l, commands).history == l.history + StepsOf(commands, replies)
    && l.delivered <= After(l, commands).delivered
    && HeardSince(h, l, After(l, commands)) == Peer(Idle, h + SerializedAll(commands))
  }

  lemma {:induction false} GivenIsWitness(
    l: Link, h: seq<seq<byte>>, commands: seq<ApduCommand>, turns: seq<Turn>, replies: seq<Reply>, left: seq<Event>,
    frames: seq<seq<Event>>, answers: seq<seq<byte>>)
    requires SessionMtu(l.mtu) && Sendable(commands) && Gives(commands, turns, MtuInForce(l.mtu), replies)
    requires l.fates == AllFates(commands, turns, MtuInForce(l.mtu)) && l.inbox == AllEvents(turns) + left
    requires Answering(Readable(l.inbox), frames, answers, []) && |answers| == |commands|
    ensures Witness(l, h, commands, replies, frames, answers)
  {
    var mtu := MtuInForce(l.mtu);
    assert l.fates == AllFates(commands, turns, mtu) + [];
    GivenFit(commands, turns, mtu, replies);
    GivenAreHeard(commands, turns, mtu, replies);
    GivenReplies(commands, turns, mtu, replies);
    EveryTurnIsTaken(l, commands, turns, [], left);
    TurnsAreHeard(l, h, commands, turns, [], left);
  }

  /**
   * No caller can do better than to ask for an untroubled history. For any commands and any replies to them, at
   * least one of them troubled, and for any answer `own`, there is a link on which a device hears every command
   * and answers each by one frame, those replies are given, and `own` is what it answers to the last command.
   */
  lemma TroubleCanMislead(
    mtu: Option<nat>, h: seq<seq<byte>>, commands: seq<ApduCommand>, replies: seq<Reply>, j: nat, own: seq<byte>)
    returns (l: Link, frames: seq<seq<Event>>, answers: seq<seq<byte>>)
    requires SessionMtu(mtu) && Sendable(commands) && |commands| == |replies| && |own| <= U16_MAX
    requires forall i | 0 <= i < |replies| :: Possible(replies[i])
    requires j < |replies| && Troubled(replies[j])
    ensures l.mtu == mtu && l.history == [] && l.delivered == []
    ensures Witness(l, h, commands, replies, frames, answers)
    ensures answers[|answers| - 1] == own
  {
    var size := MtuInForce(mtu);
    var turns := TurnsGive(commands, size, replies);
    GivenFit(commands, turns, size, replies);
    FewerRead(commands, turns, size, replies, j);
    ToldStream(turns);
    var missing := |turns| - ReadOf(turns);
    var left;
    left, frames := MoreAnswers(AllEvents(turns), ToldFrames(turns), ToldAnswers(turns), own, missing);
    answers := ToldAnswers(turns) + seq(missing, _ => own);
    l := Link(AllFates(commands, turns, size), [], AllEvents(turns) + left, mtu, []);
    GivenIsWitness(l, h, commands, turns, replies, left, frames, answers);
  }

  /** Links on which the device hears and answers all these commands, and these replies are given. */
  ghost predicate Consistent(
    l: Link, mtu: Option<nat>, commands: seq<ApduCommand>, replies: seq<Reply>, frames: seq<seq<Event>>,
    answers: seq<seq<byte>>, rest: seq<Event>) {
    && l.mtu == mtu && |answers| == |replies| == |commands|
    && Answering(Readable(l.inbox), frames, answers, rest)
    && After(l, commands).history == l.history + StepsOf(commands, replies)
    && l.delivered <= After(l, commands).delivered
    && HeardSince([], l, After(l, commands)).heard == SerializedAll(commands)
  }

  /** Whatever else is the case, the last reply is the answer to the last command. */
  ghost predicate Certain(mtu: Option<nat>, commands: seq<ApduCommand>, replies: seq<Reply>)
    requires |replies| == |commands| > 0
  {
    forall l, frames, answers, rest | Consistent(l, mtu, commands, replies, frames, answers, rest) ::
      replies[|replies| - 1] == ApduAnswer.FromAnswer(answers[|answers| - 1])
  }

  lemma Statuses()
    ensures ApduAnswer.FromAnswer([0x90, 0x00]) != ApduAnswer.FromAnswer([0x6E, 0x00])
  {
  }

  lemma CalmIsCertain(
    l: Link, mtu: Option<nat>, commands: seq<ApduCommand>, replies: seq<Reply>, frames: seq<seq<Event>>,
    answers: seq<seq<byte>>, rest: seq<Event>)
    requires SessionMtu(mtu) && Sendable(commands) && commands != []
    requires Consistent(l, mtu, commands, replies, frames, answers, rest)
    requires forall i | 0 <= i < |replies| :: !Troubled(replies[i])
    ensures replies[|replies| - 1] == ApduAnswer.FromAnswer(answers[|answers| - 1])
  {
    var steps := StepsOf(commands, replies);
    DropPrefix(l.history, steps);
    CalmRunPairs(l, commands, frames, answers, rest);
    DropPrefix(l.history, Paired(commands, answers));
    assert steps[|steps| - 1] == Paired(commands, answers)[|steps| - 1];
  }

  /**
   * The exact condition for pairing, as far as a caller can tell: over all links and all replies, the last reply
   * is certain to be the answer to the last command if and only if no reply, up to that one, shows a timeout, a
   * malformed notification or a failed write.
   */
  lemma CertainExactly(mtu: Option<nat>, commands: seq<ApduCommand>, replies: seq<Reply>)
    requires SessionMtu(mtu) && Sendable(commands) && |replies| == |commands| > 0
    requires forall i | 0 <= i < |replies| :: Possible(replies[i])
    ensures Certain(mtu, commands, replies) <==> forall i | 0 <= i < |replies| :: !Troubled(replies[i])
  {
    if j :| 0 <= j < |replies| && Troubled(replies[j]) {
      var last := replies[|replies| - 1];
      Statuses();
      var own: seq<byte> := if last == ApduAnswer.FromAnswer([0x90, 0x00]) then [0x6E, 0x00] else [0x90, 0x00];
      var l, frames, answers := TroubleCanMislead(mtu, [], commands, replies, j, own);
      assert [] + SerializedAll(commands) == SerializedAll(commands);
      assert Consistent(l, mtu, commands, replies, frames, answers, []);
    } else {
      forall l, frames, answers, rest | Consistent(l, mtu, commands, replies, frames, answers, rest)
        ensures replies[|replies| - 1] == ApduAnswer.FromAnswer(answers[|answers| - 1])
      {
        CalmIsCertain(l, mtu, commands, replies, frames, answers, rest);
      }
    }
  }
}
