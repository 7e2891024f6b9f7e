/** Runs of exchanges with a device that answers: every command gets its own answer. */
module Pairing {
  import opened Wrappers
  import opened Bytes
  import opened Packets
  import opened Framing
  import opened Receiving
  import opened Strict
  import opened Apdu
  import opened Links

  /** Commands whose encoding passes the size guard of `send_framed`. */
  predicate Sendable(commands: seq<ApduCommand>) {
    forall i | 0 <= i < |commands| :: |commands[i].Serialized()| <= U16_MAX
  }

  /** The packets of one encoded command; one over the size guard is not sent. */
  function PacketsFor(raw: seq<byte>, mtu: nat): (ps: seq<seq<byte>>)
    ensures ps == [] <==> |raw| > U16_MAX
  {
    if |raw| > U16_MAX then [] else Frame(APDU_COMMAND_TAG, raw, mtu).packets
  }

  /** All packets of some commands, in order. */
  function PacketsOf(commands: seq<ApduCommand>, mtu: nat): seq<seq<byte>>
    decreases |commands|
  {
    if commands == [] then []
    else PacketsOf(commands[..|commands| - 1], mtu) + PacketsFor(commands[|commands| - 1].Serialized(), mtu)
  }

  /** Each command with the answer at its own position. */
  function Paired(commands: seq<ApduCommand>, answers: seq<seq<byte>>): (steps: seq<Step>)
    requires |commands| == |answers|
    ensures |steps| == |commands|
  {
    seq(|commands|, i requires 0 <= i < |commands| => Step(commands[i], ApduAnswer.FromAnswer(answers[i])))
  }

  /** The coming events are one frame per answer, foreign packets included, and then `rest`. */
  ghost predicate Answering(inbox: seq<Event>, frames: seq<seq<Event>>, answers: seq<seq<byte>>, rest: seq<Event>) {
    && |frames| == |answers|
    && (forall i | 0 <= i < |frames| :: Carries(APDU_COMMAND_TAG, frames[i], answers[i]))
    && inbox == Flatten(frames) + rest
  }

  lemma ExchangePairs(l: Link, c: ApduCommand, frame: seq<Event>, answer: seq<byte>, rest: seq<Event>)
    requires SessionMtu(l.mtu) && |c.Serialized()| <= U16_MAX
    requires Acknowledged(l.fates, |Frame(APDU_COMMAND_TAG, c.Serialized(), MtuInForce(l.mtu)).packets|)
    requires l.inbox == frame + rest && Carries(APDU_COMMAND_TAG, frame, answer)
    ensures var ps := Frame(APDU_COMMAND_TAG, c.Serialized(), MtuInForce(l.mtu)).packets;
            var reply := ApduAnswer.FromAnswer(answer);
            ExchangeOn(l, c) ==
            On(Link(l.fates[|ps|..], l.delivered + ps, rest, l.mtu, l.history + [Step(c, reply)]), reply)
  {
    PacketBound(APDU_COMMAND_TAG, c.Serialized(), MtuInForce(l.mtu));
    WriteAllSucceeds(l, Frame(APDU_COMMAND_TAG, c.Serialized(), MtuInForce(l.mtu)).packets);
    FrameIsReceived(APDU_COMMAND_TAG, frame, answer, rest);
  }

  lemma FewerAcknowledged(fates: seq<WriteFate>, a: nat, b: nat)
    requires Acknowledged(fates, a + b)
    ensures Acknowledged(fates, a) && Acknowledged(fates[a..], b) && fates[a..][b..] == fates[a + b..]
  {
  }

  lemma {:induction false} FramesSnoc(frames: seq<seq<Event>>, rest: seq<Event>)
    requires frames != []
    ensures var n := |frames| - 1;
            Flatten(frames) + rest == Flatten(frames[..n]) + (frames[n] + rest)
  {
    var n := |frames| - 1;
    assert frames == frames[..n] + [frames[n]];
    FlattenSnoc(frames[..n], frames[n]);
    Assoc(Flatten(frames[..n]), frames[n], rest);
  }

  /**
   * Request/response pairing over whole runs: if the writes are acknowledged and the stream holds one framed answer per
   * command, the i-th exchange gets the i-th answer, and the stream is left exactly after the last frame.
   */
  lemma {:induction false} EveryCommandGetsItsAnswer(
    l: Link, commands: seq<ApduCommand>, frames: seq<seq<Event>>, answers: seq<seq<byte>>, rest: seq<Event>)
    requires SessionMtu(l.mtu) && Sendable(commands) && |answers| == |commands|
    requires Answering(l.inbox, frames, answers, rest)
    requires Acknowledged(l.fates, |PacketsOf(commands, MtuInForce(l.mtu))|)
    ensures var ps := PacketsOf(commands, MtuInForce(l.mtu));
            After(l, commands) ==
            Link(l.fates[|ps|..], l.delivered + ps, rest, l.mtu, l.history + Paired(commands, answers))
    decreases |commands|
  {
    var mtu := MtuInForce(l.mtu);
    if commands == [] {
      assert l.inbox == rest && l.delivered + [] == l.delivered && l.history + Paired(commands, answers) == l.history;
      assert l.fates[0..] == l.fates;
    } else {
      var n := |commands| - 1;
      var early, last := PacketsOf(commands[..n], mtu), PacketsFor(commands[n].Serialized(), mtu);
      assert PacketsOf(commands, mtu) == early + last;
      FramesSnoc(frames, rest);
      FewerAcknowledged(l.fates, |early|, |last|);
      EveryCommandGetsItsAnswer(l, commands[..n], frames[..n], answers[..n], frames[n] + rest);
      OneMorePaired(l, After(l, commands[..n]), early, Paired(commands[..n], answers[..n]),
                    commands[n], frames[n], answers[n], rest);
      PairedSnoc(commands, answers);
    }
  }

  /** From `l`, packets `sent` were written and steps `steps` recorded, with `inbox` still to come. */
  ghost predicate Progressed(l: Link, sent: seq<seq<byte>>, steps: seq<Step>, inbox: seq<Event>, l': Link) {
    && |sent| <= |l.fates|
    && l' == Link(l.fates[|sent|..], l.delivered + sent, inbox, l.mtu, l.history + steps)
  }

  lemma OneMorePaired(
    l: Link, m: Link, early: seq<seq<byte>>, steps: seq<Step>, c: ApduCommand, frame: seq<Event>, answer: seq<byte>,
    rest: seq<Event>)
    requires SessionMtu(l.mtu) && |c.Serialized()| <= U16_MAX && Carries(APDU_COMMAND_TAG, frame, answer)
    requires Acknowledged(l.fates, |early| + |PacketsFor(c.Serialized(), MtuInForce(l.mtu))|)
    requires Progressed(l, early, steps, frame + rest, m)
    ensures Progressed(l, early + PacketsFor(c.Serialized(), MtuInForce(l.mtu)),
                       steps + [Step(c, ApduAnswer.FromAnswer(answer))], rest, ExchangeOn(m, c).link)
  {
    var last := PacketsFor(c.Serialized(), MtuInForce(l.mtu));
    FewerAcknowledged(l.fates, |early|, |last|);
    ExchangePairs(m, c, frame, answer, rest);
    Assoc(l.delivered, early, last);
    Assoc(l.history, steps, [Step(c, ApduAnswer.FromAnswer(answer))]);
  }

  lemma PairedSnoc(commands: seq<ApduCommand>, answers: seq<seq<byte>>)
    requires |commands| == |answers| > 0
    ensures Paired(commands, answers) ==
            (var n := |commands| - 1;
             Paired(commands[..n], answers[..n]) + [Step(commands[n], ApduAnswer.FromAnswer(answers[n]))])
  {
  }

  /** The device hears exactly the commands, one frame each. */
  lemma {:induction false} CommandsAreHeard(h: seq<seq<byte>>, commands: seq<ApduCommand>, mtu: nat)
    requires Sendable(commands) && mtu >= 6
    ensures HearAll(Peer(Idle, h), PacketsOf(commands, mtu)) == Peer(Idle, h + SerializedAll(commands))
    decreases |commands|
  {
    if commands == [] {
      assert h + SerializedAll(commands) == h;
    } else {
      var n := |commands| - 1;
      var ps := Frame(APDU_COMMAND_TAG, commands[n].Serialized(), mtu).packets;
      CommandsAreHeard(h, commands[..n], mtu);
      HearConcat(Peer(Idle, h), PacketsOf(commands[..n], mtu), ps);
      FrameIsHeard(h + SerializedAll(commands[..n]), commands[n].Serialized(), mtu, |ps|);
      assert ps[..|ps|] == ps;
      SerializedSnoc(h, commands);
    }
  }

  lemma SerializedSnoc(h: seq<seq<byte>>, commands: seq<ApduCommand>)
    requires commands != []
    ensures var n := |commands| - 1;
            h + SerializedAll(commands) == h + SerializedAll(commands[..n]) + [commands[n].Serialized()]
  {
    var n := |commands| - 1;
    assert SerializedAll(commands) == SerializedAll(commands[..n]) + [commands[n].Serialized()];
  }

  /** What a peer that had heard `h` when the link was in state `l` has heard in state `l'`. */
  function HeardSince(h: seq<seq<byte>>, l: Link, l': Link): Peer
    requires |l.delivered| <= |l'.delivered|
  {
    HearAll(Peer(Idle, h), l'.delivered[|l.delivered|..])
  }

  /** A device that answers each command by a function of everything it has heard, that command included. */
  predicate RespondsTo(
    responder: seq<seq<byte>> -> seq<byte>, h: seq<seq<byte>>, commands: seq<ApduCommand>, answers: seq<seq<byte>>) {
    && |answers| == |commands|
    && forall i | 0 <= i < |commands| :: answers[i] == responder(h + SerializedAll(commands[..i + 1]))
  }

  lemma PrefixFrames(inbox: seq<Event>, frames: seq<seq<Event>>, answers: seq<seq<byte>>, rest: seq<Event>, k: nat)
    requires Answering(inbox, frames, answers, rest) && k <= |frames|
    ensures Answering(inbox, frames[..k], answers[..k], Flatten(frames[k..]) + rest)
  {
    var a, b := frames[..k], frames[k..];
    assert frames == a + b;
    FlattenConcat(a, b);
    Assoc(Flatten(a), Flatten(b), rest);
  }

  lemma {:induction false} PrefixPackets(commands: seq<ApduCommand>, mtu: nat, k: nat)
    requires k <= |commands|
    ensures |PacketsOf(commands[..k], mtu)| <= |PacketsOf(commands, mtu)|
    decreases |commands| - k
  {
    if k == |commands| {
      assert commands[..k] == commands;
    } else {
      PrefixPackets(commands, mtu, k + 1);
      assert commands[..k + 1][..k] == commands[..k];
    }
  }

  /**
   * The closed loop: at every point of the run the device has heard exactly the commands so far, the reply just
   * returned is the answer it computed from them, and the frames of the later answers are still unread.
   */
  lemma {:induction false} ClosedLoop(
    l: Link, h: seq<seq<byte>>, responder: seq<seq<byte>> -> seq<byte>, commands: seq<ApduCommand>,
    frames: seq<seq<Event>>, answers: seq<seq<byte>>, rest: seq<Event>, k: nat)
    requires SessionMtu(l.mtu) && Sendable(commands) && 0 < k <= |commands|
    requires RespondsTo(responder, h, commands, answers)
    requires Answering(l.inbox, frames, answers, rest)
    requires Acknowledged(l.fates, |PacketsOf(commands, MtuInForce(l.mtu))|)
    ensures var l' := After(l, commands[..k]);
            && l.delivered <= l'.delivered
            && HeardSince(h, l, l') == Peer(Idle, h + SerializedAll(commands[..k]))
            && l'.history != []
            && l'.history[|l'.history| - 1]
               == Step(commands[k - 1], ApduAnswer.FromAnswer(responder(HeardSince(h, l, l').heard)))
            && l'.inbox == Flatten(frames[k..]) + rest
  {
    var mtu := MtuInForce(l.mtu);
    PrefixFrames(l.inbox, frames, answers, rest, k);
    PrefixPackets(commands, mtu, k);
    EveryCommandGetsItsAnswer(l, commands[..k], frames[..k], answers[..k], Flatten(frames[k..]) + rest);
    CommandsAreHeard(h, commands[..k], mtu);
    DropPrefix(l.delivered, PacketsOf(commands[..k], mtu));
  }

  /**
   * Pairing is by position only, so it needs every exchange to run to its end: once an exchange has timed out
   * before its answer began, the whole late answer is taken for the answer to the next command.
   */
  lemma LateAnswerIsMisread(
    l: Link, c: ApduCommand, d: ApduCommand, frame: seq<Event>, answer: seq<byte>, rest: seq<Event>)
    requires SessionMtu(l.mtu) && Sendable([c, d])
    requires Acknowledged(l.fates, |PacketsFor(c.Serialized(), MtuInForce(l.mtu))|
                                   + |PacketsFor(d.Serialized(), MtuInForce(l.mtu))|)
    requires Carries(APDU_COMMAND_TAG, frame, answer) && l.inbox == [TimedOut] + (frame + rest)
    ensures ExchangeOn(l, c).result == Err(Timeout)
    ensures ExchangeOn(ExchangeOn(l, c).link, d).result == ApduAnswer.FromAnswer(answer)
  {
    var mtu := MtuInForce(l.mtu);
    assert Sendable([c, d]) && [c, d][0] == c && [c, d][1] == d;
    var ps, qs := PacketsFor(c.Serialized(), mtu), PacketsFor(d.Serialized(), mtu);
    FewerAcknowledged(l.fates, |ps|, |qs|);
    PacketBound(APDU_COMMAND_TAG, c.Serialized(), mtu);
    WriteAllSucceeds(l, ps);
    assert l.inbox[1..] == frame + rest;
    ExchangePairs(ExchangeOn(l, c).link, d, frame, answer, rest);
  }
}
