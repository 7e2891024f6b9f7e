/** End to end: what a signing device holds after a signing run over the BLE link. */
module Delivery {
  import opened Wrappers
  import opened Bytes
  import opened Packets
  import opened Framing
  import opened Strict
  import opened Apdu
  import opened Links
  import opened Signing
  import opened BleApi
  import opened Pairing
  import opened Noise
  import opened Answers

  /** The signing application: appends chunk data, and completes the message at the flagged chunk. */
  datatype Signer = Signer(held: seq<byte>, finished: seq<seq<byte>>)

  function Accept(ins: byte, s: Signer, frame: seq<byte>): Signer {
    match ApduCommand.Parse(frame)
    case None => s
    case Some(c) =>
      if c.cla != 0x80 || c.ins != ins || c.p2 != 0x57 then s
      else if c.p1 == 0x80 then Signer([], s.finished + [s.held + c.data])
      else if c.p1 == 0x00 then Signer(s.held + c.data, s.finished)
      else s
  }

  function AcceptAll(ins: byte, s: Signer, frames: seq<seq<byte>>): Signer
    decreases |frames|
  {
    if frames == [] then s else Accept(ins, AcceptAll(ins, s, frames[..|frames| - 1]), frames[|frames| - 1])
  }

  /** The signer once the first `n` chunks of `data`, 250 bytes each, have arrived after what it held. */
  function Took(s: Signer, data: seq<byte>, n: nat): Signer {
    if 0 < |data| <= 250 * n then Signer([], s.finished + [s.held + data])
    else Signer(s.held + data[..Min(250 * n, |data|)], s.finished)
  }

  lemma TookAll(s: Signer, data: seq<byte>, n: nat)
    requires n == |Chunks(data)| > 0
    ensures Took(s, data, n) == Signer([], s.finished + [s.held + data])
  {
    ChunkCount(data);
  }

  lemma TookSome(s: Signer, data: seq<byte>, n: nat)
    requires n < |Chunks(data)|
    ensures 250 * n < |data| && Took(s, data, n) == Signer(s.held + data[..250 * n], s.finished)
  {
    ChunkCount(data);
  }

  lemma TookOneMore(s: Signer, data: seq<byte>, n: nat)
    requires n < |Chunks(data)|
    ensures var before, chunk := Took(s, data, n), Chunks(data)[n];
            Took(s, data, n + 1) ==
            if n + 1 == |Chunks(data)| then Signer([], before.finished + [before.held + chunk])
            else Signer(before.held + chunk, before.finished)
  {
    ChunkCount(data);
    ChunkAt(data, n);
    var upTo := Min(250 * (n + 1), |data|);
    assert data[..250 * n] + data[250 * n..upTo] == data[..upTo];
    Assoc(s.held, data[..250 * n], data[250 * n..upTo]);
    assert data[..|data|] == data;
  }

  /**
   * Whatever the signer held, the first `j` commands of a request add their chunks; only the last finishes a
   * message.
   */
  lemma {:induction false} SignerHolds(path: seq<u32>, payload: seq<byte>, ins: byte, s: Signer, j: nat)
    requires j <= |Commands(path, payload, ins)|
    ensures AcceptAll(ins, s, SerializedAll(Commands(path, payload, ins)[..j]))
         == Took(s, HdPathToBytes(path) + payload, j)
    decreases j
  {
    var cs, data := Commands(path, payload, ins), HdPathToBytes(path) + payload;
    if j > 0 {
      SignerHolds(path, payload, ins, s, j - 1);
      var frames := SerializedAll(cs[..j]);
      assert frames[..j - 1] == SerializedAll(cs[..j - 1]);
      CommandsAreWellFormed(path, payload, ins, j - 1);
      TookOneMore(s, data, j - 1);
    } else {
      assert cs[..0] == [] && s.held + data[..0] == s.held;
    }
  }

  /**
   * One exchange, whatever happens to it: the device heard the command or not, and only a failed write leaves
   * that open.
   */
  lemma ExchangeHeard(l: Link, c: ApduCommand, h: seq<seq<byte>>)
    requires SessionMtu(l.mtu) && |c.Serialized()| <= U16_MAX
    ensures var x := ExchangeOn(l, c);
            && l.delivered <= x.link.delivered
            && (x.result != Err(WriteFailed) ==> HeardSince(h, l, x.link) == Peer(Idle, h + [c.Serialized()]))
            && (HeardSince(h, l, x.link).heard == h || HeardSince(h, l, x.link).heard == h + [c.Serialized()])
  {
    var raw, mtu := c.Serialized(), MtuInForce(l.mtu);
    var ps := Frame(APDU_COMMAND_TAG, raw, mtu).packets;
    var k := WriteAllLands(l, ps);
    FrameIsHeard(h, raw, mtu, k);
    DropPrefix(l.delivered, ps[..k]);
    assert ExchangeOn(l, c).link.delivered == l.delivered + ps[..k];
  }

  lemma HeardChain(h: seq<seq<byte>>, l: Link, m: Link, l': Link)
    requires l.delivered <= m.delivered <= l'.delivered
    requires HeardSince(h, l, m).assembler == Idle
    ensures HeardSince(h, l, l') == HeardSince(HeardSince(h, l, m).heard, m, l')
  {
    var a, b := m.delivered[|l.delivered|..], l'.delivered[|m.delivered|..];
    assert l'.delivered[|l.delivered|..] == a + b;
    HearConcat(Peer(Idle, h), a, b);
  }

  /** No write has been reported as failed since `l`. */
  predicate AllWritten(l: Link, l': Link) {
    && |l.history| <= |l'.history|
    && forall i | |l.history| <= i < |l'.history| :: l'.history[i].reply != Err(WriteFailed)
  }

  /** As long as no write fails, the device has heard exactly the commands, whatever was read in reply. */
  lemma {:induction false} WrittenRunHeard(l: Link, commands: seq<ApduCommand>, h: seq<seq<byte>>)
    requires SessionMtu(l.mtu) && Sendable(commands)
    requires AllWritten(l, After(l, commands))
    ensures l.delivered <= After(l, commands).delivered
    ensures HeardSince(h, l, After(l, commands)) == Peer(Idle, h + SerializedAll(commands))
    decreases |commands|
  {
    if commands == [] {
      assert h + SerializedAll(commands) == h;
    } else {
      var n := |commands| - 1;
      var m, l' := After(l, commands[..n]), After(l, commands);
      SessionIsSafe(l, commands[..n]);
      ExchangeKeeps(m, commands[n]);
      assert forall i | |l.history| <= i < |m.history| :: m.history[i] == l'.history[i];
      WrittenRunHeard(l, commands[..n], h);
      assert l'.history[|l'.history| - 1].reply == ExchangeOn(m, commands[n]).result;
      ExchangeHeard(m, commands[n], h + SerializedAll(commands[..n]));
      HeardChain(h, l, m, l');
      SerializedSnoc(h, commands);
    }
  }

  /** No write has been reported as failed since `l`, except perhaps in the last exchange. */
  predicate WrittenButLast(l: Link, l': Link) {
    && |l.history| <= |l'.history|
    && forall i | |l.history| <= i < |l'.history| - 1 :: l'.history[i].reply != Err(WriteFailed)
  }

  lemma {:induction false} EarlierWritten(l: Link, commands: seq<ApduCommand>, l': Link, k: nat)
    requires k < |commands| && l' == After(l, commands) && WrittenButLast(l, l')
    ensures AllWritten(l, After(l, commands[..k]))
  {
    HistoryGrows(l, commands, k);
    var m := After(l, commands[..k]);
    assert forall i | |l.history| <= i < |m.history| :: m.history[i] == l'.history[i];
  }

  lemma {:induction false} LastHeard(l: Link, commands: seq<ApduCommand>, h: seq<seq<byte>>)
    requires SessionMtu(l.mtu) && Sendable(commands) && commands != []
    requires AllWritten(l, After(l, commands[..|commands| - 1]))
    ensures var n := |commands| - 1;
            && l.delivered <= After(l, commands).delivered
            && (HeardSince(h, l, After(l, commands)).heard == h + SerializedAll(commands[..n])
                || HeardSince(h, l, After(l, commands)).heard == h + SerializedAll(commands))
  {
    var n := |commands| - 1;
    var m := After(l, commands[..n]);
    WrittenRunHeard(l, commands[..n], h);
    SessionIsSafe(l, commands[..n]);
    ExchangeHeard(m, commands[n], h + SerializedAll(commands[..n]));
    HeardChain(h, l, m, After(l, commands));
    SerializedSnoc(h, commands);
  }

  /**
   * A run in which at most the last command failed to be written: the device heard the others, and perhaps the
   * last.
   */
  lemma {:induction false} RunHeard(l: Link, commands: seq<ApduCommand>, l': Link)
    requires SessionMtu(l.mtu) && Sendable(commands)
    requires l' == After(l, commands) && WrittenButLast(l, l')
    ensures l.delivered <= l'.delivered
    ensures || HeardSince([], l, l').heard == SerializedAll(commands)
            || (commands != [] && HeardSince([], l, l').heard == SerializedAll(commands[..|commands| - 1]))
  {
    if commands != [] {
      var n := |commands| - 1;
      EarlierWritten(l, commands, l', n);
      LastHeard(l, commands, []);
      assert [] + SerializedAll(commands) == SerializedAll(commands);
      assert [] + SerializedAll(commands[..n]) == SerializedAll(commands[..n]);
    }
  }

  /** What has become of a signer that was `s` when the link was in state `l`. */
  function SignerSince(ins: byte, s: Signer, l: Link, l': Link): Signer
    requires |l.delivered| <= |l'.delivered|
  {
    AcceptAll(ins, s, HeardSince([], l, l').heard)
  }

  lemma RequestIsSendable(path: seq<u32>, payload: seq<byte>, ins: byte, n: nat)
    requires n <= |Commands(path, payload, ins)|
    ensures Sendable(Commands(path, payload, ins)[..n])
  {
    var cs := Commands(path, payload, ins);
    forall i | 0 <= i < n ensures |cs[..n][i].Serialized()| <= U16_MAX {
      CommandsAreWellFormed(path, payload, ins, i);
    }
  }

  /** In a signing run every command but the last was written, and the last too unless a failed write is the error. */
  lemma SignedRunWritten(l: Link, cs: seq<ApduCommand>, r: Result<seq<byte>, ApiError>, l': Link)
    requires SignedOver(l, cs, r, l')
    ensures WrittenButLast(l, l')
    ensures r != Err(Transport(WriteFailed)) ==> AllWritten(l, l')
    ensures r.Ok? ==> |l'.history| - |l.history| == |cs| && cs != []
  {
    var trace := l'.history[|l.history|..];
    assert forall i | |l.history| <= i < |l'.history| :: l'.history[i] == trace[i - |l.history|];
  }

  lemma {:induction false} EarlyPartWritten(
    l: Link, cs: seq<ApduCommand>, r: Result<seq<byte>, ApiError>, l': Link, k: nat)
    requires SignedOver(l, cs, r, l') && k < |l'.history| - |l.history|
    ensures k < |cs| && AllWritten(l, After(l, cs[..k]))
  {
    var n := |l'.history| - |l.history|;
    SignedRunWritten(l, cs, r, l');
    EarlierWritten(l, cs[..n], l', k);
    assert cs[..n][..k] == cs[..k];
  }

  /**
   * At every point of a signing run before its last exchange, the device holds exactly the chunks sent, nothing
   * finished.
   */
  lemma {:induction false} NothingFinishedEarly(
    l: Link, path: seq<u32>, payload: seq<byte>, ins: byte, s: Signer, r: Result<seq<byte>, ApiError>, l': Link, k: nat)
    requires SessionMtu(l.mtu) && SignedOver(l, Commands(path, payload, ins), r, l')
    requires k < |l'.history| - |l.history|
    ensures k < |Commands(path, payload, ins)|
    ensures var m := After(l, Commands(path, payload, ins)[..k]);
            && l.delivered <= m.delivered
            && 250 * k < |HdPathToBytes(path) + payload|
            && SignerSince(ins, s, l, m) == Signer(s.held + (HdPathToBytes(path) + payload)[..250 * k], s.finished)
  {
    var cs := Commands(path, payload, ins);
    EarlyPartWritten(l, cs, r, l', k);
    RequestIsSendable(path, payload, ins, k);
    WrittenRunHeard(l, cs[..k], []);
    assert [] + SerializedAll(cs[..k]) == SerializedAll(cs[..k]);
    SignerHolds(path, payload, ins, s, k);
    TookSome(s, HdPathToBytes(path) + payload, k);
  }

  /** What the device heard in a signing run: all the commands exchanged, or all but the last of them. */
  lemma SignedRunHeard(l: Link, cs: seq<ApduCommand>, r: Result<seq<byte>, ApiError>, l': Link, n: nat)
    requires SessionMtu(l.mtu) && SignedOver(l, cs, r, l') && n == |l'.history| - |l.history| && Sendable(cs[..n])
    ensures l.delivered <= l'.delivered
    ensures || HeardSince([], l, l').heard == SerializedAll(cs[..n])
            || (n > 0 && HeardSince([], l, l').heard == SerializedAll(cs[..n - 1]))
  {
    SignedRunWritten(l, cs, r, l');
    RunHeard(l, cs[..n], l');
    if n > 0 {
      assert cs[..n][..n - 1] == cs[..n - 1];
    }
  }

  /** Unless a write failed, the device heard exactly the commands exchanged, and its reassembler is idle again. */
  lemma WrittenSigningRunHeard(
    l: Link, cs: seq<ApduCommand>, h: seq<seq<byte>>, r: Result<seq<byte>, ApiError>, l': Link, n: nat)
    requires SessionMtu(l.mtu) && SignedOver(l, cs, r, l') && r != Err(Transport(WriteFailed))
    requires n == |l'.history| - |l.history| && Sendable(cs[..n])
    ensures l.delivered <= l'.delivered && HeardSince(h, l, l') == Peer(Idle, h + SerializedAll(cs[..n]))
  {
    SignedRunWritten(l, cs, r, l');
    WrittenRunHeard(l, cs[..n], h);
  }

  /** Then the signer has taken in exactly the chunks sent, even if the host got an error. */
  lemma WrittenRunDelivers(
    l: Link, path: seq<u32>, payload: seq<byte>, ins: byte, s: Signer, r: Result<seq<byte>, ApiError>, l': Link)
    requires SessionMtu(l.mtu) && SignedOver(l, Commands(path, payload, ins), r, l') && r != Err(Transport(WriteFailed))
    ensures l.delivered <= l'.delivered && HeardSince([], l, l').assembler == Idle
    ensures |l.history| <= |l'.history| <= |l.history| + |Commands(path, payload, ins)|
    ensures SignerSince(ins, s, l, l') == Took(s, HdPathToBytes(path) + payload, |l'.history| - |l.history|)
  {
    var cs, n := Commands(path, payload, ins), |l'.history| - |l.history|;
    RequestIsSendable(path, payload, ins, n);
    WrittenSigningRunHeard(l, cs, [], r, l', n);
    assert [] + SerializedAll(cs[..n]) == SerializedAll(cs[..n]);
    SignerHolds(path, payload, ins, s, n);
  }

  /** A signature means that the device has exactly one new message. */
  lemma SignatureMeansDelivered(
    l: Link, path: seq<u32>, payload: seq<byte>, ins: byte, s: Signer, r: Result<seq<byte>, ApiError>, l': Link)
    requires SessionMtu(l.mtu) && SignedOver(l, Commands(path, payload, ins), r, l') && r.Ok?
    ensures l.delivered <= l'.delivered
    ensures SignerSince(ins, s, l, l') == Signer([], s.finished + [s.held + (HdPathToBytes(path) + payload)])
  {
    SignedRunWritten(l, Commands(path, payload, ins), r, l');
    WrittenRunDelivers(l, path, payload, ins, s, r, l');
    TookAll(s, HdPathToBytes(path) + payload, |l'.history| - |l.history|);
  }

  lemma FailureMeansWholeChunks(
    l: Link, path: seq<u32>, payload: seq<byte>, ins: byte, s: Signer, r: Result<seq<byte>, ApiError>, l': Link)
    requires SessionMtu(l.mtu) && SignedOver(l, Commands(path, payload, ins), r, l') && r.Err?
    ensures l.delivered <= l'.delivered
    ensures |l.history| <= |l'.history|
    ensures var now, data, n := SignerSince(ins, s, l, l'), HdPathToBytes(path) + payload, |l'.history| - |l.history|;
            now == Took(s, data, n) || (n > 0 && now == Took(s, data, n - 1))
  {
    var cs := Commands(path, payload, ins);
    var n := |l'.history| - |l.history|;
    RequestIsSendable(path, payload, ins, n);
    SignedRunHeard(l, cs, r, l', n);
    SignerHolds(path, payload, ins, s, n);
    if n > 0 {
      SignerHolds(path, payload, ins, s, n - 1);
    }
  }

  /**
   * End-to-end delivery, over every link the environment can make and whatever the device held before: a
   * signing run that returns a signature has left the device with exactly one new message; a run that fails has
   * left it exactly the chunks sent, all of them only if the last chunk got a bad reply, except that the last
   * chunk may be missing if its write failed.
   */
  lemma EndToEndDelivery(
    l: Link, path: seq<u32>, payload: seq<byte>, ins: byte, s: Signer, r: Result<seq<byte>, ApiError>, l': Link)
    requires SessionMtu(l.mtu) && SignedOver(l, Commands(path, payload, ins), r, l')
    ensures l.delivered <= l'.delivered
    ensures 0 <= |l'.history| - |l.history| <= |Commands(path, payload, ins)|
    ensures var now, data, n := SignerSince(ins, s, l, l'), HdPathToBytes(path) + payload, |l'.history| - |l.history|;
            match r
            case Ok(_) => now == Signer([], s.finished + [s.held + data])
            case Err(Transport(WriteFailed)) => now == Took(s, data, n) || (n > 0 && now == Took(s, data, n - 1))
            case Err(_) => now == Took(s, data, n)
  {
    if r == Err(Transport(WriteFailed)) {
      FailureMeansWholeChunks(l, path, payload, ins, s, r, l');
    } else {
      WrittenRunDelivers(l, path, payload, ins, s, r, l');
      if r.Ok? {
        SignatureMeansDelivered(l, path, payload, ins, s, r, l');
      }
    }
  }

  /** All answers are acceptances. */
  predicate AllAccepting(answers: seq<seq<byte>>) {
    forall i | 0 <= i < |answers| :: Accepted(ApduAnswer.FromAnswer(answers[i]))
  }

  /**
   * A request with something to send, over acknowledged writes to a device that frames an acceptance for every
   * chunk.
   */
  ghost predicate Cooperative(
    l: Link, cs: seq<ApduCommand>, frames: seq<seq<Event>>, answers: seq<seq<byte>>, rest: seq<Event>) {
    && cs != [] && |answers| == |cs|
    && Answering(l.inbox, frames, answers, rest) && AllAccepting(answers)
    && Acknowledged(l.fates, |PacketsOf(cs, MtuInForce(l.mtu))|)
  }

  lemma CooperativeRunCompletes(
    l: Link, cs: seq<ApduCommand>, r: Result<seq<byte>, ApiError>, l': Link, frames: seq<seq<Event>>,
    answers: seq<seq<byte>>, rest: seq<Event>)
    requires SessionMtu(l.mtu) && Sendable(cs) && Cooperative(l, cs, frames, answers, rest)
    requires SignedOver(l, cs, r, l')
    ensures r == Ok(ApduAnswer.FromAnswer(answers[|answers| - 1]).value.data)
    ensures l'.inbox == rest
  {
    var n := |l'.history| - |l.history|;
    PairedRun(l, cs, frames, answers, rest, n);
    AcceptedRunCompletes(cs, l'.history[|l.history|..], r, answers);
    assert frames[n..] == [];
    assert Flatten(frames[n..]) + rest == rest;
  }

  /**
   * And delivery does happen: with acknowledged writes and a device that frames an acceptance for every chunk, whatever
   * foreign packets it mixes in, a request that has anything to send returns the data of the last answer and leaves the
   * device with the whole message.
   */
  lemma CooperativeDeviceGetsSigned(
    l: Link, path: seq<u32>, payload: seq<byte>, ins: byte, r: Result<seq<byte>, ApiError>, l': Link,
    frames: seq<seq<Event>>, answers: seq<seq<byte>>, rest: seq<Event>, s: Signer)
    requires SessionMtu(l.mtu) && Cooperative(l, Commands(path, payload, ins), frames, answers, rest)
    requires SignedOver(l, Commands(path, payload, ins), r, l')
    ensures r == Ok(ApduAnswer.FromAnswer(answers[|answers| - 1]).value.data)
    ensures l'.inbox == rest
    ensures l.delivered <= l'.delivered
    ensures SignerSince(ins, s, l, l') == Signer([], s.finished + [s.held + (HdPathToBytes(path) + payload)])
  {
    var cs := Commands(path, payload, ins);
    assert Sendable(cs) by {
      RequestIsSendable(path, payload, ins, |cs|);
      assert cs[..|cs|] == cs;
    }
    CooperativeRunCompletes(l, cs, r, l', frames, answers, rest);
    SignatureMeansDelivered(l, path, payload, ins, s, r, l');
  }

  /** The history and the unread events after the first `n` exchanges with an answering device. */
  lemma {:induction false} PairedRun(
    l: Link, cs: seq<ApduCommand>, frames: seq<seq<Event>>, answers: seq<seq<byte>>, rest: seq<Event>, n: nat)
    requires SessionMtu(l.mtu) && Sendable(cs) && n <= |cs| == |answers|
    requires Answering(l.inbox, frames, answers, rest)
    requires Acknowledged(l.fates, |PacketsOf(cs, MtuInForce(l.mtu))|)
    ensures var l' := After(l, cs[..n]);
            && l'.inbox == Flatten(frames[n..]) + rest
            && l.history <= l'.history && |l'.history| == |l.history| + n
            && forall i | 0 <= i < n :: l'.history[|l.history|..][i].reply == ApduAnswer.FromAnswer(answers[i])
  {
    PrefixFrames(l.inbox, frames, answers, rest, n);
    PrefixPackets(cs, MtuInForce(l.mtu), n);
    EveryCommandGetsItsAnswer(l, cs[..n], frames[..n], answers[..n], Flatten(frames[n..]) + rest);
    DropPrefix(l.history, Paired(cs[..n], answers[..n]));
  }

  lemma AcceptedRunCompletes(
    cs: seq<ApduCommand>, trace: seq<Step>, r: Result<seq<byte>, ApiError>, answers: seq<seq<byte>>)
    requires Signs(cs, trace, r) && cs != [] && |answers| == |cs| && AllAccepting(answers)
    requires forall i | 0 <= i < |trace| :: trace[i].reply == ApduAnswer.FromAnswer(answers[i])
    ensures |trace| == |cs| && r == Ok(ApduAnswer.FromAnswer(answers[|answers| - 1]).value.data)
  {
    assert forall i | 0 <= i < |trace| :: Accepted(trace[i].reply);
  }

  lemma SignedIsCalm(l: Link, cs: seq<ApduCommand>, r: Result<seq<byte>, ApiError>, l': Link)
    requires SignedOver(l, cs, r, l') && r.Ok?
    ensures l.history <= l'.history && |l'.history| == |l.history| + |cs| && l' == After(l, cs) && cs != []
    ensures Calm(l'.history[|l.history|..])
    ensures Accepted(l'.history[|l'.history| - 1].reply) && r.value == l'.history[|l'.history| - 1].reply.value.data
  {
    assert cs[..|cs|] == cs;
    var trace := l'.history[|l.history|..];
    assert trace[|trace| - 1] == l'.history[|l'.history| - 1];
  }

  lemma SignatureIsLastAnswer(
    l: Link, cs: seq<ApduCommand>, r: Result<seq<byte>, ApiError>, l': Link, frames: seq<seq<Event>>,
    answers: seq<seq<byte>>, rest: seq<Event>)
    requires SessionMtu(l.mtu) && Sendable(cs) && |answers| == |cs|
    requires Answering(Readable(l.inbox), frames, answers, rest) && SignedOver(l, cs, r, l') && r.Ok?
    ensures answers != [] && AllAccepting(answers)
    ensures r.value == ApduAnswer.FromAnswer(answers[|answers| - 1]).value.data
    ensures Readable(l'.inbox) == rest
  {
    SignedIsCalm(l, cs, r, l');
    CalmRunPairs(l, cs, frames, answers, rest);
    DropPrefix(l.history, Paired(cs, answers));
    AnswersAccepted(l, cs, r, l', answers);
  }

  lemma AnswersAccepted(
    l: Link, cs: seq<ApduCommand>, r: Result<seq<byte>, ApiError>, l': Link, answers: seq<seq<byte>>)
    requires SignedOver(l, cs, r, l') && r.Ok? && |answers| == |cs|
    requires l'.history[|l.history|..] == Paired(cs, answers)
    ensures AllAccepting(answers)
  {
    var trace := l'.history[|l.history|..];
    forall i | 0 <= i < |answers| ensures Accepted(ApduAnswer.FromAnswer(answers[i])) {
      assert trace[i].reply == ApduAnswer.FromAnswer(answers[i]);
    }
  }

  /**
   * What a signature is worth, on every link, with writes failing and timeouts and malformed notifications anywhere: if
   * the readable notifications are one frame per command and a signature is returned, it is the data of the device's
   * answer to the last chunk, the device accepted every chunk, and it has exactly this message.
   */
  lemma SignatureIsGenuine(
    l: Link, path: seq<u32>, payload: seq<byte>, ins: byte, r: Result<seq<byte>, ApiError>, l': Link,
    frames: seq<seq<Event>>, answers: seq<seq<byte>>, rest: seq<Event>, s: Signer)
    requires SessionMtu(l.mtu) && |answers| == |Commands(path, payload, ins)|
    requires Answering(Readable(l.inbox), frames, answers, rest)
    requires SignedOver(l, Commands(path, payload, ins), r, l') && r.Ok?
    ensures answers != [] && AllAccepting(answers)
    ensures r.value == ApduAnswer.FromAnswer(answers[|answers| - 1]).value.data
    ensures l.delivered <= l'.delivered && Readable(l'.inbox) == rest
    ensures SignerSince(ins, s, l, l') == Signer([], s.finished + [s.held + (HdPathToBytes(path) + payload)])
  {
    var cs := Commands(path, payload, ins);
    assert Sendable(cs) by {
      RequestIsSendable(path, payload, ins, |cs|);
      assert cs[..|cs|] == cs;
    }
    SignatureIsLastAnswer(l, cs, r, l', frames, answers, rest);
    EndToEndDelivery(l, path, payload, ins, s, r, l');
  }

  /** Negotiating the packet size tells the device's reassembler nothing. */
  lemma NegotiationIsNotHeard(l: Link, h: seq<seq<byte>>)
    ensures l.delivered <= InferMtuOn(l).link.delivered
    ensures HeardSince(h, l, InferMtuOn(l).link) == Peer(Idle, h)
  {
    var w := WriteOn(l, MTU_QUERY).link;
    assert InferMtuOn(l).link.delivered == w.delivered;
    if w.delivered != l.delivered {
      assert w.delivered[|l.delivered|..] == [MTU_QUERY];
      HearFirst(Peer(Idle, h), [MTU_QUERY], 1);
      assert [MTU_QUERY][..1] == [MTU_QUERY];
    }
  }

  /**
   * A whole session: from connecting, through negotiation, to a signature, over everything the device was ever
   * sent.
   */
  lemma {:induction false} FreshSessionDelivers(
    l0: Link, path: seq<u32>, payload: seq<byte>, ins: byte, r: Result<seq<byte>, ApiError>, l': Link)
    requires l0.delivered == [] && l0.mtu == None
    requires InferMtuOn(l0).result.Ok? && SignedOver(InferMtuOn(l0).link, Commands(path, payload, ins), r, l') && r.Ok?
    ensures AcceptAll(ins, Signer([], []), HearAll(Peer(Idle, []), l'.delivered).heard)
         == Signer([], [HdPathToBytes(path) + payload])
  {
    var l := InferMtuOn(l0).link;
    NegotiationOutcome(l0);
    NegotiationIsNotHeard(l0, []);
    SignatureMeansDelivered(l, path, payload, ins, Signer([], []), r, l');
    HeardChain([], l0, l, l');
    assert l'.delivered[0..] == l'.delivered;
    var data := HdPathToBytes(path) + payload;
    assert [] + data == data && [] + [data] == [data];
  }
}
