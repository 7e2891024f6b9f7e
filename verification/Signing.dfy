/** What a signing request is on the wire, and what its outcome must be for given replies. */
module Signing {
  import opened Wrappers
  import opened Bytes
  import opened Packets
  import opened Framing
  import opened Apdu

  /** Big-endian bytes of every component of a derivation path. */
  function HdPathToBytes(path: seq<u32>): seq<byte> {
    if path == [] then [] else U32Be(path[0]) + HdPathToBytes(path[1..])
  }

  /** `slice::chunks(CHUNK_SIZE)`. */
  function Chunks(data: seq<byte>): seq<seq<byte>>
    decreases |data|
  {
    if data == [] then []
    else
      var cut := Min(CHUNK_SIZE, |data|);
      [data[..cut]] + Chunks(data[cut..])
  }

  function CommandFor(ins: byte, chunk: seq<byte>, isLast: bool): ApduCommand {
    ApduCommand(CLA, ins, if isLast then P1_SIGN_NORMAL_LAST_CHUNK else P1_SIGN_NORMAL, NETWORK_ID, chunk)
  }

  /** The ideal list of commands of a request. */
  function Commands(path: seq<u32>, payload: seq<byte>, ins: byte): (cs: seq<ApduCommand>)
    ensures |cs| == |Chunks(HdPathToBytes(path) + payload)|
  {
    var chunks := Chunks(HdPathToBytes(path) + payload);
    seq(|chunks|, i requires 0 <= i < |chunks| => CommandFor(ins, chunks[i], i + 1 == |chunks|))
  }

  // ---------------------------------------------------------------- chunking

  /** The chunks are an exact partition into full pieces and one final piece. */
  lemma {:induction false} ChunksPartition(data: seq<byte>)
    ensures Flatten(Chunks(data)) == data
    ensures |Chunks(data)| == CeilDiv(|data|, CHUNK_SIZE)
    ensures forall i | 0 <= i < |Chunks(data)| - 1 :: |Chunks(data)[i]| == CHUNK_SIZE
    ensures Chunks(data) != [] ==> 1 <= |Chunks(data)[|Chunks(data)| - 1]| <= CHUNK_SIZE
    decreases |data|
  {
    if data != [] {
      var cut := Min(CHUNK_SIZE, |data|);
      ChunksPartition(data[cut..]);
      CeilDivStep(|data|, CHUNK_SIZE);
      assert data[..cut] + data[cut..] == data;
      forall i | 0 < i < |Chunks(data)| ensures Chunks(data)[i] == Chunks(data[cut..])[i - 1] {
      }
    }
  }

  /** No other division into pieces of at most 250 bytes has fewer of them. */
  lemma {:induction false} ChunksAreFewest(data: seq<byte>, pieces: seq<seq<byte>>)
    requires Flatten(pieces) == data
    requires forall i | 0 <= i < |pieces| :: |pieces[i]| <= CHUNK_SIZE
    ensures |Chunks(data)| <= |pieces|
  {
    ChunksPartition(data);
    FlattenBound(pieces, CHUNK_SIZE);
    CeilDivIsLeast(|data|, CHUNK_SIZE, |pieces|);
  }

  /**
   * Exactly the last command is flagged; each fits its length byte, is read back as sent and passes the BLE
   * size guard.
   */
  lemma CommandsAreWellFormed(path: seq<u32>, payload: seq<byte>, ins: byte, i: nat)
    requires i < |Commands(path, payload, ins)|
    ensures var cs := Commands(path, payload, ins);
            && (cs[i].p1 == P1_SIGN_NORMAL_LAST_CHUNK <==> i == |cs| - 1)
            && (cs[i].p1 == P1_SIGN_NORMAL <==> i < |cs| - 1)
            && 1 <= |cs[i].data| <= CHUNK_SIZE
            && ApduCommand.Parse(cs[i].Serialized()) == Some(cs[i])
            && |cs[i].Serialized()| <= U16_MAX
  {
    ChunksPartition(HdPathToBytes(path) + payload);
    CommandRoundTrip(Commands(path, payload, ins)[i]);
  }

  /** The data of a list of commands. */
  function DataOf(commands: seq<ApduCommand>): (ds: seq<seq<byte>>)
    ensures |ds| == |commands|
  {
    seq(|commands|, i requires 0 <= i < |commands| => commands[i].data)
  }

  lemma CommandsCarryData(path: seq<u32>, payload: seq<byte>, ins: byte)
    ensures DataOf(Commands(path, payload, ins)) == Chunks(HdPathToBytes(path) + payload)
    ensures Flatten(DataOf(Commands(path, payload, ins))) == HdPathToBytes(path) + payload
  {
    ChunksPartition(HdPathToBytes(path) + payload);
  }

  /** Where each chunk is in the data. */
  lemma {:induction false} ChunkAt(data: seq<byte>, i: nat)
    requires i < |Chunks(data)|
    ensures 250 * i < |data| && Chunks(data)[i] == data[250 * i..Min(250 * (i + 1), |data|)]
    decreases |data|
  {
    if i > 0 {
      var rest := data[Min(CHUNK_SIZE, |data|)..];
      assert Chunks(data)[i] == Chunks(rest)[i - 1];
      ChunkAt(rest, i - 1);
    }
  }

  lemma ChunkCount(data: seq<byte>)
    ensures |Chunks(data)| == (|data| + 249) / 250
  {
    ChunksPartition(data);
  }

  /** Every byte of every command of a request, and their number. */
  lemma CommandBytes(path: seq<u32>, payload: seq<byte>, ins: byte, i: nat)
    requires i < |Commands(path, payload, ins)|
    ensures |Commands(path, payload, ins)| == (|HdPathToBytes(path) + payload| + 249) / 250
    ensures var data := HdPathToBytes(path) + payload;
            var isLast := |data| <= 250 * (i + 1);
            var k := if isLast then |data| - 250 * i else 250;
            && 0 < k <= 250 && 250 * i + k <= |data|
            && Commands(path, payload, ins)[i].Serialized()
               == [0x80, ins, if isLast then 0x80 else 0x00, 0x57, k] + data[250 * i..250 * i + k]
  {
    var data := HdPathToBytes(path) + payload;
    ChunkCount(data);
    ChunkAt(data, i);
  }

  // ---------------------------------------------------------------- commands determine the request

  /**
   * Two requests give the same commands exactly when they have the same bytes and, if there are any, the same
   * instruction.
   */
  lemma SameCommandsExactly(
    path: seq<u32>, payload: seq<byte>, ins: byte, path': seq<u32>, payload': seq<byte>, ins': byte)
    ensures Commands(path, payload, ins) == Commands(path', payload', ins')
       <==> && HdPathToBytes(path) + payload == HdPathToBytes(path') + payload'
            && (HdPathToBytes(path) + payload == [] || ins == ins')
  {
    var cs, cs' := Commands(path, payload, ins), Commands(path', payload', ins');
    CommandsCarryData(path, payload, ins);
    CommandsCarryData(path', payload', ins');
    if cs == cs' && HdPathToBytes(path) + payload != [] {
      assert cs[0].ins == cs'[0].ins;
    }
  }

  /** Four bytes per component, most significant first, in path order. */
  lemma {:induction false} PathIsBigEndian(path: seq<u32>, i: nat)
    requires i < |path|
    ensures |HdPathToBytes(path)| == 4 * |path|
    ensures var bs := HdPathToBytes(path);
            path[i] == 0x100_0000 * bs[4 * i] as int + 0x1_0000 * bs[4 * i + 1] as int
                       + 0x100 * bs[4 * i + 2] as int + bs[4 * i + 3] as int
    decreases |path|
  {
    if |path| > 1 {
      PathIsBigEndian(path[1..], if i > 0 then i - 1 else 0);
    }
    var n, bs := path[0], HdPathToBytes(path);
    assert bs[0] == n / 0x1_0000 / 0x100 && bs[1] == n / 0x1_0000 % 0x100;
    assert bs[2] == n % 0x1_0000 / 0x100 && bs[3] == n % 0x1_0000 % 0x100;
    forall k | 4 <= k < |bs| ensures bs[k] == HdPathToBytes(path[1..])[k - 4] {
    }
  }

  lemma {:induction false} PathPrefixDecodes(path: seq<u32>, payload: seq<byte>, path': seq<u32>, payload': seq<byte>)
    requires |path| == |path'|
    requires HdPathToBytes(path) + payload == HdPathToBytes(path') + payload'
    ensures path == path' && payload == payload'
    decreases |path|
  {
    if path == [] {
      assert HdPathToBytes(path) + payload == payload && HdPathToBytes(path') + payload' == payload';
    } else {
      var a, a' := HdPathToBytes(path) + payload, HdPathToBytes(path') + payload';
      var b, b' := HdPathToBytes(path[1..]) + payload, HdPathToBytes(path'[1..]) + payload';
      Assoc(U32Be(path[0]), HdPathToBytes(path[1..]), payload);
      Assoc(U32Be(path'[0]), HdPathToBytes(path'[1..]), payload');
      assert a[..4] == U32Be(path[0]) && a'[..4] == U32Be(path'[0]);
      U32BeInjective(path[0], path'[0]);
      assert a[4..] == b && a'[4..] == b';
      PathPrefixDecodes(path[1..], payload, path'[1..], payload');
      assert path == [path[0]] + path[1..] && path' == [path'[0]] + path'[1..];
    }
  }

  /** At a fixed path depth the commands determine path, payload and instruction. */
  lemma CommandsDetermineRequest(
    path: seq<u32>, payload: seq<byte>, ins: byte, path': seq<u32>, payload': seq<byte>, ins': byte)
    requires |path| == |path'| && HdPathToBytes(path) + payload != []
    requires Commands(path, payload, ins) == Commands(path', payload', ins')
    ensures path == path' && payload == payload' && ins == ins'
  {
    SameCommandsExactly(path, payload, ins, path', payload', ins');
    PathPrefixDecodes(path, payload, path', payload');
  }

  /** Across depths they do not: components of a path can be passed as payload instead, unnoticed. */
  lemma {:induction false} DepthIsNotSent(path: seq<u32>, payload: seq<byte>, ins: byte)
    ensures Commands(path, payload, ins) == Commands([], HdPathToBytes(path) + payload, ins)
  {
    var data := HdPathToBytes(path) + payload;
    assert HdPathToBytes([]) + data == data;
    SameCommandsExactly(path, payload, ins, [], data, ins);
  }

  // ---------------------------------------------------------------- the outcome of a request

  datatype ApiError =
    | Transport(error: TransportError)
    | Status(retcode: u16)
    | Unprocessed          // there was nothing to send
    | NameTooShort
    | NameTruncated
    | Locked
    | IndexPanic           // a slice index out of range

  function FailureOf(reply: Reply): ApiError
    requires !Accepted(reply)
  {
    match reply
    case Err(e) => Transport(e)
    case Ok(answer) => Status(answer.retcode)
  }

  /**
   * A signing run: commands go out in order, each after the previous one was accepted; the data of the last answer is
   * the signature, and the first reply that is not an acceptance ends the run with its error.
   */
  ghost predicate Signs(commands: seq<ApduCommand>, trace: seq<Step>, r: Result<seq<byte>, ApiError>) {
    && |trace| <= |commands|
    && (forall i | 0 <= i < |trace| :: trace[i].command == commands[i])
    && (forall i | 0 <= i < |trace| - 1 :: Accepted(trace[i].reply))
    && match r
       case Ok(signature) =>
         && 0 < |trace| == |commands|
         && var last := trace[|trace| - 1].reply;
            Accepted(last) && signature == last.value.data
       case Err(e) =>
         if commands == [] then e == Unprocessed
         else 0 < |trace| && !Accepted(trace[|trace| - 1].reply) && e == FailureOf(trace[|trace| - 1].reply)
  }

  /** A run in progress: every command so far was accepted. */
  ghost predicate Underway(commands: seq<ApduCommand>, trace: seq<Step>) {
    && |trace| <= |commands|
    && forall i | 0 <= i < |trace| :: trace[i].command == commands[i] && Accepted(trace[i].reply)
  }

  /** One more reply carries the run on, completes it, or ends it with an error. */
  lemma UnderwayStep(commands: seq<ApduCommand>, trace: seq<Step>, reply: Reply)
    requires Underway(commands, trace) && |trace| < |commands|
    ensures var longer := trace + [Step(commands[|trace|], reply)];
            if !Accepted(reply) then Signs(commands, longer, Err(FailureOf(reply)))
            else
              && Underway(commands, longer)
              && (|longer| == |commands| ==> Signs(commands, longer, Ok(reply.value.data)))
  {
  }

  /** A history went from `before` to `now` by the first `n` commands of a request, all accepted. */
  ghost predicate RunSoFar(commands: seq<ApduCommand>, n: nat, before: seq<Step>, now: seq<Step>) {
    n <= |commands| && before <= now && |now| == |before| + n && Underway(commands, now[|before|..])
  }

  /** A history went from `before` to `now` by a whole signing run with result `r`. */
  ghost predicate RunEnded(
    commands: seq<ApduCommand>, before: seq<Step>, now: seq<Step>, r: Result<seq<byte>, ApiError>) {
    before <= now && Signs(commands, now[|before|..], r)
  }

  lemma RunStarts(commands: seq<ApduCommand>, before: seq<Step>)
    ensures RunSoFar(commands, 0, before, before)
    ensures commands == [] ==> RunEnded(commands, before, before, Err(Unprocessed))
  {
  }

  lemma RunStep(commands: seq<ApduCommand>, n: nat, before: seq<Step>, now: seq<Step>, reply: Reply)
    requires RunSoFar(commands, n, before, now) && n < |commands|
    ensures var later := now + [Step(commands[n], reply)];
            if !Accepted(reply) then RunEnded(commands, before, later, Err(FailureOf(reply)))
            else
              && RunSoFar(commands, n + 1, before, later)
              && (n + 1 == |commands| ==> RunEnded(commands, before, later, Ok(reply.value.data)))
  {
    var trace := now[|before|..];
    UnderwayStep(commands, trace, reply);
    assert (now + [Step(commands[n], reply)])[|before|..] == trace + [Step(commands[n], reply)];
  }

  /** The trace took its replies from `history`, in order. */
  predicate RepliesFrom(trace: seq<Step>, history: seq<Reply>) {
    |trace| <= |history| && forall i | 0 <= i < |trace| :: trace[i].reply == history[i]
  }

  /** Success needs, and with a chunk to send is exactly, every reply being an acceptance. */
  lemma SignatureExactly(
    commands: seq<ApduCommand>, trace: seq<Step>, r: Result<seq<byte>, ApiError>, history: seq<Reply>)
    requires |history| == |commands| && Signs(commands, trace, r) && RepliesFrom(trace, history)
    ensures r.Ok? <==>
              commands != [] && forall i | 0 <= i < |history| :: history[i].Ok? && history[i].value.retcode == 0x9000
    ensures r.Ok? ==> r.value == history[|history| - 1].value.data && |trace| == |commands|
  {
    if r.Err? && commands != [] {
      assert !Accepted(history[|trace| - 1]);
    }
  }

  /**
   * If the reply at `k` is the first failure, exactly `k + 1` commands were sent and the result is its status word
   * or its transport error.
   */
  lemma FirstFailureEndsRun(
    commands: seq<ApduCommand>, trace: seq<Step>, r: Result<seq<byte>, ApiError>, history: seq<Reply>, k: nat)
    requires |history| == |commands| && Signs(commands, trace, r) && RepliesFrom(trace, history)
    requires k < |history| && !Accepted(history[k]) && forall i | 0 <= i < k :: Accepted(history[i])
    ensures |trace| == k + 1
    ensures match history[k]
            case Ok(answer) => answer.retcode != 0x9000 && r == Err(Status(answer.retcode))
            case Err(e) => r == Err(Transport(e))
  {
    SignatureExactly(commands, trace, r, history);
    assert forall i | 0 <= i < |trace| - 1 :: Accepted(history[i]);
  }

  /** A request without a byte to send fails before the first command. */
  lemma NothingToSign(path: seq<u32>, payload: seq<byte>, ins: byte, trace: seq<Step>, r: Result<seq<byte>, ApiError>)
    requires Signs(Commands(path, payload, ins), trace, r)
    ensures HdPathToBytes(path) + payload == [] <==> r == Err(Unprocessed)
    ensures r == Err(Unprocessed) ==> trace == []
  {
    ChunkCount(HdPathToBytes(path) + payload);
  }

  /** One request and one history of replies leave one trace and one result. */
  lemma TraceIsDetermined(
    commands: seq<ApduCommand>, t: seq<Step>, r: Result<seq<byte>, ApiError>, u: seq<Step>,
    q: Result<seq<byte>, ApiError>, history: seq<Reply>)
    requires |history| == |commands| && Signs(commands, t, r) && Signs(commands, u, q)
    requires RepliesFrom(t, history) && RepliesFrom(u, history)
    ensures t == u && r == q
  {
    SignatureExactly(commands, t, r, history);
    SignatureExactly(commands, u, q, history);
    assert forall i | 0 <= i < |t| - 1 :: Accepted(history[i]);
    assert forall i | 0 <= i < |u| - 1 :: Accepted(history[i]);
    assert r.Err? && commands != [] ==> !Accepted(history[|t| - 1]) && !Accepted(history[|u| - 1]);
    assert |t| == |u|;
    assert forall i | 0 <= i < |t| :: t[i] == Step(commands[i], history[i]) == u[i];
  }

  // ---------------------------------------------------------------- the log

  /** One line written by `log_command`. */
  datatype LogLine = LogLine(index: nat, isLast: bool, bytes: seq<byte>)

  function LogOf(commands: seq<ApduCommand>): (log: seq<LogLine>)
    ensures |log| == |commands|
  {
    seq(|commands|, i requires 0 <= i < |commands| => LogLine(i, i + 1 == |commands|, commands[i].Serialized()))
  }

  /** The log of a run that sent the first `n` commands: one line for each. */
  ghost predicate LogsSent(commands: seq<ApduCommand>, n: nat, log: seq<LogLine>) {
    n <= |commands| && log == LogOf(commands)[..n]
  }

  lemma LogStep(commands: seq<ApduCommand>, n: nat, log: seq<LogLine>)
    requires LogsSent(commands, n, log) && n < |commands|
    ensures LogsSent(commands, n + 1, log + [LogLine(n, n + 1 == |commands|, commands[n].Serialized())])
  {
  }

  /**
   * The dry run against a real one: what was sent is a prefix of what the dry run logs, byte for byte, and all of it
   * exactly when no command but the last was refused.
   */
  lemma DryRunAgrees(commands: seq<ApduCommand>, trace: seq<Step>, r: Result<seq<byte>, ApiError>)
    requires Signs(commands, trace, r)
    ensures forall i | 0 <= i < |trace| :: trace[i].command.Serialized() == LogOf(commands)[i].bytes
    ensures |trace| == |LogOf(commands)|
       <==> forall i | 0 <= i < |commands| - 1 :: i < |trace| && Accepted(trace[i].reply)
  {
    if |trace| < |commands| {
      assert !Accepted(trace[|trace| - 1].reply);
    }
  }
}
