/** The signing loop of `src/ble_api.rs`. */
module BleApi {
  import opened Wrappers
  import opened Bytes
  import opened Apdu
  import opened Links
  import opened Signing
  import opened BleTransport

  /** A link went through a signing run: it exchanged the first commands of the request, as many as the run allows. */
  ghost predicate SignedOver(l: Link, commands: seq<ApduCommand>, r: Result<seq<byte>, ApiError>, l': Link) {
    && RunEnded(commands, l.history, l'.history, r)
    && l' == After(l, commands[..|l'.history| - |l.history|])
  }

  lemma {:induction false} AfterStep(l: Link, commands: seq<ApduCommand>, i: nat)
    requires i < |commands|
    ensures After(l, commands[..i + 1]) == ExchangeOn(After(l, commands[..i]), commands[i]).link
  {
    assert commands[..i + 1][..i] == commands[..i];
  }

  /** A run in progress: the first `n` commands were exchanged and accepted. */
  ghost predicate SigningOver(l: Link, commands: seq<ApduCommand>, n: nat, l': Link) {
    RunSoFar(commands, n, l.history, l'.history) && l' == After(l, commands[..n])
  }

  /** One more exchange carries the run on, completes it, or ends it with an error. */
  lemma SigningStep(l: Link, commands: seq<ApduCommand>, n: nat, l': Link)
    requires SigningOver(l, commands, n, l') && n < |commands|
    ensures var x := ExchangeOn(l', commands[n]);
            && |x.link.history| == |l'.history| + 1
            && if x.result.Err? then SignedOver(l, commands, Err(Transport(x.result.error)), x.link)
               else if x.result.value.retcode != 0x9000 then
                 SignedOver(l, commands, Err(Status(x.result.value.retcode)), x.link)
               else
                 && SigningOver(l, commands, n + 1, x.link)
                 && (n + 1 == |commands| ==> SignedOver(l, commands, Ok(x.result.value.data), x.link))
  {
    AfterStep(l, commands, n);
    ExchangeKeeps(l', commands[n]);
    RunStep(commands, n, l.history, l'.history, ExchangeOn(l', commands[n]).result);
  }

  /** The reply of the exchange number `i` if the commands before it have been exchanged. */
  function ReplyOn(l: Link, commands: seq<ApduCommand>, i: nat): Reply
    requires i < |commands|
  {
    ExchangeOn(After(l, commands[..i]), commands[i]).result
  }

  /** The step number `i` after `n` exchanges. */
  lemma {:induction false} RecordedReply(l: Link, commands: seq<ApduCommand>, n: nat, l': Link, i: nat)
    requires i < n <= |commands| && l' == After(l, commands[..n])
    ensures |l'.history| == |l.history| + n
    ensures l'.history[|l.history| + i].reply == ReplyOn(l, commands, i)
  {
    var c := commands[..n];
    HistoryGrows(l, c, i);
    HistoryGrows(l, c, i + 1);
    assert c[..i] == commands[..i] && c[..i + 1] == commands[..i + 1];
    AfterStep(l, commands, i);
    ExchangeKeeps(After(l, commands[..i]), commands[i]);
  }

  lemma {:induction false} RunIsExchanges(l: Link, commands: seq<ApduCommand>, r: Result<seq<byte>, ApiError>, l': Link)
    requires SignedOver(l, commands, r, l')
    ensures |l.history| <= |l'.history| <= |l.history| + |commands|
    ensures l' == After(l, commands[..|l'.history| - |l.history|])
  {
  }

  /** The replies the link gives if it is sent all the commands. */
  function RepliesOn(l: Link, commands: seq<ApduCommand>): (replies: seq<Reply>)
    ensures |replies| == |commands|
  {
    seq(|commands|, i requires 0 <= i < |commands| => ReplyOn(l, commands, i))
  }

  lemma {:induction false} RecordedReplies(l: Link, commands: seq<ApduCommand>, n: nat, l': Link)
    requires n <= |commands| && l' == After(l, commands[..n]) && |l'.history| == |l.history| + n
    ensures RepliesFrom(l'.history[|l.history|..], RepliesOn(l, commands))
  {
    forall i | 0 <= i < n ensures l'.history[|l.history|..][i].reply == RepliesOn(l, commands)[i] {
      RecordedReply(l, commands, n, l', i);
    }
  }

  /** The trace of a run holds the replies the link gives. */
  lemma SignedTrace(l: Link, commands: seq<ApduCommand>, r: Result<seq<byte>, ApiError>, l': Link)
    requires SignedOver(l, commands, r, l')
    ensures |l.history| <= |l'.history| && Signs(commands, l'.history[|l.history|..], r)
    ensures RepliesFrom(l'.history[|l.history|..], RepliesOn(l, commands))
  {
    RunIsExchanges(l, commands, r, l');
    RecordedReplies(l, commands, |l'.history| - |l.history|, l');
  }

  /** Over BLE a signature comes exactly if there is a command and the link would have every one of them accepted. */
  lemma BleSignatureExactly(l: Link, commands: seq<ApduCommand>, r: Result<seq<byte>, ApiError>, l': Link)
    requires SignedOver(l, commands, r, l')
    ensures r.Ok? <==>
              && commands != []
              && forall i | 0 <= i < |commands| ::
                   RepliesOn(l, commands)[i].Ok? && RepliesOn(l, commands)[i].value.retcode == 0x9000
    ensures r.Ok? ==> r.value == RepliesOn(l, commands)[|commands| - 1].value.data
  {
    SignedTrace(l, commands, r, l');
    SignatureExactly(commands, l'.history[|l.history|..], r, RepliesOn(l, commands));
  }

  /** A run is determined by the link and the commands. */
  lemma SignedRunIsDetermined(
    l: Link, commands: seq<ApduCommand>, r: Result<seq<byte>, ApiError>, l': Link, r2: Result<seq<byte>, ApiError>,
    l2: Link)
    requires SignedOver(l, commands, r, l') && SignedOver(l, commands, r2, l2)
    ensures r == r2 && l' == l2
  {
    SignedTrace(l, commands, r, l');
    SignedTrace(l, commands, r2, l2);
    TraceIsDetermined(commands, l'.history[|l.history|..], r, l2.history[|l.history|..], r2, RepliesOn(l, commands));
  }

  method SendPayloadApdusBle(transport: TransportBle, payload: seq<byte>, path: seq<u32>, ins: byte)
    returns (r: Result<seq<byte>, ApiError>, log: seq<LogLine>)
    modifies transport
    ensures SignedOver(old(transport.State()), Commands(path, payload, ins), r, transport.State())
    ensures LogsSent(Commands(path, payload, ins), |transport.history| - |old(transport.history)|, log)
  {
    var data: seq<byte> := [];
    data := data + HdPathToBytes(path);
    data := data + payload;
    var chunks := Chunks(data);
    log := [];
    ghost var start := transport.State();
    ghost var commands := Commands(path, payload, ins);
    assert data == HdPathToBytes(path) + payload;
    RunStarts(commands, start.history);
    for i := 0 to |chunks|
      invariant SigningOver(start, commands, i, transport.State())
      invariant i == |chunks| ==> i == 0
      invariant LogsSent(commands, i, log)
    {
      var isLastChunk := |chunks| == i + 1;
      var command := ApduCommand(CLA, ins, if isLastChunk then P1_SIGN_NORMAL_LAST_CHUNK else P1_SIGN_NORMAL,
                                 NETWORK_ID, chunks[i]);
      LogStep(commands, i, log);
      log := log + [LogLine(i, isLastChunk, command.Serialized())];
      SigningStep(start, commands, i, transport.State());
      var reply := transport.Exchange(command);
      match reply
      case Ok(response) =>
        if response.retcode == RETURN_CODE_OK {
          if isLastChunk {
            return Ok(response.data), log;
          }
        } else {
          return Err(Status(response.retcode)), log;
        }
      case Err(e) =>
        return Err(Transport(e)), log;
    }
    r := Err(Unprocessed);
  }
}
