/** The USB side of `src/lib.rs`: a transport opened per request, and the signing loop over it. */
module Usb {
  import opened Wrappers
  import opened Bytes
  import opened Packets
  import opened Apdu
  import opened Signing

  /** The reply a host whose coming replies are `replies` gives at position `i`; past the end the device is gone. */
  function ReplyAt(replies: seq<Reply>, i: nat): Reply {
    if i < |replies| then replies[i] else Err(HidFailed)
  }

  /** The replies still to come after the first `n`. */
  function From(replies: seq<Reply>, n: nat): seq<Reply> {
    if n <= |replies| then replies[n..] else []
  }

  /** What the host has in store: the outcomes of opening a transport, and the replies to commands. */
  datatype Host = Host(openings: seq<bool>, replies: seq<Reply>)

  predicate OpenSucceeds(openings: seq<bool>) {
    openings != [] && openings[0]
  }

  function NextOpenings(openings: seq<bool>): seq<bool> {
    if openings == [] then [] else openings[1..]
  }

  /** One request over a transport of its own: the reply, and what is left in store. */
  function RequestOn(h: Host): (Reply, Host) {
    if OpenSucceeds(h.openings) then (ReplyAt(h.replies, 0), Host(NextOpenings(h.openings), From(h.replies, 1)))
    else (Err(NoDevice), Host(NextOpenings(h.openings), h.replies))
  }

  /** What is left in store after `n` requests. */
  function HostAfter(h: Host, n: nat): Host {
    if n == 0 then h else RequestOn(HostAfter(h, n - 1)).1
  }

  /** The steps of `trace` got the replies the host had in store, one request each. */
  ghost predicate Served(h: Host, trace: seq<Step>, h': Host) {
    && h' == HostAfter(h, |trace|)
    && forall i | 0 <= i < |trace| :: trace[i].reply == RequestOn(HostAfter(h, i)).0
  }

  lemma ServedStep(h: Host, trace: seq<Step>, h': Host, command: ApduCommand)
    requires Served(h, trace, h')
    ensures Served(h, trace + [Step(command, RequestOn(h').0)], RequestOn(h').1)
  {
  }

  /** With a transport for every request, the replies come in order, and exactly they are used up. */
  lemma {:induction false} RepliesInOrder(h: Host, trace: seq<Step>, h': Host)
    requires Served(h, trace, h') && |trace| <= |h.openings| && |trace| <= |h.replies|
    requires forall i | 0 <= i < |trace| :: h.openings[i]
    ensures forall i | 0 <= i < |trace| :: trace[i].reply == h.replies[i]
    ensures h' == Host(h.openings[|trace|..], h.replies[|trace|..])
    decreases |trace|
  {
    if trace != [] {
      var n := |trace| - 1;
      RepliesInOrder(h, trace[..n], HostAfter(h, n));
      assert h.openings[n..][1..] == h.openings[n + 1..] && h.replies[n..][1..] == h.replies[n + 1..];
    }
  }

  /** A request that finds no transport uses up no reply, and one that finds the device gone is a failed exchange. */
  lemma RequestFails(h: Host)
    ensures h.openings == [] || !h.openings[0] ==>
              RequestOn(h).0 == Err(NoDevice) && RequestOn(h).1.replies == h.replies
    ensures h.openings != [] && h.openings[0] && h.replies == [] ==> RequestOn(h).0 == Err(HidFailed)
  {
  }

  /** A history grew from `before` to `now` by replies taken in order from `replies`. */
  ghost predicate RepliedFrom(replies: seq<Reply>, before: seq<Step>, now: seq<Step>) {
    before <= now && forall i | |before| <= i < |now| :: now[i].reply == ReplyAt(replies, i - |before|)
  }

  lemma RepliedStep(replies: seq<Reply>, before: seq<Step>, now: seq<Step>, n: nat, command: ApduCommand)
    requires RepliedFrom(replies, before, now) && |now| == |before| + n
    ensures ReplyAt(From(replies, n), 0) == ReplyAt(replies, n)
    ensures From(From(replies, n), 1) == From(replies, n + 1)
    ensures RepliedFrom(replies, before, now + [Step(command, ReplyAt(replies, n))])
  {
  }

  /** Over USB too, a signature needs every reply to be an acceptance, and a request with chunks needs nothing else. */
  lemma UsbSignatureExactly(
    replies: seq<Reply>, commands: seq<ApduCommand>, before: seq<Step>, now: seq<Step>, r: Result<seq<byte>, ApiError>)
    requires RunEnded(commands, before, now, r) && RepliedFrom(replies, before, now)
    ensures r.Ok? <==>
              && 0 < |commands| <= |replies|
              && forall i | 0 <= i < |commands| :: replies[i].Ok? && replies[i].value.retcode == 0x9000
    ensures r.Ok? ==> r.value == replies[|commands| - 1].value.data
  {
    var history := seq(|commands|, i requires 0 <= i < |commands| => ReplyAt(replies, i));
    var trace := now[|before|..];
    assert forall i | 0 <= i < |trace| :: trace[i] == now[|before| + i];
    SignatureExactly(commands, trace, r, history);
    assert forall i | 0 <= i < |commands| :: history[i] == ReplyAt(replies, i);
    assert |replies| < |commands| ==> !Accepted(history[|replies|]);
    assert forall i | 0 <= i < |commands| && i < |replies| :: replies[i] == history[i];
  }

  class UsbHost {
    var openings: seq<bool>     // whether each coming attempt to open a transport succeeds
    var replies: seq<Reply>     // to the commands to come
    ghost var history: seq<Step>

    ghost function State(): Host
      reads this
    {
      Host(openings, replies)
    }

    constructor (openings: seq<bool>, replies: seq<Reply>)
      ensures this.openings == openings && this.replies == replies && history == []
    {
      this.openings, this.replies, history := openings, replies, [];
    }

    method GetTransport() returns (r: Result<(), TransportError>)
      modifies this`openings
      ensures r == if OpenSucceeds(old(openings)) then Ok(()) else Err(NoDevice)
      ensures openings == NextOpenings(old(openings))
    {
      r := if openings != [] && openings[0] then Ok(()) else Err(NoDevice);
      openings := if openings == [] then [] else openings[1..];
    }

    method Exchange(command: ApduCommand) returns (r: Reply)
      modifies this`replies, this`history
      ensures r == ReplyAt(old(replies), 0)
      ensures replies == From(old(replies), 1) && openings == old(openings)
      ensures history == old(history) + [Step(command, r)]
    {
      r := if replies == [] then Err(HidFailed) else replies[0];
      replies := if replies == [] then [] else replies[1..];
      history := history + [Step(command, r)];
    }
  }

  method SendPayloadApdus(host: UsbHost, payload: seq<byte>, path: seq<u32>, ins: byte)
    returns (r: Result<seq<byte>, ApiError>, log: seq<LogLine>)
    modifies host
    ensures old(host.history) <= host.history
    ensures LogsSent(Commands(path, payload, ins), |host.history| - |old(host.history)|, log)
    ensures RepliedFrom(old(host.replies), old(host.history), host.history)
    ensures host.openings == NextOpenings(old(host.openings))
    ensures host.replies == From(old(host.replies), |host.history| - |old(host.history)|)
    ensures if OpenSucceeds(old(host.openings))
            then RunEnded(Commands(path, payload, ins), old(host.history), host.history, r)
            else host.history == old(host.history) && r == Err(Transport(NoDevice))
  {
    log := [];
    var transport := host.GetTransport();
    if transport.Err? {
      return Err(Transport(transport.error)), log;
    }
    var data: seq<byte> := [];
    data := data + HdPathToBytes(path);
    data := data + payload;
    var chunks := Chunks(data);
    ghost var start, replies := host.history, host.replies;
    ghost var commands := Commands(path, payload, ins);
    assert data == HdPathToBytes(path) + payload;
    RunStarts(commands, start);
    for i := 0 to |chunks|
      invariant RunSoFar(commands, i, start, host.history)
      invariant RepliedFrom(replies, start, host.history)
      invariant host.replies == From(replies, i) && host.openings == NextOpenings(old(host.openings))
      invariant i == |chunks| ==> i == 0
      invariant LogsSent(commands, i, log)
    {
      var isLastChunk := |chunks| == i + 1;
      var command := ApduCommand(CLA, ins, if isLastChunk then P1_SIGN_NORMAL_LAST_CHUNK else P1_SIGN_NORMAL,
                                 NETWORK_ID, chunks[i]);
      LogStep(commands, i, log);
      log := log + [LogLine(i, isLastChunk, command.Serialized())];
      RunStep(commands, i, start, host.history, ReplyAt(replies, i));
      RepliedStep(replies, start, host.history, i, command);
      var reply := host.Exchange(command);
      match reply
      case Ok(response) =>
        if response.retcode == RETURN_CODE_OK {
          if isLastChunk {
            return Ok(response.data), log;
          }
        } else {
          return Err(Status(response.retcode)), log;
        }
      case Err(e) =>
        return Err(Transport(e)), log;
    }
    r := Err(Unprocessed);
  }
}
