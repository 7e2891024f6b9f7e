/** The dry run of `src/print_apdus.rs`: logs the commands of a request without sending them. */
module PrintApdus {
  import opened Bytes
  import opened Apdu
  import opened Signing

  method PrintPayloadApdus(payload: seq<byte>, path: seq<u32>, ins: byte) returns (log: seq<LogLine>)
    ensures log == LogOf(Commands(path, payload, ins))
    ensures |log| == (|HdPathToBytes(path) + payload| + 249) / 250
    ensures forall i | 0 <= i < |log| ::
              && log[i].index == i && (log[i].isLast <==> i == |log| - 1)
              && log[i].bytes == Commands(path, payload, ins)[i].Serialized()
  {
    var data: seq<byte> := [];
    data := data + HdPathToBytes(path);
    data := data + payload;
    var chunks := Chunks(data);
    log := [];
    assert data == HdPathToBytes(path) + payload;
    ChunkCount(data);
    for i := 0 to |chunks|
      invariant LogsSent(Commands(path, payload, ins), i, log)
    {
      var isLastChunk := |chunks| == i + 1;
      var command := ApduCommand(CLA, ins, if isLastChunk then P1_SIGN_NORMAL_LAST_CHUNK else P1_SIGN_NORMAL,
                                 NETWORK_ID, chunks[i]);
      LogStep(Commands(path, payload, ins), i, log);
      log := log + [LogLine(i, isLastChunk, command.Serialized())];
    }
  }
}
