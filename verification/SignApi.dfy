/** The signing calls of `src/lib.rs` and `src/ble_api.rs`: which bytes are signed under which instruction. */
module SignApi {
  import opened Wrappers
  import opened Bytes
  import opened Packets
  import opened Apdu
  import opened Signing
  import opened BleTransport
  import opened BleApi
  import opened Usb
  import opened Nep413

  method SignTransaction(host: UsbHost, unsignedTx: seq<byte>, path: seq<u32>)
    returns (r: Result<seq<byte>, ApiError>, log: seq<LogLine>)
    modifies host
    ensures if OpenSucceeds(old(host.openings))
            then RunEnded(Commands(path, unsignedTx, 0x02), old(host.history), host.history, r)
            else host.history == old(host.history) && r == Err(Transport(NoDevice))
    ensures RepliedFrom(old(host.replies), old(host.history), host.history)
  {
    r, log := SendPayloadApdus(host, unsignedTx, path, INS_SIGN_TRANSACTION);
  }

  method SignMessageNep413(host: UsbHost, payload: Nep413Payload, path: seq<u32>)
    returns (r: Result<seq<byte>, ApiError>, log: seq<LogLine>)
    requires Encodable(payload)
    modifies host
    ensures if OpenSucceeds(old(host.openings))
            then RunEnded(Commands(path, Encode(payload), 0x07), old(host.history), host.history, r)
            else host.history == old(host.history) && r == Err(Transport(NoDevice))
    ensures RepliedFrom(old(host.replies), old(host.history), host.history)
  {
    r, log := SendPayloadApdus(host, Encode(payload), path, INS_SIGN_NEP413_MESSAGE);
  }

  method SignDelegateAction(host: UsbHost, payload: seq<byte>, path: seq<u32>)
    returns (r: Result<seq<byte>, ApiError>, log: seq<LogLine>)
    modifies host
    ensures if OpenSucceeds(old(host.openings))
            then RunEnded(Commands(path, payload, 0x08), old(host.history), host.history, r)
            else host.history == old(host.history) && r == Err(Transport(NoDevice))
    ensures RepliedFrom(old(host.replies), old(host.history), host.history)
  {
    r, log := SendPayloadApdus(host, payload, path, INS_SIGN_NEP366_DELEGATE_ACTION);
  }

  method SignTransactionBle(transport: TransportBle, unsignedTx: seq<byte>, path: seq<u32>)
    returns (r: Result<seq<byte>, ApiError>, log: seq<LogLine>)
    modifies transport
    ensures SignedOver(old(transport.State()), Commands(path, unsignedTx, 0x02), r, transport.State())
  {
    r, log := SendPayloadApdusBle(transport, unsignedTx, path, INS_SIGN_TRANSACTION);
  }

  method SignMessageNep413Ble(transport: TransportBle, payload: Nep413Payload, path: seq<u32>)
    returns (r: Result<seq<byte>, ApiError>, log: seq<LogLine>)
    requires Encodable(payload)
    modifies transport
    ensures SignedOver(old(transport.State()), Commands(path, Encode(payload), 0x07), r, transport.State())
  {
    r, log := SendPayloadApdusBle(transport, Encode(payload), path, INS_SIGN_NEP413_MESSAGE);
  }

  method SignDelegateActionBle(transport: TransportBle, payload: seq<byte>, path: seq<u32>)
    returns (r: Result<seq<byte>, ApiError>, log: seq<LogLine>)
    modifies transport
    ensures SignedOver(old(transport.State()), Commands(path, payload, 0x08), r, transport.State())
  {
    r, log := SendPayloadApdusBle(transport, payload, path, INS_SIGN_NEP366_DELEGATE_ACTION);
  }
}
