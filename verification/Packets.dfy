/** BLE packets of the Ledger framing protocol, and the events a notification stream yields. */
module Packets {
  import opened Wrappers
  import opened Bytes

  const MTU_COMMAND_TAG: byte := 0x08
  const APDU_COMMAND_TAG: byte := 0x05
  const DEFAULT_MTU_SIZE: nat := 20

  datatype TransportError =
    | WriteFailed        // the BLE stack reported an error for a write
    | InvalidPacket
    | StreamEnded
    | Timeout
    | PayloadTooLarge
    | ResponseTooShort
    | CounterOverflow    // `seq_index += 1` past u16::MAX, a panic in a checked build
    | HidFailed          // the USB exchange failed
    | NoDevice           // no USB transport could be opened

  /** What one call of `next_notification` sees; a stream with no events left has ended. */
  datatype Event = Data(value: seq<byte>) | TimedOut

  datatype InitialPacket = InitialPacket(tag: byte, dataLength: u16, payload: seq<byte>) {
    function Encoded(): seq<byte> {
      [tag] + U16Be(0) + U16Be(dataLength) + payload
    }

    method Serialize() returns (buf: seq<byte>)
      ensures buf == Encoded()
    {
      buf := [];
      buf := buf + [tag];
      buf := buf + U16Be(0);
      buf := buf + U16Be(dataLength);
      buf := buf + payload;
    }

    static function TryFrom(raw: seq<byte>): Result<InitialPacket, TransportError> {
      if |raw| < 5 then Err(InvalidPacket)
      else Ok(InitialPacket(raw[0], FromU16Be(raw[3], raw[4]), raw[5..]))
    }
  }

  datatype SubsequentPacket = SubsequentPacket(tag: byte, sequenceIndex: u16, payload: seq<byte>) {
    function Encoded(): seq<byte> {
      [tag] + U16Be(sequenceIndex) + payload
    }

    method Serialize() returns (buf: seq<byte>)
      ensures buf == Encoded()
    {
      buf := [];
      buf := buf + [tag];
      buf := buf + U16Be(sequenceIndex);
      buf := buf + payload;
    }

    static function TryFrom(raw: seq<byte>): Result<SubsequentPacket, TransportError> {
      if |raw| < 3 then Err(InvalidPacket)
      else Ok(SubsequentPacket(raw[0], FromU16Be(raw[1], raw[2]), raw[3..]))
    }
  }

  lemma InitialLayout(p: InitialPacket)
    ensures var raw := p.Encoded();
            && |raw| == 5 + |p.payload|
            && raw[0] == p.tag && raw[1] == 0 && raw[2] == 0
            && raw[3] == p.dataLength / 0x100 && raw[4] == p.dataLength % 0x100
            && raw[5..] == p.payload
  {
    assert p.Encoded() == [p.tag, 0, 0, p.dataLength / 0x100, p.dataLength % 0x100] + p.payload;
  }

  lemma SubsequentLayout(p: SubsequentPacket)
    ensures var raw := p.Encoded();
            && |raw| == 3 + |p.payload|
            && raw[0] == p.tag && raw[1] == p.sequenceIndex / 0x100 && raw[2] == p.sequenceIndex % 0x100
            && raw[3..] == p.payload
  {
    assert p.Encoded() == [p.tag, p.sequenceIndex / 0x100, p.sequenceIndex % 0x100] + p.payload;
  }

  /** Equal headers and equal payloads make equal packets. */
  lemma SamePacket(a: seq<byte>, b: seq<byte>, header: nat)
    requires header <= |a| && header <= |b|
    requires forall i | 0 <= i < header :: a[i] == b[i]
    requires a[header..] == b[header..]
    ensures a == b
  {
    assert a == a[..header] + a[header..] && b == b[..header] + b[header..];
  }

  /** Decoding undoes encoding; encoding undoes decoding exactly when the two bytes the decoder drops were zero. */
  lemma InitialPacketRoundTrip(p: InitialPacket, raw: seq<byte>)
    ensures InitialPacket.TryFrom(p.Encoded()) == Ok(p)
    ensures |raw| < 5 <==> InitialPacket.TryFrom(raw) == Err(InvalidPacket)
    ensures |raw| >= 5 ==> (InitialPacket.TryFrom(raw).value.Encoded() == raw <==> raw[1] == 0 && raw[2] == 0)
  {
    InitialLayout(p);
    if |raw| >= 5 {
      var q := InitialPacket.TryFrom(raw).value;
      InitialLayout(q);
      FromU16RoundTrip(raw[3], raw[4]);
      if raw[1] == 0 && raw[2] == 0 {
        SamePacket(q.Encoded(), raw, 5);
      }
    }
  }

  /** A subsequent packet loses nothing either way. */
  lemma SubsequentPacketRoundTrip(p: SubsequentPacket, raw: seq<byte>)
    ensures SubsequentPacket.TryFrom(p.Encoded()) == Ok(p)
    ensures |raw| < 3 <==> SubsequentPacket.TryFrom(raw) == Err(InvalidPacket)
    ensures |raw| >= 3 ==> SubsequentPacket.TryFrom(raw).value.Encoded() == raw
  {
    SubsequentLayout(p);
    if |raw| >= 3 {
      var q := SubsequentPacket.TryFrom(raw).value;
      SubsequentLayout(q);
      FromU16RoundTrip(raw[1], raw[2]);
      SamePacket(q.Encoded(), raw, 3);
    }
  }
}
