/** The BLE transport of `src/ble.rs`. Each method is proved against the corresponding operation on links. */
module BleTransport {
  import opened Wrappers
  import opened Bytes
  import opened Packets
  import opened Framing
  import opened Receiving
  import opened Apdu
  import opened Links

  class TransportBle {
    var fates: seq<WriteFate>
    var inbox: seq<Event>
    var mtuSize: Option<nat>
    ghost var delivered: seq<seq<byte>>
    ghost var history: seq<Step>

    ghost function State(): Link
      reads this
    {
      Link(fates, delivered, inbox, mtuSize, history)
    }

    /** A link just connected; its packet size is not negotiated yet. */
    constructor (fates: seq<WriteFate>, inbox: seq<Event>)
      ensures State() == Link(fates, [], inbox, None, [])
    {
      this.fates, this.inbox, mtuSize := fates, inbox, None;
      delivered, history := [], [];
    }

    method Write(packet: seq<byte>) returns (r: Result<(), TransportError>)
      modifies this
      ensures On(State(), r) == WriteOn(old(State()), packet)
    {
      if fates == [] {
        return Err(WriteFailed);
      }
      var fate := fates[0];
      fates := fates[1..];
      delivered := if fate.Lost? then delivered else delivered + [packet];
      r := if fate.Acked? then Ok(()) else Err(WriteFailed);
    }

    method NextNotification() returns (r: Result<seq<byte>, TransportError>)
      modifies this`inbox
      ensures Received(r, inbox) == Next(old(inbox))
    {
      if inbox == [] {
        return Err(StreamEnded);
      }
      r := match inbox[0] case Data(value) => Ok(value) case TimedOut => Err(Timeout);
      inbox := inbox[1..];
    }

    /** Cuts a payload into packets and writes them, until a write fails or the counter overflows. */
    method SendFramed(tag: byte, payload: seq<byte>, mtu: nat) returns (r: Result<(), TransportError>)
      modifies this
      ensures On(State(), r) == SendFramedOn(old(State()), tag, payload, mtu)
    {
      var firstChunkDataSize := SaturatingSub(mtu, 5);
      var subsequentChunkDataSize := SaturatingSub(mtu, 3);
      if |payload| > U16_MAX {
        return Err(PayloadTooLarge);
      }
      ghost var goal := SendFramedOn(State(), tag, payload, mtu);
      var firstDataEnd := Min(firstChunkDataSize, |payload|);
      var raw := InitialPacket(tag, |payload|, payload[..firstDataEnd]).Serialize();
      SendFramedStart(State(), tag, payload, mtu);
      r := Write(raw);
      if r.Err? {
        return;
      }
      var offset := firstDataEnd;
      var seqIndex: u16 := 1;
      while offset < |payload|
        invariant offset <= |payload|
        invariant r == Ok(())
        invariant WriteFramed(State(), Subsequents(tag, payload[offset..], subsequentChunkDataSize, seqIndex)) == goal
        decreases 0x1_0000 - seqIndex
      {
        var end := Min(offset + subsequentChunkDataSize, |payload|);
        WriteFramedStep(State(), tag, payload, offset, subsequentChunkDataSize, seqIndex);
        raw := SubsequentPacket(tag, seqIndex, payload[offset..end]).Serialize();
        r := Write(raw);
        if r.Err? {
          return;
        }
        offset := end;
        if seqIndex == U16_MAX {
          return Err(CounterOverflow);
        }
        seqIndex := seqIndex + 1;
      }
    }

    /** Reassembles one frame of `tag`, passing over other tags, ignoring sequence numbers and dropping overshoot. */
    method RecvFramed(tag: byte) returns (r: Result<seq<byte>, TransportError>)
      modifies this`inbox
      ensures Received(r, inbox) == Receive(tag, old(inbox))
    {
      var raw: seq<byte>;
      while true
        invariant AwaitFirst(tag, inbox) == AwaitFirst(tag, old(inbox))
        decreases |inbox|
      {
        r := NextNotification();
        if r.Err? {
          return;
        }
        raw := r.value;
        if raw == [] {
          return Err(InvalidPacket);
        }
        if raw[0] == tag {
          break;
        }
      }
      var initial := InitialPacket.TryFrom(raw);
      if initial.Err? {
        return Err(initial.error);
      }
      var totalLength: nat := initial.value.dataLength;
      var buffer := initial.value.payload;
      while |buffer| < totalLength
        invariant Collect(tag, totalLength, buffer, inbox) == Receive(tag, old(inbox))
        decreases |inbox|
      {
        r := NextNotification();
        if r.Err? {
          return;
        }
        var packet := SubsequentPacket.TryFrom(r.value);
        if packet.Err? {
          return Err(packet.error);
        }
        if packet.value.tag != tag {
          continue;
        }
        buffer := buffer + packet.value.payload;
      }
      buffer := buffer[..totalLength];
      r := Ok(buffer);
    }

    /** Asks the device for its packet size and keeps it for the session. */
    method InferMtu() returns (r: Result<nat, TransportError>)
      modifies this
      ensures On(State(), r) == InferMtuOn(old(State()))
    {
      var w := Write(MTU_QUERY);
      if w.Err? {
        return Err(w.error);
      }
      ghost var before := State();
      var raw: seq<byte>;
      while true
        invariant AwaitMtu(inbox) == AwaitMtu(before.inbox)
        invariant State() == before.(inbox := inbox)
        decreases |inbox|
      {
        var n := NextNotification();
        if n.Err? {
          return Err(n.error);
        }
        raw := n.value;
        if raw != [] && raw[0] == MTU_COMMAND_TAG {
          break;
        }
      }
      if |raw| < 6 {
        mtuSize := Some(DEFAULT_MTU_SIZE);
        return Ok(DEFAULT_MTU_SIZE);
      }
      var size: nat := raw[5];
      if size <= 5 {
        size := DEFAULT_MTU_SIZE;
      }
      mtuSize := Some(size);
      r := Ok(size);
    }

    method GetMtuSize() returns (size: nat)
      ensures size == MtuInForce(mtuSize)
      ensures mtuSize.Some? ==> size == mtuSize.value
      ensures mtuSize.None? ==> size == 20
      ensures SessionMtu(mtuSize) ==> 6 <= size <= 0xFF
    {
      size := match mtuSize case Some(s) => s case None => DEFAULT_MTU_SIZE;
    }

    /** Sends one command and reads one answer. */
    method Exchange(command: ApduCommand) returns (r: Reply)
      modifies this
      ensures On(State(), r) == ExchangeOn(old(State()), command)
    {
      r := Answer(command.Serialized());
      history := history + [Step(command, r)];
    }

    method Answer(apduData: seq<byte>) returns (r: Reply)
      modifies this
      ensures On(State(), r) == AnswerOn(old(State()), apduData)
    {
      var size := GetMtuSize();
      var sent := SendFramed(APDU_COMMAND_TAG, apduData, size);
      if sent.Err? {
        return Err(sent.error);
      }
      var answer := RecvFramed(APDU_COMMAND_TAG);
      if answer.Err? {
        return Err(answer.error);
      }
      r := ApduAnswer.FromAnswer(answer.value);
    }
  }
}
