/** APDU commands and answers, in the short form of ISO/IEC 7816-4, and the constants of the protocol. */
module Apdu {
  import opened Wrappers
  import opened Bytes
  import opened Packets

  const CLA: byte := 0x80
  const INS_SIGN_TRANSACTION: byte := 2
  const INS_SIGN_NEP413_MESSAGE: byte := 7
  const INS_SIGN_NEP366_DELEGATE_ACTION: byte := 8
  const NETWORK_ID: byte := 0x57
  const CHUNK_SIZE: nat := 250
  const P1_SIGN_NORMAL: byte := 0
  const P1_SIGN_NORMAL_LAST_CHUNK: byte := 0x80

  const CLA_DASHBOARD: byte := 0xB0
  const INS_GET_APP_NAME: byte := 0x01
  const INS_QUIT_APP: byte := 0xA7
  const CLA_OPEN_APP: byte := 0xE0
  const INS_OPEN_APP: byte := 0xD8

  const RETURN_CODE_OK: u16 := 0x9000
  const RETURN_CODE_UNKNOWN_ERROR: u16 := 0x5515

  datatype ApduCommand = ApduCommand(cla: byte, ins: byte, p1: byte, p2: byte, data: seq<byte>) {
    /** The length byte keeps only the low eight bits of the length. */
    function Serialized(): seq<byte> {
      [cla, ins, p1, p2, |data| % 0x100] + data
    }

    static function Parse(raw: seq<byte>): Option<ApduCommand> {
      if |raw| < 5 || raw[4] != |raw| - 5 then None
      else Some(ApduCommand(raw[0], raw[1], raw[2], raw[3], raw[5..]))
    }
  }

  datatype ApduAnswer = ApduAnswer(data: seq<byte>, retcode: u16) {
    /** The last two bytes are the status word. */
    static function FromAnswer(raw: seq<byte>): Result<ApduAnswer, TransportError> {
      var n := |raw|;
      if n < 2 then Err(ResponseTooShort)
      else Ok(ApduAnswer(raw[..n - 2], FromU16Be(raw[n - 2], raw[n - 1])))
    }
  }

  type Reply = Result<ApduAnswer, TransportError>

  /** One command exchanged with the device, and what came of it. */
  datatype Step = Step(command: ApduCommand, reply: Reply)

  predicate Accepted(reply: Reply) {
    reply.Ok? && reply.value.retcode == 0x9000
  }

  function SerializedAll(commands: seq<ApduCommand>): (raws: seq<seq<byte>>)
    ensures |raws| == |commands|
  {
    seq(|commands|, i requires 0 <= i < |commands| => commands[i].Serialized())
  }

  /** A device reads back the command exactly when its data fits the length byte. */
  lemma CommandRoundTrip(c: ApduCommand)
    ensures ApduCommand.Parse(c.Serialized()) == Some(c) <==> |c.data| <= 0xFF
    ensures ApduCommand.Parse(c.Serialized()) == None <==> |c.data| > 0xFF
  {
    var raw := c.Serialized();
    assert raw[4] == |c.data| % 0x100;
    assert raw[5..] == c.data;
  }

  /** An answer is its data followed by the status word, high byte first; only shorter replies are refused. */
  lemma AnswerRoundTrip(data: seq<byte>, retcode: u16, raw: seq<byte>)
    ensures ApduAnswer.FromAnswer(data + U16Be(retcode)) == Ok(ApduAnswer(data, retcode))
    ensures |raw| < 2 <==> ApduAnswer.FromAnswer(raw) == Err(ResponseTooShort)
    ensures |raw| >= 2 ==> var a := ApduAnswer.FromAnswer(raw).value; a.data + U16Be(a.retcode) == raw
  {
    var whole := data + U16Be(retcode);
    assert whole[..|whole| - 2] == data;
    U16RoundTrip(retcode);
  }

  /** The bytes sent determine the command. */
  lemma SerializedInjective(c: ApduCommand, d: ApduCommand)
    requires c.Serialized() == d.Serialized()
    ensures c == d
  {
    var x, y := c.Serialized(), d.Serialized();
    assert x[0] == y[0] && x[1] == y[1] && x[2] == y[2] && x[3] == y[3];
    assert c.data == x[5..] == y[5..] == d.data;
  }
}
