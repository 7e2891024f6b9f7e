/** Opening the NEAR application, over BLE (`src/ble_api.rs`) and over USB (`src/lib.rs`). */
module OpenApp {
  import opened Wrappers
  import opened Bytes
  import opened Apdu
  import opened Links
  import opened Signing
  import opened BleTransport
  import opened Usb

  const NEAR: seq<byte> := [0x4E, 0x45, 0x41, 0x52]
  const BOLOS: seq<byte> := [0x42, 0x4F, 0x4C, 0x4F, 0x53]

  const NAME_QUERY: ApduCommand := ApduCommand(CLA_DASHBOARD, INS_GET_APP_NAME, 0, 0, [])
  const QUIT: ApduCommand := ApduCommand(CLA_DASHBOARD, INS_QUIT_APP, 0, 0, [])
  const OPEN: ApduCommand := ApduCommand(CLA_OPEN_APP, INS_OPEN_APP, 0, 0, NEAR)

  datatype Side = Ble | Usb

  /** The data of an accepted name reply holds the length byte and the name it announces. */
  predicate HoldsName(data: seq<byte>) {
    |data| >= 2 && |data| >= 2 + data[1] as nat
  }

  /** The BLE parser checks both lengths before it reads. */
  function ParseNameBle(reply: Reply): Result<seq<byte>, ApiError> {
    match reply
    case Err(e) => Err(Transport(e))
    case Ok(answer) =>
      if answer.retcode == RETURN_CODE_OK then
        var data := answer.data;
        if |data| < 2 then Err(NameTooShort)
        else
          var nameLen := data[1] as nat;
          if |data| < 2 + nameLen then Err(NameTruncated) else Ok(data[2..2 + nameLen])
      else if answer.retcode == RETURN_CODE_UNKNOWN_ERROR then Err(Locked)
      else Err(Status(answer.retcode))
  }

  /** Indexing a slice, which panics out of range. */
  function Index(data: seq<byte>, i: nat): Result<byte, ApiError> {
    if i < |data| then Ok(data[i]) else Err(IndexPanic)
  }

  /** Taking a range of a slice, which panics out of range. */
  function Range(data: seq<byte>, from: nat, to: nat): Result<seq<byte>, ApiError> {
    if from <= to <= |data| then Ok(data[from..to]) else Err(IndexPanic)
  }

  /** The USB parser indexes and slices without looking at the length. */
  function ParseNameUsb(reply: Reply): Result<seq<byte>, ApiError> {
    match reply
    case Err(e) => Err(Transport(e))
    case Ok(answer) =>
      if answer.retcode == RETURN_CODE_OK then
        match Index(answer.data, 1)
        case Err(panic) => Err(panic)
        case Ok(nameLen) => Range(answer.data, 2, 2 + nameLen as nat)
      else if answer.retcode == RETURN_CODE_UNKNOWN_ERROR then Err(Locked)
      else Err(Status(answer.retcode))
  }

  function ParseName(side: Side, reply: Reply): Result<seq<byte>, ApiError> {
    match side
    case Ble => ParseNameBle(reply)
    case Usb => ParseNameUsb(reply)
  }

  function StatusOf(reply: Reply): Result<(), ApiError> {
    if Accepted(reply) then Ok(()) else Err(FailureOf(reply))
  }

  /** The parsers agree exactly on the replies that, if accepted, hold the name they announce. */
  lemma ParsersAgreeExactly(reply: Reply)
    ensures ParseNameBle(reply) == ParseNameUsb(reply) <==> (Accepted(reply) ==> HoldsName(reply.value.data))
    ensures ParseNameBle(reply) != Err(IndexPanic)
    ensures ParseNameUsb(reply) == Err(IndexPanic) <==> Accepted(reply) && !HoldsName(reply.value.data)
  {
  }

  /** A bare status word is such a reply: over USB it makes the parser panic. */
  lemma BareStatusPanicsOverUsb()
    ensures ParseNameUsb(ApduAnswer.FromAnswer([0x90, 0x00])) == Err(IndexPanic)
    ensures ParseNameBle(ApduAnswer.FromAnswer([0x90, 0x00])) == Err(NameTooShort)
  {
    var raw: seq<byte> := [0x90, 0x00];
    assert raw[..0] == [];
  }

  /** The exchanges of one call, as the code orders them. */
  ghost predicate OpenRun(side: Side, trace: seq<Step>, r: Result<(), ApiError>) {
    && trace != [] && trace[0].command == NAME_QUERY
    && match ParseName(side, trace[0].reply)
       case Err(e) => |trace| == 1 && r == Err(e)
       case Ok(name) =>
         if name == NEAR then |trace| == 1 && r == Ok(())
         else if name == BOLOS then |trace| == 2 && trace[1].command == OPEN && r == StatusOf(trace[1].reply)
         else
           && |trace| >= 2 && trace[1].command == QUIT
           && if !Accepted(trace[1].reply) then |trace| == 2 && r == Err(FailureOf(trace[1].reply))
              else |trace| == 3 && trace[2].command == OPEN && r == StatusOf(trace[2].reply)
  }

  // ---------------------------------------------------------------- the two implementations

  method RunningAppNameBle(transport: TransportBle) returns (r: Result<seq<byte>, ApiError>, ghost reply: Reply)
    modifies transport
    ensures On(transport.State(), reply) == ExchangeOn(old(transport.State()), NAME_QUERY)
    ensures r == ParseNameBle(reply)
  {
    var answered := transport.Exchange(NAME_QUERY);
    reply := answered;
    match answered
    case Err(e) =>
      return Err(Transport(e)), reply;
    case Ok(response) =>
      if response.retcode == RETURN_CODE_OK {
        var data := response.data;
        if |data| < 2 {
          return Err(NameTooShort), reply;
        }
        var appNameLen := data[1] as nat;
        if |data| < 2 + appNameLen {
          return Err(NameTruncated), reply;
        }
        return Ok(data[2..2 + appNameLen]), reply;
      } else if response.retcode == RETURN_CODE_UNKNOWN_ERROR {
        return Err(Locked), reply;
      } else {
        return Err(Status(response.retcode)), reply;
      }
  }

  /** One exchange whose only interest is its status. */
  method RequestBle(transport: TransportBle, command: ApduCommand) returns (r: Result<(), ApiError>, ghost reply: Reply)
    modifies transport
    ensures On(transport.State(), reply) == ExchangeOn(old(transport.State()), command)
    ensures r == StatusOf(reply)
  {
    var answered := transport.Exchange(command);
    reply := answered;
    match answered
    case Err(e) => r := Err(Transport(e));
    case Ok(response) => r := if response.retcode == RETURN_CODE_OK then Ok(()) else Err(Status(response.retcode));
  }

  /** The commands of a trace. */
  ghost function CommandsOf(trace: seq<Step>): seq<ApduCommand> {
    seq(|trace|, i requires 0 <= i < |trace| => trace[i].command)
  }

  /** The link `l'` is `l` after exchanging the commands of `trace`, with these replies. */
  ghost predicate Traced(l: Link, trace: seq<Step>, l': Link) {
    l' == After(l, CommandsOf(trace)) && l'.history == l.history + trace
  }

  lemma TracedStep(l: Link, trace: seq<Step>, l': Link, command: ApduCommand)
    requires Traced(l, trace, l')
    ensures var x := ExchangeOn(l', command);
            Traced(l, trace + [Step(command, x.result)], x.link)
  {
    var x := ExchangeOn(l', command);
    var longer, commands := trace + [Step(command, x.result)], CommandsOf(trace);
    assert CommandsOf(longer) == commands + [command];
    assert (commands + [command])[..|commands|] == commands;
    ExchangeKeeps(l', command);
    Assoc(l.history, trace, [Step(command, x.result)]);
  }

  method OpenNearApplicationBle(transport: TransportBle) returns (r: Result<(), ApiError>, ghost trace: seq<Step>)
    modifies transport
    ensures Traced(old(transport.State()), trace, transport.State())
    ensures OpenRun(Ble, trace, r)
  {
    ghost var start := transport.State();
    ghost var reply: Reply;
    trace := [];
    assert Traced(start, trace, start) by {
      assert start.history + trace == start.history;
    }
    TracedStep(start, trace, transport.State(), NAME_QUERY);
    var name;
    name, reply := RunningAppNameBle(transport);
    trace := trace + [Step(NAME_QUERY, reply)];
    if name.Err? {
      return Err(name.error), trace;
    }
    if name.value == NEAR {
      return Ok(()), trace;
    } else if name.value == BOLOS {
    } else {
      TracedStep(start, trace, transport.State(), QUIT);
      r, reply := RequestBle(transport, QUIT);
      trace := trace + [Step(QUIT, reply)];
      if r.Err? {
        return;
      }
    }
    TracedStep(start, trace, transport.State(), OPEN);
    r, reply := RequestBle(transport, OPEN);
    trace := trace + [Step(OPEN, reply)];
  }

  /**
   * Opens a transport and exchanges one command over it; a transport that cannot be opened counts as a failed
   * exchange.
   */
  method RequestUsb(host: UsbHost, command: ApduCommand) returns (reply: Reply)
    modifies host
    ensures host.history == old(host.history) + [Step(command, reply)]
    ensures (reply, host.State()) == RequestOn(old(host.State()))
  {
    var transport := host.GetTransport();
    if transport.Err? {
      reply := Err(transport.error);
      host.history := host.history + [Step(command, reply)];
    } else {
      reply := host.Exchange(command);
    }
  }

  method RunningAppName(host: UsbHost) returns (r: Result<seq<byte>, ApiError>, ghost reply: Reply)
    modifies host
    ensures host.history == old(host.history) + [Step(NAME_QUERY, reply)]
    ensures (reply, host.State()) == RequestOn(old(host.State()))
    ensures r == ParseNameUsb(reply)
  {
    var answered := RequestUsb(host, NAME_QUERY);
    reply := answered;
    match answered
    case Err(e) =>
      return Err(Transport(e)), reply;
    case Ok(response) =>
      if response.retcode == RETURN_CODE_OK {
        var data := response.data;
        if |data| < 2 {
          return Err(IndexPanic), reply;
        }
        var appNameLen := data[1] as nat;
        if |data| < 2 + appNameLen {
          return Err(IndexPanic), reply;
        }
        return Ok(data[2..2 + appNameLen]), reply;
      } else if response.retcode == RETURN_CODE_UNKNOWN_ERROR {
        return Err(Locked), reply;
      } else {
        return Err(Status(response.retcode)), reply;
      }
  }

  method OpenNearApplication(host: UsbHost) returns (r: Result<(), ApiError>, ghost trace: seq<Step>)
    modifies host
    ensures host.history == old(host.history) + trace
    ensures Served(old(host.State()), trace, host.State())
    ensures OpenRun(Usb, trace, r)
  {
    ghost var start, store := host.history, host.State();
    ghost var reply: Reply;
    trace := [];
    ServedStep(store, trace, host.State(), NAME_QUERY);
    var name;
    name, reply := RunningAppName(host);
    trace := trace + [Step(NAME_QUERY, reply)];
    if name.Err? {
      return Err(name.error), trace;
    }
    if name.value == NEAR {
      return Ok(()), trace;
    } else if name.value == BOLOS {
    } else {
      ServedStep(store, trace, host.State(), QUIT);
      var quit := RequestUsb(host, QUIT);
      Assoc(start, trace, [Step(QUIT, quit)]);
      trace := trace + [Step(QUIT, quit)];
      match quit
      case Err(e) =>
        return Err(Transport(e)), trace;
      case Ok(response) =>
        if response.retcode != RETURN_CODE_OK {
          return Err(Status(response.retcode)), trace;
        }
    }
    ServedStep(store, trace, host.State(), OPEN);
    var open := RequestUsb(host, OPEN);
    Assoc(start, trace, [Step(OPEN, open)]);
    trace := trace + [Step(OPEN, open)];
    match open
    case Err(e) => r := Err(Transport(e));
    case Ok(response) => r := if response.retcode == RETURN_CODE_OK then Ok(()) else Err(Status(response.retcode));
  }

  // ---------------------------------------------------------------- the device

  /** What a device is running. */
  datatype App = Dashboard | Near | Other(name: seq<byte>)

  /** `BOLOS`, `NEAR`, or whatever else the application is called. */
  function NameOf(app: App): seq<byte> {
    match app
    case Dashboard => [0x42, 0x4F, 0x4C, 0x4F, 0x53]
    case Near => [0x4E, 0x45, 0x41, 0x52]
    case Other(name) => name
  }

  /** No other application carries a reserved name. */
  predicate Proper(app: App) {
    app.Other? ==> app.name != NameOf(Near) && app.name != NameOf(Dashboard)
  }

  /** What a command, read from its bytes, asks of the device. */
  datatype Wish = AskName | Quit | Start(name: seq<byte>) | Unknown

  function WishOf(raw: seq<byte>): Wish {
    if raw == [0xB0, 0x01, 0x00, 0x00, 0x00] then AskName
    else if raw == [0xB0, 0xA7, 0x00, 0x00, 0x00] then Quit
    else if |raw| >= 5 && raw[..4] == [0xE0, 0xD8, 0x00, 0x00] && raw[4] as nat == |raw| - 5 then Start(raw[5..])
    else Unknown
  }

  /**
   * A device accepts a command only by doing it, and refuses it by doing nothing; after a transport error
   * either may be so. It starts the application it is asked for, from the dashboard only.
   */
  ghost predicate Transition(app: App, step: Step, app': App) {
    var accepted := step.reply.Ok? && step.reply.value.retcode == 0x9000;
    match WishOf(step.command.Serialized())
    case AskName =>
      && app' == app
      && (accepted ==>
            (var data := step.reply.value.data;
             HoldsName(data) && data[2..2 + data[1] as nat] == NameOf(app)))
    case Quit =>
      if accepted then app' == Dashboard else app' == app || (step.reply.Err? && app' == Dashboard)
    case Start(name) =>
      if accepted then app == Dashboard && NameOf(app') == name
      else app' == app || (step.reply.Err? && app == Dashboard && NameOf(app') == name)
    case Unknown => app' == app
  }

  /** The device went through `apps` during `trace`. */
  ghost predicate DeviceRun(apps: seq<App>, trace: seq<Step>) {
    && |apps| == |trace| + 1
    && (forall i | 0 <= i < |apps| :: Proper(apps[i]))
    && forall i | 0 <= i < |trace| :: Transition(apps[i], trace[i], apps[i + 1])
  }

  /** The three commands of an opening run, in bytes, and what a device makes of them. */
  lemma OpeningBytes()
    ensures NAME_QUERY.Serialized() == [0xB0, 0x01, 0x00, 0x00, 0x00]
    ensures QUIT.Serialized() == [0xB0, 0xA7, 0x00, 0x00, 0x00]
    ensures OPEN.Serialized() == [0xE0, 0xD8, 0x00, 0x00, 0x04, 0x4E, 0x45, 0x41, 0x52]
    ensures WishOf(NAME_QUERY.Serialized()) == AskName
    ensures WishOf(QUIT.Serialized()) == Quit
    ensures WishOf(OPEN.Serialized()) == Start([0x4E, 0x45, 0x41, 0x52])
  {
    var raw := OPEN.Serialized();
    assert raw == [0xE0, 0xD8, 0x00, 0x00, 0x04, 0x4E, 0x45, 0x41, 0x52];
    assert raw[..4] == [0xE0, 0xD8, 0x00, 0x00] && raw[5..] == [0x4E, 0x45, 0x41, 0x52];
    assert NAME_QUERY.Serialized() == [0xB0, 0x01, 0x00, 0x00, 0x00];
    assert QUIT.Serialized() == [0xB0, 0xA7, 0x00, 0x00, 0x00];
  }

  /** Every command of a run is one of these: first the name query, then at most one quit, and the open command last. */
  lemma OpeningCommands(side: Side, trace: seq<Step>, r: Result<(), ApiError>)
    requires OpenRun(side, trace, r)
    ensures 1 <= |trace| <= 3
    ensures trace[0].command.Serialized() == [0xB0, 0x01, 0x00, 0x00, 0x00]
    ensures |trace| == 3 ==> trace[1].command.Serialized() == [0xB0, 0xA7, 0x00, 0x00, 0x00]
    ensures |trace| == 2 ==>
              || trace[1].command.Serialized() == [0xB0, 0xA7, 0x00, 0x00, 0x00]
              || trace[1].command.Serialized() == [0xE0, 0xD8, 0x00, 0x00, 0x04, 0x4E, 0x45, 0x41, 0x52]
    ensures |trace| == 3 ==>
              trace[2].command.Serialized() == [0xE0, 0xD8, 0x00, 0x00, 0x04, 0x4E, 0x45, 0x41, 0x52]
  {
    OpeningBytes();
  }

  /** What the name query tells: an error as it is, and otherwise what the run does next. */
  lemma NameReplyOutcome(side: Side, trace: seq<Step>, r: Result<(), ApiError>)
    requires OpenRun(side, trace, r)
    ensures match trace[0].reply
            case Err(e) => |trace| == 1 && r == Err(Transport(e))
            case Ok(answer) =>
              var data := answer.data;
              if answer.retcode == 0x5515 then |trace| == 1 && r == Err(Locked)
              else if answer.retcode != 0x9000 then |trace| == 1 && r == Err(Status(answer.retcode))
              else if |data| < 2 then |trace| == 1 && r == Err(if side == Ble then NameTooShort else IndexPanic)
              else if |data| < 2 + data[1] as nat then
                |trace| == 1 && r == Err(if side == Ble then NameTruncated else IndexPanic)
              else
                var name := data[2..2 + data[1] as nat];
                if name == [0x4E, 0x45, 0x41, 0x52] then |trace| == 1 && r == Ok(())
                else
                  && |trace| >= 2
                  && WishOf(trace[1].command.Serialized())
                     == if name == [0x42, 0x4F, 0x4C, 0x4F, 0x53] then Start([0x4E, 0x45, 0x41, 0x52]) else Quit
  {
    OpeningBytes();
  }

  /** The last reply after the name query decides: success, its status word, or its transport error. */
  lemma LastReplyOutcome(side: Side, trace: seq<Step>, r: Result<(), ApiError>)
    requires OpenRun(side, trace, r) && |trace| > 1
    ensures match trace[|trace| - 1].reply
            case Err(e) => r == Err(Transport(e))
            case Ok(answer) => r == if answer.retcode == 0x9000 then Ok(()) else Err(Status(answer.retcode))
  {
  }

  /**
   * Opening is safe on every device: success means NEAR is running, and is exactly every exchange having been
   * accepted; at most three commands go out; quit is sent only to another application, and open only to the
   * dashboard, for the application `NEAR`, with no refused or lost command before it.
   */
  lemma OpeningIsSafe(side: Side, trace: seq<Step>, r: Result<(), ApiError>, apps: seq<App>)
    requires OpenRun(side, trace, r) && DeviceRun(apps, trace)
    ensures |trace| <= 3
    ensures r.Ok? ==> NameOf(apps[|trace|]) == [0x4E, 0x45, 0x41, 0x52] && apps[|trace|] == Near
    ensures r.Ok? <==> forall i | 0 <= i < |trace| :: trace[i].reply.Ok? && trace[i].reply.value.retcode == 0x9000
    ensures forall i | 0 <= i < |trace| && WishOf(trace[i].command.Serialized()) == Quit :: apps[i].Other?
    ensures forall i | 0 <= i < |trace| && WishOf(trace[i].command.Serialized()).Start? ::
              && WishOf(trace[i].command.Serialized()).name == [0x4E, 0x45, 0x41, 0x52] && apps[i] == Dashboard
              && forall j | 0 <= j < i :: Accepted(trace[j].reply)
    ensures forall i | 0 <= i < |trace| :: !WishOf(trace[i].command.Serialized()).Unknown?
  {
    OpeningBytes();
    assert Transition(apps[0], trace[0], apps[1]);
    if |trace| > 1 {
      assert Transition(apps[1], trace[1], apps[2]);
      assert Accepted(trace[0].reply);
    }
    if |trace| > 2 {
      assert Transition(apps[2], trace[2], apps[3]);
      assert Accepted(trace[1].reply);
    }
  }

  /**
   * Opening is idempotent: a call that finds NEAR running sends only the name query, whatever the reply, and
   * changes nothing.
   */
  lemma OpeningAgainOnlyAsks(
    side: Side, first: seq<Step>, r: Result<(), ApiError>, apps: seq<App>, second: seq<Step>, r': Result<(), ApiError>,
    apps': seq<App>)
    requires OpenRun(side, first, r) && DeviceRun(apps, first) && r.Ok?
    requires OpenRun(side, second, r') && DeviceRun(apps', second) && apps'[0] == apps[|first|]
    ensures |second| == 1 && second[0].command.Serialized() == [0xB0, 0x01, 0x00, 0x00, 0x00]
    ensures apps'[1] == Near
    ensures r'.Ok? <==> Accepted(second[0].reply)
  {
    OpeningIsSafe(side, first, r, apps);
    OpeningIsSafe(side, second, r', apps');
    OpeningBytes();
    assert Transition(apps'[0], second[0], apps'[1]);
  }

  /** Over one device and one sequence of replies the two sides send the same commands and reach the same result. */
  lemma SidesAgree(trace: seq<Step>, r: Result<(), ApiError>, apps: seq<App>)
    requires DeviceRun(apps, trace)
    ensures OpenRun(Ble, trace, r) <==> OpenRun(Usb, trace, r)
  {
    if trace != [] {
      OpeningBytes();
      assert Transition(apps[0], trace[0], apps[1]);
      ParsersAgreeExactly(trace[0].reply);
    }
  }
}
