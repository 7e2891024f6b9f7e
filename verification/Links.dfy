/**
 * The state of a BLE link as a value, and what each operation of the transport does to it.
 * Everything the environment decides is in the state beforehand: the fate of the writes to come
 * and the events the notification stream will yield.
 */
module Links {
  import opened Wrappers
  import opened Bytes
  import opened Packets
  import opened Framing
  import opened Receiving
  import opened Apdu

  /** A write is acknowledged, or reported as failed though it arrived, or failed and lost. */
  datatype WriteFate = Acked | Unacked | Lost

  datatype Link = Link(
    fates: seq<WriteFate>,         // of the writes to come; beyond them the device is gone
    delivered: seq<seq<byte>>,     // packets that reached the device, in order
    inbox: seq<Event>,             // events the notification stream is going to yield
    mtu: Option<nat>,              // the negotiated packet size
    history: seq<Step>             // APDU exchanges so far
  )

  datatype On<T> = On(link: Link, result: Result<T, TransportError>)

  function WriteOn(l: Link, packet: seq<byte>): On<()> {
    if l.fates == [] then On(l, Err(WriteFailed))
    else
      var sent := l.(fates := l.fates[1..],
                     delivered := if l.fates[0].Lost? then l.delivered else l.delivered + [packet]);
      On(sent, if l.fates[0].Acked? then Ok(()) else Err(WriteFailed))
  }

  /** Writes packets until one fails. */
  function WriteAll(l: Link, packets: seq<seq<byte>>): On<()>
    decreases |packets|
  {
    if packets == [] then On(l, Ok(()))
    else
      var w := WriteOn(l, packets[0]);
      if w.result.Err? then w else WriteAll(w.link, packets[1..])
  }

  function WriteFramed(l: Link, f: Framed): On<()> {
    var w := WriteAll(l, f.packets);
    if w.result.Ok? && f.overflow then On(w.link, Err(CounterOverflow)) else w
  }

  function SendFramedOn(l: Link, tag: byte, payload: seq<byte>, mtu: nat): On<()> {
    if |payload| > U16_MAX then On(l, Err(PayloadTooLarge))
    else WriteFramed(l, Frame(tag, payload, mtu))
  }

  function RecvFramedOn(l: Link, tag: byte): On<seq<byte>> {
    var r := Receive(tag, l.inbox);
    On(l.(inbox := r.rest), r.result)
  }

  function MtuInForce(mtu: Option<nat>): nat {
    match mtu
    case Some(size) => size
    case None => DEFAULT_MTU_SIZE
  }

  function AnswerOn(l: Link, raw: seq<byte>): On<ApduAnswer> {
    var sent := SendFramedOn(l, APDU_COMMAND_TAG, raw, MtuInForce(l.mtu));
    if sent.result.Err? then On(sent.link, Err(sent.result.error))
    else
      var got := RecvFramedOn(sent.link, APDU_COMMAND_TAG);
      if got.result.Err? then On(got.link, Err(got.result.error))
      else On(got.link, ApduAnswer.FromAnswer(got.result.value))
  }

  function ExchangeOn(l: Link, command: ApduCommand): On<ApduAnswer> {
    var a := AnswerOn(l, command.Serialized());
    On(a.link.(history := a.link.history + [Step(command, a.result)]), a.result)
  }

  /** The link after exchanging some commands one after the other, whatever the replies. */
  function After(l: Link, commands: seq<ApduCommand>): Link
    decreases |commands|
  {
    if commands == [] then l
    else ExchangeOn(After(l, commands[..|commands| - 1]), commands[|commands| - 1]).link
  }

  // ---------------------------------------------------------------- MTU negotiation

  const MTU_QUERY: seq<byte> := [MTU_COMMAND_TAG, 0x00, 0x00, 0x00, 0x00]

  /** Unlike `recv_framed`, the negotiation also passes over empty notifications. */
  function AwaitMtu(inbox: seq<Event>): Received
    decreases |inbox|
  {
    var n := Next(inbox);
    if n.result.Err? then n
    else if n.result.value != [] && n.result.value[0] == MTU_COMMAND_TAG then n
    else AwaitMtu(n.rest)
  }

  function NegotiatedSize(raw: seq<byte>): nat {
    if |raw| < 6 || raw[5] <= 5 then DEFAULT_MTU_SIZE else raw[5]
  }

  function InferMtuOn(l: Link): On<nat> {
    var w := WriteOn(l, MTU_QUERY);
    if w.result.Err? then On(w.link, Err(w.result.error))
    else
      var r := AwaitMtu(w.link.inbox);
      var heard := w.link.(inbox := r.rest);
      if r.result.Err? then On(heard, Err(r.result.error))
      else
        var size := NegotiatedSize(r.result.value);
        On(heard.(mtu := Some(size)), Ok(size))
  }

  // ---------------------------------------------------------------- what writing does

  /** The writes touch the log of packets only, and what arrives is the packets up to the first failure. */
  lemma {:induction false} WriteAllLands(l: Link, packets: seq<seq<byte>>) returns (k: nat)
    ensures k <= |packets|
    ensures var w := WriteAll(l, packets);
            && w.link == l.(fates := w.link.fates, delivered := l.delivered + packets[..k])
            && (w.result.Ok? ==> k == |packets|)
            && (w.result.Err? ==> w.result.error == WriteFailed)
    decreases |packets|
  {
    if packets == [] {
      k := 0;
      assert l.delivered + packets[..0] == l.delivered;
    } else {
      var w := WriteOn(l, packets[0]);
      if w.result.Ok? {
        var m := WriteAllLands(w.link, packets[1..]);
        k := m + 1;
        assert packets[..k] == [packets[0]] + packets[1..][..m];
        Assoc(l.delivered, [packets[0]], packets[1..][..m]);
      } else {
        k := if w.link.delivered == l.delivered then 0 else 1;
        assert packets[..1] == [packets[0]] && packets[..0] == [];
      }
    }
  }

  lemma WriteFramedFirst(l: Link, packet: seq<byte>, more: Framed)
    ensures var w := WriteOn(l, packet);
            WriteFramed(l, Framed([packet] + more.packets, more.overflow)) ==
            (if w.result.Err? then w else WriteFramed(w.link, more))
  {
    TailOfConcat([packet], more.packets);
  }

  /** The initial packet, and what is left to write after it. */
  lemma {:induction false} SendFramedStart(l: Link, tag: byte, payload: seq<byte>, mtu: nat)
    requires |payload| <= U16_MAX
    ensures var cut := FirstCut(|payload|, mtu);
            var w := WriteOn(l, InitialPacket(tag, |payload|, payload[..cut]).Encoded());
            SendFramedOn(l, tag, payload, mtu) ==
            (if w.result.Err? then w
             else WriteFramed(w.link, Subsequents(tag, payload[cut..], SaturatingSub(mtu, 3), 1)))
  {
    var cut := FirstCut(|payload|, mtu);
    WriteFramedFirst(l, Opening(tag, payload, mtu), Subsequents(tag, payload[cut..], SaturatingSub(mtu, 3), 1));
  }

  /** One turn of the sending loop, which has written the first `offset` bytes. */
  lemma {:induction false} WriteFramedStep(l: Link, tag: byte, payload: seq<byte>, offset: nat, width: nat, index: u16)
    requires offset < |payload|
    ensures var end := Min(offset + width, |payload|);
            var w := WriteOn(l, SubsequentPacket(tag, index, payload[offset..end]).Encoded());
            WriteFramed(l, Subsequents(tag, payload[offset..], width, index)) ==
            (if w.result.Err? then w
             else if index == U16_MAX then On(w.link, Err(CounterOverflow))
             else WriteFramed(w.link, Subsequents(tag, payload[end..], width, index + 1)))
  {
    var rest, end := payload[offset..], Min(offset + width, |payload|);
    SliceOfRest(payload, offset, end);
    var packet := SubsequentPacket(tag, index, payload[offset..end]).Encoded();
    if index == U16_MAX {
      WriteFramedFirst(l, packet, Framed([], true));
      assert Subsequents(tag, rest, width, index) == Framed([packet] + [], true);
    } else {
      WriteFramedFirst(l, packet, Subsequents(tag, payload[end..], width, index + 1));
    }
  }

  /** The next `n` writes are all acknowledged. */
  predicate Acknowledged(fates: seq<WriteFate>, n: nat) {
    n <= |fates| && forall i | 0 <= i < n :: fates[i].Acked?
  }

  lemma {:induction false} WriteAllSucceeds(l: Link, packets: seq<seq<byte>>)
    requires Acknowledged(l.fates, |packets|)
    ensures WriteAll(l, packets)
         == On(l.(fates := l.fates[|packets|..], delivered := l.delivered + packets), Ok(()))
    decreases |packets|
  {
    if packets == [] {
      assert l.fates[0..] == l.fates && l.delivered + packets == l.delivered;
    } else {
      var w := WriteOn(l, packets[0]);
      WriteAllSucceeds(w.link, packets[1..]);
      assert l.fates[1..][|packets| - 1..] == l.fates[|packets|..];
      assert packets == [packets[0]] + packets[1..];
      Assoc(l.delivered, [packets[0]], packets[1..]);
    }
  }

  // ---------------------------------------------------------------- the session invariant

  /** The packet sizes a session can have: none negotiated yet, or one that fits a byte and leaves room for data. */
  predicate SessionMtu(mtu: Option<nat>) {
    mtu.Some? ==> 6 <= mtu.value <= 0xFF
  }

  /** Every notification the negotiation passes over: readable, and no answer to the query. */
  predicate PassedOver(e: Event) {
    e.Data? && (e.value == [] || e.value[0] != 0x08)
  }

  lemma {:induction false} AwaitMtuFinds(inbox: seq<Event>) returns (n: nat)
    ensures n <= |inbox| && forall i | 0 <= i < n :: PassedOver(inbox[i])
    ensures var r := AwaitMtu(inbox);
            if n == |inbox| then r == Received(Err(StreamEnded), [])
            else
              && !PassedOver(inbox[n]) && r.rest == inbox[n + 1..]
              && r.result == if inbox[n].Data? then Ok(inbox[n].value) else Err(Timeout)
    decreases |inbox|
  {
    if inbox == [] || !PassedOver(inbox[0]) {
      n := 0;
    } else {
      var m := AwaitMtuFinds(inbox[1..]);
      n := m + 1;
    }
  }

  /** The first notification tagged as an MTU answer, if no timeout comes before it. */
  ghost predicate FirstAnswer(inbox: seq<Event>, n: nat) {
    && n < |inbox| && (forall i | 0 <= i < n :: PassedOver(inbox[i]))
    && inbox[n].Data? && inbox[n].value != [] && inbox[n].value[0] == 0x08
  }

  /** A timeout with no such notification before it. */
  ghost predicate FirstTimeout(inbox: seq<Event>, n: nat) {
    n < |inbox| && (forall i | 0 <= i < n :: PassedOver(inbox[i])) && inbox[n].TimedOut?
  }

  /**
   * Negotiation writes one packet, and succeeds exactly when its write is acknowledged and an answer comes; then
   * the size stored is the sixth byte of the first answer if that leaves room for data and 20 otherwise, always
   * within 6..255. In every other case the stored size is untouched.
   */
  lemma NegotiationOutcome(l: Link)
    ensures InferMtuOn(l).result.Ok? <==> Acknowledged(l.fates, 1) && exists n: nat :: FirstAnswer(l.inbox, n)
    ensures InferMtuOn(l).result.Ok? ==>
              && InferMtuOn(l).link.mtu == Some(InferMtuOn(l).result.value)
              && 6 <= InferMtuOn(l).result.value <= 0xFF
    ensures forall n: nat | InferMtuOn(l).result.Ok? && FirstAnswer(l.inbox, n) ::
              && InferMtuOn(l).link.inbox == l.inbox[n + 1..]
              && (if |l.inbox[n].value| >= 6 && l.inbox[n].value[5] > 5
                  then InferMtuOn(l).result.value == l.inbox[n].value[5]
                  else InferMtuOn(l).result.value == 20)
    ensures InferMtuOn(l).result.Err? ==> InferMtuOn(l).link.mtu == l.mtu
    ensures InferMtuOn(l).link.delivered ==
            if l.fates == [] || l.fates[0].Lost? then l.delivered else l.delivered + [[0x08, 0x00, 0x00, 0x00, 0x00]]
  {
    var n := AwaitMtuFinds(l.inbox);
    forall m: nat | FirstAnswer(l.inbox, m) ensures m == n && n < |l.inbox| {
      assert !PassedOver(l.inbox[m]);
    }
    if InferMtuOn(l).result.Ok? {
      assert FirstAnswer(l.inbox, n);
    }
  }

  /** When negotiation fails, the error tells what was missing, and nothing beyond the failure has been read. */
  lemma NegotiationFailure(l: Link)
    ensures InferMtuOn(l).result == Err(WriteFailed) <==> !Acknowledged(l.fates, 1)
    ensures InferMtuOn(l).result == Err(Timeout) <==>
              Acknowledged(l.fates, 1) && exists n: nat :: FirstTimeout(l.inbox, n)
    ensures InferMtuOn(l).result.Err? ==> InferMtuOn(l).result.error in {WriteFailed, Timeout, StreamEnded}
    ensures InferMtuOn(l).result == Err(WriteFailed) ==> InferMtuOn(l).link.inbox == l.inbox
    ensures InferMtuOn(l).result == Err(StreamEnded) ==> InferMtuOn(l).link.inbox == []
    ensures forall n: nat | InferMtuOn(l).result == Err(Timeout) && FirstTimeout(l.inbox, n) ::
              InferMtuOn(l).link.inbox == l.inbox[n + 1..]
    ensures InferMtuOn(l).link.history == l.history
  {
    var n := AwaitMtuFinds(l.inbox);
    forall m: nat | FirstTimeout(l.inbox, m) ensures m == n && n < |l.inbox| {
      assert !PassedOver(l.inbox[m]);
    }
    if n < |l.inbox| && l.inbox[n].TimedOut? {
      assert FirstTimeout(l.inbox, n);
    }
  }

  lemma WriteKeeps(l: Link, raw: seq<byte>)
    ensures SendFramedOn(l, APDU_COMMAND_TAG, raw, MtuInForce(l.mtu)).link.mtu == l.mtu
    ensures SendFramedOn(l, APDU_COMMAND_TAG, raw, MtuInForce(l.mtu)).link.history == l.history
  {
    if |raw| <= U16_MAX {
      var k := WriteAllLands(l, Frame(APDU_COMMAND_TAG, raw, MtuInForce(l.mtu)).packets);
    }
  }

  /** An exchange keeps the packet size and records itself. */
  lemma ExchangeKeeps(l: Link, c: ApduCommand)
    ensures ExchangeOn(l, c).link.mtu == l.mtu
    ensures ExchangeOn(l, c).link.history == l.history + [Step(c, ExchangeOn(l, c).result)]
  {
    WriteKeeps(l, c.Serialized());
  }

  /** A run records one step per command, and longer runs extend the history of shorter ones. */
  lemma {:induction false} HistoryGrows(l: Link, commands: seq<ApduCommand>, k: nat)
    requires k <= |commands|
    ensures var short, long := After(l, commands[..k]).history, After(l, commands).history;
            short <= long && |short| == |l.history| + k && |long| == |l.history| + |commands|
    decreases |commands|
  {
    if commands != [] {
      var n := |commands| - 1;
      ExchangeKeeps(After(l, commands[..n]), commands[n]);
      if k <= n {
        HistoryGrows(l, commands[..n], k);
        assert commands[..n][..k] == commands[..k];
      } else {
        HistoryGrows(l, commands[..n], n);
        assert commands[..k] == commands;
      }
    }
  }

  /** At a session's packet size an exchange never overflows the counter, and every packet it puts on the air fits. */
  lemma ExchangeIsSafe(l: Link, c: ApduCommand)
    requires SessionMtu(l.mtu)
    ensures ExchangeOn(l, c).result != Err(CounterOverflow)
    ensures l.delivered <= ExchangeOn(l, c).link.delivered
    ensures forall i | |l.delivered| <= i < |ExchangeOn(l, c).link.delivered| ::
              |ExchangeOn(l, c).link.delivered[i]| <= (if l.mtu.Some? then l.mtu.value else 20)
  {
    var raw, mtu := c.Serialized(), MtuInForce(l.mtu);
    if |raw| <= U16_MAX {
      PacketBound(APDU_COMMAND_TAG, raw, mtu);
      PacketSizes(APDU_COMMAND_TAG, raw, mtu);
      var k := WriteAllLands(l, Frame(APDU_COMMAND_TAG, raw, mtu).packets);
      var sent := SendFramedOn(l, APDU_COMMAND_TAG, raw, mtu);
      if sent.result.Ok? {
        ReceiveNeverOverflows(APDU_COMMAND_TAG, sent.link.inbox);
      }
    }
  }

  lemma ReceiveNeverOverflows(tag: byte, inbox: seq<Event>)
    ensures Receive(tag, inbox).result != Err(CounterOverflow)
  {
    ReceiveCases(tag, inbox);
  }

  /**
   * What `commands` may have done to a link: recorded one reply each, none of them an overflow, in packets that
   * fit.
   */
  ghost predicate SafeRun(l: Link, commands: seq<ApduCommand>, l': Link) {
    && l'.mtu == l.mtu
    && l.delivered <= l'.delivered
    && |l'.history| == |l.history| + |commands| && l.history <= l'.history
    && (forall i | 0 <= i < |commands| :: l'.history[|l.history| + i].command == commands[i])
    && (forall i | |l.history| <= i < |l'.history| :: l'.history[i].reply != Err(CounterOverflow))
    && (forall i | |l.delivered| <= i < |l'.delivered| ::
          |l'.delivered[i]| <= (if l.mtu.Some? then l.mtu.value else 20))
  }

  lemma SafeRunStep(l: Link, commands: seq<ApduCommand>, before: Link, c: ApduCommand)
    requires SessionMtu(l.mtu) && SafeRun(l, commands, before)
    ensures SafeRun(l, commands + [c], ExchangeOn(before, c).link)
  {
    ExchangeKeeps(before, c);
    ExchangeIsSafe(before, c);
  }

  /**
   * The session invariant over whole runs: once negotiation has succeeded, any commands exchanged afterwards, whatever
   * the device and the radio do, keep the packet size, never overflow the counter and never exceed that size.
   */
  lemma {:induction false} SessionIsSafe(l: Link, commands: seq<ApduCommand>)
    requires SessionMtu(l.mtu)
    ensures SafeRun(l, commands, After(l, commands))
    decreases |commands|
  {
    if commands != [] {
      var n := |commands| - 1;
      SessionIsSafe(l, commands[..n]);
      SafeRunStep(l, commands[..n], After(l, commands[..n]), commands[n]);
      assert commands == commands[..n] + [commands[n]];
    }
  }

  /**
   * After a negotiation, every packet of any later run is at most as long as the sixth byte of the device's
   * answer, or 20 bytes if the answer has none or leaves no room for data.
   */
  lemma {:induction false} NegotiatedSizeHolds(l: Link, commands: seq<ApduCommand>, n: nat)
    requires InferMtuOn(l).result.Ok? && FirstAnswer(l.inbox, n)
    ensures var m, l' := InferMtuOn(l).link, After(InferMtuOn(l).link, commands);
            var answer := l.inbox[n].value;
            && m.delivered <= l'.delivered
            && forall i | |m.delivered| <= i < |l'.delivered| ::
                 |l'.delivered[i]| <= (if |answer| >= 6 && answer[5] > 5 then answer[5] else 20)
  {
    NegotiationOutcome(l);
    SessionIsSafe(InferMtuOn(l).link, commands);
  }

  // ---------------------------------------------------------------- what one exchange does, at any size

  /** The first write that is not acknowledged among those to come, if there is one among the next `n`. */
  predicate FirstUnacked(fates: seq<WriteFate>, n: nat, j: nat) {
    j <= n && Acknowledged(fates, j) && (j < n ==> !Acknowledged(fates, j + 1))
  }

  /** How many packets arrive if the write number `j` is the first that is not acknowledged. */
  function ArrivedBy(fates: seq<WriteFate>, j: nat): nat {
    if j < |fates| && fates[j].Unacked? then j + 1 else j
  }

  lemma UnackedStep(fates: seq<WriteFate>, n: nat, m: nat)
    requires fates != [] && fates[0].Acked? && FirstUnacked(fates[1..], n, m)
    ensures FirstUnacked(fates, n + 1, m + 1) && ArrivedBy(fates, m + 1) == ArrivedBy(fates[1..], m) + 1
    ensures fates[1..][m..] == fates[m + 1..]
  {
    assert forall i | 0 < i < |fates| :: fates[i] == fates[1..][i - 1];
  }

  lemma OnePacketFurther<T>(before: seq<T>, packets: seq<T>, k: nat)
    requires packets != [] && k < |packets|
    ensures before + [packets[0]] + packets[1..][..k] == before + packets[..k + 1]
  {
    assert packets[..k + 1] == [packets[0]] + packets[1..][..k];
    Assoc(before, [packets[0]], packets[1..][..k]);
  }

  /** Writing stops at the first write that is not acknowledged; its packet counts if it arrived. */
  lemma {:induction false} WriteAllStops(l: Link, packets: seq<seq<byte>>) returns (j: nat)
    ensures FirstUnacked(l.fates, |packets|, j)
    ensures j < |packets| ==> ArrivedBy(l.fates, j) <= |packets|
    ensures j < |packets| ==>
              && WriteAll(l, packets).result == Err(WriteFailed)
              && WriteAll(l, packets).link.inbox == l.inbox
              && WriteAll(l, packets).link.delivered == l.delivered + packets[..ArrivedBy(l.fates, j)]
    ensures j == |packets| ==>
              WriteAll(l, packets) == On(l.(fates := l.fates[j..], delivered := l.delivered + packets), Ok(()))
    decreases |packets|
  {
    if packets == [] {
      j := 0;
      assert l.fates[0..] == l.fates && l.delivered + packets == l.delivered;
    } else {
      var w := WriteOn(l, packets[0]);
      if w.result.Ok? {
        var m := WriteAllStops(w.link, packets[1..]);
        j := m + 1;
        UnackedStep(l.fates, |packets| - 1, m);
        if m < |packets| - 1 {
          OnePacketFurther(l.delivered, packets, ArrivedBy(w.link.fates, m));
        } else {
          OnePacketFurther(l.delivered, packets, m);
          assert packets[1..][..m] == packets[1..] && packets[..m + 1] == packets;
        }
      } else {
        j := 0;
        assert packets[..1] == [packets[0]] && packets[..0] == [] && l.delivered + [] == l.delivered;
      }
    }
  }

  /** More than 65535 bytes are refused before anything is written. */
  lemma OversizeIsRefused(l: Link, c: ApduCommand)
    requires |c.Serialized()| > 65535
    ensures ExchangeOn(l, c) == On(l.(history := l.history + [Step(c, Err(PayloadTooLarge))]), Err(PayloadTooLarge))
  {
  }

  /**
   * What an exchange does at whatever packet size `n` is stored, and at 20 if none is: it writes the packets of
   * the command's frame at that size, in order and at most `n` bytes each, up to the first write that is not
   * acknowledged; if all are, it reads one frame and decodes it.
   */
  lemma ExchangeOutcome(l: Link, c: ApduCommand, n: nat) returns (j: nat)
    requires l.mtu == Some(n) || (l.mtu == None && n == 20)
    requires |c.Serialized()| <= 65535
    ensures var f := Frame(0x05, c.Serialized(), n);
            && FirstUnacked(l.fates, |f.packets|, j)
            && (j < |f.packets| ==> ArrivedBy(l.fates, j) <= |f.packets|)
            && (n >= 5 ==> forall i | 0 <= i < |f.packets| :: |f.packets[i]| <= n)
    ensures var f, x := Frame(0x05, c.Serialized(), n), ExchangeOn(l, c);
            && x.link.mtu == l.mtu && x.link.history == l.history + [Step(c, x.result)]
            && if j < |f.packets| then
                 && x.result == Err(WriteFailed) && x.link.inbox == l.inbox
                 && x.link.delivered == l.delivered + f.packets[..ArrivedBy(l.fates, j)]
               else
                 && x.link.delivered == l.delivered + f.packets && x.link.fates == l.fates[j..]
                 && if f.overflow then x.result == Err(CounterOverflow) && x.link.inbox == l.inbox
                    else
                      && x.link.inbox == Receive(0x05, l.inbox).rest
                      && x.result == match Receive(0x05, l.inbox).result
                                     case Ok(answer) => ApduAnswer.FromAnswer(answer)
                                     case Err(e) => Err(e)
  {
    if n >= 5 {
      PacketSizes(0x05, c.Serialized(), n);
    }
    j := WriteAllStops(l, Frame(0x05, c.Serialized(), n).packets);
    ExchangeKeeps(l, c);
  }
}
