/** Several signing requests over one link: what the device has of them, and what a failed one leaves behind. */
module Sessions {
  import opened Wrappers
  import opened Bytes
  import opened Packets
  import opened Strict
  import opened Apdu
  import opened Links
  import opened Signing
  import opened BleApi
  import opened Pairing
  import opened Stalled
  import opened Delivery

  /**
   * A signing request that has been made: how many commands went out, how many of them the device heard, and
   * the outcome. Only a failed write makes the two numbers differ, by one.
   */
  datatype Attempt = Attempt(
    path: seq<u32>, payload: seq<byte>, ins: byte,
    sent: nat, heard: nat, result: Result<seq<byte>, ApiError>)
  {
    function Data(): seq<byte> {
      HdPathToBytes(path) + payload
    }

    function Commands(): seq<ApduCommand> {
      Signing.Commands(path, payload, ins)
    }

    /** The device heard all its commands, the last one included. */
    predicate Finished() {
      0 < |Data()| <= 250 * heard
    }

    /** What was heard is what was sent, except that a last command whose write failed may be missing. */
    predicate Tallies() {
      && heard <= sent <= heard + 1 && heard <= |Chunks(Data())|
      && (result != Err(Transport(WriteFailed)) ==> heard == sent)
    }
  }

  predicate AllTally(attempts: seq<Attempt>)
    decreases |attempts|
  {
    attempts == [] || (AllTally(attempts[..|attempts| - 1]) && attempts[|attempts| - 1].Tallies())
  }

  ghost predicate Made(l: Link, a: Attempt, l': Link) {
    && SignedOver(l, a.Commands(), a.result, l')
    && |l'.history| == |l.history| + a.sent && a.sent <= |Chunks(a.Data())|
    && a.heard == |Arrived(l, a.Commands()[..a.sent])|
  }

  /**
   * The attempts were made one after the other, the one numbered `i` taking the link from `links[i]` to
   * `links[i + 1]`.
   */
  ghost predicate Session(links: seq<Link>, attempts: seq<Attempt>)
    decreases |attempts|
  {
    var n := |attempts| - 1;
    && |links| == |attempts| + 1
    && (attempts == [] || (Session(links[..n + 1], attempts[..n]) && Made(links[n], attempts[n], links[n + 1])))
  }

  /** No more was heard of a request than there is. */
  predicate Sound(attempts: seq<Attempt>) {
    forall i | 0 <= i < |attempts| :: attempts[i].heard <= |Chunks(attempts[i].Data())|
  }

  /** No attempt ended with a failed write. */
  predicate Written(attempts: seq<Attempt>) {
    forall i | 0 <= i < |attempts| :: attempts[i].result != Err(Transport(WriteFailed))
  }

  /** The commands that the device heard. */
  function HeardBy(attempts: seq<Attempt>): seq<ApduCommand>
    requires Sound(attempts)
    decreases |attempts|
  {
    var n := |attempts| - 1;
    if attempts == [] then [] else HeardBy(attempts[..n]) + attempts[n].Commands()[..attempts[n].heard]
  }

  /** What becomes of the signer for `ins`. */
  function SignerAfter(ins: byte, s: Signer, attempts: seq<Attempt>): Signer
    decreases |attempts|
  {
    var n := |attempts| - 1;
    if attempts == [] then s
    else
      var before := SignerAfter(ins, s, attempts[..n]);
      if attempts[n].ins != ins then before else Took(before, attempts[n].Data(), attempts[n].heard)
  }

  // ---------------------------------------------------------------- what arrives of a request

  lemma {:induction false} WrittenBefore(l: Link, commands: seq<ApduCommand>)
    requires commands != [] && AllWritten(l, After(l, commands))
    ensures AllWritten(l, After(l, commands[..|commands| - 1]))
    ensures ExchangeOn(After(l, commands[..|commands| - 1]), commands[|commands| - 1]).result != Err(WriteFailed)
  {
    var n := |commands| - 1;
    var m, l' := After(l, commands[..n]), After(l, commands);
    HistoryGrows(l, commands, n);
    ExchangeKeeps(m, commands[n]);
    assert forall i | |l.history| <= i < |m.history| :: m.history[i] == l'.history[i];
    assert l'.history[|m.history|].reply == ExchangeOn(m, commands[n]).result;
  }

  lemma {:induction false} WrittenArrive(l: Link, commands: seq<ApduCommand>)
    requires SessionMtu(l.mtu) && Sendable(commands) && AllWritten(l, After(l, commands))
    ensures Arrived(l, commands) == commands
    decreases |commands|
  {
    if commands != [] {
      var n := |commands| - 1;
      WrittenBefore(l, commands);
      WrittenArrive(l, commands[..n]);
      SessionIsSafe(l, commands[..n]);
      WrittenArrives(After(l, commands[..n]), commands[n]);
      OneMoreArrives(l, commands);
    }
  }

  lemma OneMoreArrives(l: Link, commands: seq<ApduCommand>)
    requires commands != [] && Arrived(l, commands[..|commands| - 1]) == commands[..|commands| - 1]
    ensures Arrived(l, commands) == commands || Arrived(l, commands) == commands[..|commands| - 1]
    ensures ArrivesWhole(After(l, commands[..|commands| - 1]), commands[|commands| - 1]) ==>
              Arrived(l, commands) == commands
  {
    var n := |commands| - 1;
    LastOrNot(commands, ArrivesWhole(After(l, commands[..n]), commands[n]));
  }

  lemma LastOrNot<T>(s: seq<T>, whole: bool)
    requires s != []
    ensures s[..|s| - 1] + (if whole then [s[|s| - 1]] else []) == (if whole then s else s[..|s| - 1])
  {
  }

  lemma {:induction false} LastMayArrive(l: Link, commands: seq<ApduCommand>)
    requires SessionMtu(l.mtu) && Sendable(commands) && commands != []
    requires AllWritten(l, After(l, commands[..|commands| - 1]))
    ensures Arrived(l, commands) == commands || Arrived(l, commands) == commands[..|commands| - 1]
  {
    WrittenArrive(l, commands[..|commands| - 1]);
    OneMoreArrives(l, commands);
  }

  /** All commands but perhaps the last arrive, and the last too unless its write failed. */
  lemma {:induction false} RunArrives(l: Link, commands: seq<ApduCommand>, l': Link)
    requires SessionMtu(l.mtu) && Sendable(commands) && l' == After(l, commands) && WrittenButLast(l, l')
    ensures Arrived(l, commands) == commands || (commands != [] && Arrived(l, commands) == commands[..|commands| - 1])
    ensures AllWritten(l, l') ==> Arrived(l, commands) == commands
  {
    if AllWritten(l, l') {
      WrittenArrive(l, commands);
    } else if commands != [] {
      EarlierWritten(l, commands, l', |commands| - 1);
      LastMayArrive(l, commands);
    }
  }

  lemma {:induction false} AttemptArrives(l: Link, a: Attempt, l': Link)
    requires SessionMtu(l.mtu) && Made(l, a, l')
    ensures a.Tallies()
    ensures Arrived(l, a.Commands()[..a.sent]) == a.Commands()[..a.heard]
  {
    RequestIsSendable(a.path, a.payload, a.ins, a.sent);
    SignedRunWritten(l, a.Commands(), a.result, l');
    RunArrives(l, a.Commands()[..a.sent], l');
    AllButOne(a.Commands(), a.sent, Arrived(l, a.Commands()[..a.sent]));
  }

  lemma AllButOne<T>(s: seq<T>, n: nat, part: seq<T>)
    requires n <= |s| && (part == s[..n] || (n > 0 && part == s[..n][..n - 1]))
    ensures |part| <= n <= |part| + 1 && part == s[..|part|]
  {
  }

  lemma {:induction false} SessionTallies(links: seq<Link>, attempts: seq<Attempt>)
    requires Session(links, attempts) && SessionMtu(links[0].mtu)
    ensures links[|attempts|].mtu == links[0].mtu && AllTally(attempts)
    decreases |attempts|
  {
    if attempts != [] {
      var n := |attempts| - 1;
      SessionTallies(links[..n + 1], attempts[..n]);
      AttemptArrives(links[n], attempts[n], links[n + 1]);
      SessionIsSafe(links[n], attempts[n].Commands()[..attempts[n].sent]);
    }
  }

  lemma {:induction false} TalliesAreSound(attempts: seq<Attempt>)
    requires AllTally(attempts)
    ensures forall i | 0 <= i < |attempts| :: attempts[i].Tallies()
    ensures Sound(attempts)
    decreases |attempts|
  {
    if attempts != [] {
      var n := |attempts| - 1;
      TalliesAreSound(attempts[..n]);
      forall i | 0 <= i < |attempts| ensures attempts[i].Tallies() {
        assert i < n ==> attempts[i] == attempts[..n][i];
      }
    }
  }

  lemma SessionIsSound(links: seq<Link>, attempts: seq<Attempt>)
    requires Session(links, attempts) && SessionMtu(links[0].mtu)
    ensures Sound(attempts) && links[|attempts|].mtu == links[0].mtu
    ensures forall i | 0 <= i < |attempts| :: attempts[i].Tallies()
  {
    SessionTallies(links, attempts);
    TalliesAreSound(attempts);
  }

  // ---------------------------------------------------------------- what the device heard

  lemma SerializedConcat(a: seq<ApduCommand>, b: seq<ApduCommand>)
    ensures SerializedAll(a + b) == SerializedAll(a) + SerializedAll(b)
  {
  }

  lemma AttemptIsHeard(l: Link, a: Attempt, l': Link, h: seq<seq<byte>>)
    requires SessionMtu(l.mtu) && Made(l, a, l') && a.result != Err(Transport(WriteFailed))
    ensures l.delivered <= l'.delivered && a.heard <= |Chunks(a.Data())|
    ensures HeardSince(h, l, l') == Peer(Idle, h + SerializedAll(a.Commands()[..a.heard]))
  {
    AttemptArrives(l, a, l');
    RequestIsSendable(a.path, a.payload, a.ins, a.sent);
    WrittenSigningRunHeard(l, a.Commands(), h, a.result, l', a.sent);
  }

  /** Over a session without failed writes any device has heard exactly these commands, and waits for the next. */
  lemma {:induction false} WrittenSessionIsHeard(links: seq<Link>, attempts: seq<Attempt>, h: seq<seq<byte>>)
    requires Session(links, attempts) && Sound(attempts) && Written(attempts) && SessionMtu(links[0].mtu)
    ensures links[0].delivered <= links[|attempts|].delivered
    ensures HeardSince(h, links[0], links[|attempts|]) == Peer(Idle, h + SerializedAll(HeardBy(attempts)))
    decreases |attempts|
  {
    if attempts == [] {
      assert h + SerializedAll([]) == h;
    } else {
      var n := |attempts| - 1;
      var early, last := HeardBy(attempts[..n]), attempts[n].Commands()[..attempts[n].heard];
      SessionIsSound(links[..n + 1], attempts[..n]);
      WrittenSessionIsHeard(links[..n + 1], attempts[..n], h);
      AttemptIsHeard(links[n], attempts[n], links[n + 1], h + SerializedAll(early));
      HeardChain(h, links[0], links[n], links[n + 1]);
      SerializedConcat(early, last);
      Assoc(h, SerializedAll(early), SerializedAll(last));
    }
  }

  lemma AttemptIsHeardAnew(l: Link, a: Attempt, l': Link, p: Peer)
    requires SessionMtu(l.mtu) && Made(l, a, l')
    ensures l.delivered <= l'.delivered && a.heard <= |Chunks(a.Data())|
    ensures AnewSince(p, l, l').heard == p.heard + SerializedAll(a.Commands()[..a.heard])
  {
    AttemptArrives(l, a, l');
    RequestIsSendable(a.path, a.payload, a.ins, a.sent);
    AnewHearsWhatArrives(p, l, a.Commands()[..a.sent]);
  }

  /** A device that starts anew at every frame has heard them over every session, failed writes or not. */
  lemma {:induction false} SessionIsHeardAnew(links: seq<Link>, attempts: seq<Attempt>, p: Peer)
    requires Session(links, attempts) && Sound(attempts) && SessionMtu(links[0].mtu)
    ensures links[0].delivered <= links[|attempts|].delivered
    ensures AnewSince(p, links[0], links[|attempts|]).heard == p.heard + SerializedAll(HeardBy(attempts))
    decreases |attempts|
  {
    if attempts == [] {
      assert p.heard + SerializedAll([]) == p.heard;
    } else {
      var n := |attempts| - 1;
      var early, last := HeardBy(attempts[..n]), attempts[n].Commands()[..attempts[n].heard];
      SessionIsSound(links[..n + 1], attempts[..n]);
      SessionIsHeardAnew(links[..n + 1], attempts[..n], p);
      AttemptIsHeardAnew(links[n], attempts[n], links[n + 1], AnewSince(p, links[0], links[n]));
      AnewChain(p, links[0], links[n], links[n + 1]);
      SerializedConcat(early, last);
      Assoc(p.heard, SerializedAll(early), SerializedAll(last));
    }
  }

  // ---------------------------------------------------------------- what the signer makes of it

  lemma {:induction false} AcceptConcat(ins: byte, s: Signer, a: seq<seq<byte>>, b: seq<seq<byte>>)
    ensures AcceptAll(ins, s, a + b) == AcceptAll(ins, AcceptAll(ins, s, a), b)
    decreases |b|
  {
    if b == [] {
      assert a + b == a;
    } else {
      var n := |b| - 1;
      AcceptConcat(ins, s, a, b[..n]);
      assert (a + b)[..|a + b| - 1] == a + b[..n];
    }
  }

  /** A signer passes over the commands of requests with another instruction. */
  lemma {:induction false} OthersAreIgnored(ins: byte, s: Signer, a: Attempt, j: nat)
    requires a.ins != ins && j <= |a.Commands()|
    ensures AcceptAll(ins, s, SerializedAll(a.Commands()[..j])) == s
    decreases j
  {
    if j > 0 {
      OthersAreIgnored(ins, s, a, j - 1);
      CommandsAreWellFormed(a.path, a.payload, a.ins, j - 1);
      assert SerializedAll(a.Commands()[..j])[..j - 1] == SerializedAll(a.Commands()[..j - 1]);
    }
  }

  lemma {:induction false} SignerAccepts(ins: byte, s: Signer, attempts: seq<Attempt>)
    requires Sound(attempts)
    ensures AcceptAll(ins, s, SerializedAll(HeardBy(attempts))) == SignerAfter(ins, s, attempts)
    decreases |attempts|
  {
    if attempts != [] {
      var n := |attempts| - 1;
      var a, before := attempts[n], SignerAfter(ins, s, attempts[..n]);
      SignerAccepts(ins, s, attempts[..n]);
      SerializedConcat(HeardBy(attempts[..n]), a.Commands()[..a.heard]);
      AcceptConcat(ins, s, SerializedAll(HeardBy(attempts[..n])), SerializedAll(a.Commands()[..a.heard]));
      if a.ins == ins {
        SignerHolds(a.path, a.payload, ins, before, a.heard);
      } else {
        OthersAreIgnored(ins, before, a, a.heard);
      }
    }
  }

  /**
   * What the session made of the signer `s` of either kind of device: of one that starts anew at every frame,
   * from any state of it, and if no write failed also of one that does not, from an idle state.
   */
  ghost predicate Becomes(links: seq<Link>, attempts: seq<Attempt>, ins: byte, s: Signer, now: Signer) {
    && |links| == |attempts| + 1 && links[0].delivered <= links[|attempts|].delivered
    && (forall a :: AcceptAll(ins, s, AnewSince(Peer(a, []), links[0], links[|attempts|]).heard) == now)
    && (Written(attempts) ==> SignerSince(ins, s, links[0], links[|attempts|]) == now)
  }

  /**
   * Sessions of any length, with signed, refused, timed-out, misread and unwritten requests in any order and for
   * any instructions: how many commands of each request arrived determines exactly what the device has, and
   * unless its last write failed that is how many were sent.
   */
  lemma SessionDelivers(links: seq<Link>, attempts: seq<Attempt>, ins: byte, s: Signer)
    requires Session(links, attempts) && SessionMtu(links[0].mtu)
    ensures Sound(attempts) && Becomes(links, attempts, ins, s, SignerAfter(ins, s, attempts))
    ensures Written(attempts) ==> HeardSince([], links[0], links[|attempts|]).assembler == Idle
    ensures forall i | 0 <= i < |attempts| :: attempts[i].Tallies()
  {
    SessionIsSound(links, attempts);
    SignerAccepts(ins, s, attempts);
    var heard := SerializedAll(HeardBy(attempts));
    assert [] + heard == heard;
    SessionIsHeardAnew(links, attempts, Peer(Idle, []));
    forall a ensures AcceptAll(ins, s, AnewSince(Peer(a, []), links[0], links[|attempts|]).heard)
                     == SignerAfter(ins, s, attempts) {
      SessionIsHeardAnew(links, attempts, Peer(a, []));
    }
    if Written(attempts) {
      WrittenSessionIsHeard(links, attempts, []);
    }
  }

  // ---------------------------------------------------------------- signed requests

  /** The data of the requests for `ins`, in order. */
  function MessagesOf(ins: byte, attempts: seq<Attempt>): seq<seq<byte>>
    decreases |attempts|
  {
    var n := |attempts| - 1;
    if attempts == [] then []
    else MessagesOf(ins, attempts[..n])
         + (if attempts[n].ins == ins then [HdPathToBytes(attempts[n].path) + attempts[n].payload] else [])
  }

  /** The bytes of every request. */
  function AllData(attempts: seq<Attempt>): seq<seq<byte>> {
    seq(|attempts|, i requires 0 <= i < |attempts| => HdPathToBytes(attempts[i].path) + attempts[i].payload)
  }

  predicate AllSigned(attempts: seq<Attempt>) {
    forall i | 0 <= i < |attempts| :: attempts[i].result.Ok?
  }

  predicate AllFinished(attempts: seq<Attempt>)
    decreases |attempts|
  {
    var n := |attempts| - 1;
    attempts == [] || (AllFinished(attempts[..n]) && attempts[n].Finished())
  }

  lemma SignedIsFinished(l: Link, a: Attempt, l': Link)
    requires SessionMtu(l.mtu) && Made(l, a, l') && a.result.Ok?
    ensures a.Finished()
  {
    SignedRunWritten(l, a.Commands(), a.result, l');
    AttemptArrives(l, a, l');
    ChunkCount(a.Data());
  }

  /** A signed request sent all its commands, and the device heard them. */
  lemma {:induction false} SignedAreFinished(links: seq<Link>, attempts: seq<Attempt>)
    requires Session(links, attempts) && AllSigned(attempts) && SessionMtu(links[0].mtu)
    ensures AllFinished(attempts)
    decreases |attempts|
  {
    if attempts != [] {
      var n := |attempts| - 1;
      SignedAreFinished(links[..n + 1], attempts[..n]);
      SessionIsSound(links[..n + 1], attempts[..n]);
      SignedIsFinished(links[n], attempts[n], links[n + 1]);
    }
  }

  lemma {:induction false} FinishedSigner(ins: byte, s: Signer, attempts: seq<Attempt>)
    requires s.held == [] && AllFinished(attempts)
    ensures SignerAfter(ins, s, attempts) == Signer([], s.finished + MessagesOf(ins, attempts))
    decreases |attempts|
  {
    if attempts == [] {
      assert s.finished + [] == s.finished;
    } else {
      var n := |attempts| - 1;
      var a := attempts[n];
      FinishedSigner(ins, s, attempts[..n]);
      assert [] + a.Data() == a.Data();
      Assoc(s.finished, MessagesOf(ins, attempts[..n]), if a.ins == ins then [a.Data()] else []);
    }
  }

  /** All requests are for this instruction. */
  predicate AllFor(ins: byte, attempts: seq<Attempt>) {
    forall i | 0 <= i < |attempts| :: attempts[i].ins == ins
  }

  lemma {:induction false} OneMessageEach(ins: byte, attempts: seq<Attempt>)
    requires AllFor(ins, attempts)
    ensures |MessagesOf(ins, attempts)| == |attempts|
    ensures forall i | 0 <= i < |attempts| :: MessagesOf(ins, attempts)[i] == attempts[i].Data()
    decreases |attempts|
  {
    if attempts != [] {
      OneMessageEach(ins, attempts[..|attempts| - 1]);
    }
  }

  /**
   * A session of signed requests, begun with a signer that holds nothing, leaves it exactly their messages, each
   * whole, once, in order and apart from the others, and nothing of the requests for other instructions. So k signed
   * requests for one instruction are k messages, the one numbered `i` being the bytes of the request numbered `i`.
   */
  lemma SignedSessionDelivers(links: seq<Link>, attempts: seq<Attempt>, ins: byte, s: Signer)
    requires Session(links, attempts) && AllSigned(attempts) && SessionMtu(links[0].mtu) && s.held == []
    ensures Becomes(links, attempts, ins, s, Signer([], s.finished + MessagesOf(ins, attempts)))
    ensures AllFor(ins, attempts) ==>
              Becomes(links, attempts, ins, s, Signer([], s.finished + AllData(attempts)))
  {
    SignedAreFinished(links, attempts);
    SessionDelivers(links, attempts, ins, s);
    FinishedSigner(ins, s, attempts);
    if AllFor(ins, attempts) {
      OneMessageEach(ins, attempts);
      assert MessagesOf(ins, attempts) == AllData(attempts);
    }
  }

  // ---------------------------------------------------------------- what a failed request leaves

  /** Since the last request for `ins` of which everything was heard, nothing has been heard of one. */
  predicate NothingLeft(ins: byte, attempts: seq<Attempt>)
    decreases |attempts|
  {
    var n := |attempts| - 1;
    attempts == [] || (attempts[n].ins == ins && attempts[n].Finished())
    || (&& (attempts[n].ins != ins || attempts[n].heard == 0 || attempts[n].Data() == [])
        && NothingLeft(ins, attempts[..n]))
  }

  lemma {:induction false} HeldExactly(ins: byte, s: Signer, attempts: seq<Attempt>)
    requires s.held == []
    ensures SignerAfter(ins, s, attempts).held == [] <==> NothingLeft(ins, attempts)
    decreases |attempts|
  {
    if attempts != [] {
      var n := |attempts| - 1;
      var a := attempts[n];
      HeldExactly(ins, s, attempts[..n]);
      var before := SignerAfter(ins, s, attempts[..n]).held;
      assert |before + a.Data()[..Min(250 * a.heard, |a.Data()|)]| == |before| + Min(250 * a.heard, |a.Data()|);
    }
  }

  lemma SignedComesLast(links: seq<Link>, attempts: seq<Attempt>, ins: byte, s: Signer)
    requires Session(links, attempts) && SessionMtu(links[0].mtu)
    requires attempts != [] && attempts[|attempts| - 1].ins == ins && attempts[|attempts| - 1].result.Ok?
    ensures var n := |attempts| - 1;
            var before := SignerAfter(ins, s, attempts[..n]);
            Becomes(links, attempts, ins, s, Signer([], before.finished + [before.held + attempts[n].Data()]))
  {
    var n := |attempts| - 1;
    SessionDelivers(links, attempts, ins, s);
    SessionIsSound(links[..n + 1], attempts[..n]);
    SignedIsFinished(links[n], attempts[n], links[n + 1]);
  }

  /** The last request finished a message, with whatever the signer held after the requests before it. */
  predicate CompletesLast(attempts: seq<Attempt>, ins: byte, s: Signer, now: Signer) {
    var n := |attempts| - 1;
    && attempts != []
    && var before := SignerAfter(ins, s, attempts[..n]);
       now == Signer([], before.finished + [before.held + (HdPathToBytes(attempts[n].path) + attempts[n].payload)])
  }

  /**
   * No command marks a first chunk, so chunks of a request cut short are not forgotten by a signer that takes
   * every chunk it hears: after any session, the message that a further signed request completes is that
   * request's own exactly if no chunk has been left behind. If no write failed, the caller can tell this from how
   * many commands each request exchanged.
   */
  lemma MessageIsOwnExactly(links: seq<Link>, attempts: seq<Attempt>, ins: byte, s: Signer)
    returns (now: Signer)
    requires Session(links, attempts) && SessionMtu(links[0].mtu) && s.held == []
    requires attempts != [] && attempts[|attempts| - 1].ins == ins && attempts[|attempts| - 1].result.Ok?
    ensures Becomes(links, attempts, ins, s, now) && now.held == [] && now.finished != []
    ensures CompletesLast(attempts, ins, s, now)
    ensures var n := |attempts| - 1;
            var own := HdPathToBytes(attempts[n].path) + attempts[n].payload;
            now.finished[|now.finished| - 1] == own <==> NothingLeft(ins, attempts[..n])
    ensures forall i | 0 <= i < |attempts| :: attempts[i].Tallies()
  {
    var n := |attempts| - 1;
    SignedComesLast(links, attempts, ins, s);
    SessionIsSound(links, attempts);
    HeldExactly(ins, s, attempts[..n]);
    var before, data := SignerAfter(ins, s, attempts[..n]), attempts[n].Data();
    now := Signer([], before.finished + [before.held + data]);
    assert before.held + data == data <==> before.held == [] by {
      assert |before.held + data| == |before.held| + |data|;
    }
  }

  /** With nothing left before it, the last request was for `ins` and sent only a part of its data. */
  predicate EndsWithPart(ins: byte, attempts: seq<Attempt>) {
    var n := |attempts| - 1;
    attempts != [] && attempts[n].ins == ins && !attempts[n].Finished() && NothingLeft(ins, attempts[..n])
  }

  /** The bytes heard of the last request. */
  function LastPart(attempts: seq<Attempt>): seq<byte>
    requires attempts != []
  {
    var a := attempts[|attempts| - 1];
    a.Data()[..Min(250 * a.heard, |a.Data()|)]
  }

  lemma {:induction false} HeldAfterPart(ins: byte, s: Signer, attempts: seq<Attempt>)
    requires s.held == [] && EndsWithPart(ins, attempts)
    ensures SignerAfter(ins, s, attempts).held == LastPart(attempts)
  {
    HeldExactly(ins, s, attempts[..|attempts| - 1]);
    assert [] + LastPart(attempts) == LastPart(attempts);
  }

  /**
   * The chunks of a request cut short part of the way come out in front of the next signed message for its
   * instruction.
   */
  lemma PartIsPrepended(links: seq<Link>, attempts: seq<Attempt>, ins: byte, s: Signer)
    returns (now: Signer)
    requires Session(links, attempts) && SessionMtu(links[0].mtu) && s.held == []
    requires attempts != [] && attempts[|attempts| - 1].ins == ins && attempts[|attempts| - 1].result.Ok?
    requires EndsWithPart(ins, attempts[..|attempts| - 1])
    ensures Becomes(links, attempts, ins, s, now) && now.held == [] && now.finished != []
    ensures var n := |attempts| - 1;
            now.finished[|now.finished| - 1]
            == LastPart(attempts[..n]) + (HdPathToBytes(attempts[n].path) + attempts[n].payload)
  {
    var n := |attempts| - 1;
    SignedComesLast(links, attempts, ins, s);
    HeldAfterPart(ins, s, attempts[..n]);
    var before := SignerAfter(ins, s, attempts[..n]);
    now := Signer([], before.finished + [before.held + attempts[n].Data()]);
  }
}
