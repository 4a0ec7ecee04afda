/** The handshake objects over every sequence of calls, and retries after messages that do not count. */
module EdhocLifecycle {
  import opened Bytes
  import opened Crypto
  import opened EdhocCbor
  import opened EdhocCredential
  import opened EdhocKeys
  import opened EdhocInitiator
  import opened EdhocResponder
  import opened EdhocAgreement

  // The initiator

  datatype InitiatorCall =
    | Create
    | Begin2(msg2: bytes)
    | Finish2(pending2: Pending2, peer2: PeerCredential)
    | Process2(msg2: bytes, peer2: PeerCredential)
    | Wipe2

  function StepInitiator(c: Crypto, s: Initiator, call: InitiatorCall): Initiator
    requires Sizes(c)
  {
    match call
    case Create => FirstMessage(s).0
    case Begin2(msg2) => BeginMessage2(c, s, msg2).0
    case Finish2(pending, peer) => FinishMessage2(c, s, pending, peer).0
    case Process2(msg2, peer) => ProcessMessage2(c, s, msg2, peer).0
    case Wipe2 => Wiped(s, Zeroized)
  }

  function RunInitiator(c: Crypto, s: Initiator, calls: seq<InitiatorCall>): Initiator
    requires Sizes(c)
    decreases |calls|
  {
    if calls == [] then s else RunInitiator(c, StepInitiator(c, s, calls[0]), calls[1..])
  }

  const ZERO: Bytes32 := Zeros(32)

  predicate InitiatorDead(s: Initiator) {
    && s.state.lifecycle in {Failed, Zeroized}
    && s.seed == ZERO && s.ephSecret.None? && s.state.gY == ZERO
    && s.state.prk2e == ZERO && s.state.prk3e2m == ZERO && s.state.prk4e3m == ZERO
    && s.state.th2 == ZERO && s.state.th3 == ZERO && s.state.th4 == ZERO
  }

  /** What every reachable initiator satisfies. */
  predicate InitiatorInv(s: Initiator) {
    && s.state.lifecycle in {Created, Message1Created, PendingMessage2, Complete, Failed, Zeroized}
    && (s.ephSecret.Some? <==> s.state.lifecycle in {Created, Message1Created})
    && (s.state.completed <==> s.state.lifecycle == Complete)
    && (s.state.prk4e3m != ZERO ==> s.state.lifecycle == Complete)
    && (s.state.lifecycle in {Failed, Zeroized} ==> InitiatorDead(s))
    && (s.state.lifecycle in {Created, Message1Created} ==> s.state.prk2e == ZERO && s.state.prk3e2m == ZERO)
  }

  /** A second message refused before the ephemeral secret is used and without an error message in it. */
  predicate RetryableMessage2(c: Crypto, msg2: bytes) {
    msg2 == [] || (msg2[0] != 2 && SplitMessage2(c, msg2).Err?)
  }

  /** The call gets as far as Diffie-Hellman. */
  predicate InitiatorRunsDh(c: Crypto, s: Initiator, call: InitiatorCall) {
    && (call.Begin2? || call.Process2?)
    && s.state.lifecycle == Message1Created && s.ephSecret.Some?
    && !RetryableMessage2(c, call.msg2)
    && call.msg2[0] != 2
  }

  function InitiatorDhUses(c: Crypto, s: Initiator, calls: seq<InitiatorCall>): nat
    requires Sizes(c)
    decreases |calls|
  {
    if calls == [] then 0
    else (if InitiatorRunsDh(c, s, calls[0]) then 1 else 0)
         + InitiatorDhUses(c, StepInitiator(c, s, calls[0]), calls[1..])
  }

  lemma BeginKeepsInv(c: Crypto, s: Initiator, msg2: bytes)
    requires Sizes(c) && InitiatorInv(s)
    ensures InitiatorInv(BeginMessage2(c, s, msg2).0)
    ensures BeginMessage2(c, s, msg2).0.ephSecret.Some? ==>
              s.ephSecret.Some? && !InitiatorRunsDh(c, s, Begin2(msg2))
  {
    hide Transcript2, Kdf, ParsePlaintext2, Zeros, SplitMessage2;
  }

  lemma FinishKeepsInv(c: Crypto, s: Initiator, pending: Pending2, peer: PeerCredential)
    requires Sizes(c) && InitiatorInv(s)
    ensures InitiatorInv(FinishMessage2(c, s, pending, peer).0)
    ensures FinishMessage2(c, s, pending, peer).0.ephSecret.Some? ==> s.ephSecret.Some?
  {
    hide Verify2, Zeros, Plaintext3, NextTranscript, Encrypt3;
  }

  lemma StepKeepsInitiatorInv(c: Crypto, s: Initiator, call: InitiatorCall)
    requires Sizes(c) && InitiatorInv(s)
    ensures InitiatorInv(StepInitiator(c, s, call))
    ensures StepInitiator(c, s, call).ephSecret.Some? ==> s.ephSecret.Some? && !InitiatorRunsDh(c, s, call)
  {
    hide BeginMessage2, FinishMessage2;
    match call
    case Create =>
    case Begin2(msg2) =>
      BeginKeepsInv(c, s, msg2);
    case Finish2(pending, peer) =>
      FinishKeepsInv(c, s, pending, peer);
    case Process2(msg2, peer) =>
      BeginKeepsInv(c, s, msg2);
      assert InitiatorRunsDh(c, s, call) == InitiatorRunsDh(c, s, Begin2(msg2));
      var (next, r) := BeginMessage2(c, s, msg2);
      if r.Ok? {
        FinishKeepsInv(c, next, r.value, peer);
      }
    case Wipe2 =>
  }

  lemma DhNeedsSecret(c: Crypto, s: Initiator, call: InitiatorCall)
    ensures InitiatorRunsDh(c, s, call) ==> s.ephSecret.Some?
  {
  }

  /**
   * Over every sequence of calls: the ephemeral secret is held in the first two states only, Diffie-Hellman runs at most
   * once, `completed` means `Complete`, and a failed or wiped initiator holds no secret.
   */
  lemma {:induction false} InitiatorOverAllRuns(c: Crypto, s: Initiator, calls: seq<InitiatorCall>)
    requires Sizes(c) && InitiatorInv(s)
    ensures InitiatorInv(RunInitiator(c, s, calls))
    ensures InitiatorDhUses(c, s, calls) <= (if s.ephSecret.Some? then 1 else 0)
    decreases |calls|
  {
    hide StepInitiator, InitiatorInv, InitiatorRunsDh;
    if calls != [] {
      StepKeepsInitiatorInv(c, s, calls[0]);
      InitiatorOverAllRuns(c, StepInitiator(c, s, calls[0]), calls[1..]);
      assert InitiatorRunsDh(c, s, calls[0]) ==> s.ephSecret.Some? by { DhNeedsSecret(c, s, calls[0]); }
    }
  }

  /** So from creation, whatever is called. */
  lemma EveryInitiatorRun(c: Crypto, seed: Bytes32, cI: ConnectionId, eph: Bytes32, calls: seq<InitiatorCall>)
    requires Sizes(c)
    ensures InitiatorInv(RunInitiator(c, NewInitiator(c, seed, cI, eph), calls))
    ensures InitiatorDhUses(c, NewInitiator(c, seed, cI, eph), calls) <= 1
  {
    InitiatorOverAllRuns(c, NewInitiator(c, seed, cI, eph), calls);
  }

  // Where Diffie-Hellman enters

  /** `d` differs from `c` in Diffie-Hellman at most. */
  ghost predicate SameButDh(c: Crypto, d: Crypto) {
    d == c.(dh := d.dh)
  }

  lemma OpenMessage2WithoutDh(c: Crypto, d: Crypto, st: InitiatorState, cI: ConnectionId, gXY: Bytes32, ct: bytes)
    requires Sizes(c) && Sizes(d) && SameButDh(c, d)
    ensures OpenMessage2(d, st, cI, gXY, ct) == OpenMessage2(c, st, cI, gXY, ct)
  {
    hide ParseIdentifier, ParseIdCred, ParseBstr, KdfInfo;
  }

  lemma OwnValuesWithoutDh(c: Crypto, d: Crypto, seed: Bytes32, pubkey: Bytes32, prk: Bytes32, th: Bytes32,
                           cR: ConnectionId)
    requires Sizes(c) && Sizes(d) && SameButDh(c, d)
    ensures Plaintext3(d, seed, pubkey, prk, th) == Plaintext3(c, seed, pubkey, prk, th)
    ensures Plaintext2(d, seed, pubkey, cR, prk, th) == Plaintext2(c, seed, pubkey, cR, prk, th)
  {
    hide KdfInfo, Context2, Context3, SignatureStructure, CredentialOf;
  }

  lemma FinishMessage2WithoutDh(c: Crypto, d: Crypto, s: Initiator, pending: Pending2, peer: PeerCredential)
    requires Sizes(c) && Sizes(d) && SameButDh(c, d)
    ensures FinishMessage2(d, s, pending, peer) == FinishMessage2(c, s, pending, peer)
  {
    hide KdfInfo, Context2, SignatureStructure, CredentialOf, ParseBstr, Plaintext3;
    if s.state.lifecycle == PendingMessage2 && Verify2(c, s.state, pending, peer).Ok? {
      var th3 := NextTranscript(c, s.state.th2, pending.plaintext, peer.credential);
      if th3.Ok? {
        OwnValuesWithoutDh(c, d, s.seed, s.pubkey, s.state.prk3e2m, th3.value, []);
      }
    }
  }

  /** The point at which a call that gets there consults Diffie-Hellman. */
  function InitiatorDhPoint(c: Crypto, s: Initiator, call: InitiatorCall): (Bytes32, Bytes32)
    requires InitiatorRunsDh(c, s, call)
  {
    (s.ephSecret.value, SplitMessage2(c, call.msg2).value.0)
  }

  lemma BeginConsultsDhOnce(c: Crypto, d: Crypto, s: Initiator, msg2: bytes)
    requires Sizes(c) && Sizes(d) && SameButDh(c, d)
    requires InitiatorRunsDh(c, s, Begin2(msg2)) ==>
               var point := InitiatorDhPoint(c, s, Begin2(msg2)); c.dh(point.0, point.1) == d.dh(point.0, point.1)
    ensures BeginMessage2(d, s, msg2) == BeginMessage2(c, s, msg2)
  {
    hide OpenMessage2, ParseBstr;
    if InitiatorRunsDh(c, s, Begin2(msg2)) {
      var point := InitiatorDhPoint(c, s, Begin2(msg2));
      OpenMessage2WithoutDh(c, d, s.state.(gY := point.1), s.cI, c.dh(point.0, point.1), SplitMessage2(c, msg2).value.1);
    }
  }

  /**
   * A call depends on Diffie-Hellman at that one point only: with any other function that agrees there, or
   * with any other function at all if the call does not get there, its effect is the same.
   */
  lemma InitiatorConsultsDhOnce(c: Crypto, d: Crypto, s: Initiator, call: InitiatorCall)
    requires Sizes(c) && Sizes(d) && SameButDh(c, d)
    requires InitiatorRunsDh(c, s, call) ==>
               var point := InitiatorDhPoint(c, s, call); c.dh(point.0, point.1) == d.dh(point.0, point.1)
    ensures StepInitiator(d, s, call) == StepInitiator(c, s, call)
  {
    hide OpenMessage2, FinishMessage2, ParseBstr;
    match call
    case Create =>
    case Begin2(msg2) =>
      BeginConsultsDhOnce(c, d, s, msg2);
    case Finish2(pending, peer) =>
      FinishMessage2WithoutDh(c, d, s, pending, peer);
    case Process2(msg2, peer) =>
      assert InitiatorRunsDh(c, s, call) == InitiatorRunsDh(c, s, Begin2(msg2));
      BeginConsultsDhOnce(c, d, s, msg2);
      var (next, r) := BeginMessage2(c, s, msg2);
      if r.Ok? {
        FinishMessage2WithoutDh(c, d, next, r.value, peer);
      }
    case Wipe2 =>
  }

  lemma DeadInitiatorStep(c: Crypto, s: Initiator, call: InitiatorCall)
    requires Sizes(c) && InitiatorDead(s)
    ensures InitiatorDead(StepInitiator(c, s, call))
  {
    hide OpenMessage2, Verify2, AnswerMessage2;
  }

  /** From a dead state nothing but a dead state is ever reached. */
  lemma {:induction false} InitiatorStaysDead(c: Crypto, s: Initiator, calls: seq<InitiatorCall>)
    requires Sizes(c) && InitiatorDead(s)
    ensures InitiatorDead(RunInitiator(c, s, calls))
    decreases |calls|
  {
    if calls != [] {
      DeadInitiatorStep(c, s, calls[0]);
      InitiatorStaysDead(c, StepInitiator(c, s, calls[0]), calls[1..]);
    }
  }

  /** Export works in `Complete` only; and only an explicit wipe leaves `Complete`. */
  lemma InitiatorExportsOnlyWhenComplete(c: Crypto, s: Initiator, call: InitiatorCall)
    requires Sizes(c) && InitiatorInv(s)
    ensures ExportInitiator(c, s).Ok? ==> s.state.lifecycle == Complete
    ensures s.state.lifecycle == Complete ==> (StepInitiator(c, s, call) == s <==> call != Wipe2)
  {
    hide OpenMessage2, Verify2, AnswerMessage2, Export;
  }

  // The responder

  datatype ResponderCall =
    | Process1(msg1: bytes)
    | Begin3(msg3: bytes)
    | Finish3(pending3: Pending3, peer3: PeerCredential)
    | Process3(msg3: bytes, peer3: PeerCredential)
    | Wipe3

  function StepResponder(c: Crypto, s: Responder, call: ResponderCall): Responder
    requires Sizes(c)
  {
    match call
    case Process1(msg1) => AcceptMessage1(c, s, msg1).0
    case Begin3(msg3) => BeginMessage3(c, s, msg3).0
    case Finish3(pending, peer) => FinishMessage3(c, s, pending, peer).0
    case Process3(msg3, peer) => ProcessMessage3(c, s, msg3, peer).0
    case Wipe3 => WipedResponder(s, Zeroized)
  }

  function RunResponder(c: Crypto, s: Responder, calls: seq<ResponderCall>): Responder
    requires Sizes(c)
    decreases |calls|
  {
    if calls == [] then s else RunResponder(c, StepResponder(c, s, calls[0]), calls[1..])
  }

  predicate ResponderDead(s: Responder) {
    && s.state.lifecycle in {Failed, Zeroized}
    && s.seed == ZERO && s.ephSecret.None? && s.state.gX == ZERO
    && s.state.prk2e == ZERO && s.state.prk3e2m == ZERO && s.state.prk4e3m == ZERO
    && s.state.th2 == ZERO && s.state.th3 == ZERO && s.state.th4 == ZERO
  }

  predicate ResponderInv(s: Responder) {
    && s.state.lifecycle in {Created, AwaitingMessage3, PendingMessage3, Complete, Failed, Zeroized}
    && (s.ephSecret.Some? <==> s.state.lifecycle == Created)
    && (s.state.completed <==> s.state.lifecycle == Complete)
    && (s.state.prk4e3m != ZERO ==> s.state.lifecycle == Complete)
    && (s.state.lifecycle in {Failed, Zeroized} ==> ResponderDead(s))
    && (s.state.lifecycle == Created ==> s.state.prk2e == ZERO && s.state.prk3e2m == ZERO)
  }

  /** A first message refused before the ephemeral secret is used. */
  predicate RetryableMessage1(msg1: bytes) {
    KeyOffset(msg1).Err? || LastIdentifier(msg1[KeyOffset(msg1).value + 34..]).Err?
  }

  function OfferedIdentifier(msg1: bytes): byte
    requires !RetryableMessage1(msg1)
  {
    LastIdentifier(msg1[KeyOffset(msg1).value + 34..]).value
  }

  predicate ResponderRunsDh(s: Responder, call: ResponderCall) {
    && call.Process1?
    && s.state.lifecycle == Created && s.ephSecret.Some?
    && !RetryableMessage1(call.msg1)
    && s.cR != [OfferedIdentifier(call.msg1)]
  }

  function ResponderDhUses(c: Crypto, s: Responder, calls: seq<ResponderCall>): nat
    requires Sizes(c)
    decreases |calls|
  {
    if calls == [] then 0
    else (if ResponderRunsDh(s, calls[0]) then 1 else 0)
         + ResponderDhUses(c, StepResponder(c, s, calls[0]), calls[1..])
  }

  lemma Process1KeepsInv(c: Crypto, s: Responder, msg1: bytes)
    requires Sizes(c) && ResponderInv(s)
    ensures ResponderInv(AcceptMessage1(c, s, msg1).0)
    ensures AcceptMessage1(c, s, msg1).0.ephSecret.Some? ==> s.ephSecret.Some? && !ResponderRunsDh(s, Process1(msg1))
  {
    hide Transcript2, TranscriptHash, KeyOffset, LastIdentifier, Zeros, Plaintext2, Message2;
  }

  lemma Begin3KeepsInv(c: Crypto, s: Responder, msg3: bytes)
    requires Sizes(c) && ResponderInv(s)
    ensures ResponderInv(BeginMessage3(c, s, msg3).0)
    ensures BeginMessage3(c, s, msg3).0.ephSecret.Some? ==> s.ephSecret.Some?
  {
    hide OpenMessage3, Zeros;
  }

  lemma Finish3KeepsInv(c: Crypto, s: Responder, pending: Pending3, peer: PeerCredential)
    requires Sizes(c) && ResponderInv(s)
    ensures ResponderInv(FinishMessage3(c, s, pending, peer).0)
    ensures FinishMessage3(c, s, pending, peer).0.ephSecret.Some? ==> s.ephSecret.Some?
  {
    hide Verify3, NextTranscript, Zeros;
  }

  lemma StepKeepsResponderInv(c: Crypto, s: Responder, call: ResponderCall)
    requires Sizes(c) && ResponderInv(s)
    ensures ResponderInv(StepResponder(c, s, call))
    ensures StepResponder(c, s, call).ephSecret.Some? ==> s.ephSecret.Some? && !ResponderRunsDh(s, call)
  {
    hide AcceptMessage1, BeginMessage3, FinishMessage3;
    match call
    case Process1(msg1) =>
      Process1KeepsInv(c, s, msg1);
    case Begin3(msg3) =>
      Begin3KeepsInv(c, s, msg3);
    case Finish3(pending, peer) =>
      Finish3KeepsInv(c, s, pending, peer);
    case Process3(msg3, peer) =>
      Begin3KeepsInv(c, s, msg3);
      var (next, r) := BeginMessage3(c, s, msg3);
      if r.Ok? {
        Finish3KeepsInv(c, next, r.value, peer);
      }
    case Wipe3 =>
  }

  lemma ResponderDhNeedsSecret(s: Responder, call: ResponderCall)
    ensures ResponderRunsDh(s, call) ==> s.ephSecret.Some?
  {
  }

  /** The same for the responder, which holds its ephemeral secret in `Created` only. */
  lemma {:induction false} ResponderOverAllRuns(c: Crypto, s: Responder, calls: seq<ResponderCall>)
    requires Sizes(c) && ResponderInv(s)
    ensures ResponderInv(RunResponder(c, s, calls))
    ensures ResponderDhUses(c, s, calls) <= (if s.ephSecret.Some? then 1 else 0)
    decreases |calls|
  {
    hide StepResponder, ResponderInv, ResponderRunsDh;
    if calls != [] {
      StepKeepsResponderInv(c, s, calls[0]);
      ResponderOverAllRuns(c, StepResponder(c, s, calls[0]), calls[1..]);
      assert ResponderRunsDh(s, calls[0]) ==> s.ephSecret.Some? by { ResponderDhNeedsSecret(s, calls[0]); }
    }
  }

  lemma EveryResponderRun(c: Crypto, seed: Bytes32, cR: byte, eph: Bytes32, calls: seq<ResponderCall>)
    requires Sizes(c)
    ensures ResponderInv(RunResponder(c, NewResponder(c, seed, cR, eph), calls))
    ensures ResponderDhUses(c, NewResponder(c, seed, cR, eph), calls) <= 1
  {
    ResponderOverAllRuns(c, NewResponder(c, seed, cR, eph), calls);
  }

  lemma AnswerMessage1WithoutDh(c: Crypto, d: Crypto, s: Responder, gXY: Bytes32, msg1: bytes)
    requires Sizes(c) && Sizes(d) && SameButDh(c, d)
    ensures AnswerMessage1(d, s, gXY, msg1) == AnswerMessage1(c, s, gXY, msg1)
  {
    hide KdfInfo, Plaintext2, CredentialOf;
    var th2 := Transcript2(c, s.ephPublic, msg1);
    OwnValuesWithoutDh(c, d, s.seed, s.pubkey, c.extract(th2, gXY), th2, s.cR);
  }

  lemma Message3WithoutDh(c: Crypto, d: Crypto, s: Responder, msg3: bytes, pending: Pending3, peer: PeerCredential)
    requires Sizes(c) && Sizes(d) && SameButDh(c, d)
    ensures BeginMessage3(d, s, msg3) == BeginMessage3(c, s, msg3)
    ensures FinishMessage3(d, s, pending, peer) == FinishMessage3(c, s, pending, peer)
  {
    hide KdfInfo, Context3, SignatureStructure, ParseBstr, ParseIdCred, Aad3;
  }

  function ResponderDhPoint(s: Responder, call: ResponderCall): (Bytes32, Bytes32)
    requires ResponderRunsDh(s, call)
  {
    var start := KeyOffset(call.msg1).value;
    (s.ephSecret.value, call.msg1[start + 2..start + 34])
  }

  /** The same for the responder. */
  lemma ResponderConsultsDhOnce(c: Crypto, d: Crypto, s: Responder, call: ResponderCall)
    requires Sizes(c) && Sizes(d) && SameButDh(c, d)
    requires ResponderRunsDh(s, call) ==>
               var point := ResponderDhPoint(s, call); c.dh(point.0, point.1) == d.dh(point.0, point.1)
    ensures StepResponder(d, s, call) == StepResponder(c, s, call)
  {
    hide AnswerMessage1, BeginMessage3, FinishMessage3, KeyOffset, LastIdentifier;
    match call
    case Process1(msg1) =>
      if ResponderRunsDh(s, call) {
        var point := ResponderDhPoint(s, call);
        var used := s.(ephSecret := None, state := s.state.(gX := point.1, msg1 := msg1, cI := [OfferedIdentifier(msg1)]));
        AnswerMessage1WithoutDh(c, d, used, c.dh(point.0, point.1), msg1);
      }
    case Begin3(msg3) =>
      Message3WithoutDh(c, d, s, msg3, PendingData3(IdCred([], Kid([])), [], 0, Zeros(32)), RawKeyPeer(c, Zeros(32)));
    case Finish3(pending, peer) =>
      Message3WithoutDh(c, d, s, [], pending, peer);
    case Process3(msg3, peer) =>
      Message3WithoutDh(c, d, s, msg3, PendingData3(IdCred([], Kid([])), [], 0, Zeros(32)), peer);
      var (next, r) := BeginMessage3(c, s, msg3);
      if r.Ok? {
        Message3WithoutDh(c, d, next, msg3, r.value, peer);
      }
    case Wipe3 =>
  }

  lemma DeadResponderStep(c: Crypto, s: Responder, call: ResponderCall)
    requires Sizes(c) && ResponderDead(s)
    ensures ResponderDead(StepResponder(c, s, call))
  {
    hide OpenMessage3, CompleteMessage3, AnswerMessage1, KeyOffset, LastIdentifier;
  }

  lemma {:induction false} ResponderStaysDead(c: Crypto, s: Responder, calls: seq<ResponderCall>)
    requires Sizes(c) && ResponderDead(s)
    ensures ResponderDead(RunResponder(c, s, calls))
    decreases |calls|
  {
    if calls != [] {
      DeadResponderStep(c, s, calls[0]);
      ResponderStaysDead(c, StepResponder(c, s, calls[0]), calls[1..]);
    }
  }

  /**
   * Export works in `Complete` only. Unlike the initiator, a complete responder is lost by one more call to
   * finish a message: it stays as it is exactly under every other call but a wipe.
   */
  lemma ResponderExportsOnlyWhenComplete(c: Crypto, s: Responder, call: ResponderCall)
    requires Sizes(c) && ResponderInv(s)
    ensures ExportResponder(c, s).Ok? ==> s.state.lifecycle == Complete
    ensures s.state.lifecycle == Complete ==> (StepResponder(c, s, call) == s <==> !call.Finish3? && !call.Wipe3?)
    ensures s.state.lifecycle == Complete && call.Finish3? ==> ResponderDead(StepResponder(c, s, call))
  {
    hide OpenMessage3, CompleteMessage3, AnswerMessage1, KeyOffset, LastIdentifier, Export;
  }

  // Retries

  /** The initiator can be called again exactly after a retryable message, and then nothing has changed. */
  lemma InitiatorRetry(c: Crypto, s: Initiator, msg2: bytes)
    requires Sizes(c) && s.state.lifecycle == Message1Created && s.ephSecret.Some?
    ensures BeginMessage2(c, s, msg2).0.state.lifecycle == Message1Created <==> RetryableMessage2(c, msg2)
    ensures RetryableMessage2(c, msg2) ==> BeginMessage2(c, s, msg2).0 == s && BeginMessage2(c, s, msg2).1.Err?
  {
    hide Transcript2, Kdf, ParsePlaintext2, Zeros;
  }

  /** The responder likewise, except that the key in the message may stay behind. */
  lemma ResponderRetry(c: Crypto, s: Responder, msg1: bytes)
    requires Sizes(c) && s.state.lifecycle == Created && s.ephSecret.Some?
    ensures AcceptMessage1(c, s, msg1).0.state.lifecycle == Created <==> RetryableMessage1(msg1)
    ensures RetryableMessage1(msg1) ==>
              var after := AcceptMessage1(c, s, msg1);
              after.1.Err? && after.0 == s.(state := s.state.(gX := after.0.state.gX))
  {
    hide Transcript2, TranscriptHash, KeyOffset, LastIdentifier, Plaintext2, Message2, Zeros;
  }

  /** The key left behind by a refused message influences no later answer, and no state but a refusing one. */
  lemma LeftoverKeyIsIrrelevant(c: Crypto, s: Responder, gX: Bytes32, msg1: bytes)
    requires Sizes(c) && s.state.lifecycle == Created && s.ephSecret.Some?
    ensures var leftover := s.(state := s.state.(gX := gX));
            && AcceptMessage1(c, leftover, msg1).1 == AcceptMessage1(c, s, msg1).1
            && (!RetryableMessage1(msg1) ==> AcceptMessage1(c, leftover, msg1) == AcceptMessage1(c, s, msg1))
  {
    hide Transcript2, TranscriptHash, KeyOffset, LastIdentifier, Plaintext2, Message2, Zeros;
  }

  /** The responder after first messages it refused. */
  function AfterRefused(c: Crypto, s: Responder, refused: seq<bytes>): Responder
    requires Sizes(c)
    decreases |refused|
  {
    if refused == [] then s else AfterRefused(c, AcceptMessage1(c, s, refused[0]).0, refused[1..])
  }

  /** The initiator after second messages it refused. */
  function AfterRefused2(c: Crypto, s: Initiator, refused: seq<bytes>): Initiator
    requires Sizes(c)
    decreases |refused|
  {
    if refused == [] then s else AfterRefused2(c, BeginMessage2(c, s, refused[0]).0, refused[1..])
  }

  lemma {:induction false} RefusedLeaveOnlyTheKey(c: Crypto, s: Responder, refused: seq<bytes>)
    requires Sizes(c) && s.state.lifecycle == Created && s.ephSecret.Some?
    requires forall m :: m in refused ==> RetryableMessage1(m)
    ensures var after := AfterRefused(c, s, refused);
            after == s.(state := s.state.(gX := after.state.gX))
    decreases |refused|
  {
    hide AcceptMessage1, RetryableMessage1;
    if refused != [] {
      ResponderRetry(c, s, refused[0]);
      RefusedLeaveOnlyTheKey(c, AcceptMessage1(c, s, refused[0]).0, refused[1..]);
    }
  }

  /** Any number of refused first messages changes neither the answer to a later one nor the state after it. */
  lemma ResponderRetryIsTransparent(c: Crypto, s: Responder, refused: seq<bytes>, msg1: bytes)
    requires Sizes(c) && s.state.lifecycle == Created && s.ephSecret.Some?
    requires forall m :: m in refused ==> RetryableMessage1(m)
    ensures AcceptMessage1(c, AfterRefused(c, s, refused), msg1).1 == AcceptMessage1(c, s, msg1).1
    ensures !RetryableMessage1(msg1) ==>
              AcceptMessage1(c, AfterRefused(c, s, refused), msg1) == AcceptMessage1(c, s, msg1)
  {
    hide AcceptMessage1, RetryableMessage1;
    RefusedLeaveOnlyTheKey(c, s, refused);
    LeftoverKeyIsIrrelevant(c, s, AfterRefused(c, s, refused).state.gX, msg1);
  }

  lemma {:induction false} InitiatorRetryIsTransparent(c: Crypto, s: Initiator, refused: seq<bytes>)
    requires Sizes(c) && s.state.lifecycle == Message1Created && s.ephSecret.Some?
    requires forall m :: m in refused ==> RetryableMessage2(c, m)
    ensures AfterRefused2(c, s, refused) == s
    decreases |refused|
  {
    hide BeginMessage2, RetryableMessage2;
    if refused != [] {
      InitiatorRetry(c, s, refused[0]);
      InitiatorRetryIsTransparent(c, s, refused[1..]);
    }
  }

  /** The honest run with refused messages delivered ahead of the first and of the second message. */
  function NoisyRun(c: Crypto, p: Parties, noise1: seq<bytes>, noise2: seq<bytes>): Option<(Initiator, Responder)>
    requires Sizes(c)
  {
    var (i1, m1) := FirstMessage(NewInitiator(c, p.seedI, p.cI, p.ephI));
    var r0 := AfterRefused(c, NewResponder(c, p.seedR, p.cR, p.ephR), noise1);
    var (r1, m2) := AcceptMessage1(c, r0, m1.value);
    if m2.Err? then None
    else
      var (i2, m3) := ProcessMessage2(c, AfterRefused2(c, i1, noise2), m2.value, RawKeyPeer(c, c.verifyingKey(p.seedR)));
      if m3.Err? then None
      else
        var (r2, done) := ProcessMessage3(c, r1, m3.value, RawKeyPeer(c, c.verifyingKey(p.seedI)));
        if done.Err? then None else Some((i2, r2))
  }

  lemma AcceptedIsNotRetryable(c: Crypto, s: Responder, msg1: bytes)
    requires Sizes(c) && s.state.lifecycle == Created && s.ephSecret.Some? && AcceptMessage1(c, s, msg1).1.Ok?
    ensures !RetryableMessage1(msg1)
  {
    hide AnswerMessage1, KeyOffset, LastIdentifier;
  }

  /** Messages that are refused without poisoning never disturb a handshake. */
  lemma NoiseIsHarmless(c: Crypto, p: Parties, noise1: seq<bytes>, noise2: seq<bytes>)
    requires Sizes(c)
    requires (forall m :: m in noise1 ==> RetryableMessage1(m)) && (forall m :: m in noise2 ==> RetryableMessage2(c, m))
    ensures NoisyRun(c, p, noise1, noise2) == HonestRun(c, p)
  {
    hide AcceptMessage1, ProcessMessage2, ProcessMessage3, RetryableMessage1, RetryableMessage2, Msg1;
    var r0 := NewResponder(c, p.seedR, p.cR, p.ephR);
    FirstMessageSent(c, p);
    ResponderRetryIsTransparent(c, r0, noise1, Msg1(c, p));
    InitiatorRetryIsTransparent(c, WaitingInitiator(c, p), noise2);
    if AcceptMessage1(c, r0, Msg1(c, p)).1.Ok? {
      AcceptedIsNotRetryable(c, r0, Msg1(c, p));
    }
  }
}
