/**
 * Durable sender sequences: what registering, restoring and reserving do to one context and to the shared
 * compare-and-swap record, as functions on values. `Context` performs exactly these.
 */
module Durable {
  import opened Bytes
  import opened SeqNumber
  import opened Window

  /** The durable record of one directional sender context. */
  datatype SenderState = SenderState(nextSequence: nat, exhausted: bool)

  /** A storage call works, fails without effect, or reports failure although the write happened. */
  datatype Fault = NoFault | FailedBefore | FailedAfter

  datatype CasResult = Swapped | Mismatch | Failed

  datatype ContextStoreError = Oscore | Storage | Missing | Conflict

  datatype ReservationError = SequenceExhausted | ReservationConflict | ReservationStorage

  /** The sending half of a context: everything that decides which nonces it may use. */
  datatype Sender = Sender(
    next: SeqNum, exhausted: bool, restored: bool, active: bool, allowNoPiv: bool, responses: Window)

  const FRESH_SENDER := Sender(0, false, false, false, false, FRESH_WINDOW)

  /** What the handshake exports: still inactive, but already allowed to answer without a Partial IV. */
  const EXPORTED_SENDER := FRESH_SENDER.(allowNoPiv := true)

  function Cas(record: Option<SenderState>, expected: Option<SenderState>, next: SenderState, fault: Fault)
    : (Option<SenderState>, CasResult)
  {
    match fault
    case FailedBefore => (record, Failed)
    case FailedAfter => (if record == expected then Some(next) else record, Failed)
    case NoFault => if record == expected then (Some(next), Swapped) else (record, Mismatch)
  }

  function StateOf(s: Sender): SenderState {
    SenderState(s.next, s.exhausted)
  }

  /** The record after the sequence number `n` is taken. */
  function Successor(n: SeqNum): SenderState {
    match Increment(n)
    case Some(next) => SenderState(next, false)
    case None => SenderState(MAX, true)
  }

  /** `register_fresh`: the context is consumed; on success it comes back active. */
  function Register(s: Sender, record: Option<SenderState>, fault: Fault)
    : (Option<SenderState>, Result<Sender, ContextStoreError>)
  {
    if s.restored || s.active then (record, Err(Oscore))
    else
      var (record', outcome) := Cas(record, None, StateOf(s), fault);
      match outcome
      case Swapped => (record', Ok(s.(active := true, allowNoPiv := true)))
      case Mismatch => (record', Err(Conflict))
      case Failed => (record', Err(Storage))
  }

  /** Whether a stored record is one a context may adopt. */
  predicate Adoptable(r: SenderState) {
    r.nextSequence <= MAX && (r.exhausted ==> r.nextSequence == MAX)
  }

  /** `restore_existing`: `responses` is the no-PIV window of the recipient record, when there is one. */
  function Restore(s: Sender, record: Option<SenderState>, fails: bool, responses: Option<Window>)
    : Result<Sender, ContextStoreError>
  {
    if fails then Err(Storage)
    else if record.None? then Err(Missing)
    else if !Adoptable(record.value) then Err(Oscore)
    else Ok(Sender(record.value.nextSequence, record.value.exhausted, true, true, false,
                   if responses.Some? then responses.value else s.responses))
  }

  /** `reserve_sender`: the record advances first; the context follows only on success. */
  function Reserve(s: Sender, record: Option<SenderState>, fault: Fault)
    : (Option<SenderState>, Result<SeqNum, ReservationError>)
  {
    if !s.active then (record, Err(ReservationConflict))
    else if s.exhausted then (record, Err(SequenceExhausted))
    else
      var (record', outcome) := Cas(record, Some(StateOf(s)), Successor(s.next), fault);
      match outcome
      case Swapped => (record', Ok(s.next))
      case Mismatch => (record', Err(ReservationConflict))
      case Failed => (record', Err(ReservationStorage))
  }

  function Advance(s: Sender): Sender {
    s.(next := if s.next < MAX then s.next + 1 else MAX, exhausted := s.next == MAX)
  }

  /** A response that reuses the request nonce: once per request, and only from the context that registered. */
  function RespondNoPiv(s: Sender, request: SeqNum): Option<Sender> {
    if s.active && s.allowNoPiv && !Reused(s.responses, request)
    then Some(s.(responses := Mark(s.responses, request)))
    else None
  }

  /** A response under the context's own next number, taken without asking the store. */
  function RespondStoreless(s: Sender): Option<(Sender, SeqNum)> {
    if s.active && s.next < MAX then Some((s.(next := s.next + 1), s.next)) else None
  }

  // Outcomes, case by case

  /**
   * Registering succeeds exactly for an untouched context, an empty record and a store that works. A lost race is a
   * conflict, a storage failure is reported as such even if the write happened, and the record holds the context's
   * state exactly if the write happened.
   */
  lemma RegisterOutcome(s: Sender, record: Option<SenderState>, fault: Fault)
    ensures var (record', r) := Register(s, record, fault);
            var touched := s.restored || s.active;
            && (r.Ok? <==> !touched && record.None? && fault.NoFault?)
            && (r.Ok? ==> r.value == Sender(s.next, s.exhausted, false, true, true, s.responses))
            && (r == Err(Oscore) <==> touched)
            && (r == Err(Conflict) <==> !touched && fault.NoFault? && record.Some?)
            && (r == Err(Storage) <==> !touched && !fault.NoFault?)
            && record' == if !touched && record.None? && !fault.FailedBefore? then Some(SenderState(s.next, s.exhausted))
                          else record
  {
  }

  /** Restoring adopts a record a context may adopt, and otherwise says why not. */
  lemma RestoreOutcome(s: Sender, record: Option<SenderState>, fails: bool, responses: Option<Window>)
    ensures var r := Restore(s, record, fails, responses);
            var adoptable := record.Some? && record.value.nextSequence <= MAX
                             && (record.value.exhausted ==> record.value.nextSequence == MAX);
            && (r.Ok? <==> !fails && adoptable)
            && (r.Ok? ==>
                  && r.value.next == record.value.nextSequence && r.value.exhausted == record.value.exhausted
                  && r.value.restored && r.value.active && !r.value.allowNoPiv
                  && r.value.responses == if responses.Some? then responses.value else s.responses)
            && (r == Err(Storage) <==> fails)
            && (r == Err(Missing) <==> !fails && record.None?)
            && (r == Err(Oscore) <==> !fails && record.Some? && !adoptable)
  {
  }

  /**
   * Reserving succeeds exactly for an active context that is not exhausted, whose state is the record, and a store that
   * works; it hands out the context's next number. The record moves to the next number, or to exhausted at the last,
   * exactly if the write happened.
   */
  lemma ReserveOutcome(s: Sender, record: Option<SenderState>, fault: Fault)
    ensures var (record', r) := Reserve(s, record, fault);
            var ready := s.active && !s.exhausted;
            var inStep := record == Some(SenderState(s.next, false));
            && (r.Ok? <==> ready && inStep && fault.NoFault?)
            && (r.Ok? ==> r.value == s.next)
            && (r == Err(SequenceExhausted) <==> s.active && s.exhausted)
            && (r == Err(ReservationConflict) <==> !s.active || (ready && fault.NoFault? && !inStep))
            && (r == Err(ReservationStorage) <==> ready && !fault.NoFault?)
            && record' == if ready && inStep && !fault.FailedBefore?
                          then Some(if s.next < MAX then SenderState(s.next + 1, false) else SenderState(MAX, true))
                          else record
  {
  }

  /** The context follows a reservation to the state the record then has. */
  lemma AdvanceFollowsRecord(s: Sender, record: Option<SenderState>)
    requires Reserve(s, record, NoFault).1.Ok?
    ensures Reserve(s, record, NoFault).0 == Some(StateOf(Advance(s)))
    ensures Advance(s) == s.(next := Advance(s).next, exhausted := Advance(s).exhausted)
  {
  }

  /** Without a Partial IV only an active context that registered answers, each request once. */
  lemma RespondOutcome(s: Sender, request: SeqNum)
    ensures RespondNoPiv(s, request).Some? <==> s.active && s.allowNoPiv && !Reused(s.responses, request)
    ensures RespondNoPiv(s, request).Some? ==>
              var after := RespondNoPiv(s, request).value;
              Reused(after.responses, request) && after == s.(responses := after.responses)
    ensures RespondStoreless(s).Some? <==> s.active && s.next < MAX
    ensures RespondStoreless(s).Some? ==> RespondStoreless(s).value == (s.(next := s.next + 1), s.next)
  {
  }

  // One context on its own

  datatype SenderOp = OpReserve(record: Option<SenderState>, fault: Fault) | OpStoreless

  /** What one operation hands out, whatever the store holds at that moment. */
  function Perform(s: Sender, op: SenderOp): (Sender, Option<SeqNum>) {
    match op
    case OpReserve(record, fault) =>
      var r := Reserve(s, record, fault).1;
      if r.Ok? then (Advance(s), Some(r.value)) else (s, None)
    case OpStoreless =>
      var r := RespondStoreless(s);
      if r.Some? then (r.value.0, Some(r.value.1)) else (s, None)
  }

  /** The sequence numbers a context hands out over a list of operations, in order. */
  function HandedOut(s: Sender, ops: seq<SenderOp>): seq<SeqNum>
    decreases ops
  {
    if ops == [] then []
    else
      var (s', out) := Perform(s, ops[0]);
      (if out.Some? then [out.value] else []) + HandedOut(s', ops[1..])
  }

  /** Strictly increasing, starting no lower than `low`. */
  ghost predicate IncreasingFrom(low: nat, out: seq<SeqNum>) {
    && (forall i :: 0 <= i < |out| ==> low <= out[i])
    && (forall i, j :: 0 <= i < j < |out| ==> out[i] < out[j])
  }

  lemma PerformTakesNext(s: Sender, op: SenderOp)
    requires s.exhausted ==> s.next == MAX
    ensures var (s', out) := Perform(s, op);
            && (s'.exhausted ==> s'.next == MAX)
            && (out.None? ==> s' == s)
            && (out.Some? ==> !s.exhausted && out.value == s.next && (s'.next == s.next + 1 || s'.exhausted))
  {
  }

  lemma IncreasingCons(low: SeqNum, rest: seq<SeqNum>)
    requires IncreasingFrom(low + 1, rest)
    ensures IncreasingFrom(low, [low] + rest)
  {
  }

  /**
   * Any interleaving of reservations and store-less responses hands out strictly increasing numbers, none below
   * the counter; nothing at all once exhausted.
   */
  lemma {:induction false} HandedOutIncreases(s: Sender, ops: seq<SenderOp>)
    requires s.exhausted ==> s.next == MAX
    ensures IncreasingFrom(s.next, HandedOut(s, ops))
    ensures s.exhausted ==> HandedOut(s, ops) == []
    decreases ops
  {
    if ops != [] {
      PerformTakesNext(s, ops[0]);
      hide Perform;
      var (s', out) := Perform(s, ops[0]);
      HandedOutIncreases(s', ops[1..]);
      var rest := HandedOut(s', ops[1..]);
      if out.Some? {
        assert HandedOut(s, ops) == [s.next] + rest;
        if rest != [] {
          IncreasingCons(s.next, rest);
        } else {
          assert [s.next] + rest == [s.next];
        }
      } else {
        assert HandedOut(s, ops) == [] + rest == rest;
      }
    }
  }

  /** The last number comes out of a reservation or not at all. */
  lemma StorelessNeverTakesLast(s: Sender)
    ensures RespondStoreless(s).Some? ==> RespondStoreless(s).value.1 < MAX
    ensures s.exhausted && s.next == MAX ==>
              RespondStoreless(s).None? && forall r, f :: Reserve(s, r, f).1.Err?
  {
  }
}
