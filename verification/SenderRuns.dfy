/**
 * Any number of contexts sharing one durable record: they are created, register, restore, reserve, encrypt and
 * crash in any order, with lost races and ambiguous storage errors. No two released encryptions share a nonce.
 */
module SenderRuns {
  import opened Bytes
  import opened SeqNumber
  import opened Window
  import opened Nonce
  import opened Durable

  /** One live context: its sender half, its peer's identifier, and the reservation it may still encrypt under. */
  datatype Instance = Instance(sender: Sender, peer: bytes, reserved: Option<SeqNum>)

  /** A released encryption, by the identifier and sequence number its nonce is made of. */
  datatype Release = Release(id: bytes, sequence: SeqNum)

  /** The context that won registration, its peer, and the requests it answered without a Partial IV. */
  datatype Winner = Winner(index: nat, peer: bytes, answered: set<SeqNum>)

  /**
   * `born` counts contexts ever created, so indices are never reused; `log` lists releases; `writes` lists the
   * writes that advanced the record, with the context that made them; `winner` remembers the registration.
   */
  datatype State = State(
    record: Option<SenderState>, live: map<nat, Instance>, born: nat,
    log: seq<Release>, writes: seq<(nat, SeqNum)>, winner: Option<Winner>)

  datatype Action =
    | Create(peer: bytes, exported: bool)
    | DoRegister(i: nat, fault: Fault)
    | DoRestore(i: nat, fails: bool, responses: Option<Window>)
    | DoReserve(i: nat, fault: Fault)
    | Encrypt(i: nat)
    | Discard(i: nat)
    | AnswerNoPiv(i: nat, request: SeqNum)
    | AnswerStoreless(i: nat)
    | Crash(i: nat)

  const START := State(None, map[], 0, [], [], None)

  /** Numbers the record has given away. */
  function Used(r: Option<SenderState>): nat {
    if r.None? then 0 else if r.value.exhausted then MAX + 1 else r.value.nextSequence
  }

  predicate Free(s: State, i: nat) {
    i in s.live && s.live[i].reserved.None?
  }

  function Drop(s: State, i: nat): State {
    s.(live := s.live - {i})
  }

  function Put(s: State, i: nat, c: Instance): State {
    s.(live := s.live[i := c])
  }

  function RegisterStep(s: State, i: nat, fault: Fault): State
    requires i in s.live
  {
    var c := s.live[i];
    var (record, r) := Register(c.sender, s.record, fault);
    match r
    case Ok(sender) =>
      Put(s, i, c.(sender := sender)).(record := record, winner := Some(Winner(i, c.peer, {})))
    case Err(_) => Drop(s, i).(record := record)
  }

  function RestoreStep(s: State, i: nat, fails: bool, responses: Option<Window>): State
    requires i in s.live
  {
    var r := Restore(s.live[i].sender, s.record, fails, responses);
    if r.Ok? then Put(s, i, s.live[i].(sender := r.value)) else Drop(s, i)
  }

  function ReserveStep(s: State, i: nat, fault: Fault): State
    requires i in s.live
  {
    var c := s.live[i];
    var (record, r) := Reserve(c.sender, s.record, fault);
    var s' := s.(record := record, writes := if record == s.record then s.writes else s.writes + [(i, c.sender.next)]);
    if r.Ok? then Put(s', i, c.(sender := Advance(c.sender), reserved := Some(r.value))) else s'
  }

  function EncryptStep(s: State, id: bytes, i: nat): State
    requires i in s.live && s.live[i].reserved.Some?
  {
    var c := s.live[i];
    Put(s, i, c.(reserved := None)).(log := s.log + [Release(id, c.reserved.value)])
  }

  function AnswerStep(s: State, i: nat, request: SeqNum): State
    requires i in s.live
  {
    var c := s.live[i];
    match RespondNoPiv(c.sender, request)
    case None => s
    case Some(sender) =>
      Put(s, i, c.(sender := sender)).(
        log := s.log + [Release(c.peer, request)],
        winner := if s.winner.Some?
                  then Some(s.winner.value.(answered := s.winner.value.answered + {request})) else None)
  }

  function StorelessStep(s: State, id: bytes, i: nat): State
    requires i in s.live
  {
    var c := s.live[i];
    match RespondStoreless(c.sender)
    case None => s
    case Some((sender, n)) => Put(s, i, c.(sender := sender)).(log := s.log + [Release(id, n)])
  }

  /**
   * One action by one context whose own identifier is `id`; an action that is not possible changes nothing. A
   * reservation borrows its context until it is used or discarded.
   */
  function Next(s: State, id: bytes, a: Action): State {
    match a
    case Create(peer, exported) =>
      if |peer| > NONCE_ID_LEN || peer == id then s
      else Put(s, s.born, Instance(if exported then EXPORTED_SENDER else FRESH_SENDER, peer, None)).(born := s.born + 1)
    case DoRegister(i, fault) => if Free(s, i) then RegisterStep(s, i, fault) else s
    case DoRestore(i, fails, responses) => if Free(s, i) then RestoreStep(s, i, fails, responses) else s
    case DoReserve(i, fault) => if Free(s, i) then ReserveStep(s, i, fault) else s
    case Encrypt(i) => if i in s.live && s.live[i].reserved.Some? then EncryptStep(s, id, i) else s
    case Discard(i) => if i in s.live then Put(s, i, s.live[i].(reserved := None)) else s
    case AnswerNoPiv(i, request) => if Free(s, i) then AnswerStep(s, i, request) else s
    case AnswerStoreless(i) => if Free(s, i) then StorelessStep(s, id, i) else s
    case Crash(i) => Drop(s, i)
  }

  function Run(s: State, id: bytes, actions: seq<Action>): State {
    if actions == [] then s
    else Next(Run(s, id, actions[..|actions| - 1]), id, actions[|actions| - 1])
  }

  predicate Durably(actions: seq<Action>) {
    forall a :: a in actions ==> !a.AnswerStoreless?
  }

  // The invariant

  /** The record and the list of writes that made it: write `k` took number `k`. */
  ghost predicate RecordOk(s: State) {
    && (s.record.Some? ==> Adoptable(s.record.value))
    && |s.writes| == Used(s.record)
    && (forall k :: 0 <= k < |s.writes| ==> s.writes[k].1 == k)
    && (s.record.None? ==> s.log == [] && s.winner.None?)
  }

  /** A context is untouched, or active and not ahead of the record. */
  ghost predicate InstanceOk(s: State, id: bytes, i: nat)
    requires i in s.live
  {
    var c := s.live[i];
    && i < s.born && c.peer != id && |c.peer| <= NONCE_ID_LEN
    && (!c.sender.active ==> c.sender in {FRESH_SENDER, EXPORTED_SENDER} && c.reserved.None?)
    && (c.sender.active ==> c.sender.allowNoPiv == !c.sender.restored)
    && (c.sender.active ==> s.record.Some? && Adoptable(StateOf(c.sender))
                            && Used(Some(StateOf(c.sender))) <= Used(s.record))
    && (c.reserved.Some? ==>
          && c.reserved.value < |s.writes| == Used(s.record) && s.writes[c.reserved.value].0 == i
          && Release(id, c.reserved.value) !in s.log)
    && (c.sender.active && c.sender.allowNoPiv ==>
          && s.winner.Some? && s.winner.value.index == i && s.winner.value.peer == c.peer
          && Represents(c.sender.responses, s.winner.value.answered))
  }

  ghost predicate LiveOk(s: State, id: bytes) {
    && (forall i :: i in s.live ==> InstanceOk(s, id, i))
    && (forall i, j :: i in s.live && j in s.live && i != j && s.live[i].reserved.Some? ==>
                         s.live[i].reserved != s.live[j].reserved)
  }

  /** What may be in the log: own numbers below the record, and the winner's answers under its peer's name. */
  ghost predicate ReleaseOk(s: State, id: bytes, r: Release) {
    if r.id == id then r.sequence < Used(s.record)
    else s.winner.Some? && r.id == s.winner.value.peer && r.sequence in s.winner.value.answered
  }

  ghost predicate LogOk(s: State, id: bytes) {
    && (s.winner.Some? ==> s.winner.value.peer != id && |s.winner.value.peer| <= NONCE_ID_LEN)
    && (forall r :: r in s.log ==> ReleaseOk(s, id, r))
    && (forall a, b :: 0 <= a < b < |s.log| ==> s.log[a] != s.log[b])
  }

  ghost predicate Inv(s: State, id: bytes) {
    RecordOk(s) && LiveOk(s, id) && LogOk(s, id)
  }

  lemma RegisterKeepsInv(s: State, id: bytes, i: nat, fault: Fault)
    requires Inv(s, id) && Free(s, i)
    ensures Inv(RegisterStep(s, i, fault), id)
  {
    var s' := RegisterStep(s, i, fault);
    assert InstanceOk(s, id, i);
    forall j | j in s'.live ensures InstanceOk(s', id, j) {
      assert InstanceOk(s, id, j);
    }
  }

  lemma RestoreKeepsInv(s: State, id: bytes, i: nat, fails: bool, responses: Option<Window>)
    requires Inv(s, id) && Free(s, i)
    ensures Inv(RestoreStep(s, i, fails, responses), id)
  {
    var s' := RestoreStep(s, i, fails, responses);
    forall j | j in s'.live ensures InstanceOk(s', id, j) {
      assert InstanceOk(s, id, j);
    }
  }

  lemma SuccessorUsesOneMore(n: SeqNum)
    ensures Adoptable(Successor(n)) && Used(Some(Successor(n))) == n + 1
  {
  }

  /** A reservation leaves the record and the writes alone, or moves both on by the context's next number. */
  lemma ReserveMovesRecord(s: State, id: bytes, i: nat, fault: Fault)
    requires Inv(s, id) && Free(s, i)
    ensures var s', n := ReserveStep(s, i, fault), s.live[i].sender.next;
            && RecordOk(s') && s'.log == s.log && s'.winner == s.winner && s'.born == s.born
            && (s'.record == s.record ==> s'.writes == s.writes && s'.live == s.live)
            && (s'.record != s.record ==>
                  && s.record == Some(StateOf(s.live[i].sender)) && |s.writes| == n
                  && s'.writes == s.writes + [(i, n)] && Used(s'.record) == n + 1
                  && (s'.live == s.live
                      || s'.live == s.live[i := s.live[i].(sender := Advance(s.live[i].sender), reserved := Some(n))]))
  {
    assert InstanceOk(s, id, i);
    SuccessorUsesOneMore(s.live[i].sender.next);
    hide Inv, LiveOk, LogOk, InstanceOk;
  }

  lemma ReserveKeepsInv(s: State, id: bytes, i: nat, fault: Fault)
    requires Inv(s, id) && Free(s, i)
    ensures Inv(ReserveStep(s, i, fault), id)
  {
    ReserveMovesRecord(s, id, i, fault);
    var s' := ReserveStep(s, i, fault);
    assert InstanceOk(s, id, i);
    hide ReserveStep, RecordOk;
    if s'.record != s.record {
      forall j | j in s'.live ensures InstanceOk(s', id, j) {
        assert InstanceOk(s, id, j);
      }
      forall r | r in s'.log ensures ReleaseOk(s', id, r) {
        assert ReleaseOk(s, id, r);
      }
    } else {
      assert s' == s.(record := s'.record);
    }
  }

  lemma EncryptKeepsInv(s: State, id: bytes, i: nat)
    requires Inv(s, id) && i in s.live && s.live[i].reserved.Some?
    ensures Inv(EncryptStep(s, id, i), id)
  {
    var s' := EncryptStep(s, id, i);
    var r := Release(id, s.live[i].reserved.value);
    assert InstanceOk(s, id, i);
    forall j | j in s'.live ensures InstanceOk(s', id, j) {
      assert InstanceOk(s, id, j);
      assert j != i ==> s.live[j].reserved != s.live[i].reserved;
    }
    forall q | q in s'.log ensures ReleaseOk(s', id, q) {
      assert q == r || ReleaseOk(s, id, q);
    }
  }

  lemma AnswerKeepsInv(s: State, id: bytes, i: nat, request: SeqNum)
    requires Inv(s, id) && Free(s, i)
    ensures Inv(AnswerStep(s, i, request), id)
  {
    var s' := AnswerStep(s, i, request);
    var c := s.live[i];
    assert InstanceOk(s, id, i);
    if RespondNoPiv(c.sender, request).Some? {
      var answered := s.winner.value.answered;
      ReusedIsRejected(c.sender.responses, answered, request);
      MarkAddsOne(c.sender.responses, answered, request);
      assert Release(c.peer, request) in s.log ==> ReleaseOk(s, id, Release(c.peer, request));
      forall j | j in s'.live ensures InstanceOk(s', id, j) {
        assert InstanceOk(s, id, j);
      }
      forall q | q in s'.log ensures ReleaseOk(s', id, q) {
        assert q == Release(c.peer, request) || ReleaseOk(s, id, q);
      }
    }
  }

  lemma LifetimeKeepsInv(s: State, id: bytes, a: Action)
    requires Inv(s, id) && (a.Create? || a.Discard? || a.Crash?)
    ensures Inv(Next(s, id, a), id)
  {
    var s' := Next(s, id, a);
    forall j | j in s'.live ensures InstanceOk(s', id, j) {
      assert j in s.live ==> InstanceOk(s, id, j);
    }
    forall r | r in s'.log ensures ReleaseOk(s', id, r) {
      assert ReleaseOk(s, id, r);
    }
  }

  lemma NextKeepsInv(s: State, id: bytes, a: Action)
    requires Inv(s, id) && !a.AnswerStoreless?
    ensures Inv(Next(s, id, a), id)
  {
    hide Inv, RegisterStep, RestoreStep, ReserveStep, EncryptStep, AnswerStep;
    if a.Create? || a.Discard? || a.Crash? {
      LifetimeKeepsInv(s, id, a);
    } else if a.DoRegister? && Free(s, a.i) {
      RegisterKeepsInv(s, id, a.i, a.fault);
    } else if a.DoRestore? && Free(s, a.i) {
      RestoreKeepsInv(s, id, a.i, a.fails, a.responses);
    } else if a.DoReserve? && Free(s, a.i) {
      ReserveKeepsInv(s, id, a.i, a.fault);
    } else if a.Encrypt? && a.i in s.live && s.live[a.i].reserved.Some? {
      EncryptKeepsInv(s, id, a.i);
    } else if a.AnswerNoPiv? && Free(s, a.i) {
      AnswerKeepsInv(s, id, a.i, a.request);
    }
  }

  lemma {:induction false} RunKeepsInv(s: State, id: bytes, actions: seq<Action>)
    requires Inv(s, id) && Durably(actions)
    ensures Inv(Run(s, id, actions), id)
  {
    if actions != [] {
      var last := |actions| - 1;
      RunKeepsInv(s, id, actions[..last]);
      NextKeepsInv(Run(s, id, actions[..last]), id, actions[last]);
    }
  }

  // The theorems

  function NonceOfRelease(r: Release, iv: CommonIv): bytes
    requires |r.id| <= NONCE_ID_LEN
  {
    SeqNumber.DecodeInvertsEncode(r.sequence);
    NonceOf(r.id, PivBytes(r.sequence), iv)
  }

  /** Over every run, no two released encryptions under the sender key use the same nonce. */
  lemma NoncesNeverRepeat(id: bytes, iv: CommonIv, actions: seq<Action>, a: nat, b: nat)
    requires |id| <= NONCE_ID_LEN && Durably(actions)
    requires a < b < |Run(START, id, actions).log|
    ensures var log := Run(START, id, actions).log;
            && |log[a].id| <= NONCE_ID_LEN && |log[b].id| <= NONCE_ID_LEN
            && NonceOfRelease(log[a], iv) != NonceOfRelease(log[b], iv)
  {
    RunKeepsInv(START, id, actions);
    var s := Run(START, id, actions);
    assert ReleaseOk(s, id, s.log[a]) && ReleaseOk(s, id, s.log[b]);
    NonceInjective(s.log[a].id, s.log[b].id, s.log[a].sequence, s.log[b].sequence, iv);
  }

  /**
   * The record counts the writes that advanced it since registration, write `k` took number `k`, and so each
   * number belongs to exactly one write by one context; a context holds a reservation only for a write of its own.
   */
  lemma CounterIsConserved(id: bytes, actions: seq<Action>)
    requires Durably(actions)
    ensures var s := Run(START, id, actions);
            && |s.writes| == Used(s.record) <= MAX + 1
            && (forall k :: 0 <= k < |s.writes| ==> s.writes[k].1 == k)
            && (s.record.Some? ==> s.record.value.exhausted ==> s.record.value.nextSequence == MAX)
            && (forall i :: i in s.live && s.live[i].reserved.Some? ==>
                  s.live[i].reserved.value < |s.writes| && s.writes[s.live[i].reserved.value].0 == i)
  {
    RunKeepsInv(START, id, actions);
    var s := Run(START, id, actions);
    forall i | i in s.live && s.live[i].reserved.Some?
      ensures s.live[i].reserved.value < |s.writes| && s.writes[s.live[i].reserved.value].0 == i
    {
      assert InstanceOk(s, id, i);
    }
  }

  /** One action leaves the record alone or moves it strictly up; an exhausted record never moves. */
  lemma RecordOnlyRises(s: State, id: bytes, a: Action)
    requires Inv(s, id) && !a.AnswerStoreless?
    ensures var s' := Next(s, id, a);
            && s.writes <= s'.writes
            && (s.record.Some? && s'.record != s.record ==> s'.record.Some? && Used(s'.record) == Used(s.record) + 1)
            && (s.record.Some? && s.record.value.exhausted ==> s'.record == s.record)
  {
    if a.DoReserve? && Free(s, a.i) {
      assert InstanceOk(s, id, a.i);
      SuccessorUsesOneMore(s.live[a.i].sender.next);
    }
    if a.DoRegister? && Free(s, a.i) {
      assert InstanceOk(s, id, a.i);
    }
  }

  /** A record value seen twice was there all along, so the compare-and-swap has no ABA problem. */
  lemma {:induction false} RecordHasNoAba(s: State, id: bytes, actions: seq<Action>)
    requires Inv(s, id) && Durably(actions) && s.record.Some?
    ensures var s' := Run(s, id, actions);
            s'.record.Some? && Used(s.record) <= Used(s'.record) && s.writes <= s'.writes
            && (Used(s.record) == Used(s'.record) ==> s.record == s'.record && s.writes == s'.writes)
  {
    RunKeepsInv(s, id, actions);
    if actions != [] {
      var last := |actions| - 1;
      RecordHasNoAba(s, id, actions[..last]);
      RunKeepsInv(s, id, actions[..last]);
      RecordOnlyRises(Run(s, id, actions[..last]), id, actions[last]);
    }
  }

  // Why the store-less response is excluded

  /**
   * From any state a durable run can reach, if a context in step with the record answers store-lessly, then a
   * second context that restores, reserves and encrypts repeats that very release.
   */
  lemma StorelessAnswerCanRepeat(s: State, id: bytes, i: nat, peer: bytes)
    requires Inv(s, id) && Free(s, i) && s.live[i].sender.active
    requires s.record == Some(StateOf(s.live[i].sender)) && s.live[i].sender.next < MAX
    requires |peer| <= NONCE_ID_LEN && peer != id
    ensures var j, n := s.born, |s.log|;
            var s1 := Next(s, id, AnswerStoreless(i));
            var s2 := Next(s1, id, Create(peer, false));
            var s3 := Next(s2, id, DoRestore(j, false, None));
            var s4 := Next(s3, id, DoReserve(j, NoFault));
            var s5 := Next(s4, id, Encrypt(j));
            |s5.log| == n + 2 && s5.log[n] == s5.log[n + 1] == Release(id, s.live[i].sender.next)
  {
    assert InstanceOk(s, id, i);
    var j, next := s.born, s.live[i].sender.next;
    var s1 := Next(s, id, AnswerStoreless(i));
    var s2 := Next(s1, id, Create(peer, false));
    assert s1.log == s.log + [Release(id, next)] && s2.live[j].sender == FRESH_SENDER;
    var s3 := Next(s2, id, DoRestore(j, false, None));
    assert s3.live[j].sender.next == next && s3.record == Some(StateOf(s3.live[j].sender));
    var s4 := Next(s3, id, DoReserve(j, NoFault));
    assert s4.live[j].reserved == Some(next);
  }

  /** The next number of context `i` was reserved by someone, never released, and can no longer be. */
  ghost predicate Lost(s: State, id: bytes, n: SeqNum) {
    && n < Used(s.record) && Release(id, n) !in s.log
    && (forall j :: j in s.live ==> s.live[j].reserved != Some(n))
  }

  ghost predicate Distinct(log: seq<Release>) {
    forall a, b :: 0 <= a < b < |log| ==> log[a] != log[b]
  }

  /** Whatever durable actions follow, no release is repeated. */
  ghost predicate SafeFrom(s: State, id: bytes) {
    forall actions :: Durably(actions) ==> Distinct(Run(s, id, actions).log)
  }

  lemma LostNumberKeepsInv(s: State, id: bytes, i: nat)
    requires Inv(s, id) && Free(s, i) && Lost(s, id, s.live[i].sender.next)
    ensures Inv(StorelessStep(s, id, i), id)
  {
    var s' := StorelessStep(s, id, i);
    assert InstanceOk(s, id, i);
    forall j | j in s'.live ensures InstanceOk(s', id, j) {
      assert InstanceOk(s, id, j);
    }
    forall q | q in s'.log ensures ReleaseOk(s', id, q) {
      assert q == Release(id, s.live[i].sender.next) || ReleaseOk(s, id, q);
    }
  }

  lemma RunSnoc(s: State, id: bytes, actions: seq<Action>, a: Action)
    ensures Run(s, id, actions + [a]) == Next(Run(s, id, actions), id, a)
  {
    assert (actions + [a])[..|actions|] == actions;
  }

  lemma InStepNumberRepeats(s: State, id: bytes, i: nat) returns (actions: seq<Action>)
    requires Inv(s, id) && Free(s, i) && s.live[i].sender.active
    requires s.record == Some(StateOf(s.live[i].sender)) && s.live[i].sender.next < MAX
    ensures Durably(actions) && !Distinct(Run(StorelessStep(s, id, i), id, actions).log)
  {
    var s1 := StorelessStep(s, id, i);
    assert s1 == Next(s, id, AnswerStoreless(i));
    var j, peer: bytes := s.born, if id == [] then [0] else [];
    StorelessAnswerCanRepeat(s, id, i, peer);
    hide Next, StorelessStep;
    var a, b, c, d := Create(peer, false), DoRestore(j, false, None), DoReserve(j, NoFault), Encrypt(j);
    actions := [] + [a] + [b] + [c] + [d];
    assert Run(s1, id, []) == s1;
    RunSnoc(s1, id, [], a);
    RunSnoc(s1, id, [] + [a], b);
    RunSnoc(s1, id, [] + [a] + [b], c);
    RunSnoc(s1, id, [] + [a] + [b] + [c], d);
    var log := Run(s1, id, actions).log;
    assert log[|s.log|] == log[|s.log| + 1];
  }

  /** A durable list of actions after which the store-less release of a number that is not lost has a twin. */
  lemma UnlostNumberRepeats(s: State, id: bytes, i: nat) returns (actions: seq<Action>)
    requires Inv(s, id) && Free(s, i) && s.live[i].sender.active && s.live[i].sender.next < MAX
    requires !Lost(s, id, s.live[i].sender.next)
    ensures Durably(actions) && !Distinct(Run(StorelessStep(s, id, i), id, actions).log)
  {
    assert InstanceOk(s, id, i);
    var n := s.live[i].sender.next;
    var s1 := StorelessStep(s, id, i);
    assert s1.log == s.log + [Release(id, n)];
    if Release(id, n) in s.log {
      var a :| 0 <= a < |s.log| && s.log[a] == Release(id, n);
      assert s1.log[a] == s1.log[|s.log|];
      actions := [];
    } else if j :| j in s.live && s.live[j].reserved == Some(n) {
      actions := [Encrypt(j)];
      RunSnoc(s1, id, [], Encrypt(j));
      assert [] + [Encrypt(j)] == actions;
      var log := EncryptStep(s1, id, j).log;
      assert log[|s.log|] == log[|s.log| + 1];
    } else {
      actions := InStepNumberRepeats(s, id, i);
    }
  }

  /**
   * A store-less response is safe exactly when the number it takes is lost: already reserved, never released,
   * and held by no live context.
   */
  lemma StorelessIsSafeIffLost(s: State, id: bytes, i: nat)
    requires Inv(s, id) && Free(s, i) && s.live[i].sender.active && s.live[i].sender.next < MAX
    ensures SafeFrom(StorelessStep(s, id, i), id) <==> Lost(s, id, s.live[i].sender.next)
  {
    if Lost(s, id, s.live[i].sender.next) {
      LostNumberKeepsInv(s, id, i);
      forall actions | Durably(actions) ensures Distinct(Run(StorelessStep(s, id, i), id, actions).log) {
        RunKeepsInv(StorelessStep(s, id, i), id, actions);
      }
    } else {
      var actions := UnlostNumberRepeats(s, id, i);
    }
  }

  // What a caller can see

  /** The record after the numbers below `n` are taken. */
  function RecordAt(n: nat): SenderState
    requires n <= MAX + 1
  {
    if n <= MAX then SenderState(n, false) else SenderState(MAX, true)
  }

  lemma RecordIsRecordAt(r: SenderState)
    requires Adoptable(r)
    ensures r == RecordAt(Used(Some(r)))
  {
  }

  function SenderAt(s: Sender, n: nat): Sender
    requires n <= MAX + 1
  {
    s.(next := RecordAt(n).nextSequence, exhausted := RecordAt(n).exhausted)
  }

  /** A context in step with the record, about to take number `n`. */
  predicate InStep(s: State, i: nat, n: nat)
    requires n <= MAX + 1
  {
    && Free(s, i) && s.live[i].sender.active && s.record == Some(RecordAt(n))
    && StateOf(s.live[i].sender) == RecordAt(n)
  }

  /** From `s` to `t` context `i` took and released the numbers from `n` up to `m`, and nothing else happened. */
  ghost predicate Took(s: State, t: State, id: bytes, i: nat, n: nat, m: nat)
    requires n <= m <= MAX + 1 && i in s.live
  {
    && InStep(t, i, m) && t.born == s.born
    && (forall k :: n <= k < m ==> Release(id, k) in t.log) && (forall r :: r in s.log ==> r in t.log)
    && t.live == s.live[i := s.live[i].(sender := SenderAt(s.live[i].sender, m))]
  }

  lemma ReserveAndEncrypt(s: State, id: bytes, i: nat, n: nat)
    requires n <= MAX && InStep(s, i, n)
    ensures Took(s, Run(s, id, [DoReserve(i, NoFault), Encrypt(i)]), id, i, n, n + 1)
  {
    var a, b := DoReserve(i, NoFault), Encrypt(i);
    RunSnoc(s, id, [], a);
    RunSnoc(s, id, [a], b);
    assert [] + [a] == [a] && [a] + [b] == [a, b];
    var t := Next(Next(s, id, a), id, b);
    assert t.log == s.log + [Release(id, n)];
  }

  lemma TookMore(s: State, t: State, u: State, id: bytes, i: nat, n: nat, k: nat, m: nat)
    requires n <= k <= m <= MAX + 1 && i in s.live
    requires Took(s, t, id, i, n, k) && Took(t, u, id, i, k, m)
    ensures Took(s, u, id, i, n, m)
  {
  }

  lemma {:induction false} RunAppend(s: State, id: bytes, a: seq<Action>, b: seq<Action>)
    ensures Run(s, id, a + b) == Run(Run(s, id, a), id, b)
    decreases |b|
  {
    if b == [] {
      assert a + b == a;
    } else {
      var last := |b| - 1;
      assert (a + b)[..|a + b| - 1] == a + b[..last];
      RunAppend(s, id, a, b[..last]);
    }
  }

  lemma TookIsInStep(s: State, t: State, id: bytes, i: nat, n: nat, m: nat)
    requires n <= m <= MAX + 1 && i in s.live && Took(s, t, id, i, n, m)
    ensures InStep(t, i, m)
  {
  }

  /** A context in step with the record can take and release every number up to `m`. */
  lemma {:induction false} TakeUpTo(s: State, id: bytes, i: nat, n: nat, m: nat) returns (actions: seq<Action>)
    requires n <= m <= MAX + 1 && InStep(s, i, n)
    ensures Durably(actions) && Took(s, Run(s, id, actions), id, i, n, m)
    decreases m - n
  {
    actions := [];
    if n != m {
      hide Run, Took;
      var first := [DoReserve(i, NoFault), Encrypt(i)];
      var u := Run(s, id, first);
      ReserveAndEncrypt(s, id, i, n);
      assert InStep(u, i, n + 1) by { TookIsInStep(s, u, id, i, n, n + 1); }
      var rest := TakeUpTo(u, id, i, n + 1, m);
      actions := first + rest;
      RunAppend(s, id, first, rest);
      TookMore(s, u, Run(s, id, actions), id, i, n, n + 1, m);
    }
  }

  /** The start of every run: a context is made and registers. */
  lemma FirstRegisters(id: bytes, peer: bytes) returns (actions: seq<Action>)
    requires |peer| <= NONCE_ID_LEN && peer != id
    ensures Durably(actions)
    ensures var t := Run(START, id, actions);
            && InStep(t, 0, 0) && t.born == 1 && t.log == []
            && t.live == map[0 := Instance(FRESH_SENDER.(active := true, allowNoPiv := true), peer, None)]
  {
    var a, b := Create(peer, false), DoRegister(0, NoFault);
    actions := [] + [a] + [b];
    assert Next(START, id, a) == State(None, map[0 := Instance(FRESH_SENDER, peer, None)], 1, [], [], None);
    RunSnoc(START, id, [], a);
    RunSnoc(START, id, [] + [a], b);
  }

  /** Another context is made and restores the record, with any window of answered requests. */
  lemma AnotherRestores(s: State, id: bytes, peer: bytes, responses: Window, n: nat) returns (actions: seq<Action>)
    requires |peer| <= NONCE_ID_LEN && peer != id && n <= MAX + 1
    requires s.record == Some(RecordAt(n)) && s.born !in s.live
    ensures Durably(actions)
    ensures var t := Run(s, id, actions);
            && InStep(t, s.born, n) && t.log == s.log && t.born == s.born + 1
            && t.live == s.live[s.born := Instance(Sender(RecordAt(n).nextSequence, RecordAt(n).exhausted,
                                                          true, true, false, responses), peer, None)]
  {
    var a, b := Create(peer, false), DoRestore(s.born, false, Some(responses));
    actions := [] + [a] + [b];
    RunSnoc(s, id, [], a);
    RunSnoc(s, id, [] + [a], b);
  }

  /** Same record, and the same context apart from its window of answered requests if it registered. */
  predicate SameView(s: State, i: nat, t: State, j: nat) {
    && Free(s, i) && Free(t, j) && s.record == t.record
    && if s.live[i].sender.restored then t.live[j].sender == s.live[i].sender
       else t.live[j].sender == s.live[i].sender.(responses := t.live[j].sender.responses)
  }

  lemma DurablyAppend(a: seq<Action>, b: seq<Action>)
    requires Durably(a) && Durably(b)
    ensures Durably(a + b)
  {
  }

  /** A run with the view of a restored context that is at `k` while the record is at `m`; number `k` is released. */
  lemma RestoredView(id: bytes, peer: bytes, k: nat, m: nat, responses: Window) returns (actions: seq<Action>)
    requires |peer| <= NONCE_ID_LEN && peer != id && k < m <= MAX + 1
    ensures Durably(actions)
    ensures var t := Run(START, id, actions);
            && Free(t, 1) && t.record == Some(RecordAt(m)) && Release(id, k) in t.log
            && t.live[1].sender == Sender(k, false, true, true, false, responses)
  {
    hide Next, Run, Durably, ReserveStep, RestoreStep;
    var a := FirstRegisters(id, peer);
    var s1 := Run(START, id, a);
    var b := TakeUpTo(s1, id, 0, 0, k);
    var s2 := Run(s1, id, b);
    var c := AnotherRestores(s2, id, peer, responses, k);
    var s3 := Run(s2, id, c);
    var d := TakeUpTo(s3, id, 0, k, m);
    actions := a + b + c + d;
    DurablyAppend(a, b);
    DurablyAppend(a + b, c);
    DurablyAppend(a + b + c, d);
    RunAppend(START, id, a, b);
    RunAppend(START, id, a + b, c);
    RunAppend(START, id, a + b + c, d);
  }

  /** A run with the view of the context that registered. */
  lemma RegisteredView(id: bytes, peer: bytes, k: nat, m: nat) returns (actions: seq<Action>)
    requires |peer| <= NONCE_ID_LEN && peer != id && k < m <= MAX + 1
    ensures Durably(actions)
    ensures var t := Run(START, id, actions);
            && Free(t, 0) && t.record == Some(RecordAt(m)) && Release(id, k) in t.log
            && t.live[0].sender == Sender(k, false, false, true, true, FRESH_WINDOW)
  {
    hide Next, Run, Durably, ReserveStep, RestoreStep;
    var a := FirstRegisters(id, peer);
    var s1 := Run(START, id, a);
    var b := TakeUpTo(s1, id, 0, 0, k);
    var s2 := Run(s1, id, b);
    var c := AnotherRestores(s2, id, peer, FRESH_WINDOW, k);
    var s3 := Run(s2, id, c);
    var d := TakeUpTo(s3, id, 1, k, m);
    actions := a + b + c + d;
    DurablyAppend(a, b);
    DurablyAppend(a + b, c);
    DurablyAppend(a + b + c, d);
    RunAppend(START, id, a, b);
    RunAppend(START, id, a + b, c);
    RunAppend(START, id, a + b + c, d);
  }

  lemma ReleasedNumberRepeats(t: State, id: bytes, j: nat)
    requires Free(t, j) && t.live[j].sender.active && t.live[j].sender.next < MAX
    requires Release(id, t.live[j].sender.next) in t.log
    ensures !SafeFrom(StorelessStep(t, id, j), id)
  {
    var r := Release(id, t.live[j].sender.next);
    var log := StorelessStep(t, id, j).log;
    assert log == t.log + [r];
    var a :| 0 <= a < |t.log| && t.log[a] == r;
    assert log[a] == log[|t.log|];
    assert Run(StorelessStep(t, id, j), id, []).log == log;
  }

  /**
   * Nothing a caller can see makes a store-less response safe. In step with the record it never is; behind the
   * record, some durable run shows a context the same record and the same fields of its own and repeats a release.
   */
  lemma NoViewIsSafe(s: State, id: bytes, i: nat) returns (actions: seq<Action>, j: nat)
    requires Inv(s, id) && Free(s, i) && s.live[i].sender.active && s.live[i].sender.next < MAX
    ensures s.record == Some(StateOf(s.live[i].sender)) ==> !SafeFrom(StorelessStep(s, id, i), id)
    ensures s.record != Some(StateOf(s.live[i].sender)) ==>
              && Durably(actions) && SameView(s, i, Run(START, id, actions), j)
              && !SafeFrom(StorelessStep(Run(START, id, actions), id, j), id)
  {
    hide Next, Run, Durably, SafeFrom, StorelessStep;
    assert InstanceOk(s, id, i);
    var c := s.live[i].sender;
    if s.record == Some(StateOf(c)) {
      assert !Lost(s, id, c.next);
      StorelessIsSafeIffLost(s, id, i);
      actions, j := [], i;
    } else {
      var k, m := c.next, Used(s.record);
      RecordIsRecordAt(s.record.value);
      RecordIsRecordAt(StateOf(c));
      var peer := s.live[i].peer;
      if c.restored {
        actions := RestoredView(id, peer, k, m, c.responses);
        j := 1;
      } else {
        actions := RegisteredView(id, peer, k, m);
        j := 0;
      }
      ReleasedNumberRepeats(Run(START, id, actions), id, j);
    }
  }
}
