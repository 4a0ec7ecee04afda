/**
 * One replay window across restarts: a context accepts arrivals, is saved, crashes and is restored from the last
 * snapshot. What a saved snapshot covers is never accepted again.
 */
module ReplayRuns {
  import opened Bytes
  import opened SeqNumber
  import opened Window

  /**
   * `live` is the running context's window and `saved` the stored one; `log` lists every acceptance ever made;
   * `lost` collects what was accepted but not saved when a crash came.
   */
  datatype State = State(
    live: Option<Window>, saved: Option<Window>, log: seq<SeqNum>,
    accepted: set<SeqNum>, covered: set<SeqNum>, lost: set<SeqNum>)

  datatype Action = Boot | Receive(s: SeqNum) | Save | Crash

  const START := State(None, None, [], {}, {}, {})

  /** One action; `blank` is the window of a newly made context, used when nothing was saved. */
  function Next(st: State, blank: Window, a: Action): State {
    match a
    case Boot =>
      if st.live.Some? then st
      else st.(live := Some(if st.saved.Some? then st.saved.value else blank), accepted := st.covered)
    case Receive(s) =>
      if st.live.None? || Reused(st.live.value, s) then st
      else st.(live := Some(Mark(st.live.value, s)), log := st.log + [s], accepted := st.accepted + {s})
    case Save =>
      if st.live.None? then st else st.(saved := st.live, covered := st.accepted)
    case Crash =>
      if st.live.None? then st else st.(live := None, lost := st.lost + (st.accepted - st.covered))
  }

  function Run(st: State, blank: Window, actions: seq<Action>): State {
    if actions == [] then st
    else Next(Run(st, blank, actions[..|actions| - 1]), blank, actions[|actions| - 1])
  }

  ghost predicate Inv(st: State) {
    && (st.saved.Some? ==> Represents(st.saved.value, st.covered))
    && (st.saved.None? ==> st.covered == {})
    && (st.live.Some? ==> Represents(st.live.value, st.accepted) && st.covered <= st.accepted)
    && (forall s :: s in st.covered ==> s in st.log)
    && (st.live.Some? ==> forall s :: s in st.accepted ==> s in st.log)
    && (forall s :: s in st.log ==> s in st.covered || s in st.lost || (st.live.Some? && s in st.accepted))
    && (forall i, j :: 0 <= i < j < |st.log| && st.log[i] == st.log[j] ==> st.log[i] in st.lost)
  }

  lemma NextKeepsInv(st: State, blank: Window, a: Action)
    requires Represents(blank, {}) && Inv(st)
    ensures Inv(Next(st, blank, a))
    ensures st.covered <= Next(st, blank, a).covered
    ensures st.log <= Next(st, blank, a).log
  {
    if a.Receive? && st.live.Some? && !Reused(st.live.value, a.s) {
      ReusedIsRejected(st.live.value, st.accepted, a.s);
      MarkAddsOne(st.live.value, st.accepted, a.s);
    }
  }

  lemma {:induction false} RunKeepsInv(st: State, blank: Window, actions: seq<Action>)
    requires Represents(blank, {}) && Inv(st)
    ensures var st' := Run(st, blank, actions);
            Inv(st') && st.covered <= st'.covered && st.log <= st'.log
  {
    if actions != [] {
      RunKeepsInv(st, blank, actions[..|actions| - 1]);
      NextKeepsInv(Run(st, blank, actions[..|actions| - 1]), blank, actions[|actions| - 1]);
    }
  }

  /** After a snapshot, nothing it covers is accepted again, whatever crashes and restores follow. */
  lemma {:induction false} CoveredNeverAcceptedAgain(st: State, blank: Window, actions: seq<Action>, k: nat)
    requires Represents(blank, {}) && Inv(st)
    requires |st.log| <= k < |Run(st, blank, actions).log|
    ensures Run(st, blank, actions).log[k] !in st.covered
  {
    if actions != [] {
      var prefix, a := actions[..|actions| - 1], actions[|actions| - 1];
      var before := Run(st, blank, prefix);
      RunKeepsInv(st, blank, prefix);
      if k < |before.log| {
        CoveredNeverAcceptedAgain(st, blank, prefix, k);
      } else {
        ReusedIsRejected(before.live.value, before.accepted, a.s);
      }
    }
  }

  /** Over every run, a number accepted twice was lost: accepted, and not yet saved when a crash came. */
  lemma TwiceOnlyIfLost(blank: Window, actions: seq<Action>, i: nat, j: nat)
    requires Represents(blank, {})
    requires i < j < |Run(START, blank, actions).log|
    requires Run(START, blank, actions).log[i] == Run(START, blank, actions).log[j]
    ensures Run(START, blank, actions).log[i] in Run(START, blank, actions).lost
  {
    RunKeepsInv(START, blank, actions);
  }

  predicate SavedBetween(actions: seq<Action>, i: nat, j: nat)
    requires j <= |actions|
  {
    exists k :: i < k < j && actions[k].Save?
  }

  /** Between an arrival and a later crash there is a save. */
  predicate SavedBeforeCrash(actions: seq<Action>) {
    forall i, j :: 0 <= i < j < |actions| && actions[i].Receive? && actions[j].Crash? ==> SavedBetween(actions, i, j)
  }

  /** Some arrival among the first `n` actions has not been followed by a save yet. */
  predicate Unsaved(actions: seq<Action>, n: nat)
    requires n <= |actions|
  {
    exists i :: 0 <= i < n && actions[i].Receive? && !SavedBetween(actions, i, n)
  }

  lemma UnsavedStays(actions: seq<Action>, n: nat)
    requires n < |actions|
    ensures actions[n].Receive? ==> Unsaved(actions, n + 1)
    ensures Unsaved(actions, n) && !actions[n].Save? ==> Unsaved(actions, n + 1)
  {
    if actions[n].Receive? {
      assert !SavedBetween(actions, n, n + 1);
    } else if Unsaved(actions, n) && !actions[n].Save? {
      var i :| 0 <= i < n && actions[i].Receive? && !SavedBetween(actions, i, n);
      assert !SavedBetween(actions, i, n + 1);
    }
  }

  lemma {:induction false} SavingLosesNothing(blank: Window, actions: seq<Action>, n: nat)
    requires Represents(blank, {}) && SavedBeforeCrash(actions) && n <= |actions|
    ensures var st := Run(START, blank, actions[..n]);
            && st.lost == {}
            && (st.live.None? || st.accepted == st.covered || Unsaved(actions, n))
    decreases n
  {
    hide Represents;
    if n > 0 {
      SavingLosesNothing(blank, actions, n - 1);
      assert actions[..n][..n - 1] == actions[..n - 1];
      UnsavedStays(actions, n - 1);
      assert actions[n - 1].Crash? ==> !Unsaved(actions, n - 1);
    }
  }

  /** If there is a save between each arrival and the next crash, no number is ever accepted twice. */
  lemma AtMostOnceAcrossRestarts(blank: Window, actions: seq<Action>, i: nat, j: nat)
    requires Represents(blank, {}) && SavedBeforeCrash(actions)
    requires i < j < |Run(START, blank, actions).log|
    ensures Run(START, blank, actions).log[i] != Run(START, blank, actions).log[j]
  {
    SavingLosesNothing(blank, actions, |actions|);
    assert actions[..|actions|] == actions;
    if Run(START, blank, actions).log[i] == Run(START, blank, actions).log[j] {
      TwiceOnlyIfLost(blank, actions, i, j);
    }
  }

  /** What a restored context accepts depends on the snapshot alone, so what a crash loses can be replayed. */
  lemma RestoredAcceptsUncovered(st: State, blank: Window, s: SeqNum)
    requires Represents(blank, {}) && Inv(st) && st.live.None?
    ensures var booted := Next(st, blank, Boot);
            Next(booted, blank, Receive(s)).log == (if Rejects(st.covered, s) then st.log else st.log + [s])
  {
    var w := Next(st, blank, Boot).live.value;
    ReusedIsRejected(w, st.covered, s);
  }
}
