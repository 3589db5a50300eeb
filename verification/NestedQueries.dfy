/** When the per-question lock of the DNS client deadlocks.  A waiter does not look at its context, so a call waits
    without end for the thread due on its channel, and a call that asks upstream for every nested call it has started. */
module NestedQueries {
  import opened Common
  import opened SingleFlight

  ghost predicate Unfinished(s: State, t: nat) {
    t < |s.threads| && !s.threads[t].Returned?
  }

  ghost predicate AllReturned(s: State) {
    forall t :: !Unfinished(s, t)
  }

  ghost predicate CanStep(s: State, t: nat) {
    exists s' :: ThreadStep(s, s', t)
  }

  /** The wait-for relation of the unfinished calls. */
  ghost predicate Waits(s: State, t: nat, u: nat) {
    && Unfinished(s, t) && Unfinished(s, u)
    && (|| (s.threads[t].Waiting? && s.threads[t].c !in s.closeCalls && DueFor(s, u, s.threads[t].c))
        || (Asking(s.threads[t]) && u in s.parent && s.parent[u] == t))
  }

  // ----- Blocked means waiting -----

  lemma NotWaitingCanStep(s: State, t: nat)
    requires Inv(s) && Unfinished(s, t) && forall u :: !Waits(s, t, u)
    ensures CanStep(s, t)
  {
    match s.threads[t]
    case Called(q) =>
      assert ThreadStep(s, s.(threads := s.threads[t := Unlocked(q)]), t);
    case Waiting(q, c) =>
      assert c in s.closeCalls by { DueThreadExists(s, t); }
      assert ThreadStep(s, s.(threads := s.threads[t := Following(q, c)]), t);
    case Owning(q, c) =>
      NothingNested(s, t);
      assert ThreadStep(s, s.(locks := s.locks - {q}, threads := s.threads[t := Deleted(q, c)]), t);
    case Deleted(q, c) =>
      assert ThreadStep(s, s.(closeCalls := s.closeCalls + [c], threads := s.threads[t := Returned]), t);
    case Following(_, _) =>
      NothingNested(s, t);
      assert ThreadStep(s, s.(threads := s.threads[t := Returned]), t);
    case Unlocked(_) =>
      NothingNested(s, t);
      assert ThreadStep(s, s.(threads := s.threads[t := Returned]), t);
  }

  lemma DueThreadExists(s: State, t: nat)
    requires Inv(s) && Unfinished(s, t) && s.threads[t].Waiting?
    ensures s.threads[t].c in s.closeCalls || exists u :: Waits(s, t, u)
  {
    var c := s.threads[t].c;
    var due :| InvFor(s, due);
    if c !in s.closeCalls {
      assert c in due && DueFor(s, due[c], c);
      assert Waits(s, t, due[c]);
    }
  }

  lemma NothingNested(s: State, t: nat)
    requires Unfinished(s, t) && Asking(s.threads[t]) && forall u :: !Waits(s, t, u)
    ensures NestedDone(s, t)
  {
    forall u | 0 <= u < |s.threads| && u in s.parent && s.parent[u] == t ensures s.threads[u].Returned? {
      assert !Waits(s, t, u);
    }
  }

  lemma WaitingCannotStep(s: State, t: nat, u: nat)
    requires Waits(s, t, u)
    ensures !CanStep(s, t)
  {
    forall s' ensures !ThreadStep(s, s', t) {
    }
  }

  // ----- Cycles -----

  ghost predicate WaitPath(s: State, path: seq<nat>) {
    && |path| > 0 && Unfinished(s, path[0])
    && forall i :: 0 <= i < |path| - 1 ==> Waits(s, path[i], path[i + 1])
  }

  /** A path of waits that comes back to a call it has passed. */
  ghost predicate Lasso(s: State, path: seq<nat>) {
    WaitPath(s, path) && path[|path| - 1] in path[..|path| - 1]
  }

  ghost predicate LeadsIntoCycle(s: State, t: nat) {
    exists path :: Lasso(s, path) && path[0] == t
  }

  lemma OnLassoWaits(s: State, path: seq<nat>, i: nat) returns (u: nat)
    requires Lasso(s, path) && i < |path|
    ensures u in path && Waits(s, path[i], u)
  {
    if i < |path| - 1 {
      u := path[i + 1];
    } else {
      var j :| 0 <= j < |path| - 1 && path[j] == path[i];
      u := path[j + 1];
    }
  }

  /** Follow waits from t until someone can step, or for n turns. */
  lemma {:induction false} Follow(s: State, t: nat, n: nat) returns (path: seq<nat>)
    requires Inv(s) && Unfinished(s, t)
    ensures WaitPath(s, path) && path[0] == t
    ensures CanStep(s, path[|path| - 1]) || |path| == n + 1
  {
    hide Inv, CanStep;
    if n == 0 {
      path := [t];
    } else {
      path := Follow(s, t, n - 1);
      var last := path[|path| - 1];
      if !CanStep(s, last) {
        assert Unfinished(s, last) by {
          assert |path| > 1 ==> Waits(s, path[|path| - 2], path[|path| - 2 + 1]);
        }
        if forall u :: !Waits(s, last, u) {
          NotWaitingCanStep(s, last);
        }
        var u :| Waits(s, last, u);
        path := path + [u];
      }
    }
  }

  /** More places than values: some value comes twice. */
  lemma {:induction false} Pigeonhole(path: seq<nat>, n: nat) returns (i: nat, j: nat)
    requires |path| > n && forall k :: 0 <= k < |path| ==> path[k] < n
    ensures i < j < |path| && path[i] == path[j]
    decreases n
  {
    var last := |path| - 1;
    if k :| 0 <= k < last && path[k] == path[last] {
      i, j := k, last;
    } else {
      // Rename the value n - 1 to the last one, which does not come again.
      var renamed := seq(last, k requires 0 <= k < last => if path[k] == n - 1 then path[last] else path[k]);
      i, j := Pigeonhole(renamed, n - 1);
    }
  }

  lemma LongPathGivesCycle(s: State, path: seq<nat>)
    requires WaitPath(s, path) && |path| > |s.threads|
    ensures LeadsIntoCycle(s, path[0])
  {
    forall k | 0 <= k < |path| ensures path[k] < |s.threads| {
      assert k > 0 ==> Waits(s, path[k - 1], path[k - 1 + 1]);
    }
    var i, j := Pigeonhole(path, |s.threads|);
    var lasso := path[..j + 1];
    assert lasso[i] in lasso[..|lasso| - 1];
    assert Lasso(s, lasso);
  }

  /** From a call that does not lead into a cycle, waits lead to one that can step. */
  lemma ReachesStepper(s: State, t: nat) returns (path: seq<nat>)
    requires Inv(s) && Unfinished(s, t) && !LeadsIntoCycle(s, t)
    ensures WaitPath(s, path) && path[0] == t && CanStep(s, path[|path| - 1])
  {
    hide Inv, CanStep, LeadsIntoCycle;
    path := Follow(s, t, |s.threads|);
    if !CanStep(s, path[|path| - 1]) {
      LongPathGivesCycle(s, path);
    }
  }

  /** In every reachable state some call can step exactly when some unfinished call does not lead into a cycle of
      waits; the calls that hang are those that wait, directly or not, for one that waits for itself. */
  lemma SomeCallCanStepIff(run: seq<State>, i: nat)
    requires IsRun(run) && i < |run|
    ensures (exists t :: CanStep(run[i], t)) <==> (exists t :: Unfinished(run[i], t) && !LeadsIntoCycle(run[i], t))
  {
    var s := run[i];
    RunKeepsInv(run, i);
    if t :| CanStep(s, t) {
      var s' :| ThreadStep(s, s', t);
      assert Unfinished(s, t);
      forall path | Lasso(s, path) ensures path[0] != t {
        var u := OnLassoWaits(s, path, 0);
        WaitingCannotStep(s, path[0], u);
      }
    }
    if t :| Unfinished(s, t) && !LeadsIntoCycle(s, t) {
      var path := ReachesStepper(s, t);
    }
  }

  // ----- A cycle is for ever -----

  lemma NewCallKeepsWait(s: State, s': State, q: Question, a: nat, b: nat)
    requires Waits(s, a, b)
    requires s' == s.(threads := s.threads + [Called(q)], parent := s'.parent)
    requires forall u :: u in s.parent && u < |s.threads| ==> u in s'.parent && s'.parent[u] == s.parent[u]
    ensures Waits(s', a, b) && s'.threads[a] == s.threads[a]
  {
  }

  /** A wait for a call that itself waits outlasts any step. */
  lemma WaitPersists(s: State, s': State, a: nat, b: nat, c: nat)
    requires Inv(s) && Step(s, s') && Waits(s, a, b) && Waits(s, b, c)
    ensures Waits(s', a, b) && a < |s'.threads| && s'.threads[a] == s.threads[a]
  {
    hide Inv, ThreadStep, Waits;
    if t :| ThreadStep(s, s', t) {
      WaitingCannotStep(s, a, b);
      WaitingCannotStep(s, b, c);
      assert CanStep(s, t);
      OtherStep(s, s', t, a, b);
    } else {
      var q := s'.threads[|s.threads|].q;
      assert s' == s.(threads := s.threads + [Called(q)], parent := s'.parent);
      NewCallKeepsWait(s, s', q, a, b);
    }
    WaitEnds(s, a, b);
    WaitEnds(s', a, b);
  }

  /** What one call's step does to the rest. */
  lemma StepFrame(s: State, s': State, t: nat)
    requires ThreadStep(s, s', t)
    ensures s'.threads == s.threads[t := s'.threads[t]] && s'.parent == s.parent
    ensures s'.closeCalls == s.closeCalls || (s.threads[t].Deleted? && s'.closeCalls == s.closeCalls + [s.threads[t].c])
    ensures !s.threads[t].Returned? && (s'.threads[t].Returned? || s'.threads[t].q == s.threads[t].q)
  {
    hide NestedDone;
  }

  lemma OtherStep(s: State, s': State, t: nat, a: nat, b: nat)
    requires Inv(s) && ThreadStep(s, s', t) && t != a && t != b && Waits(s, a, b)
    ensures Waits(s', a, b) && s'.threads[a] == s.threads[a]
  {
    StepFrame(s, s', t);
    hide ThreadStep;
    if s.threads[a].Waiting? {
      OneDue(s, t, b, s.threads[a].c);
      hide Inv;
      assert s.threads[a].c !in s'.closeCalls;
    }
  }

  lemma OneDue(s: State, t: nat, b: nat, c: Chan)
    requires Inv(s) && DueFor(s, b, c) && t != b
    ensures !DueFor(s, t, c)
  {
    var due :| InvFor(s, due);
    hide EntryInv, CloseInv, StoredInv, WaitInv;
  }

  /** In every continuation the calls of a cycle, and all that lead into it, stay exactly where they are: they never
      return. */
  lemma {:induction false} CycleIsForEver(run: seq<State>, i: nat, j: nat, path: seq<nat>)
    requires IsRun(run) && i <= j < |run| && Lasso(run[i], path)
    ensures Lasso(run[j], path)
    ensures forall k :: 0 <= k < |path| ==>
              path[k] < |run[i].threads| && path[k] < |run[j].threads| && run[j].threads[path[k]] == run[i].threads[path[k]]
    decreases j
  {
    forall k | 0 <= k < |path| ensures path[k] < |run[i].threads| {
      var _ := OnLassoWaits(run[i], path, k);
    }
    if i < j {
      CycleIsForEver(run, i, j - 1, path);
      RunKeepsInv(run, j - 1);
      assert StepsAt(run, j - 1);
      var s, s' := run[j - 1], run[j];
      LassoPersists(s, s', path);
    }
  }

  lemma LassoPersists(s: State, s': State, path: seq<nat>)
    requires Inv(s) && Step(s, s') && Lasso(s, path)
    ensures Lasso(s', path)
    ensures forall k :: 0 <= k < |path| ==> path[k] < |s.threads| && path[k] < |s'.threads| && s'.threads[path[k]] == s.threads[path[k]]
  {
    hide Inv, Step, Waits;
    forall k | 0 <= k < |path|
      ensures path[k] < |s.threads| && path[k] < |s'.threads| && s'.threads[path[k]] == s.threads[path[k]]
      ensures k < |path| - 1 ==> Waits(s', path[k], path[k + 1])
      ensures Unfinished(s', path[k])
    {
      var u := OnLassoWaits(s, path, k);
      var m :| 0 <= m < |path| && path[m] == u;
      var v := OnLassoWaits(s, path, m);
      WaitPersists(s, s', path[k], u, v);
      WaitEnds(s, path[k], u);
      WaitEnds(s', path[k], u);
      if k < |path| - 1 {
        var w := OnLassoWaits(s, path, k + 1);
        WaitPersists(s, s', path[k], path[k + 1], w);
      }
    }
  }

  lemma WaitEnds(s: State, t: nat, u: nat)
    requires Waits(s, t, u)
    ensures Unfinished(s, t) && Unfinished(s, u)
  {
  }

  // ----- Concrete deadlocks -----

  /** Resolving the name of the very outbound through which the server is reached: the nested call waits for the call
      that started it. */
  lemma SelfNestingDeadlocks() returns (run: seq<State>)
    ensures IsRun(run)
    ensures var s := run[|run| - 1]; Unfinished(s, 0) && forall t :: !CanStep(s, t)
  {
    run := [State(map[], 0, map[], [], [], map[])];
    run := SpawnExtends(run, 7);
    run := Extend(run, State(map[7 := 0], 1, map[0 := 7], [], [Owning(7, 0)], map[]), 0);
    run := NestExtends(run, 7, 0);
    run := Extend(run, State(map[7 := 0], 2, map[0 := 7], [], [Owning(7, 0), Waiting(7, 0)], map[1 := 0]), 1);
    var s := run[|run| - 1];
    assert Waits(s, 0, 1) && Waits(s, 1, 0);
    WaitingCannotStep(s, 0, 1);
    WaitingCannotStep(s, 1, 0);
    forall t ensures !CanStep(s, t) {
      assert t >= 2 ==> forall s' :: !ThreadStep(s, s', t);
    }
  }

  /** Two servers that resolve each other's outbounds: question 7 needs 8, which needs 7. */
  lemma MutualNestingDeadlocks() returns (run: seq<State>)
    ensures IsRun(run)
    ensures var s := run[|run| - 1]; Unfinished(s, 0) && forall t :: !CanStep(s, t)
  {
    run := [State(map[], 0, map[], [], [], map[])];
    run := SpawnExtends(run, 7);
    run := Extend(run, State(map[7 := 0], 1, map[0 := 7], [], [Owning(7, 0)], map[]), 0);
    run := NestExtends(run, 8, 0);
    run := Extend(run, State(map[7 := 0, 8 := 1], 2, map[0 := 7, 1 := 8], [], [Owning(7, 0), Owning(8, 1)], map[1 := 0]), 1);
    run := NestExtends(run, 7, 1);
    run := Extend(run, State(map[7 := 0, 8 := 1], 3, map[0 := 7, 1 := 8], [],
                             [Owning(7, 0), Owning(8, 1), Waiting(7, 0)], map[1 := 0, 2 := 1]), 2);
    var s := run[|run| - 1];
    assert Waits(s, 0, 1) && Waits(s, 1, 2) && Waits(s, 2, 0);
    WaitingCannotStep(s, 0, 1);
    WaitingCannotStep(s, 1, 2);
    WaitingCannotStep(s, 2, 0);
    forall t ensures !CanStep(s, t) {
      assert t >= 3 ==> forall s' :: !ThreadStep(s, s', t);
    }
  }

  lemma NestExtends(run: seq<State>, q: Question, t: nat) returns (longer: seq<State>)
    requires IsRun(run) && t < |run[|run| - 1].threads| && Asking(run[|run| - 1].threads[t])
    ensures IsRun(longer)
    ensures var s := run[|run| - 1];
      longer[|longer| - 1] == s.(threads := s.threads + [Called(q)], parent := s.parent[|s.threads| := t])
  {
    var s := run[|run| - 1];
    var s' := s.(threads := s.threads + [Called(q)], parent := s.parent[|s.threads| := t]);
    assert Nest(s, s', t);
    longer := run + [s'];
    forall i | 0 <= i < |longer| - 1 ensures StepsAt(longer, i) {
      assert i < |run| - 1 ==> StepsAt(run, i);
    }
  }

  // ----- Nested questions that descend -----

  /** Nested calls come after the calls that started them, and ask lower questions. */
  ghost predicate Descends(s: State, rank: Question -> nat) {
    forall u :: u in s.parent ==>
      && s.parent[u] < u < |s.threads|
      && (Unfinished(s, u) && Unfinished(s, s.parent[u]) ==> rank(s.threads[u].q) < rank(s.threads[s.parent[u]].q))
  }

  /** If step i starts a nested call, it asks a lower question than the call that starts it. */
  ghost predicate DescendsAt(run: seq<State>, i: nat, rank: Question -> nat)
    requires i + 1 < |run|
  {
    forall t: nat :: Nest(run[i], run[i + 1], t) ==> rank(run[i + 1].threads[|run[i].threads|].q) < rank(run[i].threads[t].q)
  }

  lemma ThreadStepDescends(s: State, s': State, t: nat, rank: Question -> nat)
    requires Descends(s, rank) && ThreadStep(s, s', t)
    ensures Descends(s', rank)
  {
    StepFrame(s, s', t);
    hide ThreadStep;
  }

  lemma {:induction false} RunDescends(run: seq<State>, i: nat, rank: Question -> nat)
    requires IsRun(run) && i < |run| && forall k :: 0 <= k < i ==> DescendsAt(run, k, rank)
    ensures Descends(run[i], rank)
  {
    if i > 0 {
      RunDescends(run, i - 1, rank);
      assert StepsAt(run, i - 1) && DescendsAt(run, i - 1, rank);
      var s, s' := run[i - 1], run[i];
      if t :| ThreadStep(s, s', t) {
        ThreadStepDescends(s, s', t, rank);
      }
      hide ThreadStep;
    }
  }

  function Level(pc: Pc, rank: Question -> nat): nat {
    if pc.Returned? then 0 else 2 * rank(pc.q) + if pc.Waiting? then 1 else 0
  }

  lemma WaitDescends(s: State, t: nat, u: nat, rank: Question -> nat)
    requires Inv(s) && Descends(s, rank) && Waits(s, t, u)
    ensures Level(s.threads[u], rank) < Level(s.threads[t], rank)
  {
    if s.threads[t].Waiting? {
      var due :| InvFor(s, due);
      assert s.threads[u].q == s.threads[t].q by { hide DueInv, EntryInv, CloseInv, StoredInv, Descends; }
    }
  }

  lemma {:induction false} PathDescends(s: State, path: seq<nat>, i: nat, j: nat, rank: Question -> nat)
    requires Inv(s) && Descends(s, rank) && WaitPath(s, path) && i < j < |path|
    ensures path[i] < |s.threads| && path[j] < |s.threads|
    ensures Level(s.threads[path[j]], rank) < Level(s.threads[path[i]], rank)
    decreases j
  {
    hide Inv, Descends, Level;
    assert Waits(s, path[j - 1], path[j - 1 + 1]);
    WaitDescends(s, path[j - 1], path[j], rank);
    if i < j - 1 {
      PathDescends(s, path, i, j - 1, rank);
    }
  }

  /** Where nested questions descend in some ranking there is no cycle of waits, so while a call is unfinished some call
      can step. */
  lemma DescendingNeverDeadlocks(run: seq<State>, i: nat, rank: Question -> nat, t: nat)
    requires IsRun(run) && i < |run| && Unfinished(run[i], t)
    requires forall k :: 0 <= k < i ==> DescendsAt(run, k, rank)
    ensures !LeadsIntoCycle(run[i], t) && exists u :: CanStep(run[i], u)
  {
    var s := run[i];
    RunKeepsInv(run, i);
    RunDescends(run, i, rank);
    hide Inv, Descends;
    forall path | WaitPath(s, path) ensures !Lasso(s, path) {
      forall k | 0 <= k < |path| - 1 ensures path[k] != path[|path| - 1] {
        PathDescends(s, path, k, |path| - 1, rank);
      }
    }
    var path := ReachesStepper(s, t);
  }

  // ----- Bounded work -----

  function Rank(pc: Pc): nat {
    match pc
    case Called(_) => 4
    case Waiting(_, _) => 3
    case Owning(_, _) => 2
    case Deleted(_, _) => 1
    case Following(_, _) => 1
    case Unlocked(_) => 1
    case Returned => 0
  }

  function TotalRank(threads: seq<Pc>): nat {
    if threads == [] then 0 else TotalRank(threads[..|threads| - 1]) + Rank(threads[|threads| - 1])
  }

  lemma {:induction false} TotalRankUpdate(threads: seq<Pc>, t: nat, pc: Pc)
    requires t < |threads|
    ensures TotalRank(threads[t := pc]) + Rank(threads[t]) == TotalRank(threads) + Rank(pc)
  {
    var last := |threads| - 1;
    if t == last {
      assert threads[t := pc][..last] == threads[..last];
    } else {
      TotalRankUpdate(threads[..last], t, pc);
      assert threads[t := pc][..last] == threads[..last][t := pc];
    }
  }

  /** Every step of a call uses up rank. */
  lemma StepsUseUpRank(s: State, s': State, t: nat)
    requires ThreadStep(s, s', t)
    ensures |s'.threads| == |s.threads| && TotalRank(s'.threads) < TotalRank(s.threads)
  {
    hide NestedDone, TotalRank;
    TotalRankUpdate(s.threads, t, s'.threads[t]);
  }

  lemma TotalRankSnoc(threads: seq<Pc>, q: Question)
    ensures TotalRank(threads + [Called(q)]) == TotalRank(threads) + 4
  {
    assert (threads + [Called(q)])[..|threads|] == threads;
  }

  /** The steps of a run that are not the arrival of a call. */
  function WorkSteps(run: seq<State>): nat {
    if |run| <= 1 then 0
    else
      var last := |run| - 1;
      WorkSteps(run[..last]) + if |run[last].threads| == |run[last - 1].threads| then 1 else 0
  }

  /** n calls, nested ones included, take at most 4n steps between them, in every run. */
  lemma {:induction false} WorkIsBounded(run: seq<State>)
    requires IsRun(run)
    ensures var threads := run[|run| - 1].threads; WorkSteps(run) + TotalRank(threads) <= 4 * |threads|
    decreases |run|
  {
    if |run| > 1 {
      var last := |run| - 1;
      var init := run[..last];
      forall i | 0 <= i < |init| - 1 ensures StepsAt(init, i) {
        assert StepsAt(run, i);
      }
      WorkIsBounded(init);
      assert StepsAt(run, last - 1);
      StepRank(run[last - 1], run[last]);
    }
  }

  lemma StepRank(s: State, s': State)
    requires Step(s, s')
    ensures if |s'.threads| == |s.threads| then TotalRank(s'.threads) < TotalRank(s.threads)
            else |s'.threads| == |s.threads| + 1 && TotalRank(s'.threads) == TotalRank(s.threads) + 4
  {
    hide TotalRank;
    if t :| ThreadStep(s, s', t) {
      StepsUseUpRank(s, s', t);
    } else {
      var q := s'.threads[|s'.threads| - 1].q;
      assert s'.threads == s.threads + [Called(q)];
      TotalRankSnoc(s.threads, q);
    }
  }

  /** A step that brings no new call starts no nested one. */
  lemma WorkDescends(run: seq<State>, s': State, k: nat, rank: Question -> nat)
    requires |run| > 0 && |s'.threads| == |run[|run| - 1].threads| && k < |run|
    requires k < |run| - 1 ==> DescendsAt(run, k, rank)
    ensures DescendsAt(run + [s'], k, rank)
  {
  }

  /** Where nested questions descend, any run can be continued until every call has returned. */
  lemma {:induction false} DescendingFinishes(run: seq<State>, rank: Question -> nat) returns (longer: seq<State>)
    requires IsRun(run) && |run| > 0 && forall k :: 0 <= k < |run| - 1 ==> DescendsAt(run, k, rank)
    ensures IsRun(longer) && run <= longer
    ensures AllReturned(longer[|longer| - 1])
    decreases TotalRank(run[|run| - 1].threads)
  {
    var last := |run| - 1;
    var s := run[last];
    if t :| Unfinished(s, t) {
      hide IsRun, DescendsAt, Unfinished, TotalRank;
      DescendingNeverDeadlocks(run, last, rank, t);
      var u :| CanStep(s, u);
      var s' :| ThreadStep(s, s', u);
      hide CanStep, ThreadStep;
      StepsUseUpRank(s, s', u);
      var next := Extend(run, s', u);
      forall k | 0 <= k < |next| - 1 ensures DescendsAt(next, k, rank) {
        WorkDescends(run, s', k, rank);
      }
      longer := DescendingFinishes(next, rank);
    } else {
      longer := run;
    }
  }
}
