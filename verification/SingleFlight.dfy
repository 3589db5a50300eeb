/** The per-question lock of the DNS client: a concurrent map from question to channel, used so that
    callers asking the same question wait for the one already asking it.  A step relation over any number
    of concurrent Exchange calls.  The cache and the wire are opaque work between the steps, but asking upstream may
    dial through an outbound whose server name has to be resolved first: a call that asks may start nested calls, and
    goes on only when they have returned. */
module SingleFlight {

  type Question = nat
  type Chan = nat

  datatype Pc =
    | Called(q: Question)
    | Waiting(q: Question, c: Chan)       // loaded == true, blocked in <-cond
    | Owning(q: Question, c: Chan)        // loaded == false, deferred unlock pending
    | Deleted(q: Question, c: Chan)       // cacheLock.Delete done, close(cond) pending
    | Following(q: Question, c: Chan)     // released from <-cond, working without the lock
    | Unlocked(q: Question)               // the cache is off for this call, so it takes no lock
    | Returned

  datatype State = State(
    locks: map<Question, Chan>,           // cacheLock
    made: nat,                            // channels 0 .. made-1 exist
    stored: map<Chan, Question>,          // those that LoadOrStore stored, and for which question
    closeCalls: seq<Chan>,                // every close(cond), in order
    threads: seq<Pc>,
    parent: map<nat, nat>                 // for a nested call, the call whose dialing started it
  )

  ghost predicate Init(s: State) {
    s == State(map[], 0, map[], [], [], map[])
  }

  // ----- Steps -----

  ghost predicate Spawn(s: State, s': State) {
    exists q :: s' == s.(threads := s.threads + [Called(q)])
  }

  /** Asking upstream, with or without the lock. */
  predicate Asking(pc: Pc) {
    pc.Owning? || pc.Following? || pc.Unlocked?
  }

  /** A call that asks upstream starts another one and will wait for it. */
  ghost predicate Nest(s: State, s': State, t: nat) {
    && t < |s.threads| && Asking(s.threads[t])
    && exists q :: s' == s.(threads := s.threads + [Called(q)], parent := s.parent[|s.threads| := t])
  }

  /** Every nested call of t has returned. */
  ghost predicate NestedDone(s: State, t: nat) {
    forall u :: 0 <= u < |s.threads| && u in s.parent && s.parent[u] == t ==> s.threads[u].Returned?
  }

  ghost predicate Bypass(s: State, s': State, t: nat)
    requires t < |s.threads|
  {
    s.threads[t].Called? && s' == s.(threads := s.threads[t := Unlocked(s.threads[t].q)])
  }

  /** LoadOrStore(question, make(chan struct{})): the channel is made whether or not it is stored. */
  ghost predicate LoadOrStore(s: State, s': State, t: nat)
    requires t < |s.threads|
  {
    && s.threads[t].Called?
    && var q := s.threads[t].q;
    && s' == if q in s.locks then
               s.(made := s.made + 1, threads := s.threads[t := Waiting(q, s.locks[q])])
             else
               s.(made := s.made + 1, stored := s.stored[s.made := q], locks := s.locks[q := s.made],
                  threads := s.threads[t := Owning(q, s.made)])
  }

  /** A receive from a closed channel returns at once; from an open one it blocks. */
  ghost predicate Wake(s: State, s': State, t: nat)
    requires t < |s.threads|
  {
    && s.threads[t].Waiting?
    && s.threads[t].c in s.closeCalls
    && s' == s.(threads := s.threads[t := Following(s.threads[t].q, s.threads[t].c)])
  }

  ghost predicate Delete(s: State, s': State, t: nat)
    requires t < |s.threads|
  {
    && s.threads[t].Owning? && NestedDone(s, t)
    && var q := s.threads[t].q;
    && s' == s.(locks := s.locks - {q}, threads := s.threads[t := Deleted(q, s.threads[t].c)])
  }

  ghost predicate Close(s: State, s': State, t: nat)
    requires t < |s.threads|
  {
    && s.threads[t].Deleted?
    && s' == s.(closeCalls := s.closeCalls + [s.threads[t].c], threads := s.threads[t := Returned])
  }

  ghost predicate Return(s: State, s': State, t: nat)
    requires t < |s.threads|
  {
    && (s.threads[t].Following? || s.threads[t].Unlocked?) && NestedDone(s, t)
    && s' == s.(threads := s.threads[t := Returned])
  }

  ghost predicate ThreadStep(s: State, s': State, t: nat) {
    && t < |s.threads|
    && (|| LoadOrStore(s, s', t) || Bypass(s, s', t) || Wake(s, s', t)
        || Delete(s, s', t) || Close(s, s', t) || Return(s, s', t))
  }

  ghost predicate Step(s: State, s': State) {
    Spawn(s, s') || exists t :: Nest(s, s', t) || ThreadStep(s, s', t)
  }

  ghost predicate StepsAt(run: seq<State>, i: int)
    requires 0 <= i < |run| - 1
  {
    Step(run[i], run[i + 1])
  }

  ghost predicate IsRun(run: seq<State>) {
    && |run| > 0
    && Init(run[0])
    && forall i :: 0 <= i < |run| - 1 ==> StepsAt(run, i)
  }

  // ----- Invariant -----

  /** The thread that is due to close a channel. */
  predicate Due(pc: Pc) {
    pc.Owning? || pc.Deleted?
  }

  ghost predicate DueFor(s: State, t: nat, c: Chan) {
    t < |s.threads| && Due(s.threads[t]) && s.threads[t].c == c
  }

  /** `due` names, for every channel still to be closed, the thread that will close it. */
  ghost predicate DueInv(s: State, due: map<Chan, nat>) {
    && (forall c :: c in due ==> c < s.made && c !in s.closeCalls && DueFor(s, due[c], c))
    && (forall t :: 0 <= t < |s.threads| && Due(s.threads[t]) ==> s.threads[t].c in due && due[s.threads[t].c] == t)
  }

  /** Each lock entry has its owner, and each owner its entry. */
  ghost predicate EntryInv(s: State, due: map<Chan, nat>) {
    && (forall t :: 0 <= t < |s.threads| && s.threads[t].Owning? ==>
          s.threads[t].q in s.locks && s.locks[s.threads[t].q] == s.threads[t].c)
    && (forall q :: q in s.locks ==>
          var c := s.locks[q];
          c in due && due[c] < |s.threads| && s.threads[due[c]] == Owning(q, c))
  }

  ghost predicate CloseInv(s: State) {
    && (forall i :: 0 <= i < |s.closeCalls| ==> s.closeCalls[i] < s.made)
    && (forall i, j :: 0 <= i < j < |s.closeCalls| ==> s.closeCalls[i] != s.closeCalls[j])
  }

  /** A stored channel is closed or due, and only those are. */
  ghost predicate StoredInv(s: State, due: map<Chan, nat>) {
    forall c :: c in s.stored.Keys <==> c in s.closeCalls || c in due
  }

  ghost predicate WaitInv(s: State) {
    forall t :: 0 <= t < |s.threads| ==>
      && (s.threads[t].Waiting? || Due(s.threads[t]) ==> s.threads[t].c in s.stored && s.stored[s.threads[t].c] == s.threads[t].q)
      && (s.threads[t].Following? ==> s.threads[t].c in s.closeCalls)
  }

  ghost predicate InvFor(s: State, due: map<Chan, nat>) {
    DueInv(s, due) && EntryInv(s, due) && CloseInv(s) && StoredInv(s, due) && WaitInv(s)
  }

  ghost predicate Inv(s: State) {
    exists due :: InvFor(s, due)
  }

  /** Moving one thread between points that neither own nor close anything. */
  lemma QuietMoveKeepsDue(s: State, s': State, t: nat, pc: Pc, due: map<Chan, nat>)
    requires DueInv(s, due) && EntryInv(s, due) && t < |s.threads| && !Due(s.threads[t]) && !Due(pc)
    requires s'.threads == s.threads[t := pc] && s'.locks == s.locks && s'.closeCalls == s.closeCalls && s'.made >= s.made
    ensures DueInv(s', due) && EntryInv(s', due)
  {
    assert forall u, c :: DueFor(s, u, c) ==> DueFor(s', u, c);
  }

  lemma NewCallKeepsDue(s: State, s': State, q: Question, due: map<Chan, nat>)
    requires DueInv(s, due) && s' == s.(threads := s.threads + [Called(q)], parent := s'.parent)
    ensures DueInv(s', due)
  {
    forall c | c in due ensures DueFor(s', due[c], c) {
      assert DueFor(s, due[c], c);
    }
  }

  lemma NewCallKeepsEntries(s: State, s': State, q: Question, due: map<Chan, nat>)
    requires EntryInv(s, due) && s' == s.(threads := s.threads + [Called(q)], parent := s'.parent)
    ensures EntryInv(s', due)
  {
  }

  lemma NewCallKeepsWaits(s: State, s': State, q: Question)
    requires WaitInv(s) && s' == s.(threads := s.threads + [Called(q)], parent := s'.parent)
    ensures WaitInv(s')
  {
  }

  /** A new call, nested or not. */
  lemma NewCallKeepsInv(s: State, s': State, q: Question, due: map<Chan, nat>)
    requires InvFor(s, due) && s' == s.(threads := s.threads + [Called(q)], parent := s'.parent)
    ensures InvFor(s', due)
  {
    NewCallKeepsDue(s, s', q, due);
    NewCallKeepsEntries(s, s', q, due);
    NewCallKeepsWaits(s, s', q);
    hide DueInv, EntryInv, WaitInv;
  }

  /** Finding the question locked: the caller waits on a channel that is stored. */
  lemma LoadKeepsInv(s: State, s': State, t: nat, due: map<Chan, nat>)
    requires InvFor(s, due) && t < |s.threads| && LoadOrStore(s, s', t) && s.threads[t].q in s.locks
    ensures InvFor(s', due)
  {
    QuietMoveKeepsDue(s, s', t, s'.threads[t], due);
    var q, c := s.threads[t].q, s.locks[s.threads[t].q];
    assert s.threads[due[c]] == Owning(q, c) by { hide DueInv, StoredInv, CloseInv, WaitInv; }
    assert c in s.stored && s.stored[c] == q by { hide DueInv, CloseInv; }
    hide DueInv, EntryInv;
  }

  /** Finding it free: the new channel is stored, and the caller is due to close it. */
  lemma StoreKeepsDue(s: State, s': State, t: nat, due: map<Chan, nat>)
    requires InvFor(s, due) && t < |s.threads| && LoadOrStore(s, s', t) && s.threads[t].q !in s.locks
    ensures DueInv(s', due[s.made := t])
  {
    hide EntryInv, StoredInv, WaitInv;
    assert forall u, c :: DueFor(s, u, c) ==> u != t && DueFor(s', u, c);
    assert s.made !in due && s.made !in s.closeCalls;
  }

  lemma StoreKeepsEntries(s: State, s': State, t: nat, due: map<Chan, nat>)
    requires InvFor(s, due) && t < |s.threads| && LoadOrStore(s, s', t) && s.threads[t].q !in s.locks
    ensures EntryInv(s', due[s.made := t])
  {
    assert s.made !in due by { hide EntryInv, CloseInv, StoredInv, WaitInv; }
    hide DueInv, CloseInv, StoredInv, WaitInv;
  }

  lemma StoreKeepsWaits(s: State, s': State, t: nat)
    requires WaitInv(s) && t < |s.threads| && LoadOrStore(s, s', t) && s.threads[t].q !in s.locks && s.made !in s.stored
    ensures WaitInv(s')
  {
  }

  lemma LoadOrStoreKeepsInv(s: State, s': State, t: nat, due: map<Chan, nat>)
    requires InvFor(s, due) && t < |s.threads| && LoadOrStore(s, s', t)
    ensures InvFor(s', if s.threads[t].q in s.locks then due else due[s.made := t])
  {
    if s.threads[t].q in s.locks {
      LoadKeepsInv(s, s', t, due);
    } else {
      StoreKeepsDue(s, s', t, due);
      StoreKeepsEntries(s, s', t, due);
      assert s.made !in s.stored by { hide EntryInv, WaitInv; }
      StoreKeepsWaits(s, s', t);
      assert CloseInv(s') && StoredInv(s', due[s.made := t]) by { hide DueInv, EntryInv, WaitInv; }
      hide DueInv, EntryInv, CloseInv, StoredInv, WaitInv, LoadOrStore;
    }
  }

  lemma BypassKeepsInv(s: State, s': State, t: nat, due: map<Chan, nat>)
    requires InvFor(s, due) && t < |s.threads| && Bypass(s, s', t)
    ensures InvFor(s', due)
  {
    QuietMoveKeepsDue(s, s', t, s'.threads[t], due);
    hide DueInv, EntryInv;
  }

  lemma WakeKeepsInv(s: State, s': State, t: nat, due: map<Chan, nat>)
    requires InvFor(s, due) && t < |s.threads| && Wake(s, s', t)
    ensures InvFor(s', due)
  {
    QuietMoveKeepsDue(s, s', t, s'.threads[t], due);
    hide DueInv, EntryInv;
  }

  lemma DeleteKeepsInv(s: State, s': State, t: nat, due: map<Chan, nat>)
    requires InvFor(s, due) && t < |s.threads| && Delete(s, s', t)
    ensures InvFor(s', due)
  {
    hide NestedDone;
    assert DueInv(s', due) by {
      assert forall u, c :: DueFor(s, u, c) ==> DueFor(s', u, c);
      hide EntryInv, CloseInv, StoredInv, WaitInv;
    }
    assert EntryInv(s', due) by { hide CloseInv, StoredInv, WaitInv; }
    hide DueInv, EntryInv;
  }

  lemma CloseKeepsDue(s: State, s': State, t: nat, due: map<Chan, nat>)
    requires DueInv(s, due) && t < |s.threads| && Close(s, s', t)
    ensures DueInv(s', due - {s.threads[t].c})
  {
    var c := s.threads[t].c;
    assert forall d :: d in s'.closeCalls <==> d in s.closeCalls || d == c;
    forall d | d in due && d != c ensures DueFor(s', due[d], d) {
      assert DueFor(s, due[d], d);
    }
  }

  lemma CloseKeepsEntries(s: State, s': State, t: nat, due: map<Chan, nat>)
    requires EntryInv(s, due) && t < |s.threads| && Close(s, s', t) && s.threads[t].c in due && due[s.threads[t].c] == t
    ensures EntryInv(s', due - {s.threads[t].c})
  {
  }

  lemma CloseKeepsWaits(s: State, s': State, t: nat)
    requires WaitInv(s) && t < |s.threads| && Close(s, s', t)
    ensures WaitInv(s')
  {
  }

  lemma CloseKeepsInv(s: State, s': State, t: nat, due: map<Chan, nat>)
    requires InvFor(s, due) && t < |s.threads| && Close(s, s', t)
    ensures InvFor(s', due - {s.threads[t].c})
  {
    var c, rest := s.threads[t].c, due - {s.threads[t].c};
    assert forall d :: d in s'.closeCalls <==> d in s.closeCalls || d == c;
    assert c in due && due[c] == t && c !in s.closeCalls && c < s.made by { hide EntryInv, CloseInv, StoredInv, WaitInv; }
    CloseKeepsDue(s, s', t, due);
    CloseKeepsEntries(s, s', t, due);
    CloseKeepsWaits(s, s', t);
    hide DueInv, EntryInv, WaitInv;
    assert CloseInv(s') by { hide StoredInv; }
    assert StoredInv(s', rest) by { hide CloseInv; }
    hide CloseInv, StoredInv;
  }

  lemma ReturnKeepsInv(s: State, s': State, t: nat, due: map<Chan, nat>)
    requires InvFor(s, due) && t < |s.threads| && Return(s, s', t)
    ensures InvFor(s', due)
  {
    hide NestedDone;
    QuietMoveKeepsDue(s, s', t, s'.threads[t], due);
    hide DueInv, EntryInv;
    assert CloseInv(s') && StoredInv(s', due) by { hide WaitInv; }
    assert WaitInv(s') by { hide CloseInv, StoredInv; }
    hide CloseInv, StoredInv, WaitInv, Return;
  }

  lemma ThreadStepKeepsInv(s: State, s': State, t: nat, due: map<Chan, nat>)
    requires InvFor(s, due) && ThreadStep(s, s', t)
    ensures Inv(s')
  {
    hide InvFor, NestedDone, LoadOrStore, Bypass, Wake, Delete, Close, Return;
    if LoadOrStore(s, s', t) { LoadOrStoreKeepsInv(s, s', t, due); }
    else if Bypass(s, s', t) { BypassKeepsInv(s, s', t, due); }
    else if Wake(s, s', t) { WakeKeepsInv(s, s', t, due); }
    else if Delete(s, s', t) { DeleteKeepsInv(s, s', t, due); }
    else if Close(s, s', t) { CloseKeepsInv(s, s', t, due); }
    else { ReturnKeepsInv(s, s', t, due); }
  }

  lemma StepKeepsInv(s: State, s': State)
    requires Inv(s) && Step(s, s')
    ensures Inv(s')
  {
    hide InvFor, ThreadStep;
    var due :| InvFor(s, due);
    if Spawn(s, s') {
      var q :| s' == s.(threads := s.threads + [Called(q)]);
      NewCallKeepsInv(s, s', q, due);
    } else if t :| Nest(s, s', t) {
      var q :| s' == s.(threads := s.threads + [Called(q)], parent := s.parent[|s.threads| := t]);
      NewCallKeepsInv(s, s', q, due);
    } else {
      var t :| ThreadStep(s, s', t);
      ThreadStepKeepsInv(s, s', t, due);
    }
  }

  lemma {:induction false} RunKeepsInv(run: seq<State>, i: nat)
    requires IsRun(run) && i < |run|
    ensures Inv(run[i])
  {
    if i == 0 {
      assert InvFor(run[0], map[]);
    } else {
      RunKeepsInv(run, i - 1);
      assert StepsAt(run, i - 1);
      StepKeepsInv(run[i - 1], run[i]);
    }
  }

  // ----- What every interleaving keeps -----

  /** At most one owner per question, and the entry its Delete will remove is its own. */
  lemma OwnerHoldsItsEntry(run: seq<State>, i: nat, t: nat, u: nat)
    requires IsRun(run) && i < |run| && t < |run[i].threads| && u < |run[i].threads|
    requires run[i].threads[t].Owning?
    ensures run[i].threads[t].q in run[i].locks && run[i].locks[run[i].threads[t].q] == run[i].threads[t].c
    ensures run[i].threads[u].Owning? && run[i].threads[u].q == run[i].threads[t].q ==> t == u
  {
    RunKeepsInv(run, i);
  }

  /** No channel is closed twice, and one that a thread is still due to close has not been closed. */
  lemma ChannelsCloseOnce(run: seq<State>, i: nat, t: nat)
    requires IsRun(run) && i < |run| && t < |run[i].threads|
    ensures forall p, r :: 0 <= p < r < |run[i].closeCalls| ==> run[i].closeCalls[p] != run[i].closeCalls[r]
    ensures Due(run[i].threads[t]) ==> run[i].threads[t].c !in run[i].closeCalls
  {
    RunKeepsInv(run, i);
  }

  /** Every channel that was ever stored is closed, or exactly one thread is due to close it, whether or not anyone
      waits for it. */
  lemma StoredIsClosedOrDue(run: seq<State>, i: nat, c: Chan)
    requires IsRun(run) && i < |run| && c in run[i].stored
    ensures var s := run[i];
      if c in s.closeCalls then forall u :: !DueFor(s, u, c)
      else exists u :: DueFor(s, u, c) && forall v :: DueFor(s, v, c) ==> v == u
  {
    RunKeepsInv(run, i);
    var s := run[i];
    var due :| InvFor(s, due);
    if c !in s.closeCalls {
      assert DueFor(s, due[c], c);
    }
  }

  /** A blocked waiter's channel is closed or has exactly one thread due to close it; whether that thread gets there is
      the matter of nested calls. */
  lemma WaiterIsNotStranded(run: seq<State>, i: nat, t: nat)
    requires IsRun(run) && i < |run| && t < |run[i].threads| && run[i].threads[t].Waiting?
    ensures var s, c := run[i], run[i].threads[t].c;
      if c in s.closeCalls then forall u :: !DueFor(s, u, c)
      else exists u :: DueFor(s, u, c) && forall v :: DueFor(s, v, c) ==> v == u
  {
    RunKeepsInv(run, i);
    StoredIsClosedOrDue(run, i, run[i].threads[t].c);
  }

  /** Who can be querying upstream for one question at once: at most one owner, and otherwise only callers
      that have already waited out an earlier owner. */
  lemma ConcurrentQueriers(run: seq<State>, i: nat, t: nat, u: nat)
    requires IsRun(run) && i < |run| && t < |run[i].threads| && u < |run[i].threads| && t != u
    requires var a, b := run[i].threads[t], run[i].threads[u];
      (a.Owning? || a.Following?) && (b.Owning? || b.Following?) && a.q == b.q     // both with the cache on
    ensures var a, b := run[i].threads[t], run[i].threads[u];
      (a.Following? && a.c in run[i].closeCalls) || (b.Following? && b.c in run[i].closeCalls)
  {
    RunKeepsInv(run, i);
  }

  /** That bound is reached: the lock does not make the query itself exclusive, because a woken waiter
      whose cache lookup misses asks upstream while a newcomer owns the lock. */
  lemma FollowerAndOwnerCanOverlap()
    ensures exists run: seq<State> ::
              IsRun(run) && run[|run| - 1].threads == [Returned, Following(7, 0), Owning(7, 2)]
  {
    var run := [State(map[], 0, map[], [], [], map[])];
    run := SpawnExtends(run, 7);
    run := SpawnExtends(run, 7);
    run := Extend(run, State(map[7 := 0], 1, map[0 := 7], [], [Owning(7, 0), Called(7)], map[]), 0);
    run := Extend(run, State(map[7 := 0], 2, map[0 := 7], [], [Owning(7, 0), Waiting(7, 0)], map[]), 1);
    assert map[7 := 0] - {7} == map[];
    run := Extend(run, State(map[], 2, map[0 := 7], [], [Deleted(7, 0), Waiting(7, 0)], map[]), 0);
    run := Extend(run, State(map[], 2, map[0 := 7], [0], [Returned, Waiting(7, 0)], map[]), 0);
    run := Extend(run, State(map[], 2, map[0 := 7], [0], [Returned, Following(7, 0)], map[]), 1);
    run := SpawnExtends(run, 7);
    run := Extend(run, State(map[7 := 2], 3, map[0 := 7, 2 := 7], [0], [Returned, Following(7, 0), Owning(7, 2)], map[]), 2);
  }

  lemma Extend(run: seq<State>, s': State, t: nat) returns (longer: seq<State>)
    requires IsRun(run) && ThreadStep(run[|run| - 1], s', t)
    ensures IsRun(longer) && longer == run + [s']
  {
    longer := run + [s'];
    forall i | 0 <= i < |longer| - 1 ensures StepsAt(longer, i) {
      assert i < |run| - 1 ==> StepsAt(run, i);
    }
  }

  lemma SpawnExtends(run: seq<State>, q: Question) returns (longer: seq<State>)
    requires IsRun(run)
    ensures IsRun(longer) && longer[|longer| - 1] == run[|run| - 1].(threads := run[|run| - 1].threads + [Called(q)])
  {
    longer := run + [run[|run| - 1].(threads := run[|run| - 1].threads + [Called(q)])];
    forall i | 0 <= i < |longer| - 1 ensures StepsAt(longer, i) {
      assert i < |run| - 1 ==> StepsAt(run, i);
    }
  }
}
