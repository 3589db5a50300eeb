/** The daemon's service lifecycle: any number of concurrent StartOrReloadService,
    CloseService and SetError calls sharing `serviceAccess`, as a step relation.

    A thread is one call.  Its program counter names the point it has reached; a step is
    the work between two points at which another thread can be scheduled or can observe
    the lock.  Instances are numbered in creation order. */
module ServiceLifecycle {
  import opened Common

  datatype Status = Idle | Starting | Started | Stopping | Fatal

  type Thread = nat
  type Instance = nat

  datatype Pc =
      // StartOrReloadService
    | ReloadCalled                                   // waiting for the lock
    | ReloadChecking                                 // lock held, status not yet examined
    | ReloadClosingOld(victim: Instance)                // lock dropped, oldInstance.Close() not yet called
    | ReloadClosedOld(victim: Instance)                 // Close() returned, waiting for the lock
    | ReloadReplacing(replaced: Option<Instance>)    // lock held, about to set STARTING
    | ReloadCreating(replaced: Option<Instance>)     // lock held, STARTING set, newInstance pending
    | ReloadStarting(created: Instance)                // lock dropped, instance.Start() running
    | ReloadStartDone(failed: bool)                  // Start() returned, waiting for the lock
    | ReloadFinishing(failed: bool)                  // lock held again
      // CloseService
    | CloseCalled
    | CloseChecking
    | CloseClosing                                   // lock held, STOPPING set
    | CloseClosed(closeFailed: bool)                 // lock held, instance.Close() returned
      // SetError
    | ErrorCalled
    | ErrorSetting
    | Returned

  datatype State = State(
    status: Status,
    current: Option<Instance>,   // s.instance
    lock: Option<Thread>,        // holder of s.serviceAccess
    threads: map<Thread, Pc>,
    installed: nat,              // instances 0 .. installed-1 have been assigned to s.instance
    closeCalls: seq<Instance>    // every Close() the service has made on an instance, in order
  )

  predicate HoldsLock(pc: Pc) {
    pc.ReloadChecking? || pc.ReloadReplacing? || pc.ReloadCreating? || pc.ReloadFinishing? ||
    pc.CloseChecking? || pc.CloseClosing? || pc.CloseClosed? || pc.ErrorSetting?
  }

  /** The close-the-old window of a reload: the lock has been dropped to close the old instance. */
  predicate InWindow(pc: Pc) {
    pc.ReloadClosingOld? || pc.ReloadClosedOld?
  }

  ghost predicate Init(s: State) {
    s == State(Idle, None, None, map[], 0, [])
  }

  // ----- Steps -----

  predicate IsCall(pc: Pc) {
    pc.ReloadCalled? || pc.CloseCalled? || pc.ErrorCalled?
  }

  /** A new call arrives. */
  ghost predicate Spawn(s: State, s': State, t: Thread) {
    && t !in s.threads
    && exists pc :: IsCall(pc) && s' == s.(threads := s.threads[t := pc])
  }

  ghost predicate Acquire(s: State, s': State, t: Thread)
    requires t in s.threads
  {
    && s.lock.None?
    && var pc := s.threads[t];
    && (pc.ReloadCalled? || pc.ReloadClosedOld? || pc.ReloadStartDone? || pc.CloseCalled? || pc.ErrorCalled?)
    && s' == s.(lock := Some(t), threads := s.threads[t :=
         match pc
         case ReloadCalled => ReloadChecking
         case ReloadClosedOld(victim) => ReloadReplacing(Some(victim))
         case ReloadStartDone(failed) => ReloadFinishing(failed)
         case CloseCalled => CloseChecking
         case _ => ErrorSetting])
  }

  /** The status switch at the head of StartOrReloadService, up to dropping the lock. */
  ghost predicate ReloadCheck(s: State, s': State, t: Thread)
    requires t in s.threads
  {
    && s.threads[t].ReloadChecking?
    && if s.status.Stopping? || s.status.Fatal? then
         s' == s.(lock := None, threads := s.threads[t := Returned])
       else if s.current.Some? then
         s' == s.(status := Stopping, lock := None, threads := s.threads[t := ReloadClosingOld(s.current.value)])
       else
         s' == s.(threads := s.threads[t := ReloadReplacing(None)])
  }

  ghost predicate ReloadCloseOld(s: State, s': State, t: Thread)
    requires t in s.threads
  {
    && s.threads[t].ReloadClosingOld?
    && var victim := s.threads[t].victim;
    && s' == s.(closeCalls := s.closeCalls + [victim], threads := s.threads[t := ReloadClosedOld(victim)])
  }

  ghost predicate ReloadSetStarting(s: State, s': State, t: Thread)
    requires t in s.threads
  {
    && s.threads[t].ReloadReplacing?
    && s' == s.(status := Starting, threads := s.threads[t := ReloadCreating(s.threads[t].replaced)])
  }

  /** newInstance either fails, leaving FATAL, or yields a fresh instance that becomes current. */
  ghost predicate ReloadCreate(s: State, s': State, t: Thread)
    requires t in s.threads
  {
    && s.threads[t].ReloadCreating?
    && (|| s' == s.(status := Fatal, lock := None, threads := s.threads[t := Returned])
        || s' == s.(current := Some(s.installed), installed := s.installed + 1, lock := None,
                    threads := s.threads[t := ReloadStarting(s.installed)]))
  }

  ghost predicate ReloadStart(s: State, s': State, t: Thread)
    requires t in s.threads
  {
    && s.threads[t].ReloadStarting?
    && exists failed :: s' == s.(threads := s.threads[t := ReloadStartDone(failed)])
  }

  ghost predicate ReloadFinish(s: State, s': State, t: Thread)
    requires t in s.threads
  {
    && s.threads[t].ReloadFinishing?
    && var done := s.(lock := None, threads := s.threads[t := Returned]);
    && s' == if !s.status.Starting? then done
             else if s.threads[t].failed then done.(status := Fatal)
             else done.(status := Started)
  }

  ghost predicate CloseCheck(s: State, s': State, t: Thread)
    requires t in s.threads
  {
    && s.threads[t].CloseChecking?
    && if s.status.Starting? || s.status.Started? then
         s' == s.(status := Stopping, threads := s.threads[t := CloseClosing])
       else
         s' == s.(lock := None, threads := s.threads[t := Returned])
  }

  ghost predicate CloseInstance(s: State, s': State, t: Thread)
    requires t in s.threads
  {
    && s.threads[t].CloseClosing?
    && if s.current.Some? then
         exists failed :: s' == s.(closeCalls := s.closeCalls + [s.current.value],
                                   threads := s.threads[t := CloseClosed(failed)])
       else
         s' == s.(threads := s.threads[t := CloseClosed(false)])
  }

  ghost predicate CloseFinish(s: State, s': State, t: Thread)
    requires t in s.threads
  {
    && s.threads[t].CloseClosed?
    && var done := s.(lock := None, threads := s.threads[t := Returned]);
    && s' == if s.threads[t].closeFailed then done.(status := Fatal)
             else done.(status := Idle, current := None)
  }

  ghost predicate ErrorSet(s: State, s': State, t: Thread)
    requires t in s.threads
  {
    && s.threads[t].ErrorSetting?
    && s' == s.(status := Fatal, lock := None, threads := s.threads[t := Returned])
  }

  ghost predicate ThreadStep(s: State, s': State, t: Thread) {
    && t in s.threads
    && (|| Acquire(s, s', t)
        || ReloadCheck(s, s', t)
        || ReloadCloseOld(s, s', t)
        || ReloadSetStarting(s, s', t)
        || ReloadCreate(s, s', t)
        || ReloadStart(s, s', t)
        || ReloadFinish(s, s', t)
        || CloseCheck(s, s', t)
        || CloseInstance(s, s', t)
        || CloseFinish(s, s', t)
        || ErrorSet(s, s', t))
  }

  ghost predicate Step(s: State, s': State) {
    exists t :: Spawn(s, s', t) || ThreadStep(s, s', t)
  }

  ghost predicate StepsAt(run: seq<State>, i: int)
    requires 0 <= i < |run| - 1
  {
    Step(run[i], run[i + 1])
  }

  ghost predicate IsRun(run: seq<State>) {
    && |run| > 0
    && Init(run[0])
    && forall i :: 0 <= i < |run| - 1 ==> StepsAt(run, i)
  }

  // ----- Invariant -----

  /** The lock is held exactly by the thread whose program counter says so. */
  ghost predicate LockInv(s: State) {
    && (s.lock.Some? ==> s.lock.value in s.threads)
    && forall t :: t in s.threads ==> (HoldsLock(s.threads[t]) <==> s.lock == Some(t))
  }

  /** `w` is the one reload inside its close-the-old window, if there is one. */
  ghost predicate WindowInv(s: State, w: Option<Thread>) {
    && (w.Some? ==> w.value in s.threads)
    && forall t :: t in s.threads ==> (InWindow(s.threads[t]) <==> w == Some(t))
  }

  /** Close is called only on installed instances, and on none twice. */
  ghost predicate ClosedOnce(s: State) {
    && (forall i :: 0 <= i < |s.closeCalls| ==> s.closeCalls[i] < s.installed)
    && (forall i, j :: 0 <= i < j < |s.closeCalls| ==> s.closeCalls[i] != s.closeCalls[j])
  }

  ghost predicate NoLeak(s: State) {
    && (s.current.Some? ==> s.current.value < s.installed)
    && forall x: Instance :: x < s.installed ==> s.current == Some(x) || x in s.closeCalls
  }

  /** The window still belongs to the current instance, which it closes. */
  ghost predicate WindowOwnsCurrent(s: State, w: Option<Thread>) {
    w.Some? && w.value in s.threads && InWindow(s.threads[w.value]) ==>
      var pc := s.threads[w.value];
      && s.current == Some(pc.victim)
      && (s.status.Stopping? || s.status.Fatal?)
      && (pc.ReloadClosingOld? <==> pc.victim !in s.closeCalls)
  }

  ghost predicate CurrentClosed(s: State) {
    s.current.Some? && s.current.value in s.closeCalls
  }

  /** What the state is between two of the lock holder's steps; outside the composite updates of a
      reload or a close it is settled. */
  ghost predicate HolderInv(s: State, w: Option<Thread>) {
    var pc := if s.lock.Some? && s.lock.value in s.threads then s.threads[s.lock.value] else Returned;
    match pc
    case ReloadReplacing(replaced) =>
      && w.None? && s.current == replaced
      && (if replaced.Some? then CurrentClosed(s) && (s.status.Stopping? || s.status.Fatal?) else s.status.Idle?)
    case ReloadCreating(replaced) =>
      && w.None? && s.current == replaced && s.status.Starting? && (replaced.Some? ==> CurrentClosed(s))
    case CloseClosing => w.None? && s.status.Stopping? && s.current.Some? && !CurrentClosed(s)
    case CloseClosed(_) => w.None? && s.status.Stopping? && CurrentClosed(s)
    case _ =>
      && (s.status.Starting? || s.status.Started? ==> s.current.Some? && !CurrentClosed(s))
      && (s.status.Idle? ==> s.current.None?)
      && (s.status.Stopping? ==> w.Some?)
  }

  ghost predicate InvFor(s: State, w: Option<Thread>) {
    && LockInv(s) && WindowInv(s, w) && ClosedOnce(s) && NoLeak(s) && WindowOwnsCurrent(s, w) && HolderInv(s, w)
  }

  ghost predicate Inv(s: State) {
    exists w :: InvFor(s, w)
  }

  /** The reload inside its window after `t` moves to `pc`. */
  ghost function WindowAfter(w: Option<Thread>, t: Thread, pc: Pc): Option<Thread> {
    if InWindow(pc) then Some(t) else if w == Some(t) then None else w
  }

  lemma SpawnKeepsInv(s: State, s': State, t: Thread, w: Option<Thread>)
    requires InvFor(s, w) && Spawn(s, s', t)
    ensures InvFor(s', w)
  {
  }

  lemma AcquireKeepsInv(s: State, s': State, t: Thread, w: Option<Thread>)
    requires InvFor(s, w) && t in s.threads && Acquire(s, s', t)
    ensures InvFor(s', WindowAfter(w, t, s'.threads[t]))
  {
  }

  lemma ReloadCheckKeepsInv(s: State, s': State, t: Thread, w: Option<Thread>)
    requires InvFor(s, w) && t in s.threads && ReloadCheck(s, s', t)
    ensures InvFor(s', WindowAfter(w, t, s'.threads[t]))
  {
  }

  lemma ReloadCloseOldKeepsInv(s: State, s': State, t: Thread, w: Option<Thread>)
    requires InvFor(s, w) && t in s.threads && ReloadCloseOld(s, s', t)
    ensures InvFor(s', WindowAfter(w, t, s'.threads[t]))
  {
  }

  lemma ReloadSetStartingKeepsInv(s: State, s': State, t: Thread, w: Option<Thread>)
    requires InvFor(s, w) && t in s.threads && ReloadSetStarting(s, s', t)
    ensures InvFor(s', WindowAfter(w, t, s'.threads[t]))
  {
  }

  lemma ReloadCreateKeepsInv(s: State, s': State, t: Thread, w: Option<Thread>)
    requires InvFor(s, w) && t in s.threads && ReloadCreate(s, s', t)
    ensures InvFor(s', WindowAfter(w, t, s'.threads[t]))
  {
  }

  lemma ReloadStartKeepsInv(s: State, s': State, t: Thread, w: Option<Thread>)
    requires InvFor(s, w) && t in s.threads && ReloadStart(s, s', t)
    ensures InvFor(s', WindowAfter(w, t, s'.threads[t]))
  {
  }

  lemma ReloadFinishKeepsInv(s: State, s': State, t: Thread, w: Option<Thread>)
    requires InvFor(s, w) && t in s.threads && ReloadFinish(s, s', t)
    ensures InvFor(s', WindowAfter(w, t, s'.threads[t]))
  {
  }

  lemma CloseCheckKeepsInv(s: State, s': State, t: Thread, w: Option<Thread>)
    requires InvFor(s, w) && t in s.threads && CloseCheck(s, s', t)
    ensures InvFor(s', WindowAfter(w, t, s'.threads[t]))
  {
  }

  lemma CloseInstanceKeepsInv(s: State, s': State, t: Thread, w: Option<Thread>)
    requires InvFor(s, w) && t in s.threads && CloseInstance(s, s', t)
    ensures InvFor(s', WindowAfter(w, t, s'.threads[t]))
  {
  }

  lemma CloseFinishKeepsInv(s: State, s': State, t: Thread, w: Option<Thread>)
    requires InvFor(s, w) && t in s.threads && CloseFinish(s, s', t)
    ensures InvFor(s', WindowAfter(w, t, s'.threads[t]))
  {
  }

  lemma ErrorSetKeepsInv(s: State, s': State, t: Thread, w: Option<Thread>)
    requires InvFor(s, w) && t in s.threads && ErrorSet(s, s', t)
    ensures InvFor(s', WindowAfter(w, t, s'.threads[t]))
  {
  }

  lemma StepKeepsInv(s: State, s': State)
    requires Inv(s) && Step(s, s')
    ensures Inv(s')
  {
    var t :| Spawn(s, s', t) || ThreadStep(s, s', t);
    var w :| InvFor(s, w);
    if Spawn(s, s', t) { SpawnKeepsInv(s, s', t, w); }
    else if Acquire(s, s', t) { AcquireKeepsInv(s, s', t, w); }
    else if ReloadCheck(s, s', t) { ReloadCheckKeepsInv(s, s', t, w); }
    else if ReloadCloseOld(s, s', t) { ReloadCloseOldKeepsInv(s, s', t, w); }
    else if ReloadSetStarting(s, s', t) { ReloadSetStartingKeepsInv(s, s', t, w); }
    else if ReloadCreate(s, s', t) { ReloadCreateKeepsInv(s, s', t, w); }
    else if ReloadStart(s, s', t) { ReloadStartKeepsInv(s, s', t, w); }
    else if ReloadFinish(s, s', t) { ReloadFinishKeepsInv(s, s', t, w); }
    else if CloseCheck(s, s', t) { CloseCheckKeepsInv(s, s', t, w); }
    else if CloseInstance(s, s', t) { CloseInstanceKeepsInv(s, s', t, w); }
    else if CloseFinish(s, s', t) { CloseFinishKeepsInv(s, s', t, w); }
    else { ErrorSetKeepsInv(s, s', t, w); }
  }

  lemma {:induction false} RunKeepsInv(run: seq<State>, i: nat)
    requires IsRun(run) && i < |run|
    ensures Inv(run[i])
  {
    if i == 0 {
      assert InvFor(run[0], None);
    } else {
      RunKeepsInv(run, i - 1);
      assert StepsAt(run, i - 1);
      StepKeepsInv(run[i - 1], run[i]);
    }
  }

  lemma RunKeepsLock(run: seq<State>, i: nat)
    requires IsRun(run) && i < |run|
    ensures LockInv(run[i])
  {
    RunKeepsInv(run, i);
  }

  // ----- What every interleaving keeps -----

  function CloseCount(calls: seq<Instance>, x: Instance): (n: nat) {
    if calls == [] then 0
    else CloseCount(calls[..|calls| - 1], x) + if calls[|calls| - 1] == x then 1 else 0
  }

  lemma {:induction false} DistinctCallsCount(calls: seq<Instance>, x: Instance)
    requires forall i, j :: 0 <= i < j < |calls| ==> calls[i] != calls[j]
    ensures CloseCount(calls, x) == if x in calls then 1 else 0
  {
    if calls != [] {
      var init := calls[..|calls| - 1];
      DistinctCallsCount(init, x);
      assert calls == init + [calls[|calls| - 1]];
    }
  }

  /** No double close, no close of an instance that was never installed, and no leak. */
  lemma EveryInstanceIsCurrentOrClosedOnce(run: seq<State>, i: nat, x: Instance)
    requires IsRun(run) && i < |run|
    ensures CloseCount(run[i].closeCalls, x) <= 1
    ensures x >= run[i].installed ==> CloseCount(run[i].closeCalls, x) == 0
    ensures x < run[i].installed && run[i].current != Some(x) ==> CloseCount(run[i].closeCalls, x) == 1
  {
    RunKeepsInv(run, i);
    DistinctCallsCount(run[i].closeCalls, x);
  }

  /** What a caller sees whenever `serviceAccess` is free. */
  lemma LockFreeStatus(run: seq<State>, i: nat)
    requires IsRun(run) && i < |run| && run[i].lock.None?
    ensures var s := run[i];
      && (s.status.Starting? || s.status.Started? ==>
            s.current.Some? && s.current.value < s.installed && CloseCount(s.closeCalls, s.current.value) == 0)
      && (s.status.Idle? ==> s.current.None?)
      && (forall t, u :: t in s.threads && u in s.threads && InWindow(s.threads[t]) && InWindow(s.threads[u]) ==> t == u)
      && (s.status.Stopping? ==> exists t :: t in s.threads && InWindow(s.threads[t]))
      && (s.status.Idle? || s.status.Starting? || s.status.Started? ==>
            forall t :: t in s.threads ==> !InWindow(s.threads[t]))
  {
    var s := run[i];
    RunKeepsInv(run, i);
    var w :| InvFor(s, w);
    if s.current.Some? {
      DistinctCallsCount(s.closeCalls, s.current.value);
    }
  }

  lemma FatalLeftBySetStarting(s: State, s': State)
    requires LockInv(s) && Step(s, s') && s.status.Fatal? && !s'.status.Fatal?
    requires exists w :: HolderInv(s, w)
    ensures exists t :: t in s.threads && s.threads[t].ReloadReplacing? && s.threads[t].replaced.Some? && ReloadSetStarting(s, s', t)
  {
    var t :| Spawn(s, s', t) || ThreadStep(s, s', t);
    assert ReloadSetStarting(s, s', t);
  }

  /** Only the lock holder changes the status. */
  lemma BystanderKeepsStatus(s: State, s': State, u: Thread)
    requires u in s.threads && !HoldsLock(s.threads[u]) && ThreadStep(s, s', u)
    ensures s'.status == s.status
  {
  }

  lemma ReplacingBackstep(s: State, s': State, t: Thread)
    requires LockInv(s) && Step(s, s') && t in s'.threads
    requires s'.threads[t].ReloadReplacing? && s'.threads[t].replaced.Some?
    ensures t in s.threads && s'.status == s.status
    ensures (InWindow(s.threads[t]) && s.lock.None?) || s.threads[t] == s'.threads[t]
  {
    var u :| Spawn(s, s', u) || ThreadStep(s, s', u);
    if Spawn(s, s', u) {
      assert u != t;
    } else if u != t {
      assert s.threads[t] == s'.threads[t];
      assert HoldsLock(s.threads[t]) && s.lock == Some(t);
      assert !HoldsLock(s.threads[u]);
      BystanderKeepsStatus(s, s', u);
    } else {
      assert Acquire(s, s', t);
    }
  }

  /** A thread that holds the lock after its window got there from the window, with the status unchanged. */
  lemma {:induction false} ReplacingCameFromWindow(run: seq<State>, i: nat, t: Thread) returns (j: nat)
    requires IsRun(run) && i < |run| && t in run[i].threads
    requires run[i].threads[t].ReloadReplacing? && run[i].threads[t].replaced.Some?
    ensures j < i && t in run[j].threads && InWindow(run[j].threads[t]) && run[j].lock.None?
    ensures forall k :: j <= k <= i ==> run[k].status == run[i].status
    ensures forall k :: j < k <= i ==> t in run[k].threads && run[k].threads[t] == run[i].threads[t]
  {
    assert i > 0;
    RunKeepsLock(run, i - 1);
    assert StepsAt(run, i - 1);
    ReplacingBackstep(run[i - 1], run[i], t);
    if run[i - 1].threads[t] == run[i].threads[t] {
      j := ReplacingCameFromWindow(run, i - 1, t);
    } else {
      j := i - 1;
    }
  }

  /** Thread t takes the step out of FATAL at i; at j it was in its window with the lock free, and FATAL held since. */
  ghost predicate LeavesFromWindow(run: seq<State>, i: nat, j: nat, t: Thread)
    requires i + 1 < |run|
  {
    && j < i && t in run[j].threads && InWindow(run[j].threads[t]) && run[j].lock.None?
    && (forall k :: j <= k <= i ==> run[k].status.Fatal?)
    && t in run[i].threads && ReloadSetStarting(run[i], run[i + 1], t)
  }

  /** FATAL is left only by a reload that was already inside its window, with the lock free, while the
      service was FATAL. */
  lemma FatalLeftOnlyFromWindow(run: seq<State>, i: nat)
    requires IsRun(run) && i + 1 < |run| && run[i].status.Fatal? && !run[i + 1].status.Fatal?
    ensures run[i + 1].status.Starting?
    ensures exists j, t :: LeavesFromWindow(run, i, j, t)
  {
    RunKeepsInv(run, i);
    assert StepsAt(run, i);
    FatalLeftBySetStarting(run[i], run[i + 1]);
    var t :| t in run[i].threads && run[i].threads[t].ReloadReplacing? && run[i].threads[t].replaced.Some?
          && ReloadSetStarting(run[i], run[i + 1], t);
    var j := ReplacingCameFromWindow(run, i, t);
    assert LeavesFromWindow(run, i, j, t);
  }

  // ----- FATAL as an end state -----

  /** FATAL, and no reload is in its window or on its way out of it. */
  ghost predicate Dead(s: State) {
    && s.status.Fatal?
    && forall t :: t in s.threads ==> !InWindow(s.threads[t]) && !s.threads[t].ReloadReplacing?
  }

  /** What a dead service does not do any more. */
  lemma DeadStep(s: State, s': State)
    requires Inv(s) && Step(s, s') && Dead(s)
    ensures Dead(s') && s'.current == s.current && s'.closeCalls == s.closeCalls && s'.installed == s.installed
  {
    var t :| Spawn(s, s', t) || ThreadStep(s, s', t);
    var w :| InvFor(s, w);
    assert LockInv(s) && HolderInv(s, w);
    hide InvFor, Inv, ClosedOnce, NoLeak, WindowOwnsCurrent, WindowInv, CurrentClosed;
    if ThreadStep(s, s', t) {
      DeadThreadStep(s, s', t, w);
      hide ThreadStep;
    }
  }

  lemma DeadThreadStep(s: State, s': State, t: Thread, w: Option<Thread>)
    requires LockInv(s) && HolderInv(s, w) && Dead(s) && ThreadStep(s, s', t)
    ensures s'.threads.Keys == s.threads.Keys && forall u :: u in s.threads && u != t ==> s'.threads[u] == s.threads[u]
    ensures s'.status.Fatal? && !InWindow(s'.threads[t]) && !s'.threads[t].ReloadReplacing?
    ensures s'.current == s.current && s'.closeCalls == s.closeCalls && s'.installed == s.installed
  {
    hide CurrentClosed;
    assert HoldsLock(s.threads[t]) ==> s.lock == Some(t);
  }

  /** FATAL with the lock free and no reload in its window is for ever: nothing is installed and nothing is closed any
      more, so an instance that is current then stays current and is never closed. */
  lemma {:induction false} FatalIsAbsorbing(run: seq<State>, i: nat, j: nat)
    requires IsRun(run) && i <= j < |run|
    requires run[i].status.Fatal? && run[i].lock.None?
    requires forall t :: t in run[i].threads ==> !InWindow(run[i].threads[t])
    ensures Dead(run[j]) && run[j].current == run[i].current && run[j].closeCalls == run[i].closeCalls
    ensures run[j].installed == run[i].installed
    decreases j
  {
    if j == i {
      RunKeepsLock(run, i);
    } else {
      FatalIsAbsorbing(run, i, j - 1);
      RunKeepsInv(run, j - 1);
      assert StepsAt(run, j - 1);
      hide Dead, Inv, Step;
      DeadStep(run[j - 1], run[j]);
    }
  }

  /** A reload in its window can go on to close the current instance, if it has not yet, and to leave FATAL. */
  lemma WindowLeadsOut(run: seq<State>, t: Thread) returns (longer: seq<State>)
    requires IsRun(run) && run[|run| - 1].lock.None?
    requires t in run[|run| - 1].threads && InWindow(run[|run| - 1].threads[t])
    ensures IsRun(longer) && run <= longer
    ensures var s := longer[|longer| - 1]; s.status.Starting? && s.current == run[|run| - 1].current && CurrentClosed(s)
  {
    var s := run[|run| - 1];
    var victim := s.threads[t].victim;
    VictimIsCurrent(run, t);
    hide IsRun;
    longer := run;
    if s.threads[t].ReloadClosingOld? {
      var s1 := s.(closeCalls := s.closeCalls + [victim], threads := s.threads[t := ReloadClosedOld(victim)]);
      assert ReloadCloseOld(s, s1, t);
      longer := Extend(run, s1, t);
      s := s1;
    }
    assert victim in s.closeCalls;
    var s2 := s.(lock := Some(t), threads := s.threads[t := ReloadReplacing(Some(victim))]);
    assert Acquire(s, s2, t);
    var s3 := s2.(status := Starting, threads := s2.threads[t := ReloadCreating(Some(victim))]);
    assert ReloadSetStarting(s2, s3, t);
    hide Acquire, ReloadSetStarting, ReloadCloseOld;
    longer := Extend(longer, s2, t);
    longer := Extend(longer, s3, t);
  }

  lemma VictimIsCurrent(run: seq<State>, t: Thread)
    requires IsRun(run) && t in run[|run| - 1].threads && InWindow(run[|run| - 1].threads[t])
    ensures var s := run[|run| - 1];
      s.current == Some(s.threads[t].victim) && (s.threads[t].ReloadClosedOld? ==> CurrentClosed(s))
  {
    RunKeepsInv(run, |run| - 1);
  }

  /** Nothing changes any more about status, current instance and the calls of Close. */
  ghost predicate FinalAfter(s: State, later: State) {
    later.status == s.status && later.current == s.current && later.closeCalls == s.closeCalls
  }

  /** FATAL with the lock free is final, in every continuation, exactly when no reload is in its window. */
  lemma FatalIsFinalIff(run: seq<State>)
    requires IsRun(run) && run[|run| - 1].status.Fatal? && run[|run| - 1].lock.None?
    ensures var s := run[|run| - 1];
      (forall longer :: IsRun(longer) && run <= longer ==> FinalAfter(s, longer[|longer| - 1])) <==>
      (forall t :: t in s.threads ==> !InWindow(s.threads[t]))
  {
    var s := run[|run| - 1];
    if t :| t in s.threads && InWindow(s.threads[t]) {
      var longer := WindowLeadsOut(run, t);
      assert !FinalAfter(s, longer[|longer| - 1]);
    } else {
      forall longer | IsRun(longer) && run <= longer ensures FinalAfter(s, longer[|longer| - 1]) {
        FatalIsAbsorbing(longer, |run| - 1, |longer| - 1);
      }
    }
  }

  /** Such a state is reached by one reload whose instance fails to start, and its instance is open: it stays open. */
  lemma FailedStartLeavesInstanceOpen() returns (run: seq<State>)
    ensures IsRun(run) && |run| > 0
    ensures run[|run| - 1] == State(Fatal, Some(0), None, map[0 := Returned], 1, [])
    ensures exists j :: 0 <= j < |run| - 1 && StartReturned(run, j, 0, true)
  {
    run := ReloadInstalls();
    hide IsRun;
    var s := run[|run| - 1];
    var s1 := State(Starting, Some(0), None, map[0 := ReloadStartDone(true)], 1, []);
    var s2 := State(Starting, Some(0), Some(0), map[0 := ReloadFinishing(true)], 1, []);
    var s3 := State(Fatal, Some(0), None, map[0 := Returned], 1, []);
    assert ReloadStart(s, s1, 0) by { assert s1 == s.(threads := s.threads[0 := ReloadStartDone(true)]); }
    assert Acquire(s1, s2, 0);
    assert ReloadFinish(s2, s3, 0);
    hide ReloadStart, Acquire, ReloadFinish;
    var j := |run| - 1;
    run := Extend(run, s1, 0);
    assert StartReturned(run, j, 0, true);
    var first := run;
    run := Extend(run, s2, 0);
    run := Extend(run, s3, 0);
    assert run[j] == first[j] && run[j + 1] == first[j + 1];
    assert StartReturned(run, j, 0, true);
  }

  /** A first reload up to installing its instance. */
  lemma ReloadInstalls() returns (run: seq<State>)
    ensures IsRun(run) && |run| > 0
    ensures run[|run| - 1] == State(Starting, Some(0), None, map[0 := ReloadStarting(0)], 1, [])
  {
    run := ReloadSetsStarting();
    hide IsRun;
    var s4 := run[|run| - 1];
    var s5 := State(Starting, Some(0), None, map[0 := ReloadStarting(0)], 1, []);
    assert ReloadCreate(s4, s5, 0);
    hide ReloadCreate;
    run := Extend(run, s5, 0);
  }

  lemma ReloadSetsStarting() returns (run: seq<State>)
    ensures IsRun(run) && |run| > 0
    ensures run[|run| - 1] == State(Starting, None, Some(0), map[0 := ReloadCreating(None)], 0, [])
  {
    var s0 := State(Idle, None, None, map[], 0, []);
    var s1 := s0.(threads := map[0 := ReloadCalled]);
    var s2 := State(Idle, None, Some(0), map[0 := ReloadChecking], 0, []);
    var s3 := State(Idle, None, Some(0), map[0 := ReloadReplacing(None)], 0, []);
    var s4 := State(Starting, None, Some(0), map[0 := ReloadCreating(None)], 0, []);
    assert IsCall(ReloadCalled) && s1 == s0.(threads := s0.threads[0 := ReloadCalled]);
    assert Spawn(s0, s1, 0);
    run := [s0, s1];
    assert StepsAt(run, 0);
    assert Acquire(s1, s2, 0);
    assert ReloadCheck(s2, s3, 0);
    assert ReloadSetStarting(s3, s4, 0);
    assert IsRun(run);
    hide IsRun, StepsAt, Acquire, ReloadCheck, ReloadSetStarting;
    run := Extend(run, s2, 0);
    run := Extend(run, s3, 0);
    run := Extend(run, s4, 0);
  }

  lemma Extend(run: seq<State>, s': State, t: Thread) returns (longer: seq<State>)
    requires IsRun(run) && |run| > 0 && ThreadStep(run[|run| - 1], s', t)
    ensures IsRun(longer) && longer == run + [s']
  {
    hide ThreadStep;
    longer := run + [s'];
    forall i | 0 <= i < |longer| - 1 ensures StepsAt(longer, i) {
      assert i < |run| - 1 ==> StepsAt(run, i);
    }
  }

  // ----- Which outcome sets which status -----

  /** The step at which a thread got where it is. */
  lemma {:induction false} CameHere(run: seq<State>, i: nat, t: Thread) returns (j: nat)
    requires IsRun(run) && i < |run| && t in run[i].threads
    ensures j < i && (t in run[j].threads ==> run[j].threads[t] != run[i].threads[t])
    ensures forall k :: j < k <= i ==> t in run[k].threads && run[k].threads[t] == run[i].threads[t]
  {
    assert i > 0;
    if t in run[i - 1].threads && run[i - 1].threads[t] == run[i].threads[t] {
      j := CameHere(run, i - 1, t);
    } else {
      j := i - 1;
    }
  }

  /** A thread moves only by its own steps. */
  lemma MovedByItself(s: State, s': State, t: Thread)
    requires Step(s, s') && t in s.threads && t in s'.threads && s.threads[t] != s'.threads[t]
    ensures ThreadStep(s, s', t)
  {
    var u :| Spawn(s, s', u) || ThreadStep(s, s', u);
    if u != t {
      OthersStay(s, s', u, t);
    }
  }

  lemma OthersStay(s: State, s': State, u: Thread, t: Thread)
    requires (Spawn(s, s', u) || ThreadStep(s, s', u)) && t != u && t in s.threads
    ensures t in s'.threads && s'.threads[t] == s.threads[t]
  {
  }

  /** A call arrives at its first point. */
  lemma NewcomersAreCalls(s: State, s': State, t: Thread)
    requires Step(s, s') && t !in s.threads && t in s'.threads
    ensures IsCall(s'.threads[t])
  {
  }

  lemma CameToFinishing(s: State, s': State, t: Thread)
    requires Step(s, s') && t in s'.threads && (t in s.threads ==> s.threads[t] != s'.threads[t])
    requires s'.threads[t].ReloadFinishing?
    ensures t in s.threads && s.threads[t] == ReloadStartDone(s'.threads[t].failed)
  {
    hide Step, ThreadStep;
    if t in s.threads { MovedByItself(s, s', t); OnlyAcquireFinishes(s, s', t); } else { NewcomersAreCalls(s, s', t); }
  }

  lemma OnlyAcquireFinishes(s: State, s': State, t: Thread)
    requires ThreadStep(s, s', t) && t in s'.threads && s'.threads[t].ReloadFinishing?
    ensures s.threads[t] == ReloadStartDone(s'.threads[t].failed)
  {
  }

  lemma CameToStartDone(s: State, s': State, t: Thread)
    requires Step(s, s') && t in s'.threads && (t in s.threads ==> s.threads[t] != s'.threads[t])
    requires s'.threads[t].ReloadStartDone?
    ensures t in s.threads && s.threads[t].ReloadStarting?
  {
    hide Step, ThreadStep;
    if t in s.threads { MovedByItself(s, s', t); OnlyStartIsDone(s, s', t); } else { NewcomersAreCalls(s, s', t); }
  }

  lemma OnlyStartIsDone(s: State, s': State, t: Thread)
    requires ThreadStep(s, s', t) && t in s'.threads && s'.threads[t].ReloadStartDone?
    ensures s.threads[t].ReloadStarting?
  {
  }

  lemma CameToClosed(s: State, s': State, t: Thread)
    requires Step(s, s') && t in s'.threads && (t in s.threads ==> s.threads[t] != s'.threads[t])
    requires s'.threads[t].CloseClosed?
    ensures t in s.threads && CloseInstance(s, s', t)
  {
    hide Step, ThreadStep, CloseInstance;
    if t in s.threads { MovedByItself(s, s', t); OnlyCloseCloses(s, s', t); } else { NewcomersAreCalls(s, s', t); }
  }

  lemma OnlyCloseCloses(s: State, s': State, t: Thread)
    requires ThreadStep(s, s', t) && t in s'.threads && s'.threads[t].CloseClosed?
    ensures CloseInstance(s, s', t)
  {
  }

  lemma FinishersFinish(s: State, s': State, t: Thread)
    requires ThreadStep(s, s', t)
    ensures s.threads[t].ReloadFinishing? ==> ReloadFinish(s, s', t)
    ensures s.threads[t].CloseClosed? ==> CloseFinish(s, s', t)
  {
  }

  /** Thread t's call of Start returned at step j, failing or not. */
  ghost predicate StartReturned(run: seq<State>, j: nat, t: Thread, failed: bool)
    requires j + 1 < |run|
  {
    && t in run[j].threads && run[j].threads[t].ReloadStarting?
    && t in run[j + 1].threads && run[j + 1].threads[t] == ReloadStartDone(failed)
  }

  /** A reload about to finish carries the result of its own Start. */
  lemma FinishingKnowsItsStart(run: seq<State>, i: nat, t: Thread) returns (j: nat)
    requires IsRun(run) && i < |run| && t in run[i].threads && run[i].threads[t].ReloadFinishing?
    ensures j + 1 < i && StartReturned(run, j, t, run[i].threads[t].failed)
  {
    var k := CameHere(run, i, t);
    assert StepsAt(run, k);
    hide Step;
    CameToFinishing(run[k], run[k + 1], t);
    j := CameHere(run, k, t);
    assert StepsAt(run, j);
    CameToStartDone(run[j], run[j + 1], t);
  }

  /** A reload that finishes while its STARTING still stands leaves FATAL exactly when its own Start failed, and STARTED
      otherwise; one that finds another status changes nothing. */
  lemma FinishTellsOutcome(run: seq<State>, i: nat, t: Thread) returns (j: nat)
    requires IsRun(run) && i + 1 < |run| && t in run[i].threads && t in run[i + 1].threads
    requires run[i].threads[t].ReloadFinishing? && run[i + 1].threads[t].Returned?
    ensures j + 1 < i && StartReturned(run, j, t, run[i].threads[t].failed)
    ensures run[i].status.Starting? ==> run[i + 1].status == if run[i].threads[t].failed then Fatal else Started
    ensures !run[i].status.Starting? ==> run[i + 1].status == run[i].status
  {
    j := FinishingKnowsItsStart(run, i, t);
    assert StepsAt(run, i);
    hide StartReturned, Step, ThreadStep;
    MovedByItself(run[i], run[i + 1], t);
    FinishersFinish(run[i], run[i + 1], t);
  }

  /** STARTED is reached only through a Start that succeeded, and IDLE only through a Close that did. */
  lemma StartedMeansStartSucceeded(run: seq<State>, i: nat) returns (j: nat, t: Thread)
    requires IsRun(run) && i + 1 < |run| && !run[i].status.Started? && run[i + 1].status.Started?
    ensures j + 1 < i && StartReturned(run, j, t, false)
    ensures t in run[i].threads && run[i].threads[t] == ReloadFinishing(false) && run[i].status.Starting?
  {
    assert StepsAt(run, i);
    t :| Spawn(run[i], run[i + 1], t) || ThreadStep(run[i], run[i + 1], t);
    j := FinishingKnowsItsStart(run, i, t);
  }

  /** A CloseService that got through leaves FATAL exactly when closing failed, and otherwise IDLE without an instance;
      what it closed was the current instance. */
  lemma CloseTellsOutcome(run: seq<State>, i: nat, t: Thread) returns (j: nat)
    requires IsRun(run) && i + 1 < |run| && t in run[i].threads && t in run[i + 1].threads
    requires run[i].threads[t].CloseClosed? && run[i + 1].threads[t].Returned?
    ensures j < i && t in run[j].threads && run[j].threads[t].CloseClosing? && run[j].current.Some?
    ensures run[j + 1].closeCalls == run[j].closeCalls + [run[j].current.value]
    ensures run[i + 1].status == if run[i].threads[t].closeFailed then Fatal else Idle
    ensures run[i + 1].current == if run[i].threads[t].closeFailed then run[i].current else None
  {
    hide Step, ThreadStep, CloseFinish, CloseInstance;
    j := CameHere(run, i, t);
    assert StepsAt(run, j);
    CameToClosed(run[j], run[j + 1], t);
    ClosedCurrent(run, j, t);
    assert StepsAt(run, i);
    MovedByItself(run[i], run[i + 1], t);
    FinishersFinish(run[i], run[i + 1], t);
    CloseFinishSets(run[i], run[i + 1], t);
  }

  lemma ClosedCurrent(run: seq<State>, j: nat, t: Thread)
    requires IsRun(run) && j + 1 < |run| && t in run[j].threads && CloseInstance(run[j], run[j + 1], t)
    ensures run[j].threads[t].CloseClosing? && run[j].current.Some?
    ensures run[j + 1].closeCalls == run[j].closeCalls + [run[j].current.value]
  {
    RunKeepsInv(run, j);
    var s := run[j];
    var w :| InvFor(s, w);
    hide ClosedOnce, NoLeak, WindowOwnsCurrent, WindowInv, CurrentClosed;
    assert s.lock == Some(t);
  }

  lemma CloseFinishSets(s: State, s': State, t: Thread)
    requires t in s.threads && CloseFinish(s, s', t)
    ensures s'.status == if s.threads[t].closeFailed then Fatal else Idle
    ensures s'.current == if s.threads[t].closeFailed then s.current else None
  {
  }

  lemma IdleMeansCloseSucceeded(run: seq<State>, i: nat) returns (t: Thread)
    requires IsRun(run) && i + 1 < |run| && !run[i].status.Idle? && run[i + 1].status.Idle?
    ensures t in run[i].threads && run[i].threads[t] == CloseClosed(false)
  {
    assert StepsAt(run, i);
    t :| Spawn(run[i], run[i + 1], t) || ThreadStep(run[i], run[i + 1], t);
  }

  /** A reload gets past its check exactly in IDLE, STARTING and STARTED, and then either drops the lock to close the
      current instance or, without one, goes on at once; otherwise it returns and changes nothing. */
  lemma ReloadAdmission(run: seq<State>, i: nat, t: Thread)
    requires IsRun(run) && i + 1 < |run| && t in run[i].threads && t in run[i + 1].threads
    requires run[i].threads[t].ReloadChecking? && run[i + 1].threads[t] != run[i].threads[t]
    ensures var s, s' := run[i], run[i + 1];
      && (s'.threads[t].Returned? <==> !(s.status.Idle? || s.status.Starting? || s.status.Started?))
      && (s'.threads[t].Returned? ==> s'.status == s.status && s'.current == s.current && s'.lock.None?)
      && (!s'.threads[t].Returned? && s.current.Some? ==>
            s'.threads[t] == ReloadClosingOld(s.current.value) && s'.status.Stopping? && s'.lock.None?)
      && (!s'.threads[t].Returned? && s.current.None? ==> s'.threads[t] == ReloadReplacing(None) && s'.lock == Some(t))
  {
    RunKeepsLock(run, i);
    assert StepsAt(run, i);
    hide Step, ThreadStep;
    MovedByItself(run[i], run[i + 1], t);
    CheckersCheck(run[i], run[i + 1], t);
  }

  lemma CheckersCheck(s: State, s': State, t: Thread)
    requires ThreadStep(s, s', t)
    ensures s.threads[t].ReloadChecking? ==> ReloadCheck(s, s', t)
    ensures s.threads[t].CloseChecking? ==> CloseCheck(s, s', t)
    ensures s.threads[t].ErrorSetting? ==> ErrorSet(s, s', t)
  {
  }

  /** A close gets past its check exactly in STARTING and STARTED. */
  lemma CloseAdmission(run: seq<State>, i: nat, t: Thread)
    requires IsRun(run) && i + 1 < |run| && t in run[i].threads && t in run[i + 1].threads
    requires run[i].threads[t].CloseChecking? && run[i + 1].threads[t] != run[i].threads[t]
    ensures var s, s' := run[i], run[i + 1];
      && (s'.threads[t].Returned? <==> !(s.status.Starting? || s.status.Started?))
      && (s'.threads[t].Returned? ==> s'.status == s.status && s'.current == s.current && s'.lock.None?)
      && (!s'.threads[t].Returned? ==> s'.threads[t].CloseClosing? && s'.status.Stopping?)
  {
    assert StepsAt(run, i);
    hide Step, ThreadStep;
    MovedByItself(run[i], run[i + 1], t);
    CheckersCheck(run[i], run[i + 1], t);
  }

  /** SetError makes any status FATAL and touches nothing else. */
  lemma SetErrorIsFatal(run: seq<State>, i: nat, t: Thread)
    requires IsRun(run) && i + 1 < |run| && t in run[i].threads && t in run[i + 1].threads
    requires run[i].threads[t].ErrorSetting? && run[i + 1].threads[t] != run[i].threads[t]
    ensures run[i + 1].status.Fatal? && run[i + 1].threads[t].Returned? && run[i + 1].lock.None?
    ensures run[i + 1].current == run[i].current && run[i + 1].closeCalls == run[i].closeCalls
  {
    assert StepsAt(run, i);
    hide Step, ThreadStep;
    MovedByItself(run[i], run[i + 1], t);
    CheckersCheck(run[i], run[i + 1], t);
  }

  /** One reload whose instance cannot be made ends in FATAL without one. */
  lemma FailedCreation() returns (run: seq<State>)
    ensures IsRun(run) && |run| > 0
    ensures run[|run| - 1] == State(Fatal, None, None, map[0 := Returned], 0, [])
  {
    run := ReloadSetsStarting();
    hide IsRun;
    var s := run[|run| - 1];
    var s1 := State(Fatal, None, None, map[0 := Returned], 0, []);
    assert ReloadCreate(s, s1, 0) by { assert s1 == s.(status := Fatal, lock := None, threads := s.threads[0 := Returned]); }
    hide ReloadCreate;
    run := Extend(run, s1, 0);
  }

  /** One reload whose Start succeeds ends in STARTED. */
  lemma SuccessfulReload() returns (run: seq<State>)
    ensures IsRun(run) && |run| > 0
    ensures run[|run| - 1] == State(Started, Some(0), None, map[0 := Returned], 1, [])
  {
    run := ReloadInstalls();
    hide IsRun;
    var s := run[|run| - 1];
    var s1 := State(Starting, Some(0), None, map[0 := ReloadStartDone(false)], 1, []);
    var s2 := State(Starting, Some(0), Some(0), map[0 := ReloadFinishing(false)], 1, []);
    var s3 := State(Started, Some(0), None, map[0 := Returned], 1, []);
    assert ReloadStart(s, s1, 0) by { assert s1 == s.(threads := s.threads[0 := ReloadStartDone(false)]); }
    assert Acquire(s1, s2, 0);
    assert ReloadFinish(s2, s3, 0);
    hide ReloadStart, Acquire, ReloadFinish;
    run := Extend(run, s1, 0);
    run := Extend(run, s2, 0);
    run := Extend(run, s3, 0);
  }

  /** And closing it then ends in IDLE with the instance closed, or, if closing fails, in FATAL with it still current. */
  lemma CloseAfterReload(failed: bool) returns (run: seq<State>)
    ensures IsRun(run) && |run| > 0
    ensures run[|run| - 1] == State(if failed then Fatal else Idle, if failed then Some(0) else None, None,
                                    map[0 := Returned, 1 := Returned], 1, [0])
  {
    run := SuccessfulReload();
    var s0 := run[|run| - 1];
    var s1 := s0.(threads := map[0 := Returned, 1 := CloseCalled]);
    assert IsCall(CloseCalled) && s1 == s0.(threads := s0.threads[1 := CloseCalled]);
    assert Spawn(s0, s1, 1);
    run := SpawnExtends(run, s1, 1);
    hide IsRun;
    var s2 := State(Started, Some(0), Some(1), map[0 := Returned, 1 := CloseChecking], 1, []);
    var s3 := State(Stopping, Some(0), Some(1), map[0 := Returned, 1 := CloseClosing], 1, []);
    var s4 := State(Stopping, Some(0), Some(1), map[0 := Returned, 1 := CloseClosed(failed)], 1, [0]);
    var s5 := State(if failed then Fatal else Idle, if failed then Some(0) else None, None, map[0 := Returned, 1 := Returned], 1, [0]);
    assert Acquire(s1, s2, 1);
    assert CloseCheck(s2, s3, 1);
    assert CloseInstance(s3, s4, 1) by {
      assert s4 == s3.(closeCalls := s3.closeCalls + [0], threads := s3.threads[1 := CloseClosed(failed)]);
    }
    assert CloseFinish(s4, s5, 1);
    hide Acquire, CloseCheck, CloseInstance, CloseFinish;
    run := Extend(run, s2, 1);
    run := Extend(run, s3, 1);
    run := Extend(run, s4, 1);
    run := Extend(run, s5, 1);
  }

  lemma SpawnExtends(run: seq<State>, s': State, t: Thread) returns (longer: seq<State>)
    requires IsRun(run) && |run| > 0 && Spawn(run[|run| - 1], s', t)
    ensures IsRun(longer) && longer == run + [s']
  {
    hide Spawn;
    longer := run + [s'];
    forall i | 0 <= i < |longer| - 1 ensures StepsAt(longer, i) {
      assert i < |run| - 1 ==> StepsAt(run, i);
    }
  }

  /** No interleaving deadlocks: while a call is unfinished, some call can take a step. */
  lemma SomeCallCanStep(run: seq<State>, i: nat, t: Thread)
    requires IsRun(run) && i < |run| && t in run[i].threads && !run[i].threads[t].Returned?
    ensures exists s', u :: ThreadStep(run[i], s', u)
  {
    var s := run[i];
    RunKeepsInv(run, i);
    var u := if s.lock.Some? then s.lock.value else t;
    var next :=
      match s.threads[u]
      case ReloadCalled => s.(lock := Some(u), threads := s.threads[u := ReloadChecking])
      case ReloadClosedOld(victim) => s.(lock := Some(u), threads := s.threads[u := ReloadReplacing(Some(victim))])
      case ReloadStartDone(failed) => s.(lock := Some(u), threads := s.threads[u := ReloadFinishing(failed)])
      case CloseCalled => s.(lock := Some(u), threads := s.threads[u := CloseChecking])
      case ErrorCalled => s.(lock := Some(u), threads := s.threads[u := ErrorSetting])
      case ReloadChecking =>
        if s.status.Stopping? || s.status.Fatal? then s.(lock := None, threads := s.threads[u := Returned])
        else if s.current.Some? then
          s.(status := Stopping, lock := None, threads := s.threads[u := ReloadClosingOld(s.current.value)])
        else s.(threads := s.threads[u := ReloadReplacing(None)])
      case ReloadClosingOld(victim) =>
        s.(closeCalls := s.closeCalls + [victim], threads := s.threads[u := ReloadClosedOld(victim)])
      case ReloadReplacing(replaced) => s.(status := Starting, threads := s.threads[u := ReloadCreating(replaced)])
      case ReloadCreating(_) => s.(status := Fatal, lock := None, threads := s.threads[u := Returned])
      case ReloadStarting(_) => s.(threads := s.threads[u := ReloadStartDone(false)])
      case ReloadFinishing(failed) =>
        s.(lock := None, threads := s.threads[u := Returned],
           status := if !s.status.Starting? then s.status else if failed then Fatal else Started)
      case CloseChecking =>
        if s.status.Starting? || s.status.Started? then s.(status := Stopping, threads := s.threads[u := CloseClosing])
        else s.(lock := None, threads := s.threads[u := Returned])
      case CloseClosing =>
        s.(closeCalls := s.closeCalls + [s.current.value], threads := s.threads[u := CloseClosed(false)])
      case CloseClosed(failed) =>
        var done := s.(lock := None, threads := s.threads[u := Returned]);
        if failed then done.(status := Fatal) else done.(status := Idle, current := None)
      case ErrorSetting => s.(status := Fatal, lock := None, threads := s.threads[u := Returned])
      case Returned => s;
    assert ThreadStep(s, next, u);
  }
}
