/** The lock-free interlock between kTLS Write and Close on `ActiveCall`, as a step relation over any
    number of concurrent Write and Close calls.  Each atomic load, compare-and-swap and lock operation
    is a step of its own. */
module KtlsInterlock {
  import opened Common

  /** What has been handed to the kernel, in order. */
  datatype Record = AppData | CloseNotify | OtherRecord

  datatype Pc =
      // Write
    | WriteCalled                    // about to load ActiveCall
    | WriteLoaded(seen: int)         // loaded an even value, about to compare-and-swap
    | WriteAdmitted                  // swapped in x + 2, waiting for the out lock
    | WriteLocked                    // holds the out lock
    | WriteLeaving                   // out lock released, ActiveCall.Add(-2) pending
      // Close
    | CloseCalled
    | CloseLoaded(seen: int)
    | CloseAlone                     // swapped in x | 1 with x == 0
    | CloseNotifying                 // waiting for the out lock inside closeNotify
    | CloseLocked                    // holds the out lock inside closeNotify
    | CloseClosing                   // about to close the underlying connection
    | Returned

  datatype State = State(
    activeCall: int,                 // the atomic int32
    outLock: Option<nat>,
    outErr: bool,                    // *Out.Err != nil
    handshakeComplete: bool,
    closeNotifySent: bool,
    threads: seq<Pc>,
    passed: seq<nat>,                // the Close calls whose compare-and-swap succeeded
    log: seq<Record>
  )

  const TWO30: int := 0x4000_0000
  const TWO31: int := 0x8000_0000
  const TWO32: int := 0x1_0000_0000

  /** Two's-complement int32 arithmetic. */
  function Wrap32(n: int): int {
    (n + TWO31) % TWO32 - TWO31
  }

  predicate InFlight(pc: Pc) {
    pc.WriteAdmitted? || pc.WriteLocked? || pc.WriteLeaving?
  }

  predicate PastSwap(pc: Pc) {
    pc.CloseAlone? || pc.CloseNotifying? || pc.CloseLocked? || pc.CloseClosing?
  }

  predicate WillNotify(pc: Pc) {
    pc.CloseAlone? || pc.CloseNotifying? || pc.CloseLocked?
  }

  function WritersInFlight(threads: seq<Pc>): nat {
    if threads == [] then 0
    else WritersInFlight(threads[..|threads| - 1]) + if InFlight(threads[|threads| - 1]) then 1 else 0
  }

  ghost predicate Init(s: State) {
    && s.activeCall == 0 && s.outLock.None? && !s.closeNotifySent
    && s.threads == [] && s.passed == []
    && forall i :: 0 <= i < |s.log| ==> s.log[i].OtherRecord?
  }

  // ----- Steps -----

  function At(s: State, t: nat, pc: Pc): State
    requires t < |s.threads|
  {
    s.(threads := s.threads[t := pc])
  }

  ghost predicate Spawn(s: State, s': State) {
    s' == s.(threads := s.threads + [WriteCalled]) || s' == s.(threads := s.threads + [CloseCalled])
  }

  /** The reading side sends alerts and key updates under the out lock, and may finish the handshake. */
  ghost predicate Environment(s: State, s': State) {
    || s' == s.(handshakeComplete := true)
    || (s.outLock.None? &&
        (s' == s.(log := s.log + [OtherRecord]) || s' == s.(log := s.log + [OtherRecord], outErr := true)))
  }

  ghost predicate WriteLoad(s: State, s': State, t: nat)
    requires t < |s.threads|
  {
    && s.threads[t].WriteCalled?
    && s' == At(s, t, if s.activeCall % 2 != 0 then Returned else WriteLoaded(s.activeCall))
  }

  ghost predicate WriteSwap(s: State, s': State, t: nat)
    requires t < |s.threads|
  {
    && s.threads[t].WriteLoaded?
    && var x := s.threads[t].seen;
    && s' == if s.activeCall == x then At(s, t, WriteAdmitted).(activeCall := Wrap32(x + 2))
             else At(s, t, WriteCalled)
  }

  ghost predicate WriteLock(s: State, s': State, t: nat)
    requires t < |s.threads|
  {
    s.threads[t].WriteAdmitted? && s.outLock.None? && s' == At(s, t, WriteLocked).(outLock := Some(t))
  }

  predicate WriteRefused(s: State) {
    s.outErr || !s.handshakeComplete || s.closeNotifySent
  }

  /** Under the out lock: refuse, or write any number of application-data records, possibly recording an error. */
  ghost predicate WriteRecords(s: State, s': State, t: nat)
    requires t < |s.threads|
  {
    && s.threads[t].WriteLocked?
    && var done := At(s, t, WriteLeaving).(outLock := None);
    && if WriteRefused(s) then s' == done
       else exists written: seq<Record>, failed ::
         && (forall i :: 0 <= i < |written| ==> written[i] == AppData)
         && s' == done.(log := s.log + written, outErr := failed)
  }

  ghost predicate WriteLeave(s: State, s': State, t: nat)
    requires t < |s.threads|
  {
    s.threads[t].WriteLeaving? && s' == At(s, t, Returned).(activeCall := Wrap32(s.activeCall - 2))
  }

  ghost predicate CloseLoad(s: State, s': State, t: nat)
    requires t < |s.threads|
  {
    && s.threads[t].CloseCalled?
    && s' == At(s, t, if s.activeCall % 2 != 0 then Returned else CloseLoaded(s.activeCall))
  }

  /** `x | 1` is `x + 1` for the even `x` that gets here. */
  ghost predicate CloseSwap(s: State, s': State, t: nat)
    requires t < |s.threads|
  {
    && s.threads[t].CloseLoaded?
    && var x := s.threads[t].seen;
    && s' == if s.activeCall == x then
               At(s, t, if x != 0 then CloseClosing else CloseAlone).(activeCall := x + 1, passed := s.passed + [t])
             else At(s, t, CloseCalled)
  }

  ghost predicate CloseHandshake(s: State, s': State, t: nat)
    requires t < |s.threads|
  {
    && s.threads[t].CloseAlone?
    && s' == At(s, t, if s.handshakeComplete then CloseNotifying else CloseClosing)
  }

  ghost predicate CloseLock(s: State, s': State, t: nat)
    requires t < |s.threads|
  {
    s.threads[t].CloseNotifying? && s.outLock.None? && s' == At(s, t, CloseLocked).(outLock := Some(t))
  }

  /** Under the out lock: send close_notify once; the send itself may fail. */
  ghost predicate CloseSend(s: State, s': State, t: nat)
    requires t < |s.threads|
  {
    && s.threads[t].CloseLocked?
    && var done := At(s, t, CloseClosing).(outLock := None);
    && if s.closeNotifySent then s' == done
       else
         || s' == done.(closeNotifySent := true)
         || s' == done.(closeNotifySent := true, log := s.log + [CloseNotify])
  }

  ghost predicate CloseFinish(s: State, s': State, t: nat)
    requires t < |s.threads|
  {
    s.threads[t].CloseClosing? && s' == At(s, t, Returned)
  }

  ghost predicate ThreadStep(s: State, s': State, t: nat) {
    && t < |s.threads|
    && (|| WriteLoad(s, s', t) || WriteSwap(s, s', t) || WriteLock(s, s', t)
        || WriteRecords(s, s', t) || WriteLeave(s, s', t)
        || CloseLoad(s, s', t) || CloseSwap(s, s', t) || CloseHandshake(s, s', t)
        || CloseLock(s, s', t) || CloseSend(s, s', t) || CloseFinish(s, s', t))
  }

  ghost predicate Step(s: State, s': State) {
    Spawn(s, s') || Environment(s, s') || exists t :: ThreadStep(s, s', t)
  }

  ghost predicate StepsAt(run: seq<State>, i: int)
    requires 0 <= i < |run| - 1
  {
    Step(run[i], run[i + 1])
  }

  /** Runs in which fewer than 2^30 writers are ever inside Write at once. */
  ghost predicate IsRun(run: seq<State>) {
    && |run| > 0
    && Init(run[0])
    && (forall i :: 0 <= i < |run| - 1 ==> StepsAt(run, i))
    && (forall i :: 0 <= i < |run| ==> WritersInFlight(run[i].threads) < TWO30)
  }

  // ----- Counting -----

  function Flag(b: bool): nat {
    if b then 1 else 0
  }

  lemma {:induction false} CountUpdate(threads: seq<Pc>, t: nat, pc: Pc)
    requires t < |threads|
    ensures WritersInFlight(threads[t := pc]) + Flag(InFlight(threads[t])) == WritersInFlight(threads) + Flag(InFlight(pc))
  {
    var last := |threads| - 1;
    if t == last {
      assert threads[t := pc][..last] == threads[..last];
    } else {
      CountUpdate(threads[..last], t, pc);
      assert threads[t := pc][..last] == threads[..last][t := pc];
    }
  }

  lemma {:induction false} CountPositive(threads: seq<Pc>, t: nat)
    requires t < |threads| && InFlight(threads[t])
    ensures WritersInFlight(threads) > 0
  {
    CountUpdate(threads, t, Returned);
  }

  // ----- Invariant -----

  ghost predicate CounterInv(s: State) {
    s.activeCall == 2 * WritersInFlight(s.threads) + |s.passed|
  }

  ghost predicate PassedInv(s: State) {
    && |s.passed| <= 1
    && (forall t :: 0 <= t < |s.threads| && PastSwap(s.threads[t]) ==> s.passed == [t])
    && (|s.passed| == 1 ==> s.passed[0] < |s.threads|)
  }

  ghost predicate LoadedInv(s: State) {
    forall t :: 0 <= t < |s.threads| ==>
      && (s.threads[t].WriteLoaded? ==> s.threads[t].seen % 2 == 0)
      && (s.threads[t].CloseLoaded? ==> s.threads[t].seen % 2 == 0)
  }

  /** Whoever is going to notify, or has notified, found no writer in flight. */
  ghost predicate NotifyInv(s: State) {
    && (|s.passed| == 1 && s.passed[0] < |s.threads| && WillNotify(s.threads[s.passed[0]]) ==>
          WritersInFlight(s.threads) == 0 && !s.closeNotifySent)
    && (s.closeNotifySent ==> |s.passed| == 1 && WritersInFlight(s.threads) == 0)
  }

  ghost predicate LogInv(s: State) {
    && (forall i :: 0 <= i < |s.log| && s.log[i].CloseNotify? ==> s.closeNotifySent)
    && (forall i, j :: 0 <= i < j < |s.log| && s.log[i].CloseNotify? ==> s.log[j].OtherRecord?)
  }

  ghost predicate Inv(s: State) {
    CounterInv(s) && PassedInv(s) && LoadedInv(s) && NotifyInv(s) && LogInv(s)
  }

  lemma WrapIsIdentity(n: int)
    requires -TWO31 <= n < TWO31
    ensures Wrap32(n) == n
  {
  }

  lemma CountSnoc(threads: seq<Pc>, pc: Pc)
    ensures WritersInFlight(threads + [pc]) == WritersInFlight(threads) + Flag(InFlight(pc))
  {
    assert (threads + [pc])[..|threads|] == threads;
  }

  lemma NewThreadKeepsInv(s: State, s': State, pc: Pc)
    requires Inv(s) && (pc.WriteCalled? || pc.CloseCalled?) && s' == s.(threads := s.threads + [pc])
    ensures Inv(s')
  {
    hide WritersInFlight;
    CountSnoc(s.threads, pc);
    var n := |s.threads|;
    assert s'.threads[n] == pc && forall t :: 0 <= t < n ==> s'.threads[t] == s.threads[t];
    assert PassedInv(s') && LoadedInv(s') by { hide CounterInv, NotifyInv, LogInv; }
    assert NotifyInv(s') by { hide CounterInv, LoadedInv, LogInv; }
    assert CounterInv(s') && LogInv(s') by { hide PassedInv, LoadedInv, NotifyInv; }
    hide CounterInv, PassedInv, LoadedInv, NotifyInv, LogInv;
  }

  lemma SpawnKeepsInv(s: State, s': State)
    requires Inv(s) && Spawn(s, s')
    ensures Inv(s')
  {
    hide Inv;
    if s' == s.(threads := s.threads + [WriteCalled]) {
      NewThreadKeepsInv(s, s', WriteCalled);
    } else {
      NewThreadKeepsInv(s, s', CloseCalled);
    }
  }

  lemma WriteLoadKeepsInv(s: State, s': State, t: nat)
    requires Inv(s) && t < |s.threads| && WriteLoad(s, s', t)
    ensures Inv(s')
  {
    CountUpdate(s.threads, t, s'.threads[t]);
  }

  lemma WriteSwapKeepsInv(s: State, s': State, t: nat)
    requires Inv(s) && t < |s.threads| && WriteSwap(s, s', t) && WritersInFlight(s'.threads) < TWO30
    ensures Inv(s')
  {
    hide WritersInFlight;
    CountUpdate(s.threads, t, s'.threads[t]);
    if s.activeCall == s.threads[t].seen {
      assert s.passed == [];
      WrapIsIdentity(s.activeCall + 2);
    }
  }

  lemma WriteLockKeepsInv(s: State, s': State, t: nat)
    requires Inv(s) && t < |s.threads| && WriteLock(s, s', t)
    ensures Inv(s')
  {
    CountUpdate(s.threads, t, s'.threads[t]);
  }

  lemma WriteRecordsKeepsInv(s: State, s': State, t: nat)
    requires Inv(s) && t < |s.threads| && WriteRecords(s, s', t)
    ensures Inv(s')
  {
    CountUpdate(s.threads, t, s'.threads[t]);
    CountPositive(s.threads, t);
  }

  lemma WriteLeaveKeepsInv(s: State, s': State, t: nat)
    requires Inv(s) && t < |s.threads| && WriteLeave(s, s', t) && WritersInFlight(s'.threads) < TWO30
    ensures Inv(s')
  {
    CountUpdate(s.threads, t, s'.threads[t]);
    CountPositive(s.threads, t);
    WrapIsIdentity(s.activeCall - 2);
  }

  lemma CloseLoadKeepsInv(s: State, s': State, t: nat)
    requires Inv(s) && t < |s.threads| && CloseLoad(s, s', t)
    ensures Inv(s')
  {
    CountUpdate(s.threads, t, s'.threads[t]);
  }

  lemma CloseSwapKeepsInv(s: State, s': State, t: nat)
    requires Inv(s) && t < |s.threads| && CloseSwap(s, s', t)
    ensures Inv(s')
  {
    hide WritersInFlight;
    CountUpdate(s.threads, t, s'.threads[t]);
  }

  lemma CloseHandshakeKeepsInv(s: State, s': State, t: nat)
    requires Inv(s) && t < |s.threads| && CloseHandshake(s, s', t)
    ensures Inv(s')
  {
    CountUpdate(s.threads, t, s'.threads[t]);
  }

  lemma CloseLockKeepsInv(s: State, s': State, t: nat)
    requires Inv(s) && t < |s.threads| && CloseLock(s, s', t)
    ensures Inv(s')
  {
    CountUpdate(s.threads, t, s'.threads[t]);
  }

  lemma CloseSendKeepsInv(s: State, s': State, t: nat)
    requires Inv(s) && t < |s.threads| && CloseSend(s, s', t)
    ensures Inv(s')
  {
    CountUpdate(s.threads, t, s'.threads[t]);
  }

  lemma CloseFinishKeepsInv(s: State, s': State, t: nat)
    requires Inv(s) && t < |s.threads| && CloseFinish(s, s', t)
    ensures Inv(s')
  {
    CountUpdate(s.threads, t, s'.threads[t]);
  }

  lemma StepKeepsInv(s: State, s': State)
    requires Inv(s) && Step(s, s') && WritersInFlight(s'.threads) < TWO30
    ensures Inv(s')
  {
    if Spawn(s, s') {
      SpawnKeepsInv(s, s');
    } else if !Environment(s, s') {
      var t :| ThreadStep(s, s', t);
      if WriteLoad(s, s', t) { WriteLoadKeepsInv(s, s', t); }
      else if WriteSwap(s, s', t) { WriteSwapKeepsInv(s, s', t); }
      else if WriteLock(s, s', t) { WriteLockKeepsInv(s, s', t); }
      else if WriteRecords(s, s', t) { WriteRecordsKeepsInv(s, s', t); }
      else if WriteLeave(s, s', t) { WriteLeaveKeepsInv(s, s', t); }
      else if CloseLoad(s, s', t) { CloseLoadKeepsInv(s, s', t); }
      else if CloseSwap(s, s', t) { CloseSwapKeepsInv(s, s', t); }
      else if CloseHandshake(s, s', t) { CloseHandshakeKeepsInv(s, s', t); }
      else if CloseLock(s, s', t) { CloseLockKeepsInv(s, s', t); }
      else if CloseSend(s, s', t) { CloseSendKeepsInv(s, s', t); }
      else { CloseFinishKeepsInv(s, s', t); }
    }
  }

  lemma {:induction false} RunKeepsInv(run: seq<State>, i: nat)
    requires IsRun(run) && i < |run|
    ensures Inv(run[i])
  {
    if i > 0 {
      RunKeepsInv(run, i - 1);
      assert StepsAt(run, i - 1);
      StepKeepsInv(run[i - 1], run[i]);
    }
  }

  // ----- What every interleaving keeps -----

  /** `ActiveCall` is twice the writers in flight plus the closed bit, and fits its int32. */
  lemma ActiveCallCountsWriters(run: seq<State>, i: nat)
    requires IsRun(run) && i < |run|
    ensures run[i].activeCall == 2 * WritersInFlight(run[i].threads) + |run[i].passed|
    ensures |run[i].passed| <= 1
    ensures 0 <= run[i].activeCall < TWO31
  {
    RunKeepsInv(run, i);
  }

  /** close_notify goes out at most once and no application data follows it. */
  lemma NothingFollowsCloseNotify(run: seq<State>, i: nat, p: nat, q: nat)
    requires IsRun(run) && i < |run| && p < q < |run[i].log| && run[i].log[p].CloseNotify?
    ensures !run[i].log[q].AppData? && !run[i].log[q].CloseNotify?
  {
    RunKeepsInv(run, i);
  }

  /** `t` has passed the swap and will not notify. */
  ghost predicate Silenced(s: State, t: nat) {
    s.passed == [t] && t < |s.threads| && !WillNotify(s.threads[t]) && !s.closeNotifySent
  }

  lemma SilencedThreadStays(s: State, s': State, t: nat, u: nat)
    requires CounterInv(s) && PassedInv(s) && LoadedInv(s) && Silenced(s, t) && ThreadStep(s, s', u)
    ensures Silenced(s', t)
  {
    if CloseSwap(s, s', u) {
      assert s.activeCall % 2 == 1;
    }
  }

  lemma SilencedStays(s: State, s': State, t: nat)
    requires Inv(s) && Silenced(s, t) && Step(s, s')
    ensures Silenced(s', t)
  {
    if !Spawn(s, s') && !Environment(s, s') {
      var u :| ThreadStep(s, s', u);
      SilencedThreadStays(s, s', t, u);
    }
  }

  lemma SwapDuringWriteSilences(s: State, s': State, t: nat)
    requires CounterInv(s) && PassedInv(s) && LoadedInv(s) && NotifyInv(s) && t < |s.threads|
    requires CloseSwap(s, s', t) && s.activeCall == s.threads[t].seen && WritersInFlight(s.threads) > 0
    ensures Silenced(s', t)
  {
  }

  lemma SilencedLog(s: State, t: nat)
    requires LogInv(s) && Silenced(s, t)
    ensures forall k :: 0 <= k < |s.log| ==> !s.log[k].CloseNotify?
  {
  }

  /** A Close that finds a writer in flight never lets a close_notify out, however the run goes on. */
  lemma {:induction false} CloseDuringWriteStaysSilent(run: seq<State>, i: nat, t: nat, j: nat)
    requires IsRun(run) && i + 1 <= j < |run| && t < |run[i].threads|
    requires CloseSwap(run[i], run[i + 1], t) && run[i].activeCall == run[i].threads[t].seen
    requires WritersInFlight(run[i].threads) > 0
    ensures Silenced(run[j], t)
    ensures forall k :: 0 <= k < |run[j].log| ==> !run[j].log[k].CloseNotify?
    decreases j
  {
    hide CloseSwap, Inv, Silenced, Step, WritersInFlight;
    if j == i + 1 {
      RunKeepsInv(run, i);
      SwapDuringWriteSilences(run[i], run[i + 1], t);
    } else {
      CloseDuringWriteStaysSilent(run, i, t, j - 1);
      RunKeepsInv(run, j - 1);
      assert StepsAt(run, j - 1);
      SilencedStays(run[j - 1], run[j], t);
    }
    RunKeepsInv(run, j);
    SilencedLog(run[j], t);
  }

  // ----- What gets through -----

  ghost predicate Framed(s: State, s': State, u: nat) {
    && u < |s.threads| && |s'.threads| == |s.threads| && s'.threads == s.threads[u := s'.threads[u]]
    && s'.handshakeComplete == s.handshakeComplete && (s.closeNotifySent ==> s'.closeNotifySent)
    && s.passed <= s'.passed && s.log <= s'.log
  }

  lemma WriteFrame(s: State, s': State, u: nat)
    requires u < |s.threads|
    requires WriteLoad(s, s', u) || WriteSwap(s, s', u) || WriteLock(s, s', u) || WriteRecords(s, s', u) || WriteLeave(s, s', u)
    ensures Framed(s, s', u)
  {
    hide WriteRefused, Wrap32;
  }

  lemma CloseFrame(s: State, s': State, u: nat)
    requires u < |s.threads|
    requires || CloseLoad(s, s', u) || CloseSwap(s, s', u) || CloseHandshake(s, s', u)
             || CloseLock(s, s', u) || CloseSend(s, s', u) || CloseFinish(s, s', u)
    ensures Framed(s, s', u)
  {
  }

  /** What a thread's step leaves alone. */
  lemma ThreadFrame(s: State, s': State, u: nat)
    requires ThreadStep(s, s', u)
    ensures Framed(s, s', u)
  {
    hide Framed, WriteLoad, WriteSwap, WriteLock, WriteRecords, WriteLeave, CloseLoad, CloseSwap, CloseHandshake, CloseLock,
         CloseSend, CloseFinish;
    if WriteLoad(s, s', u) || WriteSwap(s, s', u) || WriteLock(s, s', u) || WriteRecords(s, s', u) || WriteLeave(s, s', u) {
      WriteFrame(s, s', u);
    } else {
      CloseFrame(s, s', u);
    }
  }

  /** A Close that is alone after the handshake is on its way to notifying, or has done so. */
  ghost predicate Notifies(s: State, t: nat) {
    && t < |s.threads|
    && match s.threads[t]
       case CloseAlone => s.handshakeComplete
       case CloseNotifying => true
       case CloseLocked => true
       case CloseClosing => s.closeNotifySent
       case Returned => s.closeNotifySent
       case _ => false
  }

  lemma NotifierStays(s: State, s': State, t: nat)
    requires Notifies(s, t) && Step(s, s')
    ensures Notifies(s', t)
  {
    if u: nat :| ThreadStep(s, s', u) {
      ThreadFrame(s, s', u);
      if u == t {
        NotifierSteps(s, s', t);
      }
      hide ThreadStep;
    }
  }

  lemma NotifierSteps(s: State, s': State, t: nat)
    requires Notifies(s, t) && ThreadStep(s, s', t)
    ensures Notifies(s', t)
  {
    hide WriteLoad, WriteSwap, WriteLock, WriteRecords, WriteLeave, CloseLoad, CloseSwap;
    assert CloseHandshake(s, s', t) || CloseLock(s, s', t) || CloseSend(s, s', t) || CloseFinish(s, s', t) by {
      ClosersClose(s, s', t);
    }
    hide ThreadStep;
  }

  lemma ClosersClose(s: State, s': State, t: nat)
    requires Notifies(s, t) && ThreadStep(s, s', t)
    ensures CloseHandshake(s, s', t) || CloseLock(s, s', t) || CloseSend(s, s', t) || CloseFinish(s, s', t)
  {
    hide WriteRefused, Wrap32;
  }

  /** A Close that passes the swap alone, after the handshake, has sent its close_notify (or tried to) by the time it
      returns. */
  lemma {:induction false} LoneCloseNotifies(run: seq<State>, i: nat, j: nat, t: nat)
    requires IsRun(run) && i <= j < |run| && t < |run[i].threads|
    requires run[i].threads[t].CloseAlone? && run[i].handshakeComplete
    ensures Notifies(run[j], t) && (run[j].threads[t].Returned? ==> run[j].closeNotifySent)
    decreases j
  {
    if i < j {
      LoneCloseNotifies(run, i, j - 1, t);
      assert StepsAt(run, j - 1);
      NotifierStays(run[j - 1], run[j], t);
    }
  }

  /** A write that has not been admitted when a Close passes the swap never is. */
  ghost predicate ShutOut(s: State, t: nat) {
    t < |s.threads| && (s.threads[t].WriteCalled? || s.threads[t].WriteLoaded? || s.threads[t].Returned?)
  }

  lemma ShutOutStays(s: State, s': State, t: nat)
    requires Inv(s) && |s.passed| == 1 && ShutOut(s, t) && Step(s, s')
    ensures ShutOut(s', t) && |s'.passed| == 1
  {
    hide WritersInFlight;
    assert s.activeCall % 2 == 1 && (s.threads[t].WriteLoaded? ==> s.threads[t].seen % 2 == 0);
    StepKeepsInvOrSpawns(s, s');
    hide Inv;
    if u: nat :| ThreadStep(s, s', u) {
      ThreadFrame(s, s', u);
      if u == t {
        ShutOutSteps(s, s', t);
      }
      hide ThreadStep;
    }
  }

  lemma StepKeepsInvOrSpawns(s: State, s': State)
    requires Inv(s) && |s.passed| == 1 && Step(s, s')
    ensures |s'.passed| == 1
  {
    hide WritersInFlight, NotifyInv, LogInv, Wrap32, WriteRefused;
    assert s.activeCall % 2 == 1;
  }

  lemma ShutOutSteps(s: State, s': State, t: nat)
    requires ShutOut(s, t) && ThreadStep(s, s', t) && s.activeCall % 2 == 1
    requires s.threads[t].WriteLoaded? ==> s.threads[t].seen % 2 == 0
    ensures ShutOut(s', t)
  {
    hide WriteRefused, Wrap32;
  }

  lemma {:induction false} NoWriteEntersAfterClose(run: seq<State>, i: nat, j: nat, t: nat)
    requires IsRun(run) && i <= j < |run| && |run[i].passed| == 1 && ShutOut(run[i], t)
    ensures ShutOut(run[j], t) && |run[j].passed| == 1
    decreases j
  {
    if i < j {
      NoWriteEntersAfterClose(run, i, j - 1, t);
      RunKeepsInv(run, j - 1);
      assert StepsAt(run, j - 1);
      hide Inv, ShutOut, Step;
      ShutOutStays(run[j - 1], run[j], t);
    }
  }

  /** Application data and close_notify go out only after the handshake. */
  ghost predicate DataAfterHandshake(s: State) {
    && (forall k :: 0 <= k < |s.log| && !s.log[k].OtherRecord? ==> s.handshakeComplete)
    && (forall t :: 0 <= t < |s.threads| && (s.threads[t].CloseNotifying? || s.threads[t].CloseLocked?) ==> s.handshakeComplete)
  }

  lemma StepKeepsData(s: State, s': State)
    requires DataAfterHandshake(s) && Step(s, s')
    ensures DataAfterHandshake(s')
  {
    if s.handshakeComplete {
      assert s'.handshakeComplete by { HandshakeStays(s, s'); }
      hide Step;
    } else if u: nat :| ThreadStep(s, s', u) {
      ThreadFrame(s, s', u);
      BeforeHandshake(s, s', u);
      hide ThreadStep;
    }
  }

  lemma HandshakeStays(s: State, s': State)
    requires s.handshakeComplete && Step(s, s')
    ensures s'.handshakeComplete
  {
    if u: nat :| ThreadStep(s, s', u) {
      ThreadFrame(s, s', u);
      hide ThreadStep;
    }
  }

  lemma BeforeHandshake(s: State, s': State, u: nat)
    requires DataAfterHandshake(s) && !s.handshakeComplete && ThreadStep(s, s', u)
    ensures s'.log == s.log && !s'.threads[u].CloseNotifying? && !s'.threads[u].CloseLocked?
  {
    hide Wrap32;
    assert !s.threads[u].CloseLocked? && !s.threads[u].CloseNotifying?;
  }

  lemma {:induction false} NothingBeforeHandshake(run: seq<State>, i: nat)
    requires IsRun(run) && i < |run|
    ensures DataAfterHandshake(run[i])
  {
    if i > 0 {
      NothingBeforeHandshake(run, i - 1);
      assert StepsAt(run, i - 1);
      hide DataAfterHandshake, Step;
      StepKeepsData(run[i - 1], run[i]);
    }
  }

  /** Once close_notify is out no write is in flight any more: the check for it inside Write never fires. */
  lemma SentMeansNoWriter(run: seq<State>, i: nat, t: nat)
    requires IsRun(run) && i < |run| && run[i].closeNotifySent && t < |run[i].threads|
    ensures !InFlight(run[i].threads[t])
  {
    RunKeepsInv(run, i);
    if InFlight(run[i].threads[t]) {
      CountPositive(run[i].threads, t);
    }
  }

  /** After an error on the sending side no more application data goes out. */
  ghost predicate Silent(log: seq<Record>, log': seq<Record>) {
    log <= log' && forall k :: |log| <= k < |log'| ==> !log'[k].AppData?
  }

  lemma ErrorStep(s: State, s': State)
    requires s.outErr && Step(s, s')
    ensures s'.outErr && Silent(s.log, s'.log)
  {
  }

  lemma {:induction false} NoDataAfterError(run: seq<State>, i: nat, j: nat)
    requires IsRun(run) && i <= j < |run| && run[i].outErr
    ensures run[j].outErr && Silent(run[i].log, run[j].log)
    decreases j
  {
    if i < j {
      NoDataAfterError(run, i, j - 1);
      assert StepsAt(run, j - 1);
      hide Step;
      ErrorStep(run[j - 1], run[j]);
    }
  }

  /** A write and then a close, undisturbed: the data goes out, then the close_notify. */
  lemma WriteThenClose() returns (run: seq<State>)
    ensures IsRun(run)
    ensures run[|run| - 1] == State(1, None, false, true, true, [Returned, Returned], [1], [AppData, CloseNotify])
  {
    var s0 := State(0, None, false, true, false, [], [], []);
    var s1 := s0.(threads := [WriteCalled]);
    var s2 := s0.(threads := [WriteLoaded(0)]);
    var s3 := s0.(threads := [WriteAdmitted], activeCall := 2);
    var s4 := s3.(threads := [WriteLocked], outLock := Some(0));
    var s5 := s3.(threads := [WriteLeaving], log := [AppData]);
    var s6 := s0.(threads := [Returned], log := [AppData]);
    var written := [AppData];
    assert Spawn(s0, s1) && WriteLoad(s1, s2, 0) && WriteSwap(s2, s3, 0) && WriteLock(s3, s4, 0);
    assert WriteRecords(s4, s5, 0) by {
      assert !WriteRefused(s4);
      assert s5 == At(s4, 0, WriteLeaving).(outLock := None).(log := s4.log + written, outErr := false);
      assert forall i :: 0 <= i < |written| ==> written[i] == AppData;
    }
    assert WriteLeave(s5, s6, 0);
    run := [s0];
    assert IsRun(run);
    hide WriteLoad, WriteSwap, WriteLock, WriteRecords, WriteLeave, IsRun;
    run := Extend(run, s1);
    run := ThreadExtends(run, s2, 0);
    run := ThreadExtends(run, s3, 0);
    run := ThreadExtends(run, s4, 0);
    run := ThreadExtends(run, s5, 0);
    run := ThreadExtends(run, s6, 0);
    run := CloseAfterWrite(run);
  }

  lemma CloseAfterWrite(before: seq<State>) returns (run: seq<State>)
    requires IsRun(before) && |before| > 0 && before[|before| - 1] == State(0, None, false, true, false, [Returned], [], [AppData])
    ensures IsRun(run) && |run| > 0
    ensures run[|run| - 1] == State(1, None, false, true, true, [Returned, Returned], [1], [AppData, CloseNotify])
  {
    var s0 := before[|before| - 1];
    var s1 := s0.(threads := [Returned, CloseCalled]);
    var s2 := s0.(threads := [Returned, CloseLoaded(0)]);
    var s3 := s0.(threads := [Returned, CloseAlone], activeCall := 1, passed := [1]);
    var s4 := s3.(threads := [Returned, CloseNotifying]);
    var s5 := s3.(threads := [Returned, CloseLocked], outLock := Some(1));
    var s6 := s3.(threads := [Returned, CloseClosing], closeNotifySent := true, log := [AppData, CloseNotify]);
    var s7 := s6.(threads := [Returned, Returned]);
    assert Spawn(s0, s1) && CloseLoad(s1, s2, 1) && CloseSwap(s2, s3, 1) && CloseHandshake(s3, s4, 1) && CloseLock(s4, s5, 1);
    assert CloseSend(s5, s6, 1) && CloseFinish(s6, s7, 1);
    hide CloseLoad, CloseSwap, CloseHandshake, CloseLock, CloseSend, CloseFinish, IsRun;
    run := Extend(before, s1);
    run := ThreadExtends(run, s2, 1);
    run := ThreadExtends(run, s3, 1);
    run := ThreadExtends(run, s4, 1);
    run := ThreadExtends(run, s5, 1);
    run := ThreadExtends(run, s6, 1);
    run := ThreadExtends(run, s7, 1);
  }

  lemma ThreadExtends(run: seq<State>, s': State, t: nat) returns (longer: seq<State>)
    requires IsRun(run) && |run| > 0 && ThreadStep(run[|run| - 1], s', t) && |s'.threads| <= 2
    ensures IsRun(longer) && |longer| > 0 && longer[|longer| - 1] == s'
  {
    longer := Extend(run, s');
  }

  lemma Extend(run: seq<State>, s': State) returns (longer: seq<State>)
    requires IsRun(run) && |run| > 0 && Step(run[|run| - 1], s') && |s'.threads| <= 2
    ensures IsRun(longer) && |longer| > 0 && longer[|longer| - 1] == s'
  {
    hide Step;
    AtMostAll(s'.threads);
    longer := run + [s'];
    forall i | 0 <= i < |longer| - 1 ensures StepsAt(longer, i) {
      assert i < |run| - 1 ==> StepsAt(run, i);
    }
  }

  lemma {:induction false} AtMostAll(threads: seq<Pc>)
    ensures WritersInFlight(threads) <= |threads|
  {
    if threads != [] {
      AtMostAll(threads[..|threads| - 1]);
    }
  }
}
