/** The dial race: primary racers start at once, fallback racers when a timer fires or a primary fails, and
    the caller takes the first connection over an unbuffered channel.  DialParallelNetwork is the race with
    one primary and one fallback racer; dialParallelInterface has one racer per interface; the fast variant
    starts everybody at once and has no timer.

    A racer opens at most one connection, so connections are named by their racer. */
module DialRace {
  import opened Common

  /** Racers 0 .. primaries-1 are primary, the next `fallbacks` are fallback. */
  datatype Config = Config(primaries: nat, fallbacks: nat, delay: nat, fast: bool) {
    function Racers(): nat { primaries + fallbacks }
    predicate HasTimer() { !fast && fallbacks > 0 }
  }

  datatype Timer = Absent | Armed(due: nat) | Expired | Consumed

  datatype Racer =
    | Unstarted
    | Dialing
    | HasConn         // dialed, blocked in the select
    | HasErr          // failed, blocked in the select
    | Taken           // its connection was received by the caller
    | Reported        // its error was received by the caller
    | ConnClosed      // saw `returned` and closed its connection
    | Dropped         // saw `returned` and dropped its error

  datatype Caller = Waiting | ReturnedConn(winner: nat) | ReturnedErr

  datatype State = State(
    now: nat,
    timer: Timer,
    racers: seq<Racer>,
    caller: Caller,
    errors: seq<nat>,             // racers whose errors the caller has received
    dialed: seq<nat>,             // racers whose dial succeeded, in order
    closeCalls: seq<nat>,         // connections closed, in order
    launches: seq<nat>,           // when the fallback group was started
    primaryFailed: Option<nat>    // when the caller first received a primary failure
  )

  /** `no available network interface` has been returned already when there is nobody to race. */
  ghost predicate Init(cfg: Config, s: State) {
    && cfg.Racers() > 0
    && s.now == 0 && s.caller.Waiting?
    && s.timer == (if cfg.HasTimer() then Armed(cfg.delay) else Absent)
    && s.racers == seq(cfg.Racers(), i => if i < cfg.primaries || cfg.fast then Dialing else Unstarted)
    && s.errors == [] && s.dialed == [] && s.closeCalls == [] && s.launches == [] && s.primaryFailed.None?
  }

  // ----- Steps -----

  ghost predicate Tick(s: State, s': State) {
    s' == s.(now := s.now + 1)
  }

  ghost predicate Expire(s: State, s': State) {
    s.timer.Armed? && s.now >= s.timer.due && s' == s.(timer := Expired)
  }

  function Launch(cfg: Config, racers: seq<Racer>): seq<Racer> {
    seq(|racers|, i requires 0 <= i < |racers| => if i < cfg.primaries then racers[i] else Dialing)
  }

  ghost predicate ReceiveTimer(cfg: Config, s: State, s': State) {
    && s.caller.Waiting? && s.timer.Expired?
    && s' == s.(timer := Consumed, racers := Launch(cfg, s.racers), launches := s.launches + [s.now])
  }

  ghost predicate Dial(s: State, s': State, t: nat)
    requires t < |s.racers|
  {
    && s.racers[t].Dialing?
    && (|| s' == s.(racers := s.racers[t := HasConn], dialed := s.dialed + [t])
        || s' == s.(racers := s.racers[t := HasErr]))
  }

  ghost predicate DeliverConn(s: State, s': State, t: nat)
    requires t < |s.racers|
  {
    s.caller.Waiting? && s.racers[t].HasConn? && s' == s.(racers := s.racers[t := Taken], caller := ReturnedConn(t))
  }

  /** `if fallbackTimer.Stop() { fallbackTimer.Reset(0) }`.  A timer that has expired but has not been
      received may or may not count as stopped, depending on the runtime's channel-timer mode. */
  ghost predicate StopAndReset(now: nat, timer: Timer, timer': Timer) {
    match timer
    case Armed(_) => timer' == Armed(now)
    case Expired => timer' == Armed(now) || timer' == Expired
    case _ => timer' == timer
  }

  ghost predicate DeliverErr(cfg: Config, s: State, s': State, t: nat)
    requires t < |s.racers|
  {
    && s.caller.Waiting? && s.racers[t].HasErr?
    && var primary := t < cfg.primaries;
    && var received := s.(racers := s.racers[t := Reported], errors := s.errors + [t],
                          primaryFailed := if primary && s.primaryFailed.None? then Some(s.now) else s.primaryFailed);
    && if |received.errors| == cfg.Racers() then s' == received.(caller := ReturnedErr)
       else if primary then
         StopAndReset(s.now, s.timer, s'.timer) && s' == received.(timer := s'.timer)
       else s' == received
  }

  ghost predicate Discard(s: State, s': State, t: nat)
    requires t < |s.racers|
  {
    && !s.caller.Waiting?
    && (|| (s.racers[t].HasConn? && s' == s.(racers := s.racers[t := ConnClosed], closeCalls := s.closeCalls + [t]))
        || (s.racers[t].HasErr? && s' == s.(racers := s.racers[t := Dropped])))
  }

  ghost predicate RacerStep(cfg: Config, s: State, s': State, t: nat) {
    && t < |s.racers|
    && (Dial(s, s', t) || DeliverConn(s, s', t) || DeliverErr(cfg, s, s', t) || Discard(s, s', t))
  }

  /** Any step but the passing of time. */
  ghost predicate Work(cfg: Config, s: State, s': State) {
    Expire(s, s') || ReceiveTimer(cfg, s, s') || exists t :: RacerStep(cfg, s, s', t)
  }

  ghost predicate Step(cfg: Config, s: State, s': State) {
    Tick(s, s') || Work(cfg, s, s')
  }

  ghost predicate StepsAt(cfg: Config, run: seq<State>, i: int)
    requires 0 <= i < |run| - 1
  {
    Step(cfg, run[i], run[i + 1])
  }

  ghost predicate IsRun(cfg: Config, run: seq<State>) {
    && |run| > 0
    && Init(cfg, run[0])
    && forall i :: 0 <= i < |run| - 1 ==> StepsAt(cfg, run, i)
  }

  // ----- Invariant -----

  predicate Unfinished(r: Racer) {
    r.Dialing? || r.HasConn? || r.HasErr?
  }

  predicate Connected(r: Racer) {
    r.HasConn? || r.Taken? || r.ConnClosed?
  }

  ghost predicate Distinct(log: seq<nat>) {
    forall i, j :: 0 <= i < j < |log| ==> log[i] != log[j]
  }

  /** `log` holds exactly the racers satisfying `mark`, each once. */
  ghost predicate Logs(racers: seq<Racer>, log: seq<nat>, mark: Racer -> bool) {
    && Distinct(log)
    && (forall t :: t in log ==> t < |racers| && mark(racers[t]))
    && (forall t :: 0 <= t < |racers| && mark(racers[t]) ==> t in log)
  }

  ghost predicate LogInv(s: State) {
    && Logs(s.racers, s.errors, (r: Racer) => r.Reported?)
    && Logs(s.racers, s.dialed, Connected)
    && Logs(s.racers, s.closeCalls, (r: Racer) => r.ConnClosed?)
  }

  ghost predicate CallerInv(cfg: Config, s: State) {
    && (forall t :: 0 <= t < |s.racers| ==> (s.racers[t].Taken? <==> s.caller == ReturnedConn(t)))
    && (s.caller.Waiting? ==> forall t :: 0 <= t < |s.racers| ==> !s.racers[t].ConnClosed? && !s.racers[t].Dropped?)
    && (s.caller.ReturnedConn? ==> s.caller.winner < |s.racers|)
    && (if s.caller.ReturnedErr? then |s.errors| == cfg.Racers() else |s.errors| < cfg.Racers())
  }

  /** The fallback group is unstarted exactly while its timer is pending. */
  ghost predicate LaunchInv(cfg: Config, s: State) {
    && |s.racers| == cfg.Racers()
    && (s.timer.Absent? <==> !cfg.HasTimer())
    && (forall t :: 0 <= t < |s.racers| ==>
          (s.racers[t].Unstarted? <==> t >= cfg.primaries && (s.timer.Armed? || s.timer.Expired?)))
    && (if s.timer.Consumed? then |s.launches| == 1 else s.launches == [])
  }

  /** When the timer may fire: not before the delay unless a primary failure has been received. */
  ghost predicate Justified(cfg: Config, s: State, at: nat) {
    at >= cfg.delay || (s.primaryFailed.Some? && s.primaryFailed.value <= at)
  }

  ghost predicate TimerInv(cfg: Config, s: State) {
    && (s.primaryFailed.Some? ==> s.primaryFailed.value <= s.now && exists t :: t in s.errors && t < cfg.primaries)
    && (s.timer.Armed? ==> Justified(cfg, s, s.timer.due))
    && (s.timer.Expired? ==> Justified(cfg, s, s.now))
    && (forall i :: 0 <= i < |s.launches| ==> Justified(cfg, s, s.launches[i]))
  }

  /** Once the caller has received a primary failure it does not wait for the timer any more. */
  ghost predicate HasteInv(s: State) {
    s.caller.Waiting? && s.primaryFailed.Some? && s.timer.Armed? ==> s.timer.due <= s.now
  }

  ghost predicate Inv(cfg: Config, s: State) {
    LogInv(s) && CallerInv(cfg, s) && LaunchInv(cfg, s) && TimerInv(cfg, s) && HasteInv(s)
  }

  // Each kind of step changes a log by at most one entry.

  lemma LogUnchanged(racers: seq<Racer>, racers': seq<Racer>, log: seq<nat>, mark: Racer -> bool)
    requires Logs(racers, log, mark) && |racers'| == |racers|
    requires forall t :: 0 <= t < |racers| ==> mark(racers[t]) == mark(racers'[t])
    ensures Logs(racers', log, mark)
  {
  }

  lemma LogGrows(racers: seq<Racer>, log: seq<nat>, mark: Racer -> bool, t: nat, r: Racer)
    requires Logs(racers, log, mark) && t < |racers| && !mark(racers[t]) && mark(r)
    ensures Logs(racers[t := r], log + [t], mark)
  {
    assert t !in log;
    assert forall u :: u in log + [t] <==> u in log || u == t;
  }

  ghost function Members(log: seq<nat>): set<nat> {
    set t | t in log
  }

  ghost function Below(n: nat): (b: set<nat>)
    ensures |b| == n && forall t :: t in b <==> 0 <= t < n
  {
    if n == 0 then {} else Below(n - 1) + {n - 1}
  }

  lemma {:induction false} MembersSize(log: seq<nat>)
    requires Distinct(log)
    ensures |Members(log)| == |log|
  {
    if log != [] {
      var last := |log| - 1;
      MembersSize(log[..last]);
      assert log == log[..last] + [log[last]];
      assert Members(log) == Members(log[..last]) + {log[last]};
    }
  }

  lemma DistinctFits(log: seq<nat>, n: nat)
    requires Distinct(log) && forall t :: t in log ==> t < n
    ensures |log| <= n
    ensures |log| == n ==> forall t :: 0 <= t < n ==> t in log
  {
    MembersSize(log);
    var rest := Below(n) - Members(log);
    assert Below(n) == Members(log) + rest;
    if |log| == n {
      assert rest == {};
      forall t: nat | t < n ensures t in log {
        assert t in Below(n);
        assert t in Members(log);
      }
    }
  }

  lemma InitInv(cfg: Config, s: State)
    requires Init(cfg, s)
    ensures Inv(cfg, s)
  {
  }

  lemma ExpireKeepsInv(cfg: Config, s: State, s': State)
    requires Inv(cfg, s) && Expire(s, s')
    ensures Inv(cfg, s')
  {
  }

  lemma ReceiveTimerKeepsInv(cfg: Config, s: State, s': State)
    requires Inv(cfg, s) && ReceiveTimer(cfg, s, s')
    ensures Inv(cfg, s')
  {
    LogUnchanged(s.racers, s'.racers, s.errors, (r: Racer) => r.Reported?);
    LogUnchanged(s.racers, s'.racers, s.dialed, Connected);
    LogUnchanged(s.racers, s'.racers, s.closeCalls, (r: Racer) => r.ConnClosed?);
  }

  lemma DialKeepsInv(cfg: Config, s: State, s': State, t: nat)
    requires Inv(cfg, s) && t < |s.racers| && Dial(s, s', t)
    ensures Inv(cfg, s')
  {
    LogUnchanged(s.racers, s'.racers, s.errors, (r: Racer) => r.Reported?);
    LogUnchanged(s.racers, s'.racers, s.closeCalls, (r: Racer) => r.ConnClosed?);
    if s'.racers[t].HasConn? {
      LogGrows(s.racers, s.dialed, Connected, t, HasConn);
    } else {
      LogUnchanged(s.racers, s'.racers, s.dialed, Connected);
    }
  }

  lemma DeliverConnKeepsInv(cfg: Config, s: State, s': State, t: nat)
    requires Inv(cfg, s) && t < |s.racers| && DeliverConn(s, s', t)
    ensures Inv(cfg, s')
  {
    LogUnchanged(s.racers, s'.racers, s.errors, (r: Racer) => r.Reported?);
    LogUnchanged(s.racers, s'.racers, s.dialed, Connected);
    LogUnchanged(s.racers, s'.racers, s.closeCalls, (r: Racer) => r.ConnClosed?);
  }

  lemma DeliverErrKeepsInv(cfg: Config, s: State, s': State, t: nat)
    requires Inv(cfg, s) && t < |s.racers| && DeliverErr(cfg, s, s', t)
    ensures Inv(cfg, s')
  {
    LogGrows(s.racers, s.errors, (r: Racer) => r.Reported?, t, Reported);
    LogUnchanged(s.racers, s'.racers, s.dialed, Connected);
    LogUnchanged(s.racers, s'.racers, s.closeCalls, (r: Racer) => r.ConnClosed?);
    assert t in s'.errors;
    assert forall u :: u in s.errors ==> u in s'.errors;
  }

  lemma DiscardKeepsInv(cfg: Config, s: State, s': State, t: nat)
    requires Inv(cfg, s) && t < |s.racers| && Discard(s, s', t)
    ensures Inv(cfg, s')
  {
    LogUnchanged(s.racers, s'.racers, s.errors, (r: Racer) => r.Reported?);
    LogUnchanged(s.racers, s'.racers, s.dialed, Connected);
    if s'.racers[t].ConnClosed? {
      LogGrows(s.racers, s.closeCalls, (r: Racer) => r.ConnClosed?, t, ConnClosed);
    } else {
      LogUnchanged(s.racers, s'.racers, s.closeCalls, (r: Racer) => r.ConnClosed?);
    }
  }

  lemma StepKeepsInv(cfg: Config, s: State, s': State)
    requires Inv(cfg, s) && Step(cfg, s, s')
    ensures Inv(cfg, s')
  {
    if Tick(s, s') {
    } else if Expire(s, s') {
      ExpireKeepsInv(cfg, s, s');
    } else if ReceiveTimer(cfg, s, s') {
      ReceiveTimerKeepsInv(cfg, s, s');
    } else {
      var t: nat :| RacerStep(cfg, s, s', t);
      if Dial(s, s', t) { DialKeepsInv(cfg, s, s', t); }
      else if DeliverConn(s, s', t) { DeliverConnKeepsInv(cfg, s, s', t); }
      else if DeliverErr(cfg, s, s', t) { DeliverErrKeepsInv(cfg, s, s', t); }
      else { DiscardKeepsInv(cfg, s, s', t); }
    }
  }

  lemma {:induction false} RunKeepsInv(cfg: Config, run: seq<State>, i: nat)
    requires IsRun(cfg, run) && i < |run|
    ensures Inv(cfg, run[i])
  {
    if i == 0 {
      InitInv(cfg, run[0]);
    } else {
      RunKeepsInv(cfg, run, i - 1);
      assert StepsAt(cfg, run, i - 1);
      StepKeepsInv(cfg, run[i - 1], run[i]);
    }
  }

  // ----- What every race keeps -----

  function Count(log: seq<nat>, t: nat): nat {
    if log == [] then 0 else Count(log[..|log| - 1], t) + if log[|log| - 1] == t then 1 else 0
  }

  lemma {:induction false} DistinctCount(log: seq<nat>, t: nat)
    requires Distinct(log)
    ensures Count(log, t) == if t in log then 1 else 0
  {
    if log != [] {
      var last := |log| - 1;
      DistinctCount(log[..last], t);
      assert log == log[..last] + [log[last]];
    }
  }

  ghost predicate AllFinished(s: State) {
    forall t :: 0 <= t < |s.racers| ==> !Unfinished(s.racers[t])
  }

  function Returned(s: State, t: nat): nat {
    if s.caller == ReturnedConn(t) then 1 else 0
  }

  /** Connections are conserved: one that was opened is never both returned and closed nor closed twice,
      and once the caller has returned and every racer is done it is exactly one of the two. */
  lemma ConnectionsConserved(cfg: Config, run: seq<State>, i: nat, t: nat)
    requires IsRun(cfg, run) && i < |run|
    ensures Count(run[i].dialed, t) <= 1
    ensures Returned(run[i], t) + Count(run[i].closeCalls, t) <= Count(run[i].dialed, t)
    ensures !run[i].caller.Waiting? && AllFinished(run[i]) ==>
              Returned(run[i], t) + Count(run[i].closeCalls, t) == Count(run[i].dialed, t)
  {
    RunKeepsInv(cfg, run, i);
    var s := run[i];
    DistinctCount(s.dialed, t);
    DistinctCount(s.closeCalls, t);
    if t < |s.racers| && s.racers[t].Taken? {
      assert t in s.dialed && t !in s.closeCalls;
    }
  }

  /** An error is returned exactly when every racer has failed and said so; then nothing was ever opened. */
  lemma ErrorMeansEveryoneFailed(cfg: Config, run: seq<State>, i: nat)
    requires IsRun(cfg, run) && i < |run|
    ensures run[i].caller.ReturnedErr? <==> forall t :: 0 <= t < cfg.Racers() ==> t in run[i].errors
    ensures run[i].caller.ReturnedErr? ==> run[i].dialed == []
  {
    RunKeepsInv(cfg, run, i);
    var s := run[i];
    DistinctFits(s.errors, cfg.Racers());
    if forall t :: 0 <= t < cfg.Racers() ==> t in s.errors {
      MembersSize(s.errors);
      assert Members(s.errors) == Below(cfg.Racers());
    }
    assert s.dialed == [] || s.dialed[0] in s.dialed;
  }

  /** DialParallelNetwork keeps `primary.done` and `fallback.done` instead of counting errors. */
  lemma NetworkDoneFlags(run: seq<State>, i: nat, delay: nat)
    requires IsRun(Config(1, 1, delay, false), run) && i < |run|
    ensures run[i].caller.ReturnedErr? <==> 0 in run[i].errors && 1 in run[i].errors
  {
    ErrorMeansEveryoneFailed(Config(1, 1, delay, false), run, i);
  }

  /** The fallback group starts at most once, and only after the delay or a received primary failure. */
  lemma FallbackLaunchJustified(cfg: Config, run: seq<State>, i: nat)
    requires IsRun(cfg, run) && i < |run|
    ensures |run[i].launches| <= 1
    ensures run[i].launches != [] && run[i].launches[0] < cfg.delay ==>
              && run[i].primaryFailed.Some? && run[i].primaryFailed.value <= run[i].launches[0]
              && exists t :: t in run[i].errors && t < cfg.primaries
    ensures |run[i].racers| == cfg.Racers()
    ensures !cfg.fast && run[i].launches == [] ==>
              forall t :: cfg.primaries <= t < cfg.Racers() ==> run[i].racers[t].Unstarted?
  {
    RunKeepsInv(cfg, run, i);
  }

  /** A received primary failure hastens the fallback group: while the caller waits and the group has not started, the
      next step towards starting it is possible at once. */
  lemma PrimaryFailureHastensFallback(cfg: Config, run: seq<State>, i: nat, t: nat)
    requires IsRun(cfg, run) && i < |run| && run[i].caller.Waiting? && run[i].primaryFailed.Some?
    requires t < |run[i].racers| && run[i].racers[t].Unstarted?
    ensures run[i].timer.Armed? ==> run[i].timer.due <= run[i].now
    ensures exists s' :: Expire(run[i], s') || ReceiveTimer(cfg, run[i], s')
  {
    var s := run[i];
    RunKeepsInv(cfg, run, i);
    if s.timer.Armed? {
      assert Expire(s, s.(timer := Expired));
    } else {
      assert ReceiveTimer(cfg, s, s.(timer := Consumed, racers := Launch(cfg, s.racers), launches := s.launches + [s.now]));
    }
  }

  /** And every primary error that the caller has received counts as such a failure. */
  lemma {:induction false} PrimaryErrorIsNoted(cfg: Config, run: seq<State>, i: nat)
    requires IsRun(cfg, run) && i < |run|
    ensures run[i].primaryFailed.Some? <==> exists t :: t in run[i].errors && t < cfg.primaries
  {
    if i > 0 {
      PrimaryErrorIsNoted(cfg, run, i - 1);
      assert StepsAt(cfg, run, i - 1);
      NotedStep(cfg, run[i - 1], run[i]);
    }
  }

  lemma NotedStep(cfg: Config, s: State, s': State)
    requires Step(cfg, s, s')
    requires s.primaryFailed.Some? <==> exists t :: t in s.errors && t < cfg.primaries
    ensures s'.primaryFailed.Some? <==> exists t :: t in s'.errors && t < cfg.primaries
  {
    if t: nat :| RacerStep(cfg, s, s', t) && DeliverErr(cfg, s, s', t) {
      assert s'.errors == s.errors + [t];
      assert t in s'.errors && forall u :: u in s.errors ==> u in s'.errors;
      assert forall u :: u in s'.errors ==> u in s.errors || u == t;
    }
  }

  /** While the caller waits, some racer is unfinished or the timer is still due. */
  lemma WaitingHasAReason(cfg: Config, run: seq<State>, i: nat)
    requires IsRun(cfg, run) && i < |run| && run[i].caller.Waiting?
    ensures !AllFinished(run[i]) || run[i].timer.Armed? || run[i].timer.Expired?
  {
    RunKeepsInv(cfg, run, i);
    var s := run[i];
    if AllFinished(s) && !s.timer.Armed? && !s.timer.Expired? {
      assert forall t :: 0 <= t < |s.racers| ==> s.racers[t].Reported?;
      ErrorMeansEveryoneFailed(cfg, run, i);
      assert false;
    }
  }

  /** No deadlock: until the caller has returned and every racer is done, work is possible now or becomes
      possible when the armed timer is due. */
  lemma WorkRemainsPossible(cfg: Config, run: seq<State>, i: nat)
    requires IsRun(cfg, run) && i < |run| && !(AllFinished(run[i]) && !run[i].caller.Waiting?)
    ensures (exists s' :: Work(cfg, run[i], s')) ||
            (run[i].timer.Armed? && run[i].now < run[i].timer.due && run[i].caller.Waiting? && run[i].primaryFailed.None?)
  {
    var s := run[i];
    RunKeepsInv(cfg, run, i);
    if AllFinished(s) {
      WaitingHasAReason(cfg, run, i);
      if s.timer.Expired? {
        assert Work(cfg, s, s.(timer := Consumed, racers := Launch(cfg, s.racers), launches := s.launches + [s.now]));
      } else if s.now >= s.timer.due {
        assert Work(cfg, s, s.(timer := Expired));
      }
    } else {
      var t :| 0 <= t < |s.racers| && Unfinished(s.racers[t]);
      RacerCanStep(cfg, s, t);
    }
  }

  lemma RacerCanStep(cfg: Config, s: State, t: nat)
    requires t < |s.racers| && Unfinished(s.racers[t])
    ensures exists s' :: Work(cfg, s, s')
  {
    var received := s.(racers := s.racers[t := Reported], errors := s.errors + [t],
                       primaryFailed := if t < cfg.primaries && s.primaryFailed.None? then Some(s.now) else s.primaryFailed);
    var s' :=
      if s.racers[t].Dialing? then s.(racers := s.racers[t := HasErr])
      else if !s.caller.Waiting? then
        if s.racers[t].HasConn? then s.(racers := s.racers[t := ConnClosed], closeCalls := s.closeCalls + [t])
        else s.(racers := s.racers[t := Dropped])
      else if s.racers[t].HasConn? then s.(racers := s.racers[t := Taken], caller := ReturnedConn(t))
      else if |received.errors| == cfg.Racers() then received.(caller := ReturnedErr)
      else if t < cfg.primaries && s.timer.Armed? then received.(timer := Armed(s.now))
      else received;
    assert RacerStep(cfg, s, s', t);
    assert Work(cfg, s, s');
  }

  /** With one racer each, a primary that fails at once brings the fallback in at once, long before the delay. */
  lemma FallbackStartsAtOnce() returns (run: seq<State>)
    ensures IsRun(Config(1, 1, 300, false), run) && |run| > 0
    ensures var s := run[|run| - 1]; s.now == 0 && s.launches == [0] && s.racers == [Reported, Dialing] && s.caller.Waiting?
  {
    var cfg := Config(1, 1, 300, false);
    var s0 := State(0, Armed(300), [Dialing, Unstarted], Waiting, [], [], [], [], None);
    var s1 := s0.(racers := [HasErr, Unstarted]);
    var s2 := s0.(racers := [Reported, Unstarted], errors := [0], primaryFailed := Some(0), timer := Armed(0));
    var s3 := s2.(timer := Expired);
    var s4 := s3.(timer := Consumed, racers := [Reported, Dialing], launches := [0]);
    assert s0.racers == seq(2, i => if i < 1 || false then Dialing else Unstarted);
    run := [s0];
    assert IsRun(cfg, run);
    assert Dial(s0, s1, 0) && DeliverErr(cfg, s1, s2, 0) && Expire(s2, s3);
    assert Launch(cfg, s3.racers) == [Reported, Dialing];
    assert ReceiveTimer(cfg, s3, s4);
    hide IsRun, Dial, DeliverErr, Expire, ReceiveTimer;
    run := RacerExtends(cfg, run, s1, 0);
    run := RacerExtends(cfg, run, s2, 0);
    run := Extend(cfg, run, s3);
    run := Extend(cfg, run, s4);
  }

  /** Two racers that both connect: whichever is received is returned, here the second, and the other is closed. */
  lemma LoserIsClosed() returns (run: seq<State>)
    ensures IsRun(Config(1, 1, 300, true), run) && |run| > 0
    ensures var s := run[|run| - 1]; s.caller == ReturnedConn(1) && s.dialed == [0, 1] && s.closeCalls == [0] && AllFinished(s)
  {
    var cfg := Config(1, 1, 300, true);
    var s0 := State(0, Absent, [Dialing, Dialing], Waiting, [], [], [], [], None);
    var s1 := s0.(racers := [HasConn, Dialing], dialed := [0]);
    var s2 := s0.(racers := [HasConn, HasConn], dialed := [0, 1]);
    var s3 := s2.(racers := [HasConn, Taken], caller := ReturnedConn(1));
    var s4 := s3.(racers := [ConnClosed, Taken], closeCalls := [0]);
    assert s0.racers == seq(2, i => if i < 1 || true then Dialing else Unstarted);
    run := [s0];
    assert IsRun(cfg, run);
    assert Dial(s0, s1, 0) && Dial(s1, s2, 1) && DeliverConn(s2, s3, 1) && Discard(s3, s4, 0);
    hide IsRun, Dial, DeliverConn, Discard;
    run := RacerExtends(cfg, run, s1, 0);
    run := RacerExtends(cfg, run, s2, 1);
    run := RacerExtends(cfg, run, s3, 1);
    run := RacerExtends(cfg, run, s4, 0);
  }

  lemma RacerExtends(cfg: Config, run: seq<State>, s': State, t: nat) returns (longer: seq<State>)
    requires IsRun(cfg, run) && |run| > 0 && RacerStep(cfg, run[|run| - 1], s', t)
    ensures IsRun(cfg, longer) && |longer| > 0 && longer[|longer| - 1] == s'
  {
    hide RacerStep;
    longer := Extend(cfg, run, s');
  }

  lemma Extend(cfg: Config, run: seq<State>, s': State) returns (longer: seq<State>)
    requires IsRun(cfg, run) && |run| > 0 && Work(cfg, run[|run| - 1], s')
    ensures IsRun(cfg, longer) && |longer| > 0 && longer[|longer| - 1] == s'
  {
    hide Work;
    longer := run + [s'];
    forall i | 0 <= i < |longer| - 1 ensures StepsAt(cfg, longer, i) {
      assert i < |run| - 1 ==> StepsAt(cfg, run, i);
    }
  }

  // ----- Termination -----

  function Rank(r: Racer): nat {
    match r
    case Unstarted => 5
    case Dialing => 4
    case HasConn => 2
    case HasErr => 2
    case _ => 0
  }

  function TotalRank(racers: seq<Racer>): nat {
    if racers == [] then 0 else TotalRank(racers[..|racers| - 1]) + Rank(racers[|racers| - 1])
  }

  function Measure(s: State): nat {
    TotalRank(s.racers) + match s.timer { case Armed(_) => 2 case Expired => 1 case _ => 0 }
  }

  lemma {:induction false} TotalRankUpdate(racers: seq<Racer>, t: nat, r: Racer)
    requires t < |racers|
    ensures TotalRank(racers[t := r]) + Rank(racers[t]) == TotalRank(racers) + Rank(r)
  {
    var last := |racers| - 1;
    if t == last {
      assert racers[t := r][..last] == racers[..last];
    } else {
      TotalRankUpdate(racers[..last], t, r);
      assert racers[t := r][..last] == racers[..last][t := r];
    }
  }

  lemma {:induction false} LaunchRank(cfg: Config, racers: seq<Racer>)
    requires forall t :: cfg.primaries <= t < |racers| ==> racers[t].Unstarted?
    ensures TotalRank(Launch(cfg, racers)) <= TotalRank(racers)
  {
    if racers != [] {
      var last := |racers| - 1;
      LaunchRank(cfg, racers[..last]);
      assert Launch(cfg, racers)[..last] == Launch(cfg, racers[..last]);
    }
  }

  lemma RacerStepUsesUpMeasure(cfg: Config, s: State, s': State, t: nat)
    requires RacerStep(cfg, s, s', t)
    ensures Measure(s') < Measure(s)
  {
    TotalRankUpdate(s.racers, t, s'.racers[t]);
  }

  lemma WorkUsesUpMeasure(cfg: Config, s: State, s': State)
    requires LaunchInv(cfg, s) && Work(cfg, s, s')
    ensures Measure(s') < Measure(s)
  {
    if Expire(s, s') {
    } else if ReceiveTimer(cfg, s, s') {
      LaunchRank(cfg, s.racers);
    } else {
      var t: nat :| RacerStep(cfg, s, s', t);
      RacerStepUsesUpMeasure(cfg, s, s', t);
    }
  }

  ghost function WorkSteps(cfg: Config, run: seq<State>): nat {
    if |run| <= 1 then 0
    else WorkSteps(cfg, run[..|run| - 1]) + if Work(cfg, run[|run| - 2], run[|run| - 1]) then 1 else 0
  }

  /** Apart from waiting, every race does at most `5 * racers + 2` steps of work. */
  lemma {:induction false} WorkIsBounded(cfg: Config, run: seq<State>)
    requires IsRun(cfg, run)
    ensures WorkSteps(cfg, run) + Measure(run[|run| - 1]) <= Measure(run[0]) <= 5 * cfg.Racers() + 2
    decreases |run|
  {
    if |run| == 1 {
      RankBound(run[0].racers);
    } else {
      var last := |run| - 1;
      var shorter := run[..last];
      forall i | 0 <= i < |shorter| - 1 ensures StepsAt(cfg, shorter, i) {
        assert StepsAt(cfg, run, i);
      }
      WorkIsBounded(cfg, shorter);
      RunKeepsInv(cfg, run, last - 1);
      assert StepsAt(cfg, run, last - 1);
      if Work(cfg, run[last - 1], run[last]) {
        WorkUsesUpMeasure(cfg, run[last - 1], run[last]);
      }
    }
  }

  lemma {:induction false} RankBound(racers: seq<Racer>)
    ensures TotalRank(racers) <= 5 * |racers|
  {
    if racers != [] {
      RankBound(racers[..|racers| - 1]);
    }
  }

  // ----- DialSerialNetwork -----

  /** One racer's serial dial: addresses are tried in order until one connects.  `connects` is the outcome
      each address would have. */
  method DialSerialNetwork(connects: seq<bool>) returns (conn: Option<nat>, errors: seq<nat>)
    ensures conn.Some? ==> conn.value < |connects| && connects[conn.value] && |errors| == conn.value
    ensures conn.None? ==> |errors| == |connects|
    ensures forall i :: 0 <= i < |errors| ==> errors[i] == i && !connects[i]
  {
    errors := [];
    for address := 0 to |connects|
      invariant |errors| == address
      invariant forall i :: 0 <= i < |errors| ==> errors[i] == i && !connects[i]
    {
      if connects[address] {
        return Some(address), errors;
      }
      errors := errors + [address];
    }
    conn := None;
  }
}
