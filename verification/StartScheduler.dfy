/** Dependency-ordered start: the fixpoint scheduler `startOutbounds` and its recursive lint, which the DNS
    transport manager repeats as `startTransports` and `lintTransport`. */
module StartScheduler {
  import opened Common

  type Tag = string

  datatype Outbound = Outbound(tag: Tag, deps: seq<Tag>)

  datatype Outcome =
    | Ok
    | StartFailed(tag: Tag)
    | Circular(chain: seq<Tag>, problem: Tag)      // "circular outbound dependency: chain -> problem"
    | NotFound(problem: Tag, dependent: Tag)       // "dependency[problem] not found for outbound[dependent]"
    | NoCurrent                                    // nothing unstarted is left to lint: a nil dereference, which panics

  // ----- The dependency graph -----

  ghost predicate DistinctTags(outbounds: seq<Outbound>) {
    forall i, j :: 0 <= i < j < |outbounds| ==> outbounds[i].tag != outbounds[j].tag
  }

  function Tags(outbounds: seq<Outbound>): set<Tag> {
    set o | o in outbounds :: o.tag
  }

  ghost predicate Edge(outbounds: seq<Outbound>, a: Tag, b: Tag) {
    exists o :: o in outbounds && o.tag == a && b in o.deps
  }

  ghost predicate Path(outbounds: seq<Outbound>, path: seq<Tag>) {
    forall i :: 0 <= i < |path| - 1 ==> Edge(outbounds, path[i], path[i + 1])
  }

  ghost predicate Cycle(outbounds: seq<Outbound>, path: seq<Tag>) {
    |path| >= 2 && path[0] == path[|path| - 1] && Path(outbounds, path)
  }

  ghost predicate Acyclic(outbounds: seq<Outbound>) {
    forall path :: !Cycle(outbounds, path)
  }

  ghost predicate Closed(outbounds: seq<Outbound>) {
    forall o, d :: o in outbounds && d in o.deps ==> d in Tags(outbounds)
  }

  /** `order` starts each tag once, after everything it depends on. */
  ghost predicate TopologicalPrefix(outbounds: seq<Outbound>, order: seq<Tag>) {
    && (forall i, j :: 0 <= i < j < |order| ==> order[i] != order[j])
    && (forall i :: 0 <= i < |order| ==> order[i] in Tags(outbounds))
    && (forall i, d :: 0 <= i < |order| && Edge(outbounds, order[i], d) ==> d in order[..i])
  }

  ghost function Elements(s: seq<Tag>): set<Tag> {
    set t | t in s
  }

  /** Some outbound of this tag depends only on `earlier` ones. */
  ghost predicate CanFollow(outbounds: seq<Outbound>, t: Tag, earlier: seq<Tag>) {
    exists o :: o in outbounds && o.tag == t && forall d :: d in o.deps ==> d in earlier
  }

  /** `order` starts each tag once, through an outbound of that tag whose dependencies come earlier; where tags are
      distinct this is a topological order. */
  ghost predicate StartOrder(outbounds: seq<Outbound>, order: seq<Tag>) {
    && (forall i, j :: 0 <= i < j < |order| ==> order[i] != order[j])
    && (forall i :: 0 <= i < |order| ==> CanFollow(outbounds, order[i], order[..i]))
  }

  /** Every tag can be started. */
  ghost predicate Completable(outbounds: seq<Outbound>) {
    exists order :: StartOrder(outbounds, order) && Elements(order) == Tags(outbounds)
  }

  lemma StartOrderIsTopological(outbounds: seq<Outbound>, order: seq<Tag>)
    requires DistinctTags(outbounds) && StartOrder(outbounds, order)
    ensures TopologicalPrefix(outbounds, order)
  {
    forall i | 0 <= i < |order|
      ensures order[i] in Tags(outbounds)
      ensures forall d :: Edge(outbounds, order[i], d) ==> d in order[..i]
    {
      assert CanFollow(outbounds, order[i], order[..i]);
    }
  }

  /** A stuck scheduler could not have got further by any other order. */
  lemma {:induction false} StuckIsMaximal(outbounds: seq<Outbound>, started: set<Tag>, order: seq<Tag>, n: nat)
    requires Stuck(outbounds, started) && StartOrder(outbounds, order) && n <= |order|
    ensures forall i :: 0 <= i < n ==> order[i] in started
  {
    if n > 0 {
      StuckIsMaximal(outbounds, started, order, n - 1);
      assert CanFollow(outbounds, order[n - 1], order[..n - 1]);
    }
  }

  lemma StuckIsNotCompletable(outbounds: seq<Outbound>, started: set<Tag>, current: Outbound)
    requires Stuck(outbounds, started) && current in outbounds && current.tag !in started
    ensures !Completable(outbounds)
  {
    forall order | StartOrder(outbounds, order) ensures Elements(order) != Tags(outbounds) {
      StuckIsMaximal(outbounds, started, order, |order|);
      assert current.tag in Tags(outbounds) && current.tag !in Elements(order);
    }
  }

  // ----- The lint -----

  /** common.Find over the dependencies: the first unstarted one, or the zero value. */
  function FirstUnstarted(deps: seq<Tag>, started: set<Tag>): (d: Tag)
    ensures (exists t :: t in deps && t !in started) ==> d in deps && d !in started
    ensures forall k :: 0 <= k < |deps| && deps[k] !in started && (forall j :: 0 <= j < k ==> deps[j] in started) ==> d == deps[k]
  {
    if deps == [] then "" else if deps[0] !in started then deps[0] else FirstUnstarted(deps[1..], started)
  }

  /** lintOutbound: `tree` is the chain walked so far, ending in `current`. */
  function Lint(byTag: map<Tag, Outbound>, started: set<Tag>, tree: seq<Tag>, current: Outbound): Outcome
    decreases byTag.Keys - (set t | t in tree)
  {
    var problem := FirstUnstarted(current.deps, started);
    if problem in tree then Circular(tree, problem)
    else if problem !in byTag then NotFound(problem, current.tag)
    else
      assert problem in byTag.Keys - (set t | t in tree);
      assert problem !in byTag.Keys - (set t | t in tree + [problem]);
      Lint(byTag, started, tree + [problem], byTag[problem])
  }

  /** Every unstarted outbound is waiting for an unstarted dependency. */
  ghost predicate Stuck(outbounds: seq<Outbound>, started: set<Tag>) {
    forall o :: o in outbounds && o.tag !in started ==> exists d :: d in o.deps && d !in started
  }

  ghost predicate Indexes(byTag: map<Tag, Outbound>, outbounds: seq<Outbound>) {
    forall t :: t in byTag ==> byTag[t] in outbounds && byTag[t].tag == t
  }

  /** What a report asserts about the graph: a circular one names a chain of real dependencies that runs
      back into itself, a not-found one a real dependency on a tag absent from the index; neither has
      been started. */
  ghost predicate ReportHolds(outbounds: seq<Outbound>, byTag: map<Tag, Outbound>, started: set<Tag>, report: Outcome) {
    match report
    case Circular(chain, problem) =>
      && problem in chain && Path(outbounds, chain + [problem])
      && forall t :: t in chain ==> t !in started
    case NotFound(problem, dependent) =>
      && Edge(outbounds, dependent, problem) && problem !in byTag
      && problem !in started && dependent !in started
    case _ => false
  }

  lemma {:induction false} LintIsRight(outbounds: seq<Outbound>, byTag: map<Tag, Outbound>, started: set<Tag>,
                                       tree: seq<Tag>, current: Outbound)
    requires Indexes(byTag, outbounds) && Stuck(outbounds, started)
    requires current in outbounds && current.tag !in started
    requires |tree| > 0 && tree[|tree| - 1] == current.tag && Path(outbounds, tree)
    requires forall t :: t in tree ==> t !in started
    ensures ReportHolds(outbounds, byTag, started, Lint(byTag, started, tree, current))
    ensures Lint(byTag, started, tree, current).Circular? ==> tree <= Lint(byTag, started, tree, current).chain
    decreases byTag.Keys - (set t | t in tree)
  {
    var problem := FirstUnstarted(current.deps, started);
    assert problem in current.deps && problem !in started;
    assert Edge(outbounds, current.tag, problem);
    var longer := tree + [problem];
    assert Path(outbounds, longer) by {
      forall i | 0 <= i < |longer| - 1 ensures Edge(outbounds, longer[i], longer[i + 1]) {
        assert i < |tree| - 1 ==> Edge(outbounds, tree[i], tree[i + 1]);
      }
    }
    if problem !in tree && problem in byTag {
      assert problem in byTag.Keys - (set t | t in tree);
      assert problem !in byTag.Keys - (set t | t in longer);
      LintIsRight(outbounds, byTag, started, longer, byTag[problem]);
    }
  }

  /** Two tag maps that agree where both know a tag. */
  ghost predicate PartOf(byTag: map<Tag, Outbound>, index: map<Tag, Outbound>) {
    forall t :: t in byTag ==> t in index && index[t] == byTag[t]
  }

  lemma {:induction false} LintGrowsTree(byTag: map<Tag, Outbound>, started: set<Tag>, tree: seq<Tag>, current: Outbound)
    ensures Lint(byTag, started, tree, current).Circular? ==> tree <= Lint(byTag, started, tree, current).chain
    decreases byTag.Keys - (set t | t in tree)
  {
    var problem := FirstUnstarted(current.deps, started);
    if problem !in tree && problem in byTag {
      assert problem in byTag.Keys - (set t | t in tree);
      assert problem !in byTag.Keys - (set t | t in tree + [problem]);
      LintGrowsTree(byTag, started, tree + [problem], byTag[problem]);
    }
  }

  /** The lint looks a dependency up in the tag map, which has no endpoints.  Where the whole list would show a cycle, the
      report is instead "not found", naming a tag that exists, exactly when the chain walked passes through a tag that
      is not in the map; otherwise it is that cycle. */
  lemma {:induction false} MisreportsIff(byTag: map<Tag, Outbound>, index: map<Tag, Outbound>, started: set<Tag>,
                                         tree: seq<Tag>, current: Outbound)
    requires PartOf(byTag, index) && Lint(index, started, tree, current).Circular?
    ensures var full, report := Lint(index, started, tree, current), Lint(byTag, started, tree, current);
      if exists k :: |tree| <= k < |full.chain| && full.chain[k] !in byTag
      then report.NotFound? && report.problem in index && report.problem !in byTag
      else report == full
    decreases index.Keys - (set t | t in tree)
  {
    var problem := FirstUnstarted(current.deps, started);
    if problem !in tree {
      var longer, full := tree + [problem], Lint(index, started, tree, current);
      assert problem in index.Keys - (set t | t in tree);
      assert problem !in index.Keys - (set t | t in longer);
      LintGrowsTree(index, started, longer, index[problem]);
      assert full.chain[|tree|] == longer[|tree|] == problem;
      if problem in byTag {
        MisreportsIff(byTag, index, started, longer, index[problem]);
        assert forall k :: |tree| <= k < |full.chain| && full.chain[k] !in byTag ==> k >= |longer|;
      }
    }
  }

  /** Outbound "a" depends on endpoint "e", which depends on "a": a cycle, reported as a missing "e". */
  lemma EndpointCycleMisreported()
    ensures var a, e := Outbound("a", ["e"]), Outbound("e", ["a"]);
      && Cycle([a, e], ["a", "e", "a"])
      && Lint(map["a" := a], {}, ["a"], a) == NotFound("e", "a") && "e" in Tags([a, e])
  {
    var a, e := Outbound("a", ["e"]), Outbound("e", ["a"]);
    var path := ["a", "e", "a"];
    assert a in [a, e] && e in [a, e];
    assert Edge([a, e], path[0], path[0 + 1]) && Edge([a, e], path[1], path[1 + 1]);
    assert FirstUnstarted(["e"], {}) == "e";
  }

  lemma CircularGivesCycle(outbounds: seq<Outbound>, chain: seq<Tag>, problem: Tag)
    requires problem in chain && Path(outbounds, chain + [problem])
    ensures !Acyclic(outbounds)
  {
    var k :| 0 <= k < |chain| && chain[k] == problem;
    var path := chain + [problem];
    var cycle := path[k..];
    forall i | 0 <= i < |cycle| - 1 ensures Edge(outbounds, cycle[i], cycle[i + 1]) {
      assert Edge(outbounds, path[k + i], path[k + i + 1]);
    }
    assert Cycle(outbounds, cycle);
  }

  ghost function FullIndex(outbounds: seq<Outbound>): (index: map<Tag, Outbound>)
    ensures index.Keys == Tags(outbounds) && Indexes(index, outbounds)
  {
    map t | t in Tags(outbounds) :: var o :| o in outbounds && o.tag == t; o
  }

  /** On a closed list, where every dependency exists, a stuck start is always a cycle; the report says "not found" exactly
      when the chain of first unstarted dependencies runs through a tag outside the map, that is, an endpoint. */
  lemma ClosedReport(outbounds: seq<Outbound>, byTag: map<Tag, Outbound>, started: set<Tag>, current: Outbound)
    requires DistinctTags(outbounds) && Indexes(byTag, outbounds) && Closed(outbounds)
    requires Stuck(outbounds, started) && current in outbounds && current.tag !in started
    ensures var full, report := Lint(FullIndex(outbounds), started, [current.tag], current), Lint(byTag, started, [current.tag], current);
      && full.Circular?
      && (report.NotFound? <==> exists k :: 1 <= k < |full.chain| && full.chain[k] !in byTag)
      && (report.NotFound? ==> report.problem in Tags(outbounds)) && (report.NotFound? || report == full)
  {
    var index := FullIndex(outbounds);
    LintIsRight(outbounds, index, started, [current.tag], current);
    var full := Lint(index, started, [current.tag], current);
    assert full.NotFound? ==> Edge(outbounds, full.dependent, full.problem);
    forall t | t in byTag ensures index[t] == byTag[t] {
      assert byTag[t] in outbounds && t in Tags(outbounds);
    }
    MisreportsIff(byTag, index, started, [current.tag], current);
  }

  /** A stuck scheduler means the graph is not closed or not acyclic, whatever the tag map contains. */
  lemma StuckIsJustified(outbounds: seq<Outbound>, started: set<Tag>, current: Outbound)
    requires Stuck(outbounds, started) && current in outbounds && current.tag !in started
    ensures !(Closed(outbounds) && Acyclic(outbounds))
  {
    var index := FullIndex(outbounds);
    LintIsRight(outbounds, index, started, [current.tag], current);
    var report := Lint(index, started, [current.tag], current);
    if report.Circular? {
      CircularGivesCycle(outbounds, report.chain, report.problem);
    } else {
      assert Edge(outbounds, report.dependent, report.problem);
    }
  }

  // ----- A complete order means closed and acyclic -----

  ghost function IndexIn(order: seq<Tag>, t: Tag): (i: nat)
    requires t in order
    ensures i < |order| && order[i] == t
  {
    var i :| 0 <= i < |order| && order[i] == t; i
  }

  lemma EdgeGoesBack(outbounds: seq<Outbound>, order: seq<Tag>, a: Tag, b: Tag)
    requires TopologicalPrefix(outbounds, order) && a in order && Edge(outbounds, a, b)
    ensures b in order && IndexIn(order, b) < IndexIn(order, a)
  {
    var i := IndexIn(order, a);
    assert b in order[..i];
    var j :| 0 <= j < i && order[j] == b;
    assert IndexIn(order, b) == j;
  }

  lemma {:induction false} PathGoesBack(outbounds: seq<Outbound>, order: seq<Tag>, path: seq<Tag>, n: nat)
    requires TopologicalPrefix(outbounds, order) && Path(outbounds, path) && n < |path| && path[0] in order
    ensures path[n] in order && IndexIn(order, path[n]) + n <= IndexIn(order, path[0])
  {
    if n > 0 {
      PathGoesBack(outbounds, order, path, n - 1);
      assert Edge(outbounds, path[n - 1], path[n - 1 + 1]);
      EdgeGoesBack(outbounds, order, path[n - 1], path[n]);
    }
  }

  lemma CompleteOrderIsAcyclic(outbounds: seq<Outbound>, order: seq<Tag>)
    requires TopologicalPrefix(outbounds, order) && Elements(order) == Tags(outbounds)
    ensures Closed(outbounds) && Acyclic(outbounds)
  {
    assert forall t :: t in Tags(outbounds) ==> t in Elements(order);
    forall o, d | o in outbounds && d in o.deps ensures d in Tags(outbounds) {
      assert o.tag in Tags(outbounds);
      assert Edge(outbounds, o.tag, d);
      EdgeGoesBack(outbounds, order, o.tag, d);
      assert d in Elements(order);
    }
    forall path | Cycle(outbounds, path) ensures false {
      assert Edge(outbounds, path[0], path[0 + 1]);
      assert path[0] in Tags(outbounds) by {
        var o :| o in outbounds && o.tag == path[0] && path[1] in o.deps;
      }
      PathGoesBack(outbounds, order, path, |path| - 1);
    }
  }

  /** Counting tags finds a repeated one. */
  lemma {:induction false} TagsSize(outbounds: seq<Outbound>)
    ensures |Tags(outbounds)| <= |outbounds|
    ensures |Tags(outbounds)| == |outbounds| <==> DistinctTags(outbounds)
  {
    if outbounds != [] {
      var init, o := outbounds[..|outbounds| - 1], outbounds[|outbounds| - 1];
      assert outbounds == init + [o];
      TagsSize(init);
      assert Tags(outbounds) == Tags(init) + {o.tag};
      DistinctSnoc(init, o);
      hide Tags, DistinctTags;
    }
  }

  lemma DistinctSnoc(init: seq<Outbound>, o: Outbound)
    ensures DistinctTags(init + [o]) <==> DistinctTags(init) && o.tag !in Tags(init)
  {
    var all := init + [o];
    assert all[|init|] == o && forall i :: 0 <= i < |init| ==> all[i] == init[i];
    if DistinctTags(all) {
      assert forall i :: 0 <= i < |init| ==> all[i].tag != all[|init|].tag;
    }
  }

  lemma SubsetOfSameSize(a: set<Tag>, b: set<Tag>)
    requires a <= b
    ensures |a| <= |b| && (|a| == |b| ==> a == b)
  {
    assert b == a + (b - a);
  }

  // ----- The scheduler -----

  /** The inner loop over one outbound's dependencies. */
  method AllStarted(deps: seq<Tag>, started: set<Tag>) returns (all: bool)
    ensures all <==> forall d :: d in deps ==> d in started
  {
    for i := 0 to |deps|
      invariant forall j :: 0 <= j < i ==> deps[j] in started
    {
      if deps[i] !in started {
        return false;
      }
    }
    return true;
  }

  ghost predicate ReadyOrder(outbounds: seq<Outbound>, started: set<Tag>, order: seq<Tag>) {
    StartOrder(outbounds, order) && started == Elements(order) && |started| == |order| && started <= Tags(outbounds)
  }

  lemma OrderOneMore(outbounds: seq<Outbound>, order: seq<Tag>, o: Outbound)
    requires StartOrder(outbounds, order) && o in outbounds && o.tag !in order && forall d :: d in o.deps ==> d in order
    ensures StartOrder(outbounds, order + [o.tag])
  {
    var longer := order + [o.tag];
    assert CanFollow(outbounds, o.tag, order);
    hide CanFollow;
    forall i | 0 <= i < |longer| ensures CanFollow(outbounds, longer[i], longer[..i]) {
      if i < |order| {
        assert longer[..i] == order[..i];
      } else {
        assert longer[..i] == order;
      }
    }
  }

  lemma StartOneMore(outbounds: seq<Outbound>, started: set<Tag>, order: seq<Tag>, o: Outbound)
    requires ReadyOrder(outbounds, started, order)
    requires o in outbounds && o.tag !in started && forall d :: d in o.deps ==> d in started
    ensures ReadyOrder(outbounds, started + {o.tag}, order + [o.tag])
  {
    hide StartOrder;
    assert forall d :: d in order <==> d in Elements(order);
    OrderOneMore(outbounds, order, o);
    assert Elements(order + [o.tag]) == started + {o.tag};
  }

  predicate NoneFailed(order: seq<Tag>, fails: set<Tag>) {
    forall t :: t in order ==> t !in fails
  }

  /** None of the first k outbounds could be started. */
  ghost predicate StuckUpTo(outbounds: seq<Outbound>, k: nat, started: set<Tag>)
    requires k <= |outbounds|
  {
    Stuck(outbounds[..k], started)
  }

  lemma StuckOneMore(outbounds: seq<Outbound>, k: nat, started: set<Tag>)
    requires k < |outbounds| && StuckUpTo(outbounds, k, started)
    requires outbounds[k].tag in started || exists d :: d in outbounds[k].deps && d !in started
    ensures StuckUpTo(outbounds, k + 1, started)
  {
    assert outbounds[..k + 1] == outbounds[..k] + [outbounds[k]];
  }

  /** One pass over the list: starts, in list order, every outbound whose dependencies are started by then.
      `fails` is the set of tags for which Start returns an error. */
  method Pass(outbounds: seq<Outbound>, fails: set<Tag>, started0: set<Tag>, order0: seq<Tag>)
    returns (started: set<Tag>, order: seq<Tag>, canContinue: bool, failed: bool)
    requires ReadyOrder(outbounds, started0, order0)
    requires NoneFailed(order0, fails)
    ensures ReadyOrder(outbounds, started, order) && order0 <= order
    ensures failed ==> |order| > 0 && order[|order| - 1] in fails && NoneFailed(order[..|order| - 1], fails)
    ensures !failed ==> NoneFailed(order, fails)
    ensures !failed && canContinue ==> |order| > |order0|
    ensures !failed && !canContinue ==> started == started0 && order == order0 && Stuck(outbounds, started)
  {
    started, order, canContinue, failed := started0, order0, false, false;
    hide ReadyOrder, Stuck;
    assert StuckUpTo(outbounds, 0, started) by { NothingIsStuck(outbounds, started); }
    for k := 0 to |outbounds|
      invariant ReadyOrder(outbounds, started, order) && order0 <= order
      invariant NoneFailed(order, fails)
      invariant if canContinue then |order| > |order0| else started == started0 && order == order0
      invariant !canContinue ==> StuckUpTo(outbounds, k, started)
    {
      hide NoneFailed, StuckUpTo;
      var outboundToStart := outbounds[k];
      if !canContinue && (outboundToStart.tag in started || exists d :: d in outboundToStart.deps && d !in started) {
        StuckOneMore(outbounds, k, started);
      }
      if outboundToStart.tag in started {
        continue;
      }
      var ready := AllStarted(outboundToStart.deps, started);
      if !ready {
        continue;
      }
      StartOneMore(outbounds, started, order, outboundToStart);
      OneMoreUnfailed(order, outboundToStart.tag, fails);
      started, order, canContinue := started + {outboundToStart.tag}, order + [outboundToStart.tag], true;
      if outboundToStart.tag in fails {
        failed := true;
        return;
      }
    }
    assert outbounds[..|outbounds|] == outbounds;
  }

  /** Some order starts unfailing tags up to a failing one. */
  ghost predicate FailureReachable(outbounds: seq<Outbound>, fails: set<Tag>) {
    exists order, t :: StartOrder(outbounds, order + [t]) && NoneFailed(order, fails) && t in fails
  }

  /** If the scheduler ends without a failure, no other order would have met one. */
  lemma NoFailureReachable(outbounds: seq<Outbound>, started: set<Tag>, order: seq<Tag>, fails: set<Tag>)
    requires Stuck(outbounds, started) && started == Elements(order) && NoneFailed(order, fails)
    ensures !FailureReachable(outbounds, fails)
  {
    forall other: seq<Tag>, t | StartOrder(outbounds, other + [t]) ensures t !in fails {
      StuckIsMaximal(outbounds, started, other + [t], |other| + 1);
      assert (other + [t])[|other|] == t;
    }
  }

  lemma AllStartedIsStuck(outbounds: seq<Outbound>, started: set<Tag>)
    requires Tags(outbounds) <= started
    ensures Stuck(outbounds, started)
  {
    assert forall o :: o in outbounds ==> o.tag in Tags(outbounds);
  }

  lemma NothingIsStuck(outbounds: seq<Outbound>, started: set<Tag>)
    ensures StuckUpTo(outbounds, 0, started)
  {
  }

  lemma OneMoreUnfailed(order: seq<Tag>, tag: Tag, fails: set<Tag>)
    requires NoneFailed(order, fails)
    ensures NoneFailed(order + [tag], fails) <==> tag !in fails
    ensures (order + [tag])[..|order|] == order
  {
    assert tag in order + [tag];
  }

  /** The scheduler.  `byTag` is the manager's tag map; the list may hold more, because Start appends the
      endpoints to it.  With distinct tags it succeeds exactly on a closed acyclic graph; with a repeated tag it never
      succeeds, and panics exactly when everything could be started. */
  method StartOutbounds(outbounds: seq<Outbound>, byTag: map<Tag, Outbound>, fails: set<Tag>)
    returns (result: Outcome, order: seq<Tag>)
    requires Indexes(byTag, outbounds)
    ensures StartOrder(outbounds, order)
    ensures DistinctTags(outbounds) ==> TopologicalPrefix(outbounds, order)
    ensures result.Ok? <==> DistinctTags(outbounds) && Closed(outbounds) && Acyclic(outbounds) && fails !! Tags(outbounds)
    ensures result.NoCurrent? <==> !DistinctTags(outbounds) && Completable(outbounds) && fails !! Tags(outbounds)
    ensures result.Ok? || result.NoCurrent? ==> Elements(order) == Tags(outbounds)
    ensures result.StartFailed? <==> FailureReachable(outbounds, fails)
    ensures result.StartFailed? ==> |order| > 0 && result.tag == order[|order| - 1] && result.tag in fails
    ensures result.Circular? || result.NotFound? ==> ReportHolds(outbounds, byTag, Elements(order), result)
  {
    var started: set<Tag> := {};
    order := [];
    TagsSize(outbounds);
    while true
      invariant ReadyOrder(outbounds, started, order)
      invariant NoneFailed(order, fails)
      decreases |outbounds| - |order|
    {
      hide Stuck, Closed, Acyclic, Indexes, DistinctTags, StartOrder, TopologicalPrefix, ReportHolds, Completable,
           FailureReachable, NoneFailed;
      var canContinue, failed;
      started, order, canContinue, failed := Pass(outbounds, fails, started, order);
      SubsetOfSameSize(started, Tags(outbounds));
      if DistinctTags(outbounds) {
        StartOrderIsTopological(outbounds, order);
      }
      if failed {
        FailedEnds(outbounds, started, order, fails);
        return StartFailed(order[|order| - 1]), order;
      }
      if |started| == |outbounds| {
        CompleteEnds(outbounds, started, order, fails);
        CompleteOrderIsAcyclic(outbounds, order);
        return Ok, order;
      }
      if canContinue {
        continue;
      }
      var current := FindUnstarted(outbounds, started);
      if current.None? {
        CompleteEnds(outbounds, started, order, fails);
        return NoCurrent, order;
      }
      NoFailureReachable(outbounds, started, order, fails);
      StuckIsJustified(outbounds, started, current.value);
      StuckIsNotCompletable(outbounds, started, current.value);
      LintIsRight(outbounds, byTag, started, [current.value.tag], current.value);
      return Lint(byTag, started, [current.value.tag], current.value), order;
    }
  }

  lemma FailedEnds(outbounds: seq<Outbound>, started: set<Tag>, order: seq<Tag>, fails: set<Tag>)
    requires ReadyOrder(outbounds, started, order)
    requires |order| > 0 && order[|order| - 1] in fails && NoneFailed(order[..|order| - 1], fails)
    ensures FailureReachable(outbounds, fails) && !(fails !! Tags(outbounds))
  {
    hide StartOrder, NoneFailed;
    assert order == order[..|order| - 1] + [order[|order| - 1]];
    assert order[|order| - 1] in Elements(order);
  }

  lemma CompleteEnds(outbounds: seq<Outbound>, started: set<Tag>, order: seq<Tag>, fails: set<Tag>)
    requires ReadyOrder(outbounds, started, order) && NoneFailed(order, fails) && started == Tags(outbounds)
    ensures Completable(outbounds) && fails !! Tags(outbounds) && !FailureReachable(outbounds, fails)
    ensures Elements(order) == Tags(outbounds)
  {
    AllStartedIsStuck(outbounds, started);
    NoFailureReachable(outbounds, started, order, fails);
    hide StartOrder, FailureReachable, Stuck;
  }

  /** common.Find over the list: the first unstarted outbound, or nil. */
  method FindUnstarted(outbounds: seq<Outbound>, started: set<Tag>) returns (o: Option<Outbound>)
    ensures o.Some? ==> o.value in outbounds && o.value.tag !in started
    ensures o.None? ==> Tags(outbounds) <= started
  {
    for i := 0 to |outbounds|
      invariant forall j :: 0 <= j < i ==> outbounds[j].tag in started
    {
      if outbounds[i].tag !in started {
        return Some(outbounds[i]);
      }
    }
    return None;
  }
}
