/** The outbound manager's three indexes (the list, the tag map and the reverse dependency map) under any
    run of Create, Remove and Start before Close. */
module OutboundIndex {
  import opened Common
  import StartScheduler

  type Tag = string

  /** `id` is the object's identity; the manager compares outbounds by reference. */
  datatype Outbound = Outbound(id: nat, tag: Tag, deps: seq<Tag>)

  datatype Index = Index(
    defaultTag: Tag,
    started: bool,
    outbounds: seq<Outbound>,
    byTag: map<Tag, Outbound>,
    dependBy: map<Tag, seq<Tag>>,
    chosen: Option<Outbound>          // defaultOutbound
  )

  datatype Result =
    | Success
    | Invalid                         // os.ErrInvalid
    | SetupError                      // the registry, a start stage or the fallback constructor failed
    | CloseError                      // closing an outbound failed
    | DependedBy(tags: seq<Tag>)      // "outbound[...] is depended by ..."
    | NoDefault                       // "default outbound not found"

  // ----- Pieces -----

  /** A missing key reads as the nil slice. */
  function Get(m: map<Tag, seq<Tag>>, t: Tag): seq<Tag> {
    if t in m then m[t] else []
  }

  function Without(list: seq<Outbound>, o: Outbound): seq<Outbound> {
    if list == [] then [] else if list[0] == o then list[1..] else [list[0]] + Without(list[1..], o)
  }

  function Others(tags: seq<Tag>, tag: Tag): (r: seq<Tag>)
    ensures forall t :: t in r <==> t in tags && t != tag
  {
    if tags == [] then []
    else if tags[|tags| - 1] == tag then Others(tags[..|tags| - 1], tag)
    else Others(tags[..|tags| - 1], tag) + [tags[|tags| - 1]]
  }

  /** One turn of the clean-up loop of Remove. */
  function Release(dependBy: map<Tag, seq<Tag>>, dep: Tag, tag: Tag): map<Tag, seq<Tag>> {
    if |Get(dependBy, dep)| == 1 then dependBy - {dep} else dependBy[dep := Others(Get(dependBy, dep), tag)]
  }

  function ReleaseAll(dependBy: map<Tag, seq<Tag>>, deps: seq<Tag>, tag: Tag): map<Tag, seq<Tag>> {
    if deps == [] then dependBy
    else Release(ReleaseAll(dependBy, deps[..|deps| - 1], tag), deps[|deps| - 1], tag)
  }

  function ListUnder(dependBy: map<Tag, seq<Tag>>, deps: seq<Tag>, tag: Tag): map<Tag, seq<Tag>> {
    if deps == [] then dependBy
    else
      var before := ListUnder(dependBy, deps[..|deps| - 1], tag);
      before[deps[|deps| - 1] := Get(before, deps[|deps| - 1]) + [tag]]
  }

  // ----- Operations -----

  /** Create, given whether the registry and the start stages succeed and whether closing a replaced
      outbound would. */
  function AfterCreate(s: Index, o: Outbound, setupOk: bool, closeOk: bool): (Index, Result) {
    if o.tag == "" then (s, Invalid)
    else if !setupOk then (s, SetupError)
    else if o.tag in s.byTag && s.started && !closeOk then (s, CloseError)
    else
      var kept := if o.tag in s.byTag then Without(s.outbounds, s.byTag[o.tag]) else s.outbounds;
      (s.(outbounds := kept + [o],
          byTag := s.byTag[o.tag := o],
          dependBy := ListUnder(s.dependBy, o.deps, o.tag),
          chosen := if o.tag == s.defaultTag || (s.defaultTag == "" && s.chosen.None?) then Some(o) else s.chosen),
       Success)
  }

  /** Remove takes the outbound out of the list and the map before it looks at who depends on it. */
  function AfterRemove(s: Index, tag: Tag, closeOk: bool): (Index, Result) {
    if tag !in s.byTag then (s, Invalid)
    else
      var o := s.byTag[tag];
      var kept := Without(s.outbounds, o);
      var cut := s.(outbounds := kept, byTag := s.byTag - {tag},
                    chosen := if s.chosen != Some(o) then s.chosen
                              else if |kept| > 0 then Some(kept[0]) else None);
      if Get(s.dependBy, tag) != [] then (cut, DependedBy(Get(s.dependBy, tag)))
      else (cut.(dependBy := ReleaseAll(s.dependBy, o.deps, tag)),
            if s.started && !closeOk then CloseError else Success)
  }

  /** The index part of Start: `endpoint` is the endpoint registered under the default tag, `direct` what the
      fallback constructor returns. */
  function AfterStart(s: Index, toStart: bool, endpoint: Option<Outbound>, direct: Option<Outbound>): (Index, Result) {
    var on := s.(started := true);
    if !toStart || s.chosen.Some? then (on, Success)
    else if s.defaultTag != "" then
      if endpoint.None? then (on, NoDefault) else (on.(chosen := endpoint), Success)
    else if direct.None? then (on, SetupError)
    else (on.(outbounds := s.outbounds + [direct.value], byTag := s.byTag[direct.value.tag := direct.value],
              chosen := direct), Success)
  }

  // ----- Invariants -----

  ghost predicate Bijection(s: Index) {
    && (forall i, j :: 0 <= i < j < |s.outbounds| ==> s.outbounds[i] != s.outbounds[j])
    && (forall o :: o in s.outbounds ==> o.tag in s.byTag && s.byTag[o.tag] == o)
    && (forall t :: t in s.byTag ==> s.byTag[t].tag == t && s.byTag[t] in s.outbounds)
  }

  /** Every live outbound is listed under each of its dependencies. */
  ghost predicate DependentsListed(s: Index) {
    forall o, d :: o in s.outbounds && d in o.deps ==> o.tag in Get(s.dependBy, d)
  }

  ghost predicate DefaultWhenNeeded(s: Index) {
    s.defaultTag == "" && s.chosen.None? ==> s.outbounds == []
  }

  lemma {:induction false} WithoutMembers(list: seq<Outbound>, o: Outbound)
    requires forall i, j :: 0 <= i < j < |list| ==> list[i] != list[j]
    ensures forall p :: p in Without(list, o) <==> p in list && p != o
    ensures forall i, j :: 0 <= i < j < |Without(list, o)| ==> Without(list, o)[i] != Without(list, o)[j]
  {
    if list != [] {
      WithoutMembers(list[1..], o);
      assert list == [list[0]] + list[1..];
      if list[0] != o {
        var w := Without(list[1..], o);
        assert list[0] !in list[1..];
        assert list[0] !in w;
        assert Without(list, o) == [list[0]] + w;
      }
    }
  }

  lemma {:induction false} ListUnderGet(dependBy: map<Tag, seq<Tag>>, deps: seq<Tag>, tag: Tag, d: Tag)
    ensures forall t :: t in Get(ListUnder(dependBy, deps, tag), d) <==> t in Get(dependBy, d) || (t == tag && d in deps)
  {
    if deps != [] {
      var init, last := deps[..|deps| - 1], deps[|deps| - 1];
      var before := Get(ListUnder(dependBy, init, tag), d);
      ListUnderGet(dependBy, init, tag, d);
      assert deps == init + [last];
      assert Get(ListUnder(dependBy, deps, tag), d) == if d == last then before + [tag] else before;
    }
  }

  lemma CreateKeepsBijection(s: Index, o: Outbound, setupOk: bool, closeOk: bool)
    requires Bijection(s)
    ensures o !in s.outbounds ==> Bijection(AfterCreate(s, o, setupOk, closeOk).0)
  {
    if o.tag in s.byTag {
      WithoutMembers(s.outbounds, s.byTag[o.tag]);
    }
  }

  lemma CreateKeepsIndexes(s: Index, o: Outbound, setupOk: bool, closeOk: bool)
    requires Bijection(s) && DependentsListed(s) && DefaultWhenNeeded(s)
    requires o !in s.outbounds
    ensures Bijection(AfterCreate(s, o, setupOk, closeOk).0)
    ensures DependentsListed(AfterCreate(s, o, setupOk, closeOk).0)
    ensures DefaultWhenNeeded(AfterCreate(s, o, setupOk, closeOk).0)
  {
    var (s', r) := AfterCreate(s, o, setupOk, closeOk);
    CreateKeepsBijection(s, o, setupOk, closeOk);
    if r.Success? {
      if o.tag in s.byTag {
        WithoutMembers(s.outbounds, s.byTag[o.tag]);
      }
      forall p, d | p in s'.outbounds && d in p.deps ensures p.tag in Get(s'.dependBy, d) {
        ListUnderGet(s.dependBy, o.deps, o.tag, d);
      }
    }
  }

  lemma RemoveKeepsBijection(s: Index, tag: Tag, closeOk: bool)
    requires Bijection(s)
    ensures Bijection(AfterRemove(s, tag, closeOk).0)
    ensures DefaultWhenNeeded(s) ==> DefaultWhenNeeded(AfterRemove(s, tag, closeOk).0)
  {
    if tag in s.byTag {
      WithoutMembers(s.outbounds, s.byTag[tag]);
    }
  }

  /** The fallback outbound is built only when the manager is empty, so no outbound has its tag; an endpoint may. */
  lemma StartKeepsBijection(s: Index, toStart: bool, endpoint: Option<Outbound>, direct: Option<Outbound>)
    requires Bijection(s) && DefaultWhenNeeded(s)
    ensures var (s', r) := AfterStart(s, toStart, endpoint, direct);
      && Bijection(s') && DefaultWhenNeeded(s')
      && (s'.outbounds != s.outbounds ==> direct.Some? && direct.value.tag !in s.byTag && s.byTag == map[])
  {
    if s.byTag != map[] {
      var t :| t in s.byTag;
      assert s.byTag[t] in s.outbounds;
    }
  }

  lemma FallbackNeverCollides(s: Index, toStart: bool, endpoint: Option<Outbound>, direct: Option<Outbound>)
    requires Bijection(s) && DependentsListed(s) && DefaultWhenNeeded(s)
    requires direct.Some? ==> direct.value.deps == []
    ensures var (s', r) := AfterStart(s, toStart, endpoint, direct);
      && Bijection(s') && DependentsListed(s') && DefaultWhenNeeded(s')
      && (s'.outbounds != s.outbounds ==> direct.Some? && direct.value.tag !in s.byTag && s.byTag == map[])
  {
    StartKeepsBijection(s, toStart, endpoint, direct);
    hide Bijection;
  }

  // ----- When Remove keeps the reverse dependency map right -----

  function Multiplicity(deps: seq<Tag>, d: Tag): nat {
    if deps == [] then 0
    else Multiplicity(deps[..|deps| - 1], d) + if deps[|deps| - 1] == d then 1 else 0
  }

  lemma {:induction false} MultiplicityPositive(deps: seq<Tag>, d: Tag)
    ensures Multiplicity(deps, d) > 0 <==> d in deps
  {
    if deps != [] {
      MultiplicityPositive(deps[..|deps| - 1], d);
      assert deps == deps[..|deps| - 1] + [deps[|deps| - 1]];
    }
  }

  /** What one turn of the clean-up loop leaves of a list. */
  function ReleasedList(tags: seq<Tag>, tag: Tag): seq<Tag> {
    if |tags| == 1 then [] else Others(tags, tag)
  }

  function ReleasedTimes(tags: seq<Tag>, tag: Tag, n: nat): seq<Tag> {
    if n == 0 then tags else ReleasedList(ReleasedTimes(tags, tag, n - 1), tag)
  }

  lemma ReleaseGet(dependBy: map<Tag, seq<Tag>>, dep: Tag, tag: Tag, d: Tag)
    ensures Get(Release(dependBy, dep, tag), d) == if d == dep then ReleasedList(Get(dependBy, d), tag) else Get(dependBy, d)
  {
    hide Others;
  }

  lemma {:induction false} ReleaseAllGet(dependBy: map<Tag, seq<Tag>>, deps: seq<Tag>, tag: Tag, d: Tag)
    ensures Get(ReleaseAll(dependBy, deps, tag), d) == ReleasedTimes(Get(dependBy, d), tag, Multiplicity(deps, d))
  {
    if deps != [] {
      var init, last := deps[..|deps| - 1], deps[|deps| - 1];
      ReleaseAllGet(dependBy, init, tag, d);
      ReleaseGet(ReleaseAll(dependBy, init, tag), last, tag, d);
      hide Release, Others, ReleasedList;
    }
  }

  lemma {:induction false} OthersIdempotent(tags: seq<Tag>, tag: Tag)
    requires tag !in tags
    ensures Others(tags, tag) == tags
  {
    if tags != [] {
      OthersIdempotent(tags[..|tags| - 1], tag);
      assert tags == tags[..|tags| - 1] + [tags[|tags| - 1]];
    }
  }

  /** The whole effect on a list that names `tag`: a second turn over the same key drops a sole survivor. */
  lemma {:induction false} ReleasedTwice(tags: seq<Tag>, tag: Tag, n: nat)
    requires tag in tags && n >= 1
    ensures var rest := Others(tags, tag);
      ReleasedTimes(tags, tag, n) == if n >= 2 && |rest| == 1 then [] else rest
  {
    var rest := Others(tags, tag);
    if n == 1 {
      if |tags| == 1 {
        assert tags == [tag];
        assert tags[..0] == [];
      }
      assert ReleasedTimes(tags, tag, 0) == tags;
    } else {
      ReleasedTwice(tags, tag, n - 1);
      OthersIdempotent(rest, tag);
    }
  }

  /** The failing case: the removed outbound names a dependency twice, and exactly one other name is listed
      under that dependency, that of a live dependent. */
  ghost predicate Clash(s: Index, tag: Tag) {
    tag in s.byTag && exists p, d :: p in s.outbounds && p.tag != tag && d in p.deps && ClashesOn(s, tag, p, d)
  }

  ghost predicate ClashesOn(s: Index, tag: Tag, p: Outbound, d: Tag)
    requires tag in s.byTag
  {
    Multiplicity(s.byTag[tag].deps, d) >= 2 && Others(Get(s.dependBy, d), tag) == [p.tag]
  }

  lemma ReleasedUnder(s: Index, tag: Tag, p: Outbound, d: Tag)
    requires Bijection(s) && DependentsListed(s) && tag in s.byTag
    requires p in s.outbounds && p.tag != tag && d in p.deps
    ensures var listed := Get(ReleaseAll(s.dependBy, s.byTag[tag].deps, tag), d);
      p.tag !in listed <==> ClashesOn(s, tag, p, d)
  {
    var deps := s.byTag[tag].deps;
    ReleaseAllGet(s.dependBy, deps, tag, d);
    MultiplicityPositive(deps, d);
    if d in deps {
      assert s.byTag[tag] in s.outbounds && s.byTag[tag].tag == tag;
      ReleasedTwice(Get(s.dependBy, d), tag, Multiplicity(deps, d));
      var rest := Others(Get(s.dependBy, d), tag);
      assert p.tag in rest;
      if |rest| == 1 {
        assert rest == [p.tag];
      }
    }
  }

  /** What Remove leaves in the list. */
  lemma RemoveLeaves(s: Index, tag: Tag, closeOk: bool)
    requires Bijection(s) && tag in s.byTag
    ensures var s' := AfterRemove(s, tag, closeOk).0;
      && s'.byTag == s.byTag - {tag}
      && forall p :: p in s'.outbounds <==> p in s.outbounds && p.tag != tag
  {
    WithoutMembers(s.outbounds, s.byTag[tag]);
  }

  /** Remove keeps every live outbound listed under its dependencies exactly when it refuses or does not
      clash. */
  lemma RemoveKeepsDependentsListed(s: Index, tag: Tag, closeOk: bool)
    requires Bijection(s) && DependentsListed(s)
    ensures var (s', r) := AfterRemove(s, tag, closeOk);
      DependentsListed(s') <==> r.DependedBy? || !Clash(s, tag)
  {
    var (s', r) := AfterRemove(s, tag, closeOk);
    if tag in s.byTag {
      RemoveLeaves(s, tag, closeOk);
      if !r.DependedBy? {
        assert s'.dependBy == ReleaseAll(s.dependBy, s.byTag[tag].deps, tag);
        hide AfterRemove, ReleaseAll, Without, Others, Multiplicity;
        forall p, d | p in s'.outbounds && d in p.deps
          ensures p.tag !in Get(s'.dependBy, d) <==> ClashesOn(s, tag, p, d)
        {
          ReleasedUnder(s, tag, p, d);
        }
        if Clash(s, tag) {
          var p, d :| p in s.outbounds && p.tag != tag && d in p.deps && ClashesOn(s, tag, p, d);
          assert p in s'.outbounds;
        } else {
          hide ClashesOn;
        }
      }
    }
  }

  ghost predicate NoRepeats(deps: seq<Tag>) {
    forall i, j :: 0 <= i < j < |deps| ==> deps[i] != deps[j]
  }

  lemma {:induction false} NoRepeatsMultiplicity(deps: seq<Tag>, d: Tag)
    requires NoRepeats(deps)
    ensures Multiplicity(deps, d) <= 1
  {
    if deps != [] {
      var init := deps[..|deps| - 1];
      NoRepeatsMultiplicity(init, d);
      MultiplicityPositive(init, d);
    }
  }

  /** Outbounds whose dependency lists have no repeats never clash. */
  lemma NoRepeatsNoClash(s: Index, tag: Tag)
    requires tag in s.byTag ==> NoRepeats(s.byTag[tag].deps)
    ensures !Clash(s, tag)
  {
    if tag in s.byTag {
      forall d ensures Multiplicity(s.byTag[tag].deps, d) <= 1 {
        NoRepeatsMultiplicity(s.byTag[tag].deps, d);
      }
    }
  }

  // ----- What a refused Remove leaves behind -----

  /** Remove of a tag that a live outbound depends on is refused, and names that outbound; but the tag is gone from the
      list and the map by then, and the dependent stays. */
  lemma NeededRemoveIsRefused(s: Index, tag: Tag, closeOk: bool, p: Outbound)
    requires Bijection(s) && DependentsListed(s) && tag in s.byTag && p in s.outbounds && tag in p.deps
    ensures var (s', r) := AfterRemove(s, tag, closeOk);
      && r.DependedBy? && p.tag in r.tags
      && tag !in s'.byTag && s'.dependBy == s.dependBy
      && (p.tag != tag ==> p in s'.outbounds)
  {
    RemoveLeaves(s, tag, closeOk);
    assert p.tag in Get(s.dependBy, tag);
  }

  /** Every dependency of a live outbound is live. */
  ghost predicate NoneStranded(s: Index) {
    forall p, d :: p in s.outbounds && d in p.deps ==> d in s.byTag
  }

  ghost predicate Needed(s: Index, tag: Tag) {
    exists p :: p in s.outbounds && p.tag != tag && tag in p.deps
  }

  /** Remove strands a live outbound exactly when another one depends on the tag, refused or not; a Remove that is not
      refused strands nobody. */
  lemma RemoveStrandsIff(s: Index, tag: Tag, closeOk: bool)
    requires Bijection(s) && DependentsListed(s) && tag in s.byTag
    ensures var (s', r) := AfterRemove(s, tag, closeOk);
      && ((exists p :: p in s'.outbounds && tag in p.deps) <==> Needed(s, tag))
      && (NoneStranded(s) ==> (NoneStranded(s') <==> !Needed(s, tag)))
      && (Needed(s, tag) ==> r.DependedBy?)
  {
    var (s', r) := AfterRemove(s, tag, closeOk);
    RemoveLeaves(s, tag, closeOk);
    hide AfterRemove;
    if Needed(s, tag) {
      var p :| p in s.outbounds && p.tag != tag && tag in p.deps;
      NeededRemoveIsRefused(s, tag, closeOk, p);
      assert p in s'.outbounds;
    }
  }

  // ----- When a refusal is unjustified -----

  /** The name `t` is listed under `d` for a reason. */
  ghost predicate Justified(s: Index, d: Tag, t: Tag) {
    t in s.byTag && d in s.byTag[t].deps
  }

  ghost predicate NamesJustified(s: Index) {
    forall d, t :: t in Get(s.dependBy, d) ==> Justified(s, d, t)
  }

  /** Remove refuses although nobody live needs the tag exactly when names are listed under it and each is stale, or the
      tag's own. */
  lemma UnjustifiedRefusalIff(s: Index, tag: Tag, closeOk: bool)
    requires Bijection(s) && DependentsListed(s) && tag in s.byTag
    ensures AfterRemove(s, tag, closeOk).1.DependedBy? && !Needed(s, tag) <==>
      Get(s.dependBy, tag) != [] && forall t :: t in Get(s.dependBy, tag) ==> t == tag || !Justified(s, tag, t)
  {
    if !Needed(s, tag) {
      forall t | t in Get(s.dependBy, tag) && t != tag ensures !Justified(s, tag, t) {
        assert t in s.byTag ==> s.byTag[t] in s.outbounds && s.byTag[t].tag == t;
      }
    } else {
      var p :| p in s.outbounds && p.tag != tag && tag in p.deps;
      assert p.tag in Get(s.dependBy, tag) && Justified(s, tag, p.tag);
    }
  }

  /** Create leaves no stale name exactly when the outbound it replaces, if any, had no dependency that the new one
      lacks. */
  lemma CreateKeepsNamesIff(s: Index, o: Outbound, setupOk: bool, closeOk: bool)
    requires Bijection(s) && DependentsListed(s) && NamesJustified(s)
    ensures var (s', r) := AfterCreate(s, o, setupOk, closeOk);
      NamesJustified(s') <==> r != Success || o.tag !in s.byTag || forall d :: d in s.byTag[o.tag].deps ==> d in o.deps
  {
    var (s', r) := AfterCreate(s, o, setupOk, closeOk);
    if r.Success? {
      forall d ensures forall t :: t in Get(s'.dependBy, d) <==> t in Get(s.dependBy, d) || (t == o.tag && d in o.deps) {
        ListUnderGet(s.dependBy, o.deps, o.tag, d);
      }
      hide ListUnder, Without;
      if o.tag in s.byTag && NamesJustified(s') {
        forall d | d in s.byTag[o.tag].deps ensures d in o.deps {
          assert s.byTag[o.tag] in s.outbounds;
          assert o.tag in Get(s.dependBy, d);
          assert Justified(s', d, o.tag);
        }
      }
    }
  }

  lemma {:induction false} ReleasedSubset(tags: seq<Tag>, tag: Tag, n: nat)
    ensures forall t :: t in ReleasedTimes(tags, tag, n) ==> t in tags && (n > 0 ==> t != tag)
  {
    if n > 0 {
      ReleasedSubset(tags, tag, n - 1);
    }
  }

  /** Remove leaves no stale name exactly when it is not refused, or the tag had no dependencies. */
  lemma RemoveKeepsNamesIff(s: Index, tag: Tag, closeOk: bool)
    requires Bijection(s) && DependentsListed(s) && NamesJustified(s) && tag in s.byTag
    ensures var (s', r) := AfterRemove(s, tag, closeOk);
      NamesJustified(s') <==> !r.DependedBy? || s.byTag[tag].deps == []
  {
    var (s', r) := AfterRemove(s, tag, closeOk);
    var deps := s.byTag[tag].deps;
    RemoveLeaves(s, tag, closeOk);
    assert s.byTag[tag] in s.outbounds;
    if r.DependedBy? {
      assert s'.dependBy == s.dependBy;
      hide AfterRemove;
      if deps != [] {
        assert tag in Get(s'.dependBy, deps[0]);
        assert !Justified(s', deps[0], tag);
      }
    } else {
      assert s'.dependBy == ReleaseAll(s.dependBy, deps, tag);
      hide AfterRemove, ReleaseAll;
      forall d, t | t in Get(s'.dependBy, d) ensures Justified(s', d, t) {
        ReleaseAllGet(s.dependBy, deps, tag, d);
        MultiplicityPositive(deps, d);
        ReleasedSubset(Get(s.dependBy, d), tag, Multiplicity(deps, d));
        assert Justified(s, d, t);
      }
    }
  }

  // ----- Runs -----

  datatype Event =
    | Creating(o: Outbound, setupOk: bool, createCloseOk: bool)
    | Removing(tag: Tag, removeCloseOk: bool)
    | Starting(toStart: bool, endpoint: Option<Outbound>, direct: Option<Outbound>)

  function Apply(s: Index, e: Event): (Index, Result) {
    match e
    case Creating(o, setupOk, closeOk) => AfterCreate(s, o, setupOk, closeOk)
    case Removing(tag, closeOk) => AfterRemove(s, tag, closeOk)
    case Starting(toStart, endpoint, direct) => AfterStart(s, toStart, endpoint, direct)
  }

  function RunAll(s: Index, events: seq<Event>): Index {
    if events == [] then s else Apply(RunAll(s, events[..|events| - 1]), events[|events| - 1]).0
  }

  function Empty(defaultTag: Tag): Index {
    Index(defaultTag, false, [], map[], map[], None)
  }

  /** What the environment guarantees at each event: a created outbound is a new object, the fallback
      outbound has no dependencies, and no removal clashes. */
  ghost predicate Admissible(s: Index, e: Event) {
    match e
    case Creating(o, _, _) => o !in s.outbounds
    case Removing(tag, _) => !Clash(s, tag) || Get(s.dependBy, tag) != []
    case Starting(_, _, direct) => direct.Some? ==> direct.value.deps == []
  }

  ghost predicate AdmissibleRun(s: Index, events: seq<Event>) {
    forall i :: 0 <= i < |events| ==> Admissible(RunAll(s, events[..i]), events[i])
  }

  /** Every run, whatever it returned along the way, keeps all three indexes in step. */
  lemma {:induction false} RunKeepsIndexes(defaultTag: Tag, events: seq<Event>)
    requires AdmissibleRun(Empty(defaultTag), events)
    ensures var s := RunAll(Empty(defaultTag), events); Bijection(s) && DependentsListed(s) && DefaultWhenNeeded(s)
  {
    if events != [] {
      var last := |events| - 1;
      var init := events[..last];
      forall i | 0 <= i < |init| ensures Admissible(RunAll(Empty(defaultTag), init[..i]), init[i]) {
        assert init[..i] == events[..i];
        assert Admissible(RunAll(Empty(defaultTag), events[..i]), events[i]);
      }
      RunKeepsIndexes(defaultTag, init);
      var s := RunAll(Empty(defaultTag), init);
      assert Admissible(s, events[last]);
      match events[last]
      case Creating(o, setupOk, closeOk) => CreateKeepsIndexes(s, o, setupOk, closeOk);
      case Removing(tag, closeOk) =>
        RemoveKeepsBijection(s, tag, closeOk);
        RemoveKeepsDependentsListed(s, tag, closeOk);
      case Starting(toStart, endpoint, direct) => FallbackNeverCollides(s, toStart, endpoint, direct);
    }
  }

  /** No event leaves a stale name behind. */
  ghost predicate Tidy(s: Index, e: Event) {
    match e
    case Creating(o, _, _) => o.tag !in s.byTag || forall d :: d in s.byTag[o.tag].deps ==> d in o.deps
    case Removing(tag, _) => tag in s.byTag && Get(s.dependBy, tag) != [] ==> s.byTag[tag].deps == []
    case Starting(_, _, _) => true
  }

  ghost predicate TidyRun(s: Index, events: seq<Event>) {
    forall i :: 0 <= i < |events| ==> Tidy(RunAll(s, events[..i]), events[i])
  }

  lemma StartKeepsNames(s: Index, toStart: bool, endpoint: Option<Outbound>, direct: Option<Outbound>)
    requires Bijection(s) && NamesJustified(s) && DefaultWhenNeeded(s)
    ensures NamesJustified(AfterStart(s, toStart, endpoint, direct).0)
  {
    var s' := AfterStart(s, toStart, endpoint, direct).0;
    forall d, t | t in Get(s'.dependBy, d) ensures Justified(s', d, t) {
      assert Justified(s, d, t) && s.byTag[t] in s.outbounds;
    }
  }

  /** Where every listed name is justified, a refusal names a live dependent, unless it names the tag alone, which then
      depends on itself. */
  lemma RefusalHasAReason(s: Index, tag: Tag, closeOk: bool)
    requires Bijection(s) && DependentsListed(s) && NamesJustified(s) && tag in s.byTag
    requires AfterRemove(s, tag, closeOk).1.DependedBy?
    ensures Needed(s, tag) || (tag in s.byTag[tag].deps && forall t :: t in Get(s.dependBy, tag) ==> t == tag)
  {
    UnjustifiedRefusalIff(s, tag, closeOk);
    if !Needed(s, tag) {
      var t := Get(s.dependBy, tag)[0];
      assert Justified(s, tag, t);
    }
  }

  /** In every run whose replacements keep the old dependencies and whose refusals concern outbounds without any, every
      listed name is justified. */
  lemma {:induction false} TidyRunKeepsNames(defaultTag: Tag, events: seq<Event>)
    requires AdmissibleRun(Empty(defaultTag), events) && TidyRun(Empty(defaultTag), events)
    ensures NamesJustified(RunAll(Empty(defaultTag), events))
  {
    if events != [] {
      var last := |events| - 1;
      var init := events[..last];
      forall i | 0 <= i < |init|
        ensures Admissible(RunAll(Empty(defaultTag), init[..i]), init[i]) && Tidy(RunAll(Empty(defaultTag), init[..i]), init[i])
      {
        assert init[..i] == events[..i];
        assert Admissible(RunAll(Empty(defaultTag), events[..i]), events[i]);
        assert Tidy(RunAll(Empty(defaultTag), events[..i]), events[i]);
      }
      TidyRunKeepsNames(defaultTag, init);
      RunKeepsIndexes(defaultTag, init);
      var s := RunAll(Empty(defaultTag), init);
      assert Admissible(s, events[last]) && Tidy(s, events[last]);
      TidyStep(s, events[last]);
    }
  }

  lemma TidyStep(s: Index, e: Event)
    requires Bijection(s) && DependentsListed(s) && DefaultWhenNeeded(s) && NamesJustified(s) && Tidy(s, e)
    ensures NamesJustified(Apply(s, e).0)
  {
    hide NamesJustified, Bijection, DependentsListed, AfterCreate, AfterStart;
    match e
    case Creating(o, setupOk, closeOk) => CreateKeepsNamesIff(s, o, setupOk, closeOk);
    case Removing(tag, closeOk) =>
      if tag in s.byTag {
        RemoveKeepsNamesIff(s, tag, closeOk);
      }
    case Starting(toStart, endpoint, direct) => StartKeepsNames(s, toStart, endpoint, direct);
  }

  // ----- Concrete runs -----

  /** A refused Remove strands "b": its dependency "x" is gone. */
  lemma RefusedRemoveExample() returns (events: seq<Event>)
    ensures AdmissibleRun(Empty(""), events)
    ensures var (s', r) := AfterRemove(RunAll(Empty(""), events), "x", true);
      r == DependedBy(["b"]) && "x" !in s'.byTag && Outbound(1, "b", ["x"]) in s'.outbounds
  {
    var x, b := Outbound(0, "x", []), Outbound(1, "b", ["x"]);
    var s2;
    events, s2 := TwoCreated(x, b);
    assert [x, b][1..] == [b];
    assert Without([x, b], x) == [b];
  }

  /** A refusal nobody live justifies: "b" was replaced by an outbound that does not depend on "x". */
  lemma StaleRefusalExample() returns (events: seq<Event>)
    ensures AdmissibleRun(Empty(""), events)
    ensures var s := RunAll(Empty(""), events);
      "x" in s.byTag && AfterRemove(s, "x", true).1 == DependedBy(["b"]) && !Needed(s, "x")
  {
    var x, b, c := Outbound(0, "x", []), Outbound(1, "b", ["x"]), Outbound(2, "b", []);
    var first, s2 := TwoCreated(x, b);
    WithoutSecond(x, b);
    ReplaceTrace(s2, c);
    RunSnoc(Empty(""), first, Creating(c, true, true));
    AdmissibleSnoc(Empty(""), first, Creating(c, true, true));
    events := first + [Creating(c, true, true)];
    hide RunAll, AdmissibleRun, ListUnder, Without, AfterCreate;
    assert RunAll(Empty(""), events).outbounds == [x] + [c];
  }

  lemma WithoutSecond(x: Outbound, b: Outbound)
    requires x != b
    ensures Without([x, b], b) == [x]
  {
    assert [x, b][1..] == [b];
    assert Without([b], b) == [];
  }

  lemma ReplaceTrace(s: Index, o: Outbound)
    requires o.tag in s.byTag && o.tag != "" && o.deps == [] && s.defaultTag == "" && s.chosen.Some? && !s.started
    ensures AfterCreate(s, o, true, true) ==
              (s.(outbounds := Without(s.outbounds, s.byTag[o.tag]) + [o], byTag := s.byTag[o.tag := o]), Success)
  {
  }

  /** Create over the current default, with none configured, leaves it dangling. */
  lemma DanglingDefaultExample() returns (events: seq<Event>)
    ensures AdmissibleRun(Empty(""), events)
    ensures var s := RunAll(Empty(""), events);
      s.chosen == Some(Outbound(0, "a", [])) && Outbound(0, "a", []) !in s.outbounds
  {
    var a, b := Outbound(0, "a", []), Outbound(1, "a", []);
    var s0, s1 := Empty(""), Index("", false, [a], map["a" := a], map[], Some(a));
    CreateTrace(s0, a, s1);
    assert Without([a], a) == [];
    assert AfterCreate(s1, b, true, true).0.outbounds == [b];
    RunSnoc(s0, [], Creating(a, true, true));
    RunSnoc(s0, [] + [Creating(a, true, true)], Creating(b, true, true));
    AdmissibleSnoc(s0, [], Creating(a, true, true));
    AdmissibleSnoc(s0, [] + [Creating(a, true, true)], Creating(b, true, true));
    events := [] + [Creating(a, true, true)] + [Creating(b, true, true)];
  }

  lemma AdmissibleSnoc(s: Index, events: seq<Event>, e: Event)
    requires AdmissibleRun(s, events) && Admissible(RunAll(s, events), e)
    ensures AdmissibleRun(s, events + [e])
  {
    var longer := events + [e];
    forall i | 0 <= i < |longer| ensures Admissible(RunAll(s, longer[..i]), longer[i]) {
      if i < |events| {
        assert longer[..i] == events[..i];
        assert Admissible(RunAll(s, events[..i]), events[i]);
      } else {
        assert longer[..i] == events;
      }
    }
  }

  /** The run that creates "x", then "b" depending on it. */
  lemma TwoCreated(x: Outbound, b: Outbound) returns (events: seq<Event>, s2: Index)
    requires x == Outbound(0, "x", []) && b == Outbound(1, "b", ["x"])
    ensures AdmissibleRun(Empty(""), events) && RunAll(Empty(""), events) == s2
    ensures s2 == Index("", false, [x, b], map["x" := x, "b" := b], map["x" := ["b"]], Some(x))
  {
    var s0, s1 := Empty(""), OnlyX(x);
    s2 := Index("", false, [x, b], map["x" := x, "b" := b], map["x" := ["b"]], Some(x));
    TwoCreates(x, b);
    assert RunAll(s0, []) == s0;
    hide RunAll, AfterCreate, OnlyX, AdmissibleRun, Empty;
    NothingIsAdmissible(s0);
    assert s1.outbounds == [x];
    RunSnoc(s0, [], Creating(x, true, true));
    AdmissibleSnoc(s0, [], Creating(x, true, true));
    events := [] + [Creating(x, true, true)];
    RunSnoc(s0, events, Creating(b, true, true));
    AdmissibleSnoc(s0, events, Creating(b, true, true));
    events := events + [Creating(b, true, true)];
  }

  function OnlyX(x: Outbound): (s: Index)
    ensures s.outbounds == [x]
  {
    Index("", false, [x], map["x" := x], map[], Some(x))
  }

  lemma TwoCreates(x: Outbound, b: Outbound)
    requires x == Outbound(0, "x", []) && b == Outbound(1, "b", ["x"])
    ensures AfterCreate(Empty(""), x, true, true) == (OnlyX(x), Success)
    ensures AfterCreate(OnlyX(x), b, true, true)
            == (Index("", false, [x, b], map["x" := x, "b" := b], map["x" := ["b"]], Some(x)), Success)
    ensures x !in Empty("").outbounds && b !in OnlyX(x).outbounds
  {
    var s2 := Index("", false, [x, b], map["x" := x, "b" := b], map["x" := ["b"]], Some(x));
    CreateTrace(Empty(""), x, OnlyX(x));
    assert Get(OnlyX(x).dependBy, "x") + ["b"] == ["b"];
    CreateTrace(OnlyX(x), b, s2);
  }

  lemma NothingIsAdmissible(s: Index)
    ensures AdmissibleRun(s, [])
  {
  }

  /** Without the no-clash condition the promise fails: here "b" is still live and depends on "x", yet "x" is
      removed with success. */
  lemma RepeatedDependencyLosesADependent()
    ensures exists events: seq<Event> ::
      && AfterRemove(RunAll(Empty(""), events), "x", true).1 == Success
      && Outbound(1, "b", ["x"]) in AfterRemove(RunAll(Empty(""), events), "x", true).0.outbounds
  {
    var events, s4 := ClashTrace();
    var x, b := Outbound(0, "x", []), Outbound(1, "b", ["x"]);
    assert [x, b][1..] == [b];
    assert Without([x, b], x) == [b];
    assert AfterRemove(s4, "x", true).0.outbounds == [b];
  }

  lemma RunSnoc(s: Index, events: seq<Event>, e: Event)
    ensures RunAll(s, events + [e]) == Apply(RunAll(s, events), e).0
  {
    assert (events + [e])[..|events + [e]| - 1] == events;
  }

  lemma ClashTrace() returns (events: seq<Event>, s4: Index)
    ensures RunAll(Empty(""), events) == s4
    ensures var x, b := Outbound(0, "x", []), Outbound(1, "b", ["x"]);
      s4 == Index("", false, [x, b], map["x" := x, "b" := b], map[], Some(x))
  {
    var x, b, a := Outbound(0, "x", []), Outbound(1, "b", ["x"]), Outbound(2, "a", ["x", "x"]);
    var s3 := Index("", false, [x, b, a], map["x" := x, "b" := b, "a" := a], map["x" := ["b", "a", "a"]], Some(x));
    s4 := Index("", false, [x, b], map["x" := x, "b" := b], map[], Some(x));
    var first, s2 := TwoCreated(x, b);
    assert Get(s2.dependBy, "x") + ["a", "a"] == ["b", "a", "a"];
    CreateTrace(s2, a, s3);
    RemoveTrace(s3, s4, x, b, a);
    RunSnoc(Empty(""), first, Creating(a, true, true));
    RunSnoc(Empty(""), first + [Creating(a, true, true)], Removing("a", true));
    events := first + [Creating(a, true, true)] + [Removing("a", true)];
  }

  lemma CreateTrace(s: Index, o: Outbound, s': Index)
    requires o.tag != "" && o.tag !in s.byTag && s.defaultTag == "" && !s.started
    requires s' == s.(outbounds := s.outbounds + [o], byTag := s.byTag[o.tag := o], dependBy := s'.dependBy,
                      chosen := if s.chosen.None? then Some(o) else s.chosen)
    requires |o.deps| == 0 ==> s'.dependBy == s.dependBy
    requires |o.deps| == 1 ==> s'.dependBy == s.dependBy[o.deps[0] := Get(s.dependBy, o.deps[0]) + [o.tag]]
    requires |o.deps| == 2 && o.deps[0] == o.deps[1] ==>
               s'.dependBy == s.dependBy[o.deps[0] := Get(s.dependBy, o.deps[0]) + [o.tag, o.tag]]
    requires |o.deps| <= 2 && (|o.deps| == 2 ==> o.deps[0] == o.deps[1])
    ensures AfterCreate(s, o, true, true) == (s', Success)
  {
    if |o.deps| > 0 {
      var before := o.deps[..|o.deps| - 1];
      assert before == if |o.deps| == 1 then [] else [o.deps[0]];
      var listed := Get(s.dependBy, o.deps[0]);
      assert ListUnder(s.dependBy, [], o.tag) == s.dependBy;
      if |o.deps| == 2 {
        assert before[..0] == [];
        assert ListUnder(s.dependBy, before, o.tag) == s.dependBy[o.deps[0] := listed + [o.tag]];
        assert (listed + [o.tag]) + [o.tag] == listed + [o.tag, o.tag];
      }
      assert ListUnder(s.dependBy, o.deps, o.tag) == s'.dependBy;
    }
  }

  lemma RemoveTrace(s3: Index, s4: Index, x: Outbound, b: Outbound, a: Outbound)
    requires x == Outbound(0, "x", []) && b == Outbound(1, "b", ["x"]) && a == Outbound(2, "a", ["x", "x"])
    requires s3 == Index("", false, [x, b, a], map["x" := x, "b" := b, "a" := a], map["x" := ["b", "a", "a"]], Some(x))
    requires s4 == Index("", false, [x, b], map["x" := x, "b" := b], map[], Some(x))
    ensures AfterRemove(s3, "a", true) == (s4, Success)
  {
    assert Without([x, b, a], a) == [x, b] by {
      assert [x, b, a][1..] == [b, a] && [b, a][1..] == [a] && [a][1..] == [];
      assert Without([a], a) == [];
      assert Without([b, a], a) == [b] + [];
    }
    assert Others(["b", "a", "a"], "a") == ["b"] by {
      assert ["b", "a", "a"][..2] == ["b", "a"] && ["b", "a"][..1] == ["b"] && ["b"][..0] == [];
    }
    assert a.deps[..1] == ["x"] && ["x"][..0] == [];
    assert ReleaseAll(s3.dependBy, ["x"], "a") == map["x" := ["b"]];
    assert ReleaseAll(s3.dependBy, a.deps, "a") == map[];
    assert s3.byTag - {"a"} == s4.byTag;
  }

  /** The other gap: Create leaves the default outbound dangling exactly when it replaces the current default
      under a tag that is not the configured default. */
  lemma CreateKeepsDefaultLive(s: Index, o: Outbound)
    requires Bijection(s) && o !in s.outbounds && o.tag != ""
    requires s.chosen.Some? && s.chosen.value in s.outbounds
    ensures var s' := AfterCreate(s, o, true, true).0;
      s'.chosen.Some? && (s'.chosen.value in s'.outbounds <==> s.chosen.value.tag != o.tag || o.tag == s.defaultTag)
  {
    if o.tag in s.byTag {
      WithoutMembers(s.outbounds, s.byTag[o.tag]);
    }
  }

  // ----- What is returned -----

  /** Exactly when Create succeeds or what it complains of; a complaint leaves everything as it was. */
  lemma CreateResults(s: Index, o: Outbound, setupOk: bool, closeOk: bool)
    ensures var (s', r) := AfterCreate(s, o, setupOk, closeOk);
      && (r == Invalid <==> o.tag == "")
      && (r == SetupError <==> o.tag != "" && !setupOk)
      && (r == CloseError <==> o.tag != "" && setupOk && o.tag in s.byTag && s.started && !closeOk)
      && (r != Success ==> s' == s)
      && (r == Success ==> s'.byTag == s.byTag[o.tag := o] && o in s'.outbounds && s'.started == s.started)
      && (r == Success || r == Invalid || r == SetupError || r == CloseError)
  {
  }

  /** Exactly when Remove succeeds or what it complains of.  Only an unknown tag leaves everything as it was; a failed
      Close does not undo the removal. */
  lemma RemoveResults(s: Index, tag: Tag, closeOk: bool)
    ensures var (s', r) := AfterRemove(s, tag, closeOk);
      && (r == Invalid <==> tag !in s.byTag) && (r == Invalid ==> s' == s)
      && (r.DependedBy? <==> tag in s.byTag && Get(s.dependBy, tag) != []) && (r.DependedBy? ==> r.tags == Get(s.dependBy, tag))
      && (r == CloseError <==> tag in s.byTag && Get(s.dependBy, tag) == [] && s.started && !closeOk)
      && (r == Success <==> tag in s.byTag && Get(s.dependBy, tag) == [] && !(s.started && !closeOk))
      && (r != Invalid ==> s'.byTag == s.byTag - {tag}) && s'.started == s.started
  {
  }

  /** Every Start, even one that fails, marks the manager started, which makes later Creates and Removes close what they
      take out. */
  lemma StartMarksStarted(s: Index, toStart: bool, endpoint: Option<Outbound>, direct: Option<Outbound>)
    ensures AfterStart(s, toStart, endpoint, direct).0.started
    ensures AfterStart(s, toStart, endpoint, direct).0.dependBy == s.dependBy
  {
  }

  // ----- The default outbound -----

  /** The default is one of the outbounds, or there is none. */
  ghost predicate DefaultLive(s: Index) {
    s.chosen.Some? ==> s.chosen.value in s.outbounds
  }

  /** Removing another tag leaves the default alone; removing the default's own hands it to the outbound that comes first
      among those that survive, and leaves none exactly when nobody does.  So does a refused Remove. */
  lemma RemoveKeepsDefaultLive(s: Index, tag: Tag, closeOk: bool)
    requires Bijection(s) && DefaultLive(s) && tag in s.byTag
    ensures var s' := AfterRemove(s, tag, closeOk).0;
      && DefaultLive(s')
      && (s.chosen.None? || s.chosen.value.tag != tag ==> s'.chosen == s.chosen)
      && (s.chosen.Some? && s.chosen.value.tag == tag ==>
            && (s'.chosen.None? <==> forall p :: p in s.outbounds ==> p.tag == tag)
            && (s'.chosen.Some? ==> FirstOther(s.outbounds, tag, s'.chosen.value)))
  {
    var o := s.byTag[tag];
    RemoveLeaves(s, tag, closeOk);
    assert s.chosen.Some? && s.chosen.value.tag == tag ==> s.chosen.value == o;
    var kept := Without(s.outbounds, o);
    if kept != [] {
      assert kept[0] in kept;
      FirstKept(s.outbounds, o, tag);
    }
  }

  /** `p` is the first outbound of the list that has another tag. */
  ghost predicate FirstOther(list: seq<Outbound>, tag: Tag, p: Outbound) {
    exists i :: 0 <= i < |list| && list[i] == p && p.tag != tag && forall j :: 0 <= j < i ==> list[j].tag == tag
  }

  lemma FirstKept(list: seq<Outbound>, o: Outbound, tag: Tag)
    requires o.tag == tag && (forall i :: 0 <= i < |list| ==> (list[i].tag == tag <==> list[i] == o))
    requires forall i, j :: 0 <= i < j < |list| ==> list[i] != list[j]
    requires Without(list, o) != []
    ensures FirstOther(list, tag, Without(list, o)[0])
  {
    if list[0] == o {
      assert list[1] == list[1..][0];
      assert list[1] != o;
    }
  }

  /** A configured default is chosen as soon as, and only while, an outbound of that tag is there; with none configured
      the first outbound ever created stays the choice.  Create keeps this. */
  ghost predicate ConfiguredDefault(s: Index) {
    s.defaultTag != "" ==> s.chosen == if s.defaultTag in s.byTag then Some(s.byTag[s.defaultTag]) else None
  }

  lemma CreateChoosesDefault(s: Index, o: Outbound, setupOk: bool, closeOk: bool)
    requires ConfiguredDefault(s)
    ensures var (s', r) := AfterCreate(s, o, setupOk, closeOk);
      && ConfiguredDefault(s')
      && (s.defaultTag == "" && s.chosen.Some? ==> s'.chosen == s.chosen)
      && (s.defaultTag == "" && s.chosen.None? && r.Success? ==> s'.chosen == Some(o))
  {
  }

  /** After the starting stage there is a default: the one there was, else the configured endpoint, else the fallback,
      which is then listed last. */
  lemma StartChoosesDefault(s: Index, endpoint: Option<Outbound>, direct: Option<Outbound>)
    ensures var (s', r) := AfterStart(s, true, endpoint, direct);
      && (s.chosen.Some? ==> r.Success? && s'.chosen == s.chosen && s'.outbounds == s.outbounds)
      && (s.chosen.None? && s.defaultTag != "" ==> s'.outbounds == s.outbounds && s'.chosen == endpoint && (r.Success? <==> endpoint.Some?))
      && (s.chosen.None? && s.defaultTag == "" ==> s'.chosen == direct && (r.Success? <==> direct.Some?))
      && (s.chosen.None? && s.defaultTag == "" && direct.Some? ==>
            |s'.outbounds| == |s.outbounds| + 1 && s'.outbounds[|s.outbounds|] == direct.value)
      && (r.Success? ==> s'.chosen.Some?)
  {
  }

  /** What keeps the default live at each event: no Create replaces it under an unconfigured tag, and Start does not make
      an endpoint the default. */
  ghost predicate KeepsDefault(s: Index, e: Event) {
    match e
    case Creating(o, _, _) => s.chosen.Some? ==> s.chosen.value.tag != o.tag || o.tag == s.defaultTag
    case Removing(_, _) => true
    case Starting(_, endpoint, _) => s.chosen.None? && s.defaultTag != "" ==> endpoint.None?
  }

  lemma EventKeepsDefaultLive(s: Index, e: Event)
    requires Bijection(s) && DefaultLive(s) && Admissible(s, e) && KeepsDefault(s, e)
    ensures DefaultLive(Apply(s, e).0)
  {
    match e
    case Creating(o, setupOk, closeOk) =>
      if o.tag in s.byTag {
        WithoutMembers(s.outbounds, s.byTag[o.tag]);
      }
    case Removing(tag, closeOk) =>
      if tag in s.byTag {
        RemoveKeepsDefaultLive(s, tag, closeOk);
      }
    case Starting(_, _, _) =>
  }

  /** In every such run the default is always a live outbound or absent. */
  lemma {:induction false} RunKeepsDefaultLive(defaultTag: Tag, events: seq<Event>)
    requires AdmissibleRun(Empty(defaultTag), events)
    requires forall i :: 0 <= i < |events| ==> KeepsDefault(RunAll(Empty(defaultTag), events[..i]), events[i])
    ensures DefaultLive(RunAll(Empty(defaultTag), events))
  {
    if events != [] {
      var last := |events| - 1;
      var init := events[..last];
      forall i | 0 <= i < |init|
        ensures Admissible(RunAll(Empty(defaultTag), init[..i]), init[i]) && KeepsDefault(RunAll(Empty(defaultTag), init[..i]), init[i])
      {
        assert init[..i] == events[..i];
        assert Admissible(RunAll(Empty(defaultTag), events[..i]), events[i]);
        assert KeepsDefault(RunAll(Empty(defaultTag), events[..i]), events[i]);
      }
      RunKeepsDefaultLive(defaultTag, init);
      RunKeepsIndexes(defaultTag, init);
      var s := RunAll(Empty(defaultTag), init);
      assert Admissible(s, events[last]) && KeepsDefault(s, events[last]);
      hide Bijection, DefaultLive, KeepsDefault, Admissible, AdmissibleRun, DependentsListed, DefaultWhenNeeded;
      EventKeepsDefaultLive(s, events[last]);
    }
  }

  // ----- What the scheduler is given -----

  function Nodes(list: seq<Outbound>): seq<StartScheduler.Outbound> {
    seq(|list|, i requires 0 <= i < |list| => StartScheduler.Outbound(list[i].tag, list[i].deps))
  }

  function NodeMap(s: Index): map<Tag, StartScheduler.Outbound> {
    map t | t in s.byTag :: StartScheduler.Outbound(t, s.byTag[t].deps)
  }

  /** Endpoints have tags of their own, and none that an outbound has. */
  ghost predicate EndpointsApart(s: Index, endpoints: seq<Outbound>) {
    && (forall i, j :: 0 <= i < j < |endpoints| ==> endpoints[i].tag != endpoints[j].tag)
    && (forall i :: 0 <= i < |endpoints| ==> endpoints[i].tag !in s.byTag)
  }

  lemma DistinctMeansApart(s: Index, endpoints: seq<Outbound>)
    requires Bijection(s) && StartScheduler.DistinctTags(Nodes(s.outbounds + endpoints))
    ensures EndpointsApart(s, endpoints)
  {
    var nodes, n := Nodes(s.outbounds + endpoints), |s.outbounds|;
    forall i, j | 0 <= i < j < |endpoints| ensures endpoints[i].tag != endpoints[j].tag {
      assert nodes[n + i].tag != nodes[n + j].tag;
    }
    forall i | 0 <= i < |endpoints| ensures endpoints[i].tag !in s.byTag {
      forall k | 0 <= k < n ensures s.outbounds[k].tag != endpoints[i].tag {
        assert nodes[k].tag != nodes[n + i].tag;
      }
    }
  }

  lemma ApartMeansDistinct(s: Index, endpoints: seq<Outbound>)
    requires Bijection(s) && EndpointsApart(s, endpoints)
    ensures StartScheduler.DistinctTags(Nodes(s.outbounds + endpoints))
  {
    var nodes, n := Nodes(s.outbounds + endpoints), |s.outbounds|;
    forall i, j | 0 <= i < j < |nodes| ensures nodes[i].tag != nodes[j].tag {
      if j < n {
        assert s.outbounds[i] != s.outbounds[j];
      } else if i < n {
        assert s.outbounds[i].tag in s.byTag;
      }
    }
  }

  /** Start hands over the outbounds followed by the endpoints.  The tag map indexes that list; its tags are distinct
      exactly when the endpoints' are apart. */
  lemma SchedulerHypotheses(s: Index, endpoints: seq<Outbound>)
    requires Bijection(s)
    ensures StartScheduler.DistinctTags(Nodes(s.outbounds + endpoints)) <==> EndpointsApart(s, endpoints)
    ensures StartScheduler.Indexes(NodeMap(s), Nodes(s.outbounds + endpoints))
  {
    var nodes := Nodes(s.outbounds + endpoints);
    forall t | t in s.byTag ensures StartScheduler.Outbound(t, s.byTag[t].deps) in nodes {
      var i :| 0 <= i < |s.outbounds| && s.outbounds[i] == s.byTag[t];
      assert nodes[i] == StartScheduler.Outbound(t, s.byTag[t].deps);
    }
    hide EndpointsApart, StartScheduler.DistinctTags;
    if EndpointsApart(s, endpoints) {
      ApartMeansDistinct(s, endpoints);
    }
    if StartScheduler.DistinctTags(nodes) {
      DistinctMeansApart(s, endpoints);
    }
  }

  /** The fallback is added, and an endpoint has its tag. */
  ghost predicate FallbackClash(s: Index, direct: Option<Outbound>, endpoints: seq<Outbound>) {
    s.defaultTag == "" && s.chosen.None? && direct.Some? && exists i :: 0 <= i < |endpoints| && endpoints[i].tag == direct.value.tag
  }

  /** Endpoints that the configuration keeps apart from the outbounds stay apart through Start exactly when the fallback
      does not take the tag of one. */
  lemma StartKeepsEndpointsApartIff(s: Index, endpoint: Option<Outbound>, direct: Option<Outbound>, endpoints: seq<Outbound>)
    requires EndpointsApart(s, endpoints)
    ensures EndpointsApart(AfterStart(s, true, endpoint, direct).0, endpoints) <==> !FallbackClash(s, direct, endpoints)
  {
    var s' := AfterStart(s, true, endpoint, direct).0;
    if FallbackClash(s, direct, endpoints) {
      var i :| 0 <= i < |endpoints| && endpoints[i].tag == direct.value.tag;
      assert endpoints[i].tag in s'.byTag;
    }
  }

  // ----- The manager -----

  lemma {:induction false} WithoutSlice(list: seq<Outbound>, o: Outbound, i: nat)
    requires i < |list| && list[i] == o && forall j :: 0 <= j < i ==> list[j] != o
    ensures Without(list, o) == list[..i] + list[i + 1..]
  {
    if i > 0 {
      WithoutSlice(list[1..], o, i - 1);
      assert list[1..][..i - 1] == list[1..i];
      assert list[1..][i - 1 + 1..] == list[i + 1..];
    }
  }

  /** common.Index followed by the slice-out append. */
  method CutOut(list: seq<Outbound>, o: Outbound) returns (rest: seq<Outbound>)
    requires o in list
    ensures rest == Without(list, o)
  {
    var i := 0;
    while list[i] != o
      invariant 0 <= i < |list|
      invariant forall j :: 0 <= j < i ==> list[j] != o
      decreases |list| - i
    {
      i := i + 1;
    }
    WithoutSlice(list, o, i);
    rest := list[..i] + list[i + 1..];
  }

  /** The loop at the end of Create. */
  method ListUnderEach(dependBy: map<Tag, seq<Tag>>, deps: seq<Tag>, tag: Tag) returns (m: map<Tag, seq<Tag>>)
    ensures m == ListUnder(dependBy, deps, tag)
  {
    m := dependBy;
    for i := 0 to |deps|
      invariant m == ListUnder(dependBy, deps[..i], tag)
    {
      assert deps[..i + 1][..i] == deps[..i];
      m := m[deps[i] := Get(m, deps[i]) + [tag]];
    }
    assert deps[..|deps|] == deps;
  }

  /** The loop at the end of Remove. */
  method ReleaseEach(dependBy: map<Tag, seq<Tag>>, deps: seq<Tag>, tag: Tag) returns (m: map<Tag, seq<Tag>>)
    ensures m == ReleaseAll(dependBy, deps, tag)
  {
    m := dependBy;
    for i := 0 to |deps|
      invariant m == ReleaseAll(dependBy, deps[..i], tag)
    {
      assert deps[..i + 1][..i] == deps[..i];
      if |Get(m, deps[i])| == 1 {
        m := m - {deps[i]};
      } else {
        m := m[deps[i] := Others(Get(m, deps[i]), tag)];
      }
    }
    assert deps[..|deps|] == deps;
  }

  class Manager {
    const defaultTag: Tag
    var started: bool
    var stage: nat
    var outbounds: seq<Outbound>
    var outboundByTag: map<Tag, Outbound>
    var dependByTag: map<Tag, seq<Tag>>
    var defaultOutbound: Option<Outbound>

    ghost function View(): Index
      reads this
    {
      Index(defaultTag, started, outbounds, outboundByTag, dependByTag, defaultOutbound)
    }

    constructor (defaultTag: Tag)
      ensures View() == Empty(defaultTag)
    {
      this.defaultTag := defaultTag;
      started, stage, outbounds, outboundByTag, dependByTag, defaultOutbound := false, 0, [], map[], map[], None;
    }

    method Create(o: Outbound, setupOk: bool, closeOk: bool) returns (result: Result)
      requires Bijection(View())
      modifies this
      ensures (View(), result) == AfterCreate(old(View()), o, setupOk, closeOk)
      ensures o !in old(outbounds) ==> Bijection(View())
    {
      assert o.tag in outboundByTag ==> outboundByTag[o.tag] in outbounds;
      hide Bijection, ListUnder, Without;
      ghost var before := View();
      CreateKeepsBijection(before, o, setupOk, closeOk);
      if o.tag == "" {
        return Invalid;
      }
      if !setupOk {
        return SetupError;
      }
      if o.tag in outboundByTag {
        if started && !closeOk {
          return CloseError;
        }
        outbounds := CutOut(outbounds, outboundByTag[o.tag]);
      }
      outbounds := outbounds + [o];
      outboundByTag := outboundByTag[o.tag := o];
      dependByTag := ListUnderEach(dependByTag, o.deps, o.tag);
      if o.tag == defaultTag || (defaultTag == "" && defaultOutbound.None?) {
        defaultOutbound := Some(o);
      }
      return Success;
    }

    method Remove(tag: Tag, closeOk: bool) returns (result: Result)
      requires Bijection(View())
      modifies this
      ensures (View(), result) == AfterRemove(old(View()), tag, closeOk)
      ensures Bijection(View())
    {
      assert tag in outboundByTag ==> outboundByTag[tag] in outbounds;
      hide Bijection, ReleaseAll, Without;
      ghost var before := View();
      RemoveKeepsBijection(before, tag, closeOk);
      if tag !in outboundByTag {
        return Invalid;
      }
      var outbound := outboundByTag[tag];
      outboundByTag := outboundByTag - {tag};
      outbounds := CutOut(outbounds, outbound);
      if defaultOutbound == Some(outbound) {
        if |outbounds| > 0 {
          defaultOutbound := Some(outbounds[0]);
        } else {
          defaultOutbound := None;
        }
      }
      var dependBy := Get(dependByTag, tag);
      if |dependBy| > 0 {
        return DependedBy(dependBy);
      }
      dependByTag := ReleaseEach(dependByTag, outbound.deps, tag);
      if started && !closeOk {
        return CloseError;
      }
      return Success;
    }

    /** The part of Start under the lock; `newStage` is compared with the stage already reached, and a repeat
        panics.  Stage 1 is StartStateStart. */
    method Start(newStage: nat, endpoint: Option<Outbound>, direct: Option<Outbound>) returns (result: Result)
      requires !(started && stage >= newStage)
      modifies this
      ensures stage == newStage
      ensures (View(), result) == AfterStart(old(View()), newStage == 1, endpoint, direct)
    {
      started := true;
      stage := newStage;
      if newStage == 1 {
        if defaultTag != "" && defaultOutbound.None? {
          if endpoint.None? {
            return NoDefault;
          }
          defaultOutbound := endpoint;
        }
        if defaultOutbound.None? {
          if direct.None? {
            return SetupError;
          }
          outbounds := outbounds + [direct.value];
          outboundByTag := outboundByTag[direct.value.tag := direct.value];
          defaultOutbound := direct;
        }
      }
      return Success;
    }

    /** Start at the starting stage, on to the scheduler.  The configuration has checked that outbounds and endpoints
        have tags of their own; the start succeeds exactly when moreover the fallback takes no endpoint's tag, the
        dependency graph is closed and acyclic, and nothing fails on its own.  If the fallback does take one, the start
        never succeeds, and panics exactly when everything could be started. */
    method StartStage(endpoint: Option<Outbound>, direct: Option<Outbound>, endpoints: seq<Outbound>, fails: set<Tag>)
      returns (result: Result, outcome: StartScheduler.Outcome)
      requires !(started && stage >= 1)
      requires Bijection(View()) && DefaultWhenNeeded(View())
      requires EndpointsApart(View(), endpoints)
      modifies this
      ensures (View(), result) == AfterStart(old(View()), true, endpoint, direct)
      ensures result.Success? ==>
        var list, clash := Nodes(outbounds + endpoints), FallbackClash(old(View()), direct, endpoints);
        && (outcome.Ok? <==> !clash && StartScheduler.Closed(list) && StartScheduler.Acyclic(list) && fails !! StartScheduler.Tags(list))
        && (outcome.NoCurrent? <==> clash && StartScheduler.Completable(list) && fails !! StartScheduler.Tags(list))
    {
      outcome := StartScheduler.Ok;
      ghost var before := View();
      result := Start(1, endpoint, direct);
      if result.Success? {
        StartKeepsBijection(before, true, endpoint, direct);
        StartKeepsEndpointsApartIff(before, endpoint, direct, endpoints);
        SchedulerHypotheses(View(), endpoints);
        hide Bijection, EndpointsApart, AfterStart, FallbackClash;
        var list := Nodes(outbounds + endpoints);
        var index := map t | t in outboundByTag :: StartScheduler.Outbound(t, outboundByTag[t].deps);
        var order;
        outcome, order := StartScheduler.StartOutbounds(list, index, fails);
      }
    }
  }

  /** One endpoint tagged "direct" and no outbounds: the configuration is accepted, and the start panics. */
  method FallbackClashPanics() returns (outcome: StartScheduler.Outcome)
    ensures outcome.NoCurrent?
  {
    var manager := new Manager("");
    var direct, endpoint := Outbound(0, "direct", []), Outbound(1, "direct", []);
    var result;
    result, outcome := manager.StartStage(None, Some(direct), [endpoint], {});
    ghost var list := Nodes(manager.outbounds + [endpoint]);
    assert [endpoint][0].tag == direct.tag;
    assert manager.outbounds + [endpoint] == [direct, endpoint];
    assert StartScheduler.Completable(list) by {
      assert list == [StartScheduler.Outbound("direct", []), StartScheduler.Outbound("direct", [])];
      TwinsComplete(list);
    }
  }

  lemma TwinsComplete(list: seq<StartScheduler.Outbound>)
    requires var o := StartScheduler.Outbound("direct", []); list == [o, o]
    ensures StartScheduler.Completable(list)
  {
    var order := ["direct"];
    assert list[0] in list;
    assert StartScheduler.CanFollow(list, order[0], order[..0]);
    assert StartScheduler.Elements(order) == {"direct"} == StartScheduler.Tags(list);
  }
}
