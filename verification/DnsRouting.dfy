/** DNS rule routing: `matchDNS` scans the rules for one that decides, and Exchange and Lookup retry from the next rule
    when a rule's address limit rejects the response.  Rule matching, the address limit and the upstream are oracles;
    matching may depend on the addresses the last check left in the metadata. */
module DnsRouting {
  import opened Common

  type Addresses = seq<nat>

  const IPV4_ONLY: nat := 3
  const IPV6_ONLY: nat := 4

  /** Strategy 0 is "as is"; an absent subnet is an invalid prefix. */
  datatype Options = Options(strategy: nat, disableCache: bool, rewriteTtl: Option<nat>, subnet: Option<nat>)

  datatype RejectMethod = RejectDefault | RejectDrop

  datatype Action =
    | Route(server: nat, routeOptions: Options)
    | RouteOptions(setOptions: Options)
    | Reject(how: RejectMethod)
    | Predefined(response: nat, success: bool, addresses: Addresses)

  datatype Rule = Rule(withAddressLimit: bool, action: Action)

  datatype Transport = Transport(tag: nat, fakeIP: bool, legacy: Option<(nat, Option<nat>)>)

  datatype Response = Response(id: nat, success: bool, addresses: Addresses, empty: bool)

  /** The answer made up on the spot for a query that the strategy refuses. */
  const EMPTY_SUCCESS := Response(0, true, [], true)

  /** What one exchange with a transport would see: a cached response, a query that came from the same transport, a
      remembered rejection, the upstream's answer. */
  datatype Upstream = Upstream(cached: Option<Response>, loopback: bool, rememberedRejection: bool, answer: Option<Response>)

  datatype Reply = Answered(response: Response) | ResponseRejected | Failed

  /** Exchange and Lookup differ in whether fake-IP transports are allowed, whether address-limited rules are considered
      for every query, and in what makes them try the next rule. */
  datatype Mode = Exchanging(query: Query) | LookingUp

  datatype Query = A | AAAA | HTTPS | OtherQuery

  datatype Env = Env(
    rules: seq<Rule>,
    transports: map<nat, Transport>,
    defaultTransport: Transport,
    defaultStrategy: nat,
    matches: (nat, Addresses) -> bool,                       // rule.Match(metadata)
    withinLimit: (nat, Addresses) -> bool,                   // rule.MatchAddressLimit(metadata)
    upstream: (nat, Transport, Options) -> Upstream,         // by rule index, |rules| for the default
    lookup: (nat, Transport, Options, Addresses) -> (Reply, Addresses)
  )

  datatype Decision = Refused | Dropped | Fixed(response: nat, success: bool, addresses: Addresses) | Replied(reply: Reply)

  /** One call of the client: which rule sent it (|rules| for the default), where, and under which options. */
  datatype Attempt = Attempt(index: nat, transport: Transport, options: Options)

  // ----- Options -----

  function Merge(base: Options, set_: Options): Options {
    Options(if set_.strategy != 0 then set_.strategy else base.strategy,
            base.disableCache || set_.disableCache,
            if set_.rewriteTtl.Some? then set_.rewriteTtl else base.rewriteTtl,
            if set_.subnet.Some? then set_.subnet else base.subnet)
  }

  /** A route's own options, then what a legacy transport fills in. */
  function RouteWith(base: Options, set_: Options, t: Transport): Options {
    var merged := Merge(base, set_);
    var o := merged.(disableCache := merged.disableCache || t.fakeIP);
    if t.legacy.None? then o
    else o.(strategy := if o.strategy == 0 then t.legacy.value.0 else o.strategy,
            subnet := if o.subnet.None? then t.legacy.value.1 else o.subnet)
  }

  function Final(env: Env, o: Options): Options {
    if o.strategy == 0 then o.(strategy := env.defaultStrategy) else o
  }

  // ----- The client -----

  /** An A query under ipv6_only or an AAAA query under ipv4_only. */
  predicate StrategyRefuses(query: Query, strategy: nat) {
    (query.A? && strategy == IPV6_ONLY) || (query.AAAA? && strategy == IPV4_ONLY)
  }

  /** A query with a client subnet is not a simple one, and only simple ones use the cache. */
  predicate CacheOff(o: Options) {
    o.disableCache || o.subnet.Some?
  }

  /** client.Exchange as the router sees it: only a checked exchange is ever rejected; a query the strategy refuses and
      a cached response are not checked.  The check leaves the response's addresses in the metadata. */
  function ClientExchange(query: Query, o: Options, u: Upstream, checked: bool, within: Addresses -> bool, dest: Addresses)
    : (r: (Reply, Addresses))
    ensures StrategyRefuses(query, o.strategy) ==> r == (Answered(EMPTY_SUCCESS), dest)
    ensures r.0.ResponseRejected? ==> checked
    ensures r.1 != dest ==> checked && u.answer.Some? && r.1 == u.answer.value.addresses
    ensures checked && r.0.Answered? && !StrategyRefuses(query, o.strategy) && (u.cached.None? || CacheOff(o)) ==>
              within(r.0.response.addresses)
  {
    if StrategyRefuses(query, o.strategy) then (Answered(EMPTY_SUCCESS), dest)
    else if u.cached.Some? && !CacheOff(o) then (Answered(u.cached.value), dest)
    else if u.loopback then (Failed, dest)
    else if checked && u.rememberedRejection && !CacheOff(o) then (ResponseRejected, dest)
    else if u.answer.None? then (Failed, dest)
    else if !checked then (Answered(u.answer.value), dest)
    else if !u.answer.value.success || u.answer.value.empty then (ResponseRejected, dest)
    else if within(u.answer.value.addresses) then (Answered(u.answer.value), u.answer.value.addresses)
    else (ResponseRejected, u.answer.value.addresses)
  }

  /** Strategy 3 is ipv4_only and 4 ipv6_only. */
  lemma StrategyRefusal(query: Query, strategy: nat)
    ensures StrategyRefuses(query, strategy) <==> (query == A && strategy == 4) || (query == AAAA && strategy == 3)
  {
  }

  /** Exactly when an exchange is rejected, fails, and is answered from the cache or from upstream.  The cache, with its
      remembered rejections, is out of play when the options turn it off or set a client subnet. */
  lemma ExchangeOutcome(query: Query, o: Options, u: Upstream, checked: bool, within: Addresses -> bool, dest: Addresses)
    ensures var reply, cache := ClientExchange(query, o, u, checked, within, dest).0, !o.disableCache && o.subnet.None?;
      var refused := (query == A && o.strategy == 4) || (query == AAAA && o.strategy == 3);
      var open := !refused && !(cache && u.cached.Some?);
      && (refused ==> reply == Answered(EMPTY_SUCCESS))
      && (!refused && cache && u.cached.Some? ==> reply == Answered(u.cached.value))
      && (reply.ResponseRejected? <==>
            && open && !u.loopback && checked
            && (|| (cache && u.rememberedRejection)
                || (u.answer.Some? && (!u.answer.value.success || u.answer.value.empty || !within(u.answer.value.addresses)))))
      && (reply.Failed? <==> open && (u.loopback || (u.answer.None? && !(checked && cache && u.rememberedRejection))))
      && (open && reply.Answered? ==> reply == Answered(u.answer.value))
      && (ClientExchange(query, o, u, checked, within, dest).1 ==
            if open && !u.loopback && checked && !(cache && u.rememberedRejection) && u.answer.Some?
               && u.answer.value.success && !u.answer.value.empty
            then u.answer.value.addresses else dest)
  {
  }

  function Ask(env: Env, mode: Mode, a: Attempt, dest: Addresses): (Reply, Addresses) {
    if mode.LookingUp? then env.lookup(a.index, a.transport, a.options, dest)
    else
      ClientExchange(mode.query, a.options, env.upstream(a.index, a.transport, a.options), Limited(env, a.index),
                     addresses => env.withinLimit(a.index, addresses), dest)
  }

  predicate Limited(env: Env, index: nat) {
    index < |env.rules| && env.rules[index].withAddressLimit
  }

  /** `continue` in the retry loop: Exchange retries on a rejection, Lookup on any error. */
  predicate TryNext(env: Env, mode: Mode, index: nat, reply: Reply) {
    Limited(env, index) && if mode.LookingUp? then !reply.Answered? else reply.ResponseRejected?
  }

  // ----- One pass over the rules -----

  predicate Considered(env: Env, mode: Mode, i: nat, dest: Addresses)
    requires i < |env.rules|
  {
    !(env.rules[i].withAddressLimit && mode.Exchanging? && mode.query.OtherQuery?) && env.matches(i, dest)
  }

  /** The transport a route rule can use, if any. */
  function Usable(env: Env, mode: Mode, server: nat): Option<Transport> {
    if server !in env.transports || (env.transports[server].fakeIP && mode.LookingUp?) then None
    else Some(env.transports[server])
  }

  /** Reference semantics, without any retry loop: walk the rules once.  `options` are those folded since the last
      attempt; a rejected attempt resets them to `base` and goes on with the next rule. */
  function Walk(env: Env, mode: Mode, base: Options, i: nat, options: Options, dest: Addresses): (seq<Attempt>, Decision)
    requires i <= |env.rules|
    decreases |env.rules| - i
  {
    if i == |env.rules| then
      var last := Attempt(i, env.defaultTransport, Final(env, options));
      ([last], Replied(Ask(env, mode, last, dest).0))
    else if !Considered(env, mode, i, dest) then Walk(env, mode, base, i + 1, options, dest)
    else match env.rules[i].action
      case RouteOptions(set_) => Walk(env, mode, base, i + 1, Merge(options, set_), dest)
      case Reject(how) => ([], if how.RejectDefault? then Refused else Dropped)
      case Predefined(response, success, addresses) => ([], Fixed(response, success, addresses))
      case Route(server, set_) =>
        var usable := Usable(env, mode, server);
        if usable.None? then Walk(env, mode, base, i + 1, options, dest)
        else
          var attempt := Attempt(i, usable.value, Final(env, RouteWith(options, set_, usable.value)));
          var (reply, dest') := Ask(env, mode, attempt, dest);
          if TryNext(env, mode, i, reply) then
            var (attempts, decision) := Walk(env, mode, base, i + 1, base, dest');
            ([attempt] + attempts, decision)
          else ([attempt], Replied(reply))
  }

  // ----- matchDNS and the retry loop -----

  /** What matchDNS returns: the transport (none for a reject or predefined rule), the rule's index (|rules| when no
      rule decided) and the options. */
  datatype Match = Match(transport: Option<Transport>, index: nat, options: Options)

  function MatchFrom(env: Env, mode: Mode, i: nat, options: Options, dest: Addresses): (m: Match)
    requires i <= |env.rules|
    ensures i <= m.index <= |env.rules|
    ensures m.transport.None? ==> m.index < |env.rules| && (env.rules[m.index].action.Reject? || env.rules[m.index].action.Predefined?)
    ensures m.transport.Some? && m.index < |env.rules| ==> env.rules[m.index].action.Route?
    decreases |env.rules| - i
  {
    if i == |env.rules| then Match(Some(env.defaultTransport), i, options)
    else if !Considered(env, mode, i, dest) then MatchFrom(env, mode, i + 1, options, dest)
    else match env.rules[i].action
      case RouteOptions(set_) => MatchFrom(env, mode, i + 1, Merge(options, set_), dest)
      case Reject(_) => Match(None, i, options)
      case Predefined(_, _, _) => Match(None, i, options)
      case Route(server, set_) =>
        var usable := Usable(env, mode, server);
        if usable.None? then MatchFrom(env, mode, i + 1, options, dest)
        else Match(usable, i, RouteWith(options, set_, usable.value))
  }

  function Fix(action: Action): Decision
    requires action.Reject? || action.Predefined?
  {
    match action
    case Reject(how) => if how.RejectDefault? then Refused else Dropped
    case Predefined(response, success, addresses) => Fixed(response, success, addresses)
  }

  /** A walk is a match followed by what its rule leads to. */
  lemma {:induction false} WalkViaMatch(env: Env, mode: Mode, base: Options, i: nat, options: Options, dest: Addresses)
    requires i <= |env.rules|
    ensures var m := MatchFrom(env, mode, i, options, dest);
      Walk(env, mode, base, i, options, dest) ==
        if m.transport.None? then ([], Fix(env.rules[m.index].action))
        else
          var attempt := Attempt(m.index, m.transport.value, Final(env, m.options));
          var (reply, dest') := Ask(env, mode, attempt, dest);
          if TryNext(env, mode, m.index, reply) then
            var (attempts, decision) := Walk(env, mode, base, m.index + 1, base, dest');
            ([attempt] + attempts, decision)
          else ([attempt], Replied(reply))
    decreases |env.rules| - i
  {
    hide Ask, Final, RouteWith, Merge;
    if i < |env.rules| {
      if !Considered(env, mode, i, dest) {
        WalkViaMatch(env, mode, base, i + 1, options, dest);
      } else {
        match env.rules[i].action
        case RouteOptions(set_) => WalkViaMatch(env, mode, base, i + 1, Merge(options, set_), dest);
        case Route(server, _) =>
          if Usable(env, mode, server).None? {
            WalkViaMatch(env, mode, base, i + 1, options, dest);
          }
        case _ =>
      }
    }
  }

  method MatchDns(env: Env, mode: Mode, ruleIndex: int, options: Options, dest: Addresses) returns (m: Match)
    requires -1 <= ruleIndex < |env.rules|
    ensures m == MatchFrom(env, mode, ruleIndex + 1, options, dest)
  {
    var current, folded := if ruleIndex != -1 then ruleIndex + 1 else 0, options;
    while current < |env.rules|
      invariant 0 <= current <= |env.rules|
      invariant MatchFrom(env, mode, current, folded, dest) == MatchFrom(env, mode, ruleIndex + 1, options, dest)
    {
      if Considered(env, mode, current, dest) {
        match env.rules[current].action {
          case Route(server, set_) =>
            var usable := Usable(env, mode, server);
            if usable.Some? {
              return Match(usable, current, RouteWith(folded, set_, usable.value));
            }
          case RouteOptions(set_) =>
            folded := Merge(folded, set_);
          case _ =>
            return Match(None, current, folded);
        }
      }
      current := current + 1;
    }
    return Match(Some(env.defaultTransport), current, folded);
  }

  lemma RetriedFailed(env: Env, mode: Mode, index: nat, reply: Reply)
    requires TryNext(env, mode, index, reply)
    ensures index < |env.rules| && !reply.Answered?
  {
  }

  /** The retry loop of Exchange and Lookup computes the single walk.  `failed` is the variable err when the loop is
      left, which a retry does not clear. */
  method Resolve(env: Env, mode: Mode, options: Options, dest0: Addresses)
    returns (attempts: seq<Attempt>, decision: Decision, failed: bool)
    ensures (attempts, decision) == Walk(env, mode, options, 0, options, dest0)
    ensures failed == if decision.Replied? then !decision.reply.Answered? else attempts != []
  {
    hide Walk, MatchFrom, Ask, Final, TryNext;
    var ruleIndex, dest := -1, dest0;
    attempts, failed := [], false;
    assert [] + Walk(env, mode, options, 0, options, dest0).0 == Walk(env, mode, options, 0, options, dest0).0;
    while true
      invariant -1 <= ruleIndex < |env.rules|
      invariant var (rest, d) := Walk(env, mode, options, ruleIndex + 1, options, dest);
        Walk(env, mode, options, 0, options, dest0) == (attempts + rest, d)
      invariant failed == (attempts != [])
      decreases |env.rules| - ruleIndex
    {
      WalkViaMatch(env, mode, options, ruleIndex + 1, options, dest);
      var m := MatchDns(env, mode, ruleIndex, options, dest);
      if m.transport.None? {
        assert attempts + [] == attempts;
        return attempts, Fix(env.rules[m.index].action), failed;
      }
      var attempt := Attempt(m.index, m.transport.value, Final(env, m.options));
      var (reply, dest') := Ask(env, mode, attempt, dest);
      ghost var before := attempts;
      attempts, failed := attempts + [attempt], !reply.Answered?;
      if !TryNext(env, mode, m.index, reply) {
        return attempts, Replied(reply), failed;
      }
      RetriedFailed(env, mode, m.index, reply);
      ghost var rest := Walk(env, mode, options, m.index + 1, options, dest').0;
      assert before + ([attempt] + rest) == attempts + rest;
      ruleIndex, dest := m.index, dest';
    }
  }

  /** Router.Lookup: addresses and whether an error comes with them.  A predefined rule that succeeds does not clear the
      error of an attempt made before it. */
  method Lookup(env: Env, options: Options, dest: Addresses) returns (addresses: Addresses, error: bool)
    ensures var (attempts, d) := Walk(env, LookingUp, options, 0, options, dest);
      && (d.Refused? || d.Dropped? ==> addresses == [] && error)
      && (d.Replied? && d.reply.Answered? ==> addresses == d.reply.response.addresses && (error <==> addresses == []))
      && (d.Replied? && !d.reply.Answered? ==> addresses == [] && error)
      && (d.Fixed? && !d.success ==> addresses == [] && error)
      && (d.Fixed? && d.success ==> addresses == d.addresses && (error <==> addresses == [] || attempts != []))
  {
    var attempts, d, failed := Resolve(env, LookingUp, options, dest);
    match d {
      case Refused => return [], true;
      case Dropped => return [], true;
      case Fixed(_, success, found) =>
        error := if success then failed else true;
        addresses := if success then found else [];
      case Replied(reply) =>
        error := failed;
        addresses := if reply.Answered? then reply.response.addresses else [];
    }
    if !error && addresses == [] {
      error := true;
    }
  }

  // ----- What a walk means -----

  /** Rule i ends a scan: it rejects, answers by itself, or routes to a transport that can be used. */
  predicate Decides(env: Env, mode: Mode, i: nat, dest: Addresses)
    requires i < |env.rules|
  {
    && Considered(env, mode, i, dest)
    && match env.rules[i].action
       case RouteOptions(_) => false
       case Route(server, _) => Usable(env, mode, server).Some?
       case _ => true
  }

  /** The rules from i up to j are all passed over. */
  predicate PassedOver(env: Env, mode: Mode, i: nat, j: nat, dest: Addresses) {
    forall k | i <= k < j && k < |env.rules| :: !Decides(env, mode, k, dest)
  }

  /** What rule k contributes to the options of a scan. */
  function Contribution(env: Env, mode: Mode, k: nat, dest: Addresses): Option<Options>
    requires k < |env.rules|
  {
    if Considered(env, mode, k, dest) && env.rules[k].action.RouteOptions? then Some(env.rules[k].action.setOptions) else None
  }

  /** What the rules in [i, j) contribute, one entry a rule. */
  function Contributions(env: Env, mode: Mode, i: nat, j: nat, dest: Addresses): (cs: seq<Option<Options>>)
    requires i <= j <= |env.rules|
  {
    seq(j - i, k requires 0 <= k < j - i => Contribution(env, mode, i + k, dest))
  }

  function Folded(base: Options, cs: seq<Option<Options>>): Options
    decreases |cs|
  {
    if cs == [] then base
    else Folded(if cs[0].Some? then Merge(base, cs[0].value) else base, cs[1..])
  }

  /** `value` is the last setting given, or `base` when none is. */
  ghost predicate LastWins<T(!new)>(settings: seq<Option<T>>, base: T, value: T) {
    || ((forall k | 0 <= k < |settings| :: settings[k].None?) && value == base)
    || exists k | 0 <= k < |settings| ::
         settings[k] == Some(value) && forall later | k < later < |settings| :: settings[later].None?
  }

  function Strategies(cs: seq<Option<Options>>): seq<Option<nat>> {
    seq(|cs|, k requires 0 <= k < |cs| =>
      if cs[k].Some? && cs[k].value.strategy != 0 then Some(cs[k].value.strategy) else None)
  }

  function Ttls(cs: seq<Option<Options>>): seq<Option<Option<nat>>> {
    seq(|cs|, k requires 0 <= k < |cs| =>
      if cs[k].Some? && cs[k].value.rewriteTtl.Some? then Some(cs[k].value.rewriteTtl) else None)
  }

  function Subnets(cs: seq<Option<Options>>): seq<Option<Option<nat>>> {
    seq(|cs|, k requires 0 <= k < |cs| =>
      if cs[k].Some? && cs[k].value.subnet.Some? then Some(cs[k].value.subnet) else None)
  }

  lemma LastWinsCons<T(!new)>(settings: seq<Option<T>>, base: T, value: T)
    requires settings != []
    requires LastWins(settings[1..], if settings[0].Some? then settings[0].value else base, value)
    ensures LastWins(settings, base, value)
  {
    var rest := settings[1..];
    if k :| 0 <= k < |rest| && rest[k] == Some(value) && forall later | k < later < |rest| :: rest[later].None? {
      assert settings[k + 1] == Some(value);
      assert forall later | k + 1 < later < |settings| :: settings[later] == rest[later - 1];
    } else {
      assert forall j | 1 <= j < |settings| :: settings[j] == rest[j - 1];
    }
  }

  /** Field by field, the last route-options rule that sets a field wins; the cache is off once anyone turns it off. */
  lemma {:induction false} FoldedLastWins(base: Options, cs: seq<Option<Options>>)
    ensures LastWins(Strategies(cs), base.strategy, Folded(base, cs).strategy)
    ensures LastWins(Ttls(cs), base.rewriteTtl, Folded(base, cs).rewriteTtl)
    ensures LastWins(Subnets(cs), base.subnet, Folded(base, cs).subnet)
    ensures Folded(base, cs).disableCache <==> base.disableCache || exists c | c in cs :: c.Some? && c.value.disableCache
    decreases |cs|
  {
    if cs != [] {
      var next, rest := if cs[0].Some? then Merge(base, cs[0].value) else base, cs[1..];
      FoldedLastWins(next, rest);
      assert Strategies(cs)[1..] == Strategies(rest) && Ttls(cs)[1..] == Ttls(rest) && Subnets(cs)[1..] == Subnets(rest);
      LastWinsCons(Strategies(cs), base.strategy, Folded(base, cs).strategy);
      LastWinsCons(Ttls(cs), base.rewriteTtl, Folded(base, cs).rewriteTtl);
      LastWinsCons(Subnets(cs), base.subnet, Folded(base, cs).subnet);
      assert cs == [cs[0]] + rest;
    }
  }

  /** The options after rule i has been passed over. */
  function Onward(env: Env, mode: Mode, i: nat, options: Options, dest: Addresses): Options
    requires i < |env.rules|
  {
    var c := Contribution(env, mode, i, dest);
    if c.Some? then Merge(options, c.value) else options
  }

  lemma MatchStep(env: Env, mode: Mode, i: nat, options: Options, dest: Addresses)
    requires i < |env.rules|
    ensures MatchFrom(env, mode, i, options, dest) ==
      if Decides(env, mode, i, dest) then MatchAt(env, mode, i, options)
      else MatchFrom(env, mode, i + 1, Onward(env, mode, i, options, dest), dest)
  {
    hide RouteWith, Merge, Usable;
  }

  /** A match stops at the first deciding rule at or after i, with the options folded over the rules it passed. */
  lemma {:induction false} MatchIsFirst(env: Env, mode: Mode, i: nat, options: Options, dest: Addresses)
    requires i <= |env.rules|
    ensures var m := MatchFrom(env, mode, i, options, dest);
      && PassedOver(env, mode, i, m.index, dest)
      && (m.index < |env.rules| ==> Decides(env, mode, m.index, dest))
      && m == MatchAt(env, mode, m.index, Folded(options, Contributions(env, mode, i, m.index, dest)))
    decreases |env.rules| - i
  {
    if i < |env.rules| {
      MatchStep(env, mode, i, options, dest);
      var m := MatchFrom(env, mode, i, options, dest);
      hide MatchFrom, Decides, Merge, Considered, RouteWith;
      var cs := Contributions(env, mode, i, m.index, dest);
      if !Decides(env, mode, i, dest) {
        MatchIsFirst(env, mode, i + 1, Onward(env, mode, i, options, dest), dest);
        assert cs[1..] == Contributions(env, mode, i + 1, m.index, dest);
      }
    }
  }

  function OrElse(strategy: nat, other: nat): nat {
    if strategy != 0 then strategy else other
  }

  function OrOther<T>(value: Option<T>, other: Option<T>): Option<T> {
    if value.Some? then value else other
  }

  /** What a routed attempt runs under: the route's own setting, else the folded one, else the legacy transport's, and
      for the strategy at last the router's default; a fake-IP transport is never cached. */
  lemma RoutePriorities(env: Env, folded: Options, set_: Options, t: Transport)
    ensures var o := Final(env, RouteWith(folded, set_, t));
      var (strategy, subnet) := if t.legacy.Some? then t.legacy.value else (0, None);
      && o.strategy == OrElse(set_.strategy, OrElse(folded.strategy, OrElse(strategy, env.defaultStrategy)))
      && o.subnet == OrOther(set_.subnet, OrOther(folded.subnet, subnet))
      && o.rewriteTtl == OrOther(set_.rewriteTtl, folded.rewriteTtl)
      && (o.disableCache <==> set_.disableCache || folded.disableCache || t.fakeIP)
  {
  }

  /** What a scan that stops at rule j, or runs off the end, hands back. */
  function MatchAt(env: Env, mode: Mode, j: nat, options: Options): Match
    requires j <= |env.rules|
  {
    if j == |env.rules| then Match(Some(env.defaultTransport), j, options)
    else match env.rules[j].action
      case Route(server, set_) =>
        var usable := Usable(env, mode, server);
        Match(usable, j, if usable.Some? then RouteWith(options, set_, usable.value) else options)
      case _ => Match(None, j, options)
  }

  /** The outcome as the documentation has it, with no scan and no loop.  From rule `start`, rules up to the first
      deciding one are passed over and only lend their options.  A deciding rule with no transport settles the matter;
      a route is asked under exactly the options folded since `start`, and its reply stands unless the rule has an
      address limit that turns it down, in which case the same holds from the next rule on with fresh options. */
  ghost predicate Lawful(env: Env, mode: Mode, base: Options, start: nat, dest: Addresses, attempts: seq<Attempt>, decision: Decision)
    requires start <= |env.rules|
    decreases |attempts|
  {
    if attempts == [] then
      exists j | start <= j < |env.rules| ::
        && PassedOver(env, mode, start, j, dest) && Decides(env, mode, j, dest)
        && (env.rules[j].action.Reject? || env.rules[j].action.Predefined?)
        && decision == Fix(env.rules[j].action)
    else
      var a := attempts[0];
      && start <= a.index <= |env.rules|
      && PassedOver(env, mode, start, a.index, dest)
      && (a.index < |env.rules| ==> Decides(env, mode, a.index, dest) && env.rules[a.index].action.Route?)
      && (var m := MatchAt(env, mode, a.index, Folded(base, Contributions(env, mode, start, a.index, dest)));
          m.transport.Some? && a == Attempt(a.index, m.transport.value, Final(env, m.options)))
      && var (reply, dest') := Ask(env, mode, a, dest);
         if TryNext(env, mode, a.index, reply) then Lawful(env, mode, base, a.index + 1, dest', attempts[1..], decision)
         else attempts == [a] && decision == Replied(reply)
  }

  lemma {:induction false} WalkIsLawful(env: Env, mode: Mode, base: Options, start: nat, dest: Addresses)
    requires start <= |env.rules|
    ensures var (attempts, decision) := Walk(env, mode, base, start, base, dest);
      Lawful(env, mode, base, start, dest, attempts, decision)
    decreases |env.rules| - start
  {
    hide Walk, MatchFrom, Ask, PassedOver, Decides, Final, Folded, Contributions;
    var m := MatchFrom(env, mode, start, base, dest);
    WalkViaMatch(env, mode, base, start, base, dest);
    MatchIsFirst(env, mode, start, base, dest);
    if m.transport.Some? {
      var attempt := Attempt(m.index, m.transport.value, Final(env, m.options));
      var (reply, dest') := Ask(env, mode, attempt, dest);
      if TryNext(env, mode, m.index, reply) {
        WalkIsLawful(env, mode, base, m.index + 1, dest');
        var rest := Walk(env, mode, base, m.index + 1, base, dest').0;
        assert ([attempt] + rest)[1..] == rest;
      }
    }
  }

  /** Two scans from the same place stop at the same rule. */
  lemma FirstIsUnique(env: Env, mode: Mode, start: nat, dest: Addresses, j: nat, k: nat)
    requires start <= j <= |env.rules| && start <= k <= |env.rules|
    requires PassedOver(env, mode, start, j, dest) && (j < |env.rules| ==> Decides(env, mode, j, dest))
    requires PassedOver(env, mode, start, k, dest) && (k < |env.rules| ==> Decides(env, mode, k, dest))
    ensures j == k
  {
  }

  /** The documented outcome is the only one: nothing else is lawful. */
  lemma {:induction false} LawfulIsUnique(env: Env, mode: Mode, base: Options, start: nat, dest: Addresses,
                                          attempts: seq<Attempt>, decision: Decision)
    requires start <= |env.rules|
    requires Lawful(env, mode, base, start, dest, attempts, decision)
    ensures (attempts, decision) == Walk(env, mode, base, start, base, dest)
    decreases |attempts|
  {
    hide Walk, MatchFrom, Ask, PassedOver, Decides, Final, Folded, Contributions;
    var m := MatchFrom(env, mode, start, base, dest);
    WalkViaMatch(env, mode, base, start, base, dest);
    MatchIsFirst(env, mode, start, base, dest);
    if attempts == [] {
      var j :| start <= j < |env.rules| && PassedOver(env, mode, start, j, dest) && Decides(env, mode, j, dest)
        && (env.rules[j].action.Reject? || env.rules[j].action.Predefined?) && decision == Fix(env.rules[j].action);
      FirstIsUnique(env, mode, start, dest, j, m.index);
    } else {
      var a := attempts[0];
      FirstIsUnique(env, mode, start, dest, a.index, m.index);
      var (reply, dest') := Ask(env, mode, a, dest);
      if TryNext(env, mode, a.index, reply) {
        LawfulIsUnique(env, mode, base, a.index + 1, dest', attempts[1..], decision);
        assert attempts == [a] + attempts[1..];
      }
    }
  }

  ghost predicate Ascending(attempts: seq<Attempt>) {
    forall i, j | 0 <= i < j < |attempts| :: attempts[i].index < attempts[j].index
  }

  /** At most one exchange a rule and one for the default, in the order of the rules; every attempt before the last was
      made by a rule with an address limit. */
  lemma {:induction false} AttemptsAscend(env: Env, mode: Mode, base: Options, start: nat, dest: Addresses)
    requires start <= |env.rules|
    ensures var attempts := Walk(env, mode, base, start, base, dest).0;
      && Ascending(attempts) && |attempts| <= |env.rules| - start + 1
      && (forall a | a in attempts :: start <= a.index <= |env.rules|)
      && (forall k | 0 <= k < |attempts| - 1 :: Limited(env, attempts[k].index))
    decreases |env.rules| - start
  {
    hide Walk, MatchFrom, Ask;
    var m := MatchFrom(env, mode, start, base, dest);
    WalkViaMatch(env, mode, base, start, base, dest);
    if m.transport.Some? {
      var attempt := Attempt(m.index, m.transport.value, Final(env, m.options));
      var (reply, dest') := Ask(env, mode, attempt, dest);
      if TryNext(env, mode, m.index, reply) {
        AttemptsAscend(env, mode, base, m.index + 1, dest');
        var rest := Walk(env, mode, base, m.index + 1, base, dest').0;
        assert forall k | 0 <= k < |rest| :: rest[k] in rest;
      }
    }
  }

  /** An attempt whose strategy refuses the query is the last: its empty answer stands, address limit or not. */
  lemma {:induction false} RefusedQueryEndsWalk(env: Env, query: Query, base: Options, start: nat, dest: Addresses, k: nat)
    requires start <= |env.rules|
    requires k < |Walk(env, Exchanging(query), base, start, base, dest).0|
    requires StrategyRefuses(query, Walk(env, Exchanging(query), base, start, base, dest).0[k].options.strategy)
    ensures var (attempts, decision) := Walk(env, Exchanging(query), base, start, base, dest);
      k == |attempts| - 1 && decision == Replied(Answered(EMPTY_SUCCESS))
    decreases |env.rules| - start
  {
    hide Walk, MatchFrom, ClientExchange;
    var mode := Exchanging(query);
    var m := MatchFrom(env, mode, start, base, dest);
    WalkViaMatch(env, mode, base, start, base, dest);
    if m.transport.Some? {
      var attempt := Attempt(m.index, m.transport.value, Final(env, m.options));
      var (reply, dest') := Ask(env, mode, attempt, dest);
      if TryNext(env, mode, m.index, reply) {
        assert k > 0;
        RefusedQueryEndsWalk(env, query, base, m.index + 1, dest', k - 1);
      }
    }
  }

  /** A query for no addresses never uses a rule with an address limit, so it is asked at most once. */
  lemma NonAddressIsAskedOnce(env: Env, base: Options, start: nat, dest: Addresses)
    requires start <= |env.rules|
    ensures var attempts := Walk(env, Exchanging(OtherQuery), base, start, base, dest).0;
      |attempts| <= 1 && forall a | a in attempts :: !(a.index < |env.rules| && env.rules[a.index].withAddressLimit)
  {
    hide Walk, MatchFrom, Ask;
    var mode := Exchanging(OtherQuery);
    WalkViaMatch(env, mode, base, start, base, dest);
    MatchIsFirst(env, mode, start, base, dest);
  }

  /** Who is asked: the server the rule names, which exists and for a lookup is no fake-IP one; past the rules, the
      default. */
  ghost predicate RightServer(env: Env, mode: Mode, a: Attempt) {
    if a.index < |env.rules| then
      && env.rules[a.index].action.Route? && env.rules[a.index].action.server in env.transports
      && a.transport == env.transports[env.rules[a.index].action.server]
      && (mode.LookingUp? ==> !a.transport.fakeIP)
    else a.index == |env.rules| && a.transport == env.defaultTransport
  }

  lemma {:induction false} AttemptsAskTheRightServer(env: Env, mode: Mode, base: Options, start: nat, dest: Addresses)
    requires start <= |env.rules|
    ensures forall a | a in Walk(env, mode, base, start, base, dest).0 :: RightServer(env, mode, a)
    decreases |env.rules| - start
  {
    hide Walk, MatchFrom, Ask, Final;
    var m := MatchFrom(env, mode, start, base, dest);
    WalkViaMatch(env, mode, base, start, base, dest);
    MatchIsFirst(env, mode, start, base, dest);
    if m.transport.Some? {
      var attempt := Attempt(m.index, m.transport.value, Final(env, m.options));
      assert RightServer(env, mode, attempt);
      var (reply, dest') := Ask(env, mode, attempt, dest);
      if TryNext(env, mode, m.index, reply) {
        AttemptsAskTheRightServer(env, mode, base, m.index + 1, dest');
      }
    }
  }

  /** An exchange that fails outright is the last, even under an address limit: only rejections are retried. */
  lemma {:induction false} FailedExchangeEndsWalk(env: Env, query: Query, base: Options, start: nat, dest: Addresses, k: nat)
    requires start <= |env.rules|
    requires k < |Walk(env, Exchanging(query), base, start, base, dest).0|
    requires var a := Walk(env, Exchanging(query), base, start, base, dest).0[k];
      env.upstream(a.index, a.transport, a.options) == Upstream(None, false, false, None) && !StrategyRefuses(query, a.options.strategy)
    ensures var (attempts, decision) := Walk(env, Exchanging(query), base, start, base, dest);
      k == |attempts| - 1 && decision == Replied(Failed)
    decreases |env.rules| - start
  {
    hide Walk, MatchFrom;
    var mode := Exchanging(query);
    var m := MatchFrom(env, mode, start, base, dest);
    WalkViaMatch(env, mode, base, start, base, dest);
    if m.transport.Some? {
      var attempt := Attempt(m.index, m.transport.value, Final(env, m.options));
      var (reply, dest') := Ask(env, mode, attempt, dest);
      if TryNext(env, mode, m.index, reply) {
        assert k > 0;
        FailedExchangeEndsWalk(env, query, base, m.index + 1, dest', k - 1);
      }
    }
  }

  /** The reply that stands was not turned down: an exchange does not end on a rejection by an address-limited rule, nor a
      lookup on any error of one. */
  lemma {:induction false} FinalReplyStands(env: Env, mode: Mode, base: Options, start: nat, dest: Addresses)
    requires start <= |env.rules|
    ensures var (attempts, d) := Walk(env, mode, base, start, base, dest);
      d.Replied? ==>
        && attempts != []
        && (Limited(env, attempts[|attempts| - 1].index) ==>
              !d.reply.ResponseRejected? && (mode.LookingUp? ==> d.reply.Answered?))
    decreases |env.rules| - start
  {
    hide Walk, MatchFrom, Ask;
    var m := MatchFrom(env, mode, start, base, dest);
    WalkViaMatch(env, mode, base, start, base, dest);
    if m.transport.Some? {
      var attempt := Attempt(m.index, m.transport.value, Final(env, m.options));
      var (reply, dest') := Ask(env, mode, attempt, dest);
      if TryNext(env, mode, m.index, reply) {
        FinalReplyStands(env, mode, base, m.index + 1, dest');
      }
    }
  }

  /** A rejecting rule that decides first answers "refused", or drops the query, without asking anyone. */
  lemma FirstRuleRejects(env: Env, mode: Mode, base: Options, dest: Addresses, j: nat, how: RejectMethod)
    requires j < |env.rules| && PassedOver(env, mode, 0, j, dest) && Considered(env, mode, j, dest)
    requires env.rules[j].action == Reject(how)
    ensures Walk(env, mode, base, 0, base, dest) == ([], match how case RejectDefault => Refused case RejectDrop => Dropped)
  {
    hide Walk, MatchFrom;
    WalkViaMatch(env, mode, base, 0, base, dest);
    MatchIsFirst(env, mode, 0, base, dest);
    FirstIsUnique(env, mode, 0, dest, j, MatchFrom(env, mode, 0, base, dest).index);
  }

  /** A predefined answer can come back from Lookup together with the error of a rule tried before it. */
  lemma StaleErrorExample() returns (env: Env, options: Options)
    ensures var (attempts, d) := Walk(env, LookingUp, options, 0, options, []);
      d.Fixed? && d.success && d.addresses != [] && attempts != []
  {
    options := Options(0, false, None, None);
    var t := Transport(0, false, None);
    env := Env([Rule(true, Route(0, options)), Rule(false, Predefined(0, true, [7]))], map[0 := t], t, 0,
               (_, _) => true, (_, _) => false, (_, _, _) => Upstream(None, false, false, None),
               (_, _, _, dest) => (ResponseRejected, dest));
    assert Walk(env, LookingUp, options, 1, options, []) == ([], Fixed(0, true, [7]));
  }

  /** Exactly when a successful predefined answer comes without a stale error: the first deciding rule is the one that
      gives it. */
  lemma PredefinedIsClean(env: Env, options: Options, dest: Addresses)
    ensures var (attempts, d) := Walk(env, LookingUp, options, 0, options, dest);
      d.Fixed? ==> (attempts == [] <==>
        exists j | 0 <= j < |env.rules| :: PassedOver(env, LookingUp, 0, j, dest) && Decides(env, LookingUp, j, dest)
                                           && env.rules[j].action.Predefined?)
  {
    hide Walk, MatchFrom, Ask;
    var m := MatchFrom(env, LookingUp, 0, options, dest);
    WalkViaMatch(env, LookingUp, options, 0, options, dest);
    MatchIsFirst(env, LookingUp, 0, options, dest);
    if j :| 0 <= j < |env.rules| && PassedOver(env, LookingUp, 0, j, dest) && Decides(env, LookingUp, j, dest)
            && env.rules[j].action.Predefined? {
      FirstIsUnique(env, LookingUp, 0, dest, j, m.index);
    }
  }
}
