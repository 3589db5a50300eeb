/** TTL handling of the DNS client's cache: choosing one TTL for a response, storing it, and ageing it on a hit.
    Messages have no OPT records, whose TTL field means something else (section 6.1.3 of RFC 6891). */
module DnsCache {
  import opened Common

  const TWO32: int := 0x1_0000_0000

  type Ttl = t: int | 0 <= t < 0x1_0000_0000

  /** A resource record: `payload` stands for everything but the TTL; only SOA records have a minimum. */
  datatype Record = Record(payload: nat, ttl: Ttl, minimum: Option<Ttl>)

  datatype Message = Message(rcode: nat, answer: seq<Record>, ns: seq<Record>, extra: seq<Record>)

  const SUCCESS: nat := 0
  const NAME_ERROR: nat := 3

  function All(m: Message): seq<Record> {
    m.answer + m.ns + m.extra
  }

  // ----- Choosing a TTL -----

  /** The smallest positive TTL, or 0 when there is none. */
  ghost predicate IsMinPositive(records: seq<Record>, t: Ttl) {
    if t == 0 then forall i :: 0 <= i < |records| ==> records[i].ttl == 0
    else
      && (exists i :: 0 <= i < |records| && records[i].ttl == t)
      && (forall i :: 0 <= i < |records| && records[i].ttl > 0 ==> t <= records[i].ttl)
  }

  /** Section 5 of RFC 2308: the first SOA record limits a negative answer by its TTL and its minimum. */
  ghost predicate IsNegativeTtl(ns: seq<Record>, t: Option<Ttl>) {
    if t.None? then forall i :: 0 <= i < |ns| ==> ns[i].minimum.None?
    else exists i :: 0 <= i < |ns| && ns[i].minimum.Some? && (forall j :: 0 <= j < i ==> ns[j].minimum.None?)
                  && t.value == (if ns[i].ttl < ns[i].minimum.value then ns[i].ttl else ns[i].minimum.value)
  }

  /** What a response may be cached for. */
  ghost predicate IsChosen(m: Message, rewrite: Option<Ttl>, t: Ttl) {
    if rewrite.Some? then t == rewrite.value
    else exists negative :: (
      && IsNegativeTtl(m.ns, negative)
      && if m.answer == [] && negative.Some? && negative.value > 0 then t == negative.value else IsMinPositive(All(m), t))
  }

  method ExtractNegativeTtl(ns: seq<Record>) returns (t: Option<Ttl>)
    ensures IsNegativeTtl(ns, t)
  {
    for i := 0 to |ns|
      invariant forall j :: 0 <= j < i ==> ns[j].minimum.None?
    {
      if ns[i].minimum.Some? {
        if ns[i].ttl < ns[i].minimum.value {
          return Some(ns[i].ttl);
        }
        return Some(ns[i].minimum.value);
      }
    }
    return None;
  }

  /** The nested loops over answer, authority and additional records, which occur both when a response is received
      and when a cached one is aged. */
  method MinPositive(m: Message) returns (t: Ttl)
    ensures IsMinPositive(All(m), t)
  {
    t := 0;
    var records := All(m);
    for i := 0 to |records|
      invariant IsMinPositive(records[..i], t)
    {
      ghost var before := t;
      if t == 0 || (records[i].ttl > 0 && records[i].ttl < t) {
        t := records[i].ttl;
      }
      assert records[..i + 1] == records[..i] + [records[i]];
      MinPositiveSnoc(records[..i], records[i], before);
    }
    assert records[..|records|] == records;
  }

  lemma MinPositiveSnoc(records: seq<Record>, r: Record, t: Ttl)
    requires IsMinPositive(records, t)
    ensures IsMinPositive(records + [r], if t == 0 || (r.ttl > 0 && r.ttl < t) then r.ttl else t)
  {
    var longer := records + [r];
    assert longer[|records|] == r;
    if t > 0 {
      var i :| 0 <= i < |records| && records[i].ttl == t;
      assert longer[i].ttl == t;
    }
  }

  method ChooseTtl(m: Message, rewrite: Option<Ttl>) returns (t: Ttl)
    ensures IsChosen(m, rewrite, t)
    ensures rewrite.None? && m.answer != [] ==> IsMinPositive(All(m), t)
    ensures rewrite.Some? ==> t == rewrite.value
  {
    t := 0;
    ghost var negative;
    var n := ExtractNegativeTtl(m.ns);
    negative := n;
    if |m.answer| == 0 && n.Some? {
      t := n.value;
    }
    if t == 0 {
      t := MinPositive(m);
    }
    assert IsChosen(m, None, t) by { assert IsNegativeTtl(m.ns, negative); }
    if rewrite.Some? {
      t := rewrite.value;
    }
  }

  /** By example: a negative answer lives for the lesser of the SOA record's TTL and its minimum, of the first SOA record
      only, unless that is 0 or a TTL is imposed; an answer lives for its smallest positive TTL. */
  method TtlExamples() returns (negative: Ttl, capped: Ttl, fallback: Ttl, imposed: Ttl, positive: Ttl)
    ensures negative == 60 && capped == 30 && fallback == 20 && imposed == 5 && positive == 10
  {
    var soa, short, empty := Record(1, 300, Some(60)), Record(1, 30, Some(60)), Record(1, 20, Some(0));
    var a, b, zero := Record(2, 40, None), Record(3, 10, None), Record(4, 0, None);
    negative := ChooseTtl(Message(3, [], [a, soa, short], [b]), None);
    IsFirstSoa([a, soa, short], 1);
    capped := ChooseTtl(Message(3, [], [short, soa], []), None);
    IsFirstSoa([short, soa], 0);
    var m := Message(0, [], [empty], []);
    fallback := ChooseTtl(m, None);
    IsFirstSoa([empty], 0);
    assert All(m) == [empty];
    imposed := ChooseTtl(Message(0, [a], [soa], []), Some(5));
    var full := Message(0, [a, zero], [soa], [b]);
    positive := ChooseTtl(full, None);
    assert All(full) == [a, zero, soa, b];
    assert All(full)[3].ttl == 10;
  }

  lemma IsFirstSoa(ns: seq<Record>, k: nat)
    requires k < |ns| && ns[k].minimum.Some? && forall j :: 0 <= j < k ==> ns[j].minimum.None?
    ensures forall t :: IsNegativeTtl(ns, t) ==> t == Some(if ns[k].ttl < ns[k].minimum.value then ns[k].ttl else ns[k].minimum.value)
  {
  }

  // ----- Setting TTLs -----

  function WithTtl(records: seq<Record>, t: Ttl): seq<Record> {
    seq(|records|, i requires 0 <= i < |records| => records[i].(ttl := t))
  }

  function Stamped(m: Message, t: Ttl): Message {
    Message(m.rcode, WithTtl(m.answer, t), WithTtl(m.ns, t), WithTtl(m.extra, t))
  }

  method StampList(records: seq<Record>, t: Ttl) returns (r: seq<Record>)
    ensures r == WithTtl(records, t)
  {
    r := [];
    for i := 0 to |records|
      invariant r == WithTtl(records, t)[..i]
    {
      r := r + [records[i].(ttl := t)];
    }
  }

  method Stamp(m: Message, t: Ttl) returns (r: Message)
    ensures r == Stamped(m, t)
  {
    var answer := StampList(m.answer, t);
    var ns := StampList(m.ns, t);
    var extra := StampList(m.extra, t);
    return Message(m.rcode, answer, ns, extra);
  }

  lemma StampedMinPositive(m: Message, t: Ttl, u: Ttl)
    requires t > 0 && IsMinPositive(All(Stamped(m, t)), u)
    ensures if All(m) == [] then u == 0 else u == t
  {
    var records := All(Stamped(m, t));
    assert |records| == |All(m)|;
    assert forall i :: 0 <= i < |records| ==> records[i].ttl == t;
    if |records| > 0 {
      assert records[0].ttl == t;
    }
  }

  lemma StampAgain(m: Message, t: Ttl, u: Ttl)
    ensures Stamped(Stamped(m, t), u) == Stamped(m, u)
  {
  }

  lemma StampKeepsCode(m: Message, t: Ttl)
    ensures Stamped(m, t).rcode == m.rcode
  {
  }

  // ----- The cache -----

  /** Nanoseconds in a second: the clock and expiry times are in nanoseconds. */
  const SECOND: nat := 1_000_000_000

  /** The shared cache is keyed by question, the independent one by question and transport. */
  datatype Key = Key(question: nat, transport: Option<nat>)

  /** `message` as stored, with the TTL it was stamped with; `ttl` seconds after `storedAt` it expires. */
  datatype Entry = Entry(message: Message, ttl: Ttl, storedAt: nat) {
    function ExpireAt(): nat { storedAt + ttl * SECOND }
  }

  /** Whole seconds left. */
  function Remaining(e: Entry, now: nat): (r: nat)
    requires e.storedAt <= now <= e.ExpireAt()
    ensures r <= e.ttl
    ensures r * SECOND <= e.ExpireAt() - now < (r + 1) * SECOND
  {
    assert e.ExpireAt() - now <= e.ttl * SECOND;
    (e.ExpireAt() - now) / SECOND
  }

  /** Ageing runs at the speed of the clock from the whole TTL on: k seconds later the remaining time is k less. */
  lemma RemainingAges(e: Entry, now: nat, k: nat)
    requires e.storedAt <= now && now + k * SECOND <= e.ExpireAt()
    ensures Remaining(e, now + k * SECOND) == Remaining(e, now) - k
    ensures Remaining(e, e.storedAt) == e.ttl
  {
    var left := e.ExpireAt() - now;
    assert (left - k * SECOND) / SECOND == left / SECOND - k;
    assert e.ttl * SECOND / SECOND == e.ttl;
  }

  class Cache {
    const disableExpire: bool
    const independent: bool
    var now: nat
    var entries: map<Key, Entry>

    /** Every entry carries one positive TTL in all its records, was stored in the past, and says either that the name
        exists or that it does not (response codes 0 and 3). */
    ghost predicate Valid()
      reads this
    {
      forall k :: k in entries ==>
        var e := entries[k];
        && e.ttl > 0 && e.storedAt <= now && e.message == Stamped(e.message, e.ttl)
        && (e.message.rcode == 0 || e.message.rcode == 3)
    }

    constructor (disableExpire: bool, independent: bool)
      ensures Valid() && entries == map[] && this.disableExpire == disableExpire && this.independent == independent
    {
      this.disableExpire, this.independent, now, entries := disableExpire, independent, 0, map[];
    }

    function KeyFor(question: nat, transport: nat): Key {
      Key(question, if independent then Some(transport) else None)
    }

    /** The shared cache tells questions apart, the independent one transports too. */
    lemma KeysTellApart(q: nat, t: nat, q': nat, t': nat)
      ensures KeyFor(q, t) == KeyFor(q', t') <==> q == q' && (independent ==> t == t')
    {
    }

    /** Time passes. */
    method Tick(d: nat)
      requires Valid()
      modifies this`now
      ensures Valid() && now == old(now) + d
    {
      now := now + d;
    }

    /** The LRU may drop any entry at any time. */
    method Forget(k: Key)
      requires Valid()
      modifies this`entries
      ensures Valid() && entries == old(entries) - {k}
    {
      entries := entries - {k};
    }

    /** storeCache of a response already stamped with `t`. */
    method Store(question: nat, transport: nat, m: Message, t: Ttl)
      requires Valid() && m == Stamped(m, t) && (m.rcode == SUCCESS || m.rcode == NAME_ERROR)
      modifies this`entries
      ensures Valid()
      ensures entries == if t == 0 then old(entries) else old(entries)[KeyFor(question, transport) := Entry(m, t, now)]
    {
      if t == 0 {
        return;
      }
      entries := entries[KeyFor(question, transport) := Entry(m, t, now)];
    }

    /** loadResponse.  With expiry on, a hit is not past its expiry and every record of it carries exactly the whole
        seconds remaining, everything else being as stored; past expiry there is no hit and the entry is gone. */
    method Load(question: nat, transport: nat) returns (hit: Option<Message>, nowTtl: nat)
      requires Valid()
      modifies this`entries
      ensures Valid()
      ensures var k := KeyFor(question, transport);
        if k !in old(entries) then hit.None? && entries == old(entries)
        else if disableExpire then hit == Some(old(entries)[k].message) && entries == old(entries)
        else if now > old(entries)[k].ExpireAt() then hit.None? && entries == old(entries) - {k}
        else && nowTtl * SECOND <= old(entries)[k].ExpireAt() - now < (nowTtl + 1) * SECOND
             && nowTtl == Remaining(old(entries)[k], now)
             && hit == Some(Stamped(old(entries)[k].message, nowTtl)) && entries == old(entries)
    {
      nowTtl := 0;
      var k := KeyFor(question, transport);
      if k !in entries {
        return None, 0;
      }
      var e := entries[k];
      if disableExpire {
        return Some(e.message), 0;
      }
      if now > e.ExpireAt() {
        entries := entries - {k};
        return None, 0;
      }
      var originTtl := MinPositive(e.message);
      StampedMinPositive(e.message, e.ttl, originTtl);
      nowTtl := Remaining(e, now);
      if originTtl > 0 {
        var duration := Uint32(originTtl - nowTtl);
        var m := Age(e.message, duration);
        AgeUniform(e.message, e.ttl, nowTtl);
        return Some(m), nowTtl;
      } else {
        var m := Stamp(e.message, nowTtl);
        return Some(m), nowTtl;
      }
    }
  }

  /** uint32(x). */
  function Uint32(x: int): Ttl {
    x % TWO32
  }

  function AgedList(records: seq<Record>, duration: Ttl): seq<Record> {
    seq(|records|, i requires 0 <= i < |records| => records[i].(ttl := Uint32(records[i].ttl as int - duration as int)))
  }

  function Aged(m: Message, duration: Ttl): Message {
    Message(m.rcode, AgedList(m.answer, duration), AgedList(m.ns, duration), AgedList(m.extra, duration))
  }

  method AgeList(records: seq<Record>, duration: Ttl) returns (r: seq<Record>)
    ensures r == AgedList(records, duration)
  {
    r := [];
    for i := 0 to |records|
      invariant r == AgedList(records, duration)[..i]
    {
      r := r + [records[i].(ttl := Uint32(records[i].ttl as int - duration as int))];
    }
  }

  method Age(m: Message, duration: Ttl) returns (r: Message)
    ensures r == Aged(m, duration)
  {
    var answer := AgeList(m.answer, duration);
    var ns := AgeList(m.ns, duration);
    var extra := AgeList(m.extra, duration);
    return Message(m.rcode, answer, ns, extra);
  }

  /** On a uniformly stamped message the 32-bit subtractions do not wrap: ageing gives every record the time left. */
  lemma AgeUniform(m: Message, ttl: Ttl, left: nat)
    requires m == Stamped(m, ttl) && left <= ttl
    ensures Uint32(ttl as int - left) == ttl as int - left
    ensures Aged(m, Uint32(ttl as int - left)) == Stamped(m, left)
  {
    AgeListUniform(m.answer, ttl, left);
    AgeListUniform(m.ns, ttl, left);
    AgeListUniform(m.extra, ttl, left);
  }

  lemma AgeListUniform(records: seq<Record>, ttl: Ttl, left: nat)
    requires records == WithTtl(records, ttl) && left <= ttl
    ensures AgedList(records, Uint32(ttl as int - left)) == WithTtl(records, left)
  {
    var aged, want := AgedList(records, Uint32(ttl as int - left)), WithTtl(records, left);
    forall i | 0 <= i < |records| ensures aged[i] == want[i] {
      assert records[i] == WithTtl(records, ttl)[i];
    }
  }

  // ----- One exchange -----

  datatype Outcome = Answer(message: Message) | Failed | Rejected

  /** What a lookup leaves of the cache: an expired entry is dropped. */
  ghost function AfterLookup(entries: map<Key, Entry>, k: Key, disableExpire: bool, now: nat): map<Key, Entry> {
    if k in entries && !disableExpire && now > entries[k].ExpireAt() then entries - {k} else entries
  }

  ghost predicate Hit(entries: map<Key, Entry>, k: Key, disableExpire: bool, now: nat) {
    k in entries && (disableExpire || now <= entries[k].ExpireAt())
  }

  /** Only answers and denials (response codes 0 and 3) with a positive TTL are kept. */
  predicate MayStore(m: Message, disableCache: bool, t: Ttl) {
    !disableCache && (m.rcode == 0 || m.rcode == 3) && t > 0
  }

  /** The TTL path of Exchange: a cached response, or the upstream one stamped with the chosen TTL and, when it may
      be cached, stored.  `upstream` is what the transport returns; `accepts` is the response check, if there is
      one, applied to it. */
  method Exchange(cache: Cache, question: nat, transport: nat, disableCache: bool, rewrite: Option<Ttl>,
                  upstream: Option<Message>, accepts: Option<bool>) returns (outcome: Outcome, ghost chosen: Ttl)
    requires cache.Valid()
    modifies cache`entries
    ensures cache.Valid()
    ensures var k, before := cache.KeyFor(question, transport), old(cache.entries);
      var looked := if disableCache then before else AfterLookup(before, k, cache.disableExpire, cache.now);
      if !disableCache && Hit(before, k, cache.disableExpire, cache.now) then
        && cache.entries == before
        && outcome == Answer(if cache.disableExpire then before[k].message
                             else Stamped(before[k].message, Remaining(before[k], cache.now)))
      else if upstream.None? then outcome == Failed && cache.entries == looked
      else if accepts.Some? && (upstream.value.rcode != 0 || upstream.value.answer == [] || !accepts.value) then
        outcome == Rejected && cache.entries == looked
      else
        && IsChosen(upstream.value, rewrite, chosen)
        && (rewrite.None? && upstream.value.answer != [] ==> IsMinPositive(All(upstream.value), chosen))
        && (rewrite.Some? ==> chosen == rewrite.value)
        && outcome == Answer(Stamped(upstream.value, chosen))
        && cache.entries == if MayStore(upstream.value, disableCache, chosen)
                            then looked[k := Entry(Stamped(upstream.value, chosen), chosen, cache.now)] else looked
  {
    hide IsChosen, IsMinPositive, Stamped, Remaining;
    chosen := 0;
    if !disableCache {
      var hit, _ := cache.Load(question, transport);
      if hit.Some? {
        return Answer(hit.value), 0;
      }
    }
    if upstream.None? {
      return Failed, 0;
    }
    var response := upstream.value;
    var uncacheable := disableCache || (response.rcode != SUCCESS && response.rcode != NAME_ERROR);
    if accepts.Some? {
      if response.rcode != SUCCESS || |response.answer| == 0 || !accepts.value {
        return Rejected, 0;
      }
    }
    var ttl := ChooseTtl(response, rewrite);
    chosen := ttl;
    var stamped := Stamp(response, ttl);
    StampAgain(response, ttl, ttl);
    assert stamped.rcode == response.rcode by { StampKeepsCode(response, ttl); }
    if !uncacheable {
      cache.Store(question, transport, stamped, ttl);
    }
    return Answer(stamped), ttl;
  }

  /** By example, with a TTL of 60 and the clock in nanoseconds: half a second after storing 59 seconds are left, at the
      very moment of expiry none, and a nanosecond later the entry is gone. */
  method AgeingExample() returns (half: Option<Message>, last: Option<Message>, gone: Option<Message>)
    ensures half == Some(Message(0, [Record(1, 59, None)], [], []))
    ensures last == Some(Message(0, [Record(1, 0, None)], [], []))
    ensures gone == None
  {
    var cache := new Cache(false, false);
    var m := Message(0, [Record(1, 60, None)], [], []);
    assert Stamped(m, 60) == m;
    cache.Store(7, 0, m, 60);
    var ttl;
    cache.Tick(500_000_000);
    half, ttl := cache.Load(7, 0);
    assert ttl == 59 && Stamped(m, 59) == Message(0, [Record(1, 59, None)], [], []);
    cache.Tick(59_500_000_000);
    last, ttl := cache.Load(7, 0);
    assert ttl == 0 && Stamped(m, 0) == Message(0, [Record(1, 0, None)], [], []);
    cache.Tick(1);
    gone, ttl := cache.Load(7, 0);
  }
}
