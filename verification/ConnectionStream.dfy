/** The connection-event stream: a server that keeps one snapshot per announced connection and sends a reset message, then
    batches of manager events and periodic traffic deltas; and the client that replays the messages.

    Everything either side does splits by connection id, so each operation is specified by what it does to one id, and a
    run is followed id by id. */
module ConnectionStream {
  import opened Common

  type Id = nat

  datatype Traffic = Traffic(up: int, down: int)

  const ZERO := Traffic(0, 0)

  function Plus(a: Traffic, b: Traffic): Traffic { Traffic(a.up + b.up, a.down + b.down) }

  function Minus(a: Traffic, b: Traffic): Traffic { Traffic(a.up - b.up, a.down - b.down) }

  predicate AtMost(a: Traffic, b: Traffic) { a.up <= b.up && a.down <= b.down }

  /** An open connection as one pass of the server sees it.  The counters are loaded twice, once for the snapshot and
      once for the message, and may have moved in between. */
  datatype Conn = Conn(id: Id, sample: Traffic, shown: Traffic)

  /** A connection in the manager's list of closed ones; no time stands for the zero time. */
  datatype Done = Done(id: Id, shown: Traffic, closedAt: Option<int>)

  /** An event of the traffic manager.  `told` is the metadata's counters when the metadata carries an id. */
  datatype Note =
    | Appeared(id: Id, sample: Traffic, shown: Traffic)
    | Left(id: Id, eventTime: Option<int>, metadataTime: Option<int>, told: Option<Traffic>, clock: int)
    | Other(id: Id)

  datatype Snapshot = Snapshot(total: Traffic, hadTraffic: bool)

  datatype Event =
    | New(id: Id, shown: Traffic, closedAt: int)
    | Update(id: Id, delta: Traffic)
    | Closed(id: Id, closedAt: int, connection: Option<Traffic>)

  /** What the client keeps of a connection; it is open when closedAt is 0. */
  datatype Entry = Entry(total: Traffic, recent: Traffic, closedAt: int)

  const ZERO_TIME_MILLIS := -62135596800000
  const CLOSED_MAX_AGE := 5 * 60 * 1000

  function Millis(t: Option<int>): int { if t.Some? then t.value else ZERO_TIME_MILLIS }

  function Get<V>(m: map<Id, V>, x: Id): Option<V> { if x in m then Some(m[x]) else None }

  // ----- The items that concern one id -----

  function Of<T>(key: T -> Id, items: seq<T>, x: Id): (r: seq<T>)
    ensures forall c | c in r :: c in items && key(c) == x
  {
    if items == [] then []
    else
      var init, last := items[..|items| - 1], items[|items| - 1];
      Of(key, init, x) + if key(last) == x then [last] else []
  }

  lemma OfSnoc<T>(key: T -> Id, items: seq<T>, c: T, x: Id)
    ensures Of(key, items + [c], x) == Of(key, items, x) + if key(c) == x then [c] else []
  {
    assert (items + [c])[..|items|] == items;
  }

  lemma {:induction false} OfConcat<T>(key: T -> Id, a: seq<T>, b: seq<T>, x: Id)
    ensures Of(key, a + b, x) == Of(key, a, x) + Of(key, b, x)
    decreases |b|
  {
    if b == [] {
      assert a + b == a;
    } else {
      hide Of;
      var init, last := b[..|b| - 1], b[|b| - 1];
      assert b == init + [last] && a + b == (a + init) + [last];
      OfConcat(key, a, init, x);
      OfSnoc(key, init, last, x);
      OfSnoc(key, a + init, last, x);
    }
  }

  /** Items that all belong to y. */
  lemma {:induction false} OfOwn<T>(key: T -> Id, items: seq<T>, y: Id, x: Id)
    requires forall c | c in items :: key(c) == y
    ensures Of(key, items, x) == if x == y then items else []
    decreases |items|
  {
    if items != [] {
      var init, last := items[..|items| - 1], items[|items| - 1];
      assert items == init + [last] && last in items;
      OfOwn(key, init, y, x);
    }
  }

  lemma OfAppend<T>(key: T -> Id, items: seq<T>, more: seq<T>, y: Id, x: Id)
    requires forall c | c in more :: key(c) == y
    ensures Of(key, items + more, x) == if x == y then Of(key, items, x) + more else Of(key, items, x)
  {
    OfConcat(key, items, more, x);
    OfOwn(key, more, y, x);
  }

  function ConnId(c: Conn): Id { c.id }
  function DoneId(d: Done): Id { d.id }
  function NoteId(n: Note): Id { n.id }
  function EventId(e: Event): Id { e.id }

  function LastOf(closed: seq<Done>, x: Id): Option<Done> {
    var ds := Of(DoneId, closed, x);
    if ds == [] then None else Some(ds[|ds| - 1])
  }

  // ----- The server, for one id -----

  /** One connection met by a tick. */
  function Visit(s: Option<Snapshot>, c: Conn): (Snapshot, seq<Event>) {
    if s.None? then (Snapshot(c.sample, false), [New(c.id, c.shown, 0)])
    else
      var delta := Minus(c.sample, s.value.total);
      if delta.up < 0 || delta.down < 0 then
        (Snapshot(c.sample, false), if s.value.hadTraffic then [Update(c.id, ZERO)] else [])
      else if delta.up > 0 || delta.down > 0 then (Snapshot(c.sample, true), [Update(c.id, delta)])
      else if s.value.hadTraffic then (Snapshot(c.sample, false), [Update(c.id, ZERO)])
      else (s.value, [])
  }

  function VisitAll(s: Option<Snapshot>, cs: seq<Conn>): (Option<Snapshot>, seq<Event>) {
    if cs == [] then (s, [])
    else
      var (s', events) := VisitAll(s, cs[..|cs| - 1]);
      var (s'', more) := Visit(s', cs[|cs| - 1]);
      (Some(s''), events + more)
  }

  lemma VisitAllSnoc(s: Option<Snapshot>, cs: seq<Conn>, c: Conn)
    ensures var (s', events) := VisitAll(s, cs);
      VisitAll(s, cs + [c]) == (Some(Visit(s', c).0), events + Visit(s', c).1)
  {
    assert (cs + [c])[..|cs|] == cs;
  }

  function ClosingEvent(x: Id, done: Option<Done>, clock: int): Event {
    if done.None? then Closed(x, clock, None)
    else Closed(x, if done.value.closedAt.Some? then done.value.closedAt.value else clock, Some(done.value.shown))
  }

  function Notice(s: Option<Snapshot>, n: Note): (Option<Snapshot>, seq<Event>) {
    match n
    case Appeared(id, sample, shown) =>
      if s.Some? then (s, []) else (Some(Snapshot(sample, false)), [New(id, shown, 0)])
    case Left(id, eventTime, metadataTime, told, clock) =>
      var time := if eventTime.Some? then eventTime.value else if metadataTime.Some? then metadataTime.value else clock;
      (None, [Closed(id, time, told)])
    case Other(_) => (s, [])
  }

  function NoticeAll(s: Option<Snapshot>, ns: seq<Note>): (Option<Snapshot>, seq<Event>) {
    if ns == [] then (s, [])
    else
      var (s', events) := NoticeAll(s, ns[..|ns| - 1]);
      var (s'', more) := Notice(s', ns[|ns| - 1]);
      (s'', events + more)
  }

  lemma NoticeAllSnoc(s: Option<Snapshot>, ns: seq<Note>, n: Note)
    ensures var (s', events) := NoticeAll(s, ns);
      NoticeAll(s, ns + [n]) == (Notice(s', n).0, events + Notice(s', n).1)
  {
    assert (ns + [n])[..|ns|] == ns;
  }

  /** A message is made from a batch of manager events, or by a tick that reads the manager's two lists.  A tick reads
      the clock when it closes an id. */
  datatype Input = Batch(notes: seq<Note>) | Tick(open: seq<Conn>, closed: seq<Done>, clock: Id -> int)

  function ServeFor(input: Input, x: Id, s: Option<Snapshot>): (Option<Snapshot>, seq<Event>) {
    match input
    case Batch(notes) => NoticeAll(s, Of(NoteId, notes, x))
    case Tick(open, closed, clock) =>
      var cs := Of(ConnId, open, x);
      var (s', events) := VisitAll(s, cs);
      if cs == [] && s'.Some? then (None, events + [ClosingEvent(x, LastOf(closed, x), clock(x))])
      else (s', events)
  }

  function Announce(cs: seq<Conn>): seq<Event> {
    if cs == [] then []
    else
      var c := cs[|cs| - 1];
      Announce(cs[..|cs| - 1]) + [New(c.id, c.shown, 0)]
  }

  function AnnounceClosed(ds: seq<Done>): seq<Event> {
    if ds == [] then []
    else
      var d := ds[|ds| - 1];
      AnnounceClosed(ds[..|ds| - 1]) + [New(d.id, d.shown, Millis(d.closedAt))]
  }

  function InitialFor(open: seq<Conn>, closed: seq<Done>, x: Id): (Option<Snapshot>, seq<Event>) {
    var cs, ds := Of(ConnId, open, x), Of(DoneId, closed, x);
    (if cs == [] then None else Some(Snapshot(cs[|cs| - 1].sample, false)), Announce(cs) + AnnounceClosed(ds))
  }

  // ----- The server -----

  type Snapshots = map<Id, Snapshot>

  ghost predicate Announced(open: seq<Conn>, closed: seq<Done>, snaps: Snapshots, events: seq<Event>) {
    forall x :: (Get(snaps, x), Of(EventId, events, x)) == InitialFor(open, closed, x)
  }

  lemma NothingAnnounced()
    ensures Announced([], [], map[], [])
  {
    forall x ensures (Get<Snapshot>(map[], x), Of(EventId, [], x)) == InitialFor([], [], x) {
      var e: seq<Event> := [];
      assert e + e == e;
    }
  }

  lemma AnnouncedOpen(open: seq<Conn>, snaps: Snapshots, events: seq<Event>, c: Conn)
    requires Announced(open, [], snaps, events)
    ensures Announced(open + [c], [], snaps[c.id := Snapshot(c.sample, false)], events + [New(c.id, c.shown, 0)])
  {
    var snaps', e := snaps[c.id := Snapshot(c.sample, false)], New(c.id, c.shown, 0);
    forall x ensures (Get(snaps', x), Of(EventId, events + [e], x)) == InitialFor(open + [c], [], x) {
      hide Of, InitialFor;
      assert (Get(snaps, x), Of(EventId, events, x)) == InitialFor(open, [], x);
      OfAppend(EventId, events, [e], c.id, x);
      InitialForNext(open, c, x);
    }
  }

  lemma InitialForNext(open: seq<Conn>, c: Conn, x: Id)
    ensures var (s, events) := InitialFor(open, [], x);
      InitialFor(open + [c], [], x) ==
        if x == c.id then (Some(Snapshot(c.sample, false)), events + [New(c.id, c.shown, 0)]) else (s, events)
  {
    assert Of(DoneId, [], x) == [];
    OfAppend(ConnId, open, [c], c.id, x);
    OpenOneMore(Of(ConnId, open, x), c);
    hide Of, Announce, AnnounceClosed;
  }

  lemma OpenOneMore(cs: seq<Conn>, c: Conn)
    ensures Announce(cs) + AnnounceClosed([]) == Announce(cs)
    ensures Announce(cs + [c]) + AnnounceClosed([]) == Announce(cs) + [New(c.id, c.shown, 0)]
  {
    assert (cs + [c])[..|cs|] == cs;
  }

  lemma AnnouncedClosed(open: seq<Conn>, closed: seq<Done>, snaps: Snapshots, events: seq<Event>, d: Done)
    requires Announced(open, closed, snaps, events)
    ensures Announced(open, closed + [d], snaps, events + [New(d.id, d.shown, Millis(d.closedAt))])
  {
    var e := New(d.id, d.shown, Millis(d.closedAt));
    forall x ensures (Get(snaps, x), Of(EventId, events + [e], x)) == InitialFor(open, closed + [d], x) {
      assert (Get(snaps, x), Of(EventId, events, x)) == InitialFor(open, closed, x);
      OfAppend(DoneId, closed, [d], d.id, x);
      OfAppend(EventId, events, [e], d.id, x);
      ClosedOneMore(Announce(Of(ConnId, open, x)), Of(DoneId, closed, x), d);
    }
  }

  lemma ClosedOneMore(first: seq<Event>, ds: seq<Done>, d: Done)
    ensures first + AnnounceClosed(ds + [d]) == first + AnnounceClosed(ds) + [New(d.id, d.shown, Millis(d.closedAt))]
  {
    assert (ds + [d])[..|ds|] == ds;
  }

  ghost predicate Noticed(before: Snapshots, notes: seq<Note>, snaps: Snapshots, events: seq<Event>) {
    forall x :: (Get(snaps, x), Of(EventId, events, x)) == NoticeAll(Get(before, x), Of(NoteId, notes, x))
  }

  lemma NothingNoticed(before: Snapshots)
    ensures Noticed(before, [], before, [])
  {
  }

  lemma NoticedNext(before: Snapshots, notes: seq<Note>, snaps: Snapshots, events: seq<Event>,
                    n: Note, snaps': Snapshots, more: seq<Event>)
    requires Noticed(before, notes, snaps, events)
    requires (Get(snaps', n.id), more) == Notice(Get(snaps, n.id), n)
    requires forall x | x != n.id :: Get(snaps', x) == Get(snaps, x)
    ensures Noticed(before, notes + [n], snaps', events + more)
  {
    assert forall e | e in more :: EventId(e) == n.id;
    forall x ensures (Get(snaps', x), Of(EventId, events + more, x)) == NoticeAll(Get(before, x), Of(NoteId, notes + [n], x)) {
      hide Of, Notice, NoticeAll, Get;
      OfAppend(NoteId, notes, [n], n.id, x);
      OfAppend(EventId, events, more, n.id, x);
      assert (Get(snaps, x), Of(EventId, events, x)) == NoticeAll(Get(before, x), Of(NoteId, notes, x));
      NoticeAllSnoc(Get(before, x), Of(NoteId, notes, x), n);
    }
  }

  ghost predicate Visited(before: Snapshots, open: seq<Conn>, snaps: Snapshots, events: seq<Event>) {
    forall x :: (Get(snaps, x), Of(EventId, events, x)) == VisitAll(Get(before, x), Of(ConnId, open, x))
  }

  lemma NothingVisited(before: Snapshots)
    ensures Visited(before, [], before, [])
  {
  }

  lemma VisitedNext(before: Snapshots, open: seq<Conn>, snaps: Snapshots, events: seq<Event>,
                    c: Conn, snaps': Snapshots, more: seq<Event>)
    requires Visited(before, open, snaps, events)
    requires (Get(snaps', c.id), more) == (Some(Visit(Get(snaps, c.id), c).0), Visit(Get(snaps, c.id), c).1)
    requires forall x | x != c.id :: Get(snaps', x) == Get(snaps, x)
    ensures Visited(before, open + [c], snaps', events + more)
  {
    assert forall e | e in more :: EventId(e) == c.id;
    forall x ensures (Get(snaps', x), Of(EventId, events + more, x)) == VisitAll(Get(before, x), Of(ConnId, open + [c], x)) {
      hide Of, Visit, VisitAll, Get;
      OfAppend(ConnId, open, [c], c.id, x);
      OfAppend(EventId, events, more, c.id, x);
      assert (Get(snaps, x), Of(EventId, events, x)) == VisitAll(Get(before, x), Of(ConnId, open, x));
      VisitAllSnoc(Get(before, x), Of(ConnId, open, x), c);
    }
  }

  /** What the sweep that closes inactive ids has done to x, with `pending` still to look at. */
  ghost predicate SweptAt(visited: Snapshots, sent: seq<Event>, active: set<Id>, pending: set<Id>, closed: seq<Done>, clock: Id -> int,
                          snaps: Snapshots, events: seq<Event>, x: Id)
  {
    if x in active || x in pending || x !in visited then
      Get(snaps, x) == Get(visited, x) && Of(EventId, events, x) == Of(EventId, sent, x)
    else
      x !in snaps && Of(EventId, events, x) == Of(EventId, sent, x) + [ClosingEvent(x, LastOf(closed, x), clock(x))]
  }

  ghost predicate Swept(visited: Snapshots, sent: seq<Event>, active: set<Id>, pending: set<Id>, closed: seq<Done>, clock: Id -> int,
                        snaps: Snapshots, events: seq<Event>)
  {
    forall x :: SweptAt(visited, sent, active, pending, closed, clock, snaps, events, x)
  }

  lemma SweptNext(visited: Snapshots, sent: seq<Event>, active: set<Id>, pending: set<Id>, closed: seq<Done>, clock: Id -> int,
                  snaps: Snapshots, events: seq<Event>, id: Id)
    requires Swept(visited, sent, active, pending, closed, clock, snaps, events)
    requires id in pending && id in visited && id !in active
    ensures Swept(visited, sent, active, pending - {id}, closed, clock,
                  snaps - {id}, events + [ClosingEvent(id, LastOf(closed, id), clock(id))])
  {
    var e := ClosingEvent(id, LastOf(closed, id), clock(id));
    assert EventId(e) == id;
    forall x ensures SweptAt(visited, sent, active, pending - {id}, closed, clock, snaps - {id}, events + [e], x) {
      hide LastOf, Of, ClosingEvent;
      assert SweptAt(visited, sent, active, pending, closed, clock, snaps, events, x);
      OfAppend(EventId, events, [e], id, x);
    }
  }

  class Server {
    var snapshots: Snapshots

    constructor ()
      ensures snapshots == map[]
    {
      snapshots := map[];
    }

    method BuildInitialConnectionState(open: seq<Conn>, closed: seq<Done>) returns (events: seq<Event>)
      requires snapshots == map[]
      modifies this
      ensures Announced(open, closed, snapshots, events)
    {
      hide Announced;
      events := [];
      NothingAnnounced();
      assert open[..0] == [];
      for i := 0 to |open|
        invariant Announced(open[..i], [], snapshots, events)
      {
        var c := open[i];
        AnnouncedOpen(open[..i], snapshots, events, c);
        assert open[..i + 1] == open[..i] + [c];
        events := events + [New(c.id, c.shown, 0)];
        snapshots := snapshots[c.id := Snapshot(c.sample, false)];
      }
      assert open[..|open|] == open && closed[..0] == [];
      for i := 0 to |closed|
        invariant Announced(open, closed[..i], snapshots, events)
      {
        var d := closed[i];
        AnnouncedClosed(open, closed[..i], snapshots, events, d);
        assert closed[..i + 1] == closed[..i] + [d];
        events := events + [New(d.id, d.shown, Millis(d.closedAt))];
      }
      assert closed[..|closed|] == closed;
    }

    method ApplyConnectionEvent(n: Note) returns (event: Option<Event>)
      modifies this
      ensures forall x | x != n.id :: Get(snapshots, x) == old(Get(snapshots, x))
      ensures (Get(snapshots, n.id), if event.Some? then [event.value] else []) == Notice(old(Get(snapshots, n.id)), n)
    {
      match n {
        case Appeared(id, sample, shown) =>
          if id in snapshots {
            return None;
          }
          snapshots := snapshots[id := Snapshot(sample, false)];
          return Some(New(id, shown, 0));
        case Left(id, eventTime, metadataTime, told, clock) =>
          snapshots := snapshots - {id};
          var closedAt := eventTime;
          if closedAt.None? && metadataTime.Some? {
            closedAt := metadataTime;
          }
          if closedAt.None? {
            closedAt := Some(clock);
          }
          return Some(Closed(id, closedAt.value, told));
        case Other(_) =>
          return None;
      }
    }

    /** The pending events of one message: all that can be drained from the subscription. */
    method DrainBatch(notes: seq<Note>) returns (events: seq<Event>)
      modifies this
      ensures Noticed(old(snapshots), notes, snapshots, events)
    {
      hide Noticed, Notice;
      events := [];
      NothingNoticed(snapshots);
      assert notes[..0] == [];
      for i := 0 to |notes|
        invariant Noticed(old(snapshots), notes[..i], snapshots, events)
      {
        ghost var snaps := snapshots;
        var event := ApplyConnectionEvent(notes[i]);
        NoticedNext(old(snapshots), notes[..i], snaps, events, notes[i], snapshots, if event.Some? then [event.value] else []);
        assert notes[..i + 1] == notes[..i] + [notes[i]];
        assert events + [] == events;
        if event.Some? {
          events := events + [event.value];
        }
      }
      assert notes[..|notes|] == notes;
    }

    /** One open connection met by a tick. */
    method VisitOne(c: Conn) returns (event: Option<Event>)
      modifies this
      ensures forall x | x != c.id :: Get(snapshots, x) == old(Get(snapshots, x))
      ensures c.id in snapshots
      ensures (snapshots[c.id], if event.Some? then [event.value] else []) == Visit(old(Get(snapshots, c.id)), c)
    {
      if c.id !in snapshots {
        snapshots := snapshots[c.id := Snapshot(c.sample, false)];
        return Some(New(c.id, c.shown, 0));
      }
      event := None;
      var snapshot := snapshots[c.id];
      var delta := Minus(c.sample, snapshot.total);
      if delta.up < 0 || delta.down < 0 {
        if snapshot.hadTraffic {
          event := Some(Update(c.id, ZERO));
        }
        snapshots := snapshots[c.id := Snapshot(c.sample, false)];
      } else if delta.up > 0 || delta.down > 0 {
        snapshots := snapshots[c.id := Snapshot(c.sample, true)];
        event := Some(Update(c.id, delta));
      } else if snapshot.hadTraffic {
        snapshots := snapshots[c.id := Snapshot(c.sample, false)];
        event := Some(Update(c.id, ZERO));
      }
    }

    method VisitOpen(open: seq<Conn>) returns (activeIndex: set<Id>, events: seq<Event>)
      modifies this
      ensures activeIndex == set c | c in open :: c.id
      ensures Visited(old(snapshots), open, snapshots, events)
    {
      hide Visited, Visit;
      activeIndex, events := {}, [];
      NothingVisited(snapshots);
      assert open[..0] == [];
      for i := 0 to |open|
        invariant activeIndex == set c | c in open[..i] :: c.id
        invariant Visited(old(snapshots), open[..i], snapshots, events)
      {
        ghost var snaps := snapshots;
        activeIndex := activeIndex + {open[i].id};
        var event := VisitOne(open[i]);
        VisitedNext(old(snapshots), open[..i], snaps, events, open[i], snapshots, if event.Some? then [event.value] else []);
        assert open[..i + 1] == open[..i] + [open[i]];
        assert events + [] == events;
        if event.Some? {
          events := events + [event.value];
        }
      }
      assert open[..|open|] == open;
    }

    method BuildTrafficUpdates(open: seq<Conn>, closed: seq<Done>, clock: Id -> int) returns (events: seq<Event>)
      modifies this
      ensures forall x :: (Get(snapshots, x), Of(EventId, events, x)) == ServeFor(Tick(open, closed, clock), x, old(Get(snapshots, x)))
    {
      hide Swept, Visited;
      var activeIndex;
      activeIndex, events := VisitOpen(open);
      var closedIndex: Option<map<Id, Done>> := None;
      ghost var visited, sent := snapshots, events;
      var pending := snapshots.Keys;
      NothingSwept(visited, sent, activeIndex, closed, clock);
      while pending != {}
        invariant pending <= visited.Keys
        invariant closedIndex.Some? ==> forall x :: Get(closedIndex.value, x) == LastOf(closed, x)
        invariant Swept(visited, sent, activeIndex, pending, closed, clock, snapshots, events)
      {
        hide LastOf;
        var id :| id in pending;
        if id in activeIndex {
          SweptSkip(visited, sent, activeIndex, pending, closed, clock, snapshots, events, id);
        } else {
          if closedIndex.None? {
            var index := IndexClosed(closed);
            closedIndex := Some(index);
          }
          var closedAt, conn := clock(id), None;
          if id in closedIndex.value {
            var done := closedIndex.value[id];
            if done.closedAt.Some? {
              closedAt := done.closedAt.value;
            }
            conn := Some(done.shown);
          }
          assert Get(closedIndex.value, id) == LastOf(closed, id);
          SweptNext(visited, sent, activeIndex, pending, closed, clock, snapshots, events, id);
          events := events + [Closed(id, closedAt, conn)];
          snapshots := snapshots - {id};
        }
        pending := pending - {id};
      }
      TickDone(old(snapshots), open, closed, clock, visited, sent, snapshots, events);
    }

    /** The events of one message of the subscription loop. */
    method Serve(input: Input) returns (events: seq<Event>)
      modifies this
      ensures forall x :: (Get(snapshots, x), Of(EventId, events, x)) == ServeFor(input, x, old(Get(snapshots, x)))
    {
      match input {
        case Batch(notes) => events := DrainBatch(notes);
        case Tick(open, closed, clock) => events := BuildTrafficUpdates(open, closed, clock);
      }
    }
  }

  lemma NothingSwept(visited: Snapshots, sent: seq<Event>, active: set<Id>, closed: seq<Done>, clock: Id -> int)
    ensures Swept(visited, sent, active, visited.Keys, closed, clock, visited, sent)
  {
    forall x ensures SweptAt(visited, sent, active, visited.Keys, closed, clock, visited, sent, x) {
      hide Of, LastOf;
    }
  }

  lemma SweptSkip(visited: Snapshots, sent: seq<Event>, active: set<Id>, pending: set<Id>, closed: seq<Done>, clock: Id -> int,
                  snaps: Snapshots, events: seq<Event>, id: Id)
    requires Swept(visited, sent, active, pending, closed, clock, snaps, events) && id in active
    ensures Swept(visited, sent, active, pending - {id}, closed, clock, snaps, events)
  {
    forall x ensures SweptAt(visited, sent, active, pending - {id}, closed, clock, snaps, events, x) {
      hide Of, LastOf;
      assert SweptAt(visited, sent, active, pending, closed, clock, snaps, events, x);
    }
  }

  lemma TickDone(before: Snapshots, open: seq<Conn>, closed: seq<Done>, clock: Id -> int,
                 visited: Snapshots, sent: seq<Event>, snaps: Snapshots, events: seq<Event>)
    requires Visited(before, open, visited, sent)
    requires Swept(visited, sent, set c | c in open :: c.id, {}, closed, clock, snaps, events)
    ensures forall x :: (Get(snaps, x), Of(EventId, events, x)) == ServeFor(Tick(open, closed, clock), x, Get(before, x))
  {
    forall x ensures (Get(snaps, x), Of(EventId, events, x)) == ServeFor(Tick(open, closed, clock), x, Get(before, x)) {
      OfMember(open, x);
      hide LastOf, Of;
      assert (Get(visited, x), Of(EventId, sent, x)) == VisitAll(Get(before, x), Of(ConnId, open, x));
      assert SweptAt(visited, sent, set c | c in open :: c.id, {}, closed, clock, snaps, events, x);
    }
  }

  lemma {:induction false} OfMember(open: seq<Conn>, x: Id)
    ensures Of(ConnId, open, x) == [] <==> x !in set c | c in open :: c.id
  {
    if open != [] {
      OfMember(open[..|open| - 1], x);
      assert open == open[..|open| - 1] + [open[|open| - 1]];
    }
  }

  method IndexClosed(closed: seq<Done>) returns (index: map<Id, Done>)
    ensures forall x :: Get(index, x) == LastOf(closed, x)
  {
    index := map[];
    for i := 0 to |closed|
      invariant forall x :: Get(index, x) == LastOf(closed[..i], x)
    {
      ghost var done, was := closed[..i + 1], index;
      assert done == closed[..i] + [closed[i]];
      index := index[closed[i].id := closed[i]];
      forall x ensures Get(index, x) == LastOf(done, x) {
        OfAppend(DoneId, closed[..i], [closed[i]], closed[i].id, x);
        assert Get(was, x) == LastOf(closed[..i], x);
      }
    }
    assert closed[..|closed|] == closed;
  }
}
