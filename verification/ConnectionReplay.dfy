/** The client of the connection-event stream, and what holds of every run of server and client together. */
module ConnectionReplay {
  import opened Common
  import opened ConnectionStream

  // ----- The client -----

  function OpenPart(v: map<Id, Entry>, x: Id): Option<Entry> {
    if x in v && v[x].closedAt == 0 then Some(v[x]) else None
  }

  /** The client reads a closing time of 0 as "still open", so closings must be dated. */
  predicate Dated(e: Event) { e.Closed? ==> e.closedAt != 0 }

  /** A dated event's effect on what the client holds open under its id. */
  function Show(v: Option<Entry>, e: Event): Option<Entry> {
    match e
    case New(_, shown, closedAt) => if closedAt == 0 then Some(Entry(shown, ZERO, 0)) else None
    case Update(_, delta) => if v.None? then None else Some(Entry(Plus(v.value.total, delta), delta, 0))
    case Closed(_, _, _) => None
  }

  function ShowAll(v: Option<Entry>, es: seq<Event>): Option<Entry> {
    if es == [] then v else Show(ShowAll(v, es[..|es| - 1]), es[|es| - 1])
  }

  lemma ShowAllSnoc(v: Option<Entry>, es: seq<Event>, e: Event)
    ensures ShowAll(v, es + [e]) == Show(ShowAll(v, es), e)
  {
    assert (es + [e])[..|es|] == es;
  }

  lemma {:induction false} ShowAllConcat(v: Option<Entry>, a: seq<Event>, b: seq<Event>)
    ensures ShowAll(v, a + b) == ShowAll(ShowAll(v, a), b)
    decreases |b|
  {
    if b == [] {
      assert a + b == a;
    } else {
      assert (a + b)[..|a + b| - 1] == a + b[..|b| - 1];
      ShowAllConcat(v, a, b[..|b| - 1]);
    }
  }

  ghost predicate Replayed(before: map<Id, Entry>, events: seq<Event>, view: map<Id, Entry>) {
    forall x :: OpenPart(view, x) == ShowAll(OpenPart(before, x), Of(EventId, events, x))
  }

  lemma ReplayedNext(before: map<Id, Entry>, events: seq<Event>, view: map<Id, Entry>, e: Event, view': map<Id, Entry>)
    requires Replayed(before, events, view)
    requires OpenPart(view', e.id) == Show(OpenPart(view, e.id), e)
    requires forall x | x != e.id :: Get(view', x) == Get(view, x)
    ensures Replayed(before, events + [e], view')
  {
    forall x ensures OpenPart(view', x) == ShowAll(OpenPart(before, x), Of(EventId, events + [e], x)) {
      assert x != e.id ==> Get(view', x) == Get(view, x) && OpenPart(view', x) == OpenPart(view, x);
      OfAppend(EventId, events, [e], e.id, x);
      ShowAllSnoc(OpenPart(before, x), Of(EventId, events, x), e);
    }
  }

  /** An event's effect on what the client has under its id, open or closed. */
  function Store(v: Option<Entry>, e: Event): Option<Entry> {
    match e
    case New(_, shown, closedAt) => Some(Entry(shown, ZERO, closedAt))
    case Update(_, delta) => if v.None? then None else Some(Entry(Plus(v.value.total, delta), delta, v.value.closedAt))
    case Closed(_, closedAt, connection) =>
      if connection.Some? then Some(Entry(connection.value, ZERO, closedAt))
      else if v.Some? then Some(Entry(v.value.total, ZERO, closedAt)) else None
  }

  function StoreAll(v: Option<Entry>, es: seq<Event>): Option<Entry> {
    if es == [] then v else Store(StoreAll(v, es[..|es| - 1]), es[|es| - 1])
  }

  lemma StoreAllSnoc(v: Option<Entry>, es: seq<Event>, e: Event)
    ensures StoreAll(v, es + [e]) == Store(StoreAll(v, es), e)
  {
    assert (es + [e])[..|es|] == es;
  }

  /** Closed connections are kept for five minutes. */
  function Retained(v: Option<Entry>, now: int): Option<Entry> {
    if v.Some? && v.value.closedAt != 0 && now - v.value.closedAt > CLOSED_MAX_AGE then None else v
  }

  ghost predicate Recorded(before: map<Id, Entry>, events: seq<Event>, view: map<Id, Entry>) {
    forall x :: Get(view, x) == StoreAll(Get(before, x), Of(EventId, events, x))
  }

  lemma RecordedNext(before: map<Id, Entry>, events: seq<Event>, view: map<Id, Entry>, e: Event, view': map<Id, Entry>)
    requires Recorded(before, events, view)
    requires Get(view', e.id) == Store(Get(view, e.id), e)
    requires forall x | x != e.id :: Get(view', x) == Get(view, x)
    ensures Recorded(before, events + [e], view')
  {
    forall x ensures Get(view', x) == StoreAll(Get(before, x), Of(EventId, events + [e], x)) {
      hide Of, StoreAll, Store, Get;
      OfAppend(EventId, events, [e], e.id, x);
      StoreAllSnoc(Get(before, x), Of(EventId, events, x), e);
    }
  }

  lemma EvictionRetains(before: map<Id, Entry>, events: seq<Event>, recorded: map<Id, Entry>, view: map<Id, Entry>, now: int)
    requires Recorded(before, events, recorded)
    requires forall x | x in view :: x in recorded && view[x] == recorded[x]
    requires forall x | x in recorded :: x in view <==> recorded[x].closedAt == 0 || now - recorded[x].closedAt <= CLOSED_MAX_AGE
    ensures forall x :: Get(view, x) == Retained(StoreAll(Get(before, x), Of(EventId, events, x)), now)
  {
    forall x ensures Get(view, x) == Retained(StoreAll(Get(before, x), Of(EventId, events, x)), now) {
      hide StoreAll, Of;
      assert Get(recorded, x) == StoreAll(Get(before, x), Of(EventId, events, x));
    }
  }

  lemma EvictionReplays(before: map<Id, Entry>, events: seq<Event>, recorded: map<Id, Entry>, view: map<Id, Entry>)
    requires Replayed(before, events, recorded) && forall x :: OpenPart(view, x) == OpenPart(recorded, x)
    ensures Replayed(before, events, view)
  {
    hide ShowAll, Of, OpenPart;
  }

  lemma NothingRecorded(view: map<Id, Entry>)
    ensures Recorded(view, [], view)
  {
  }

  /** What a connection that left is remembered as: the time of the event, else the metadata's, else the clock's, and the
      totals of the metadata, else those it was last known by. */
  lemma LeavingIsRecorded(s: Option<Snapshot>, v: Option<Entry>, n: Note)
    requires n.Left? && (v.Some? || n.told.Some?)
    ensures var r := StoreAll(v, Notice(s, n).1);
      && r.Some? && r.value.recent == ZERO
      && (n.eventTime.Some? ==> r.value.closedAt == n.eventTime.value)
      && (n.eventTime.None? && n.metadataTime.Some? ==> r.value.closedAt == n.metadataTime.value)
      && (n.eventTime.None? && n.metadataTime.None? ==> r.value.closedAt == n.clock)
      && (n.told.Some? ==> r.value.total == n.told.value)
      && (n.told.None? ==> r.value.total == v.value.total)
  {
    var es := Notice(s, n).1;
    assert es[..0] == [];
  }

  /** And one that a tick found gone: the last entry of the closed list counts, with its time or else the clock's. */
  lemma SweepingIsRecorded(v: Option<Entry>, x: Id, closed: seq<Done>, clock: int)
    ensures var r, done := Store(v, ClosingEvent(x, LastOf(closed, x), clock)), LastOf(closed, x);
      && (done.Some? ==> r.Some? && r.value.total == done.value.shown && r.value.recent == ZERO)
      && (done.Some? && done.value.closedAt.Some? ==> r.value.closedAt == done.value.closedAt.value)
      && (done.Some? && done.value.closedAt.None? ==> r.value.closedAt == clock)
      && (done.None? && v.Some? ==> r == Some(Entry(v.value.total, ZERO, clock)))
  {
    hide LastOf;
  }

  class Client {
    var connectionMap: map<Id, Entry>

    constructor ()
      ensures connectionMap == map[]
    {
      connectionMap := map[];
    }

    method ApplyOne(event: Event)
      modifies this
      ensures Get(connectionMap, event.id) == Store(old(Get(connectionMap, event.id)), event)
      ensures Dated(event) ==> OpenPart(connectionMap, event.id) == Show(old(OpenPart(connectionMap, event.id)), event)
      ensures forall x | x != event.id :: Get(connectionMap, x) == old(Get(connectionMap, x))
    {
      match event {
        case New(id, shown, closedAt) =>
          connectionMap := connectionMap[id := Entry(shown, ZERO, closedAt)];
        case Update(id, delta) =>
          if id in connectionMap {
            var conn := connectionMap[id];
            connectionMap := connectionMap[id := Entry(Plus(conn.total, delta), delta, conn.closedAt)];
          }
        case Closed(id, closedAt, connection) =>
          if connection.Some? {
            connectionMap := connectionMap[id := Entry(connection.value, ZERO, closedAt)];
          } else if id in connectionMap {
            connectionMap := connectionMap[id := Entry(connectionMap[id].total, ZERO, closedAt)];
          }
      }
    }

    /** One more event of a message. */
    method ApplyNext(event: Event, ghost before: map<Id, Entry>, ghost done: seq<Event>)
      modifies this
      ensures Recorded(before, done, old(connectionMap)) ==> Recorded(before, done + [event], connectionMap)
      ensures Dated(event) && Replayed(before, done, old(connectionMap)) ==> Replayed(before, done + [event], connectionMap)
    {
      hide Replayed, Recorded, Show, Store;
      ghost var view := connectionMap;
      ApplyOne(event);
      if Recorded(before, done, view) {
        RecordedNext(before, done, view, event, connectionMap);
      }
      if Dated(event) && Replayed(before, done, view) {
        ReplayedNext(before, done, view, event, connectionMap);
      }
    }

    /** Replays one message, then drops connections that have been closed for long. */
    method ApplyEvents(reset: bool, events: seq<Event>, now: int)
      modifies this
      ensures (forall e | e in events :: Dated(e)) ==> Replayed(if reset then map[] else old(connectionMap), events, connectionMap)
      ensures var before := if reset then map[] else old(connectionMap);
        forall x :: Get(connectionMap, x) == Retained(StoreAll(Get(before, x), Of(EventId, events, x)), now)
      ensures forall x | x in connectionMap && connectionMap[x].closedAt != 0 :: now - connectionMap[x].closedAt <= CLOSED_MAX_AGE
    {
      if reset {
        connectionMap := map[];
      }
      hide Replayed, Recorded, Show, Store, Retained, OpenPart;
      ghost var before := connectionMap;
      NothingRecorded(before);
      ReplayedNothing(before);
      assert events[..0] == [];
      for i := 0 to |events|
        invariant Recorded(before, events[..i], connectionMap)
        invariant (forall e | e in events :: Dated(e)) ==> Replayed(before, events[..i], connectionMap)
      {
        ApplyNext(events[i], before, events[..i]);
        assert events[..i + 1] == events[..i] + [events[i]];
      }
      assert events[..|events|] == events;
      ghost var recorded := connectionMap;
      EvictClosedConnections(now);
      EvictionRetains(before, events, recorded, connectionMap, now);
      if forall e | e in events :: Dated(e) {
        EvictionReplays(before, events, recorded, connectionMap);
      }
    }

    method EvictClosedConnections(now: int)
      modifies this
      ensures forall x :: OpenPart(connectionMap, x) == old(OpenPart(connectionMap, x))
      ensures forall x | x in connectionMap :: x in old(connectionMap) && connectionMap[x] == old(connectionMap)[x]
      ensures forall x | x in old(connectionMap) ::
        x in connectionMap <==> old(connectionMap)[x].closedAt == 0 || now - old(connectionMap)[x].closedAt <= CLOSED_MAX_AGE
    {
      var pending := connectionMap.Keys;
      while pending != {}
        invariant forall x | x in connectionMap :: x in old(connectionMap) && connectionMap[x] == old(connectionMap)[x]
        invariant pending <= connectionMap.Keys
        invariant forall x | x in old(connectionMap) && x !in pending ::
          x in connectionMap <==> old(connectionMap)[x].closedAt == 0 || now - old(connectionMap)[x].closedAt <= CLOSED_MAX_AGE
      {
        var id :| id in pending;
        if connectionMap[id].closedAt != 0 && now - connectionMap[id].closedAt > CLOSED_MAX_AGE {
          connectionMap := connectionMap - {id};
        }
        pending := pending - {id};
      }
    }
  }

  // ----- Runs -----

  /** The reset message's inputs, then one input for each later message. */
  datatype Start = Start(open: seq<Conn>, closed: seq<Done>)

  /** One id after a run: the server's snapshot, what the client holds open, and every event sent about the id. */
  datatype Track = Track(snap: Option<Snapshot>, entry: Option<Entry>, events: seq<Event>)

  function After(start: Start, inputs: seq<Input>, x: Id): Track {
    if inputs == [] then
      var (snap, events) := InitialFor(start.open, start.closed, x);
      Track(snap, ShowAll(None, events), events)
    else
      var t := After(start, inputs[..|inputs| - 1], x);
      var (snap, events) := ServeFor(inputs[|inputs| - 1], x, t.snap);
      Track(snap, ShowAll(t.entry, events), t.events + events)
  }

  /** Both sides of a run, over all ids. */
  ghost predicate Together(start: Start, inputs: seq<Input>, snapshots: Snapshots, view: map<Id, Entry>) {
    forall x :: Get(snapshots, x) == After(start, inputs, x).snap && OpenPart(view, x) == After(start, inputs, x).entry
  }

  lemma TogetherAtReset(start: Start, snapshots: Snapshots, events: seq<Event>, view: map<Id, Entry>)
    requires Announced(start.open, start.closed, snapshots, events)
    requires Replayed(map[], events, view)
    ensures Together(start, [], snapshots, view)
  {
    forall x ensures Get(snapshots, x) == After(start, [], x).snap && OpenPart(view, x) == After(start, [], x).entry {
      hide InitialFor, ShowAll, Of;
      assert (Get(snapshots, x), Of(EventId, events, x)) == InitialFor(start.open, start.closed, x);
      assert OpenPart(map[], x).None?;
    }
  }

  lemma TogetherNext(start: Start, inputs: seq<Input>, snapshots: Snapshots, view: map<Id, Entry>, input: Input,
                     snapshots': Snapshots, events: seq<Event>, view': map<Id, Entry>)
    requires Together(start, inputs, snapshots, view)
    requires forall x :: (Get(snapshots', x), Of(EventId, events, x)) == ServeFor(input, x, Get(snapshots, x))
    requires Replayed(view, events, view')
    ensures Together(start, inputs + [input], snapshots', view')
  {
    assert (inputs + [input])[..|inputs|] == inputs;
    forall x ensures Get(snapshots', x) == After(start, inputs + [input], x).snap
             ensures OpenPart(view', x) == After(start, inputs + [input], x).entry
    {
      hide ServeFor, ShowAll, Of;
      assert Get(snapshots, x) == After(start, inputs, x).snap && OpenPart(view, x) == After(start, inputs, x).entry;
      assert (Get(snapshots', x), Of(EventId, events, x)) == ServeFor(input, x, Get(snapshots, x));
    }
  }

  /** No clock reads the instant that the client takes for "open". */
  ghost predicate DatedInput(input: Input) {
    match input
    case Batch(notes) => forall n | n in notes && n.Left? :: n.eventTime != Some(0) && n.metadataTime != Some(0) && n.clock != 0
    case Tick(_, closed, clock) => (forall d | d in closed :: d.closedAt != Some(0)) && (forall x :: clock(x) != 0)
  }

  lemma {:induction false} NoticesAreDated(s: Option<Snapshot>, ns: seq<Note>)
    requires DatedInput(Batch(ns))
    ensures forall e | e in NoticeAll(s, ns).1 :: Dated(e)
    decreases |ns|
  {
    if ns != [] {
      NoticesAreDated(s, ns[..|ns| - 1]);
    }
  }

  lemma {:induction false} VisitsAreDated(s: Option<Snapshot>, cs: seq<Conn>)
    ensures forall e | e in VisitAll(s, cs).1 :: Dated(e)
    decreases |cs|
  {
    if cs != [] {
      VisitsAreDated(s, cs[..|cs| - 1]);
    }
  }

  lemma ServedAreDated(input: Input, x: Id, s: Option<Snapshot>)
    requires DatedInput(input)
    ensures forall e | e in ServeFor(input, x, s).1 :: Dated(e)
  {
    match input
    case Batch(notes) => NoticesAreDated(s, Of(NoteId, notes, x));
    case Tick(open, _, _) => VisitsAreDated(s, Of(ConnId, open, x));
  }

  lemma {:induction false} OfContains(events: seq<Event>, e: Event)
    requires e in events
    ensures e in Of(EventId, events, e.id)
    decreases |events|
  {
    if e != events[|events| - 1] {
      OfContains(events[..|events| - 1], e);
    }
  }

  /** Server and client run together, message by message; a message without events is not sent. */
  method Subscribe(start: Start, inputs: seq<Input>, clientClock: nat -> int) returns (snapshots: Snapshots, view: map<Id, Entry>)
    requires forall input | input in inputs :: DatedInput(input)
    ensures Together(start, inputs, snapshots, view)
  {
    hide Together, After;
    var server := new Server();
    var client := new Client();
    var events := server.BuildInitialConnectionState(start.open, start.closed);
    client.ApplyEvents(true, events, clientClock(0));
    InitialAreDated(start, server.snapshots, events);
    TogetherAtReset(start, server.snapshots, events, client.connectionMap);
    assert inputs[..0] == [];
    for i := 0 to |inputs|
      invariant Together(start, inputs[..i], server.snapshots, client.connectionMap)
    {
      hide Replayed, ServeFor, DatedInput, Dated;
      ghost var snaps, shown := server.snapshots, client.connectionMap;
      events := server.Serve(inputs[i]);
      forall e | e in events ensures Dated(e) {
        OfContains(events, e);
        assert (Get(server.snapshots, e.id), Of(EventId, events, e.id)) == ServeFor(inputs[i], e.id, Get(snaps, e.id));
        ServedAreDated(inputs[i], e.id, Get(snaps, e.id));
      }
      if events != [] {
        client.ApplyEvents(false, events, clientClock(i + 1));
      } else {
        ReplayedNothing(shown);
      }
      TogetherNext(start, inputs[..i], snaps, shown, inputs[i], server.snapshots, events, client.connectionMap);
      assert inputs[..i + 1] == inputs[..i] + [inputs[i]];
    }
    assert inputs[..|inputs|] == inputs;
    return server.snapshots, client.connectionMap;
  }

  lemma {:induction false} AnnouncementsAreNew(cs: seq<Conn>)
    ensures forall e | e in Announce(cs) :: e.New? && e.closedAt == 0
    decreases |cs|
  {
    if cs != [] {
      AnnouncementsAreNew(cs[..|cs| - 1]);
    }
  }

  lemma {:induction false} ClosedAnnouncementsAreNew(ds: seq<Done>)
    ensures forall e | e in AnnounceClosed(ds) :: e.New?
    decreases |ds|
  {
    if ds != [] {
      ClosedAnnouncementsAreNew(ds[..|ds| - 1]);
    }
  }

  lemma InitialAreDated(start: Start, snapshots: Snapshots, events: seq<Event>)
    requires Announced(start.open, start.closed, snapshots, events)
    ensures forall e | e in events :: Dated(e)
  {
    forall e | e in events ensures e.New? {
      hide Of, Announce, AnnounceClosed;
      OfContains(events, e);
      AnnouncementsAreNew(Of(ConnId, start.open, e.id));
      ClosedAnnouncementsAreNew(Of(DoneId, start.closed, e.id));
      assert (Get(snapshots, e.id), Of(EventId, events, e.id)) == InitialFor(start.open, start.closed, e.id);
    }
  }

  lemma ReplayedNothing(view: map<Id, Entry>)
    ensures Replayed(view, [], view)
  {
  }

  // ----- What the lists promise -----

  /** The manager keeps open connections in a map keyed by id. */
  ghost predicate Distinct(open: seq<Conn>) {
    forall i, j | 0 <= i < j < |open| :: open[i].id != open[j].id
  }

  ghost predicate Disjoint(open: seq<Conn>, closed: seq<Done>) {
    forall c, d | c in open && d in closed :: c.id != d.id
  }

  ghost predicate ProperStart(start: Start) {
    && Distinct(start.open)
    && Disjoint(start.open, start.closed)
    && forall d | d in start.closed :: d.closedAt != Some(0)
  }

  ghost predicate DistinctTicks(inputs: seq<Input>) {
    forall input | input in inputs && input.Tick? :: Distinct(input.open)
  }

  lemma {:induction false} DistinctOf(open: seq<Conn>, x: Id)
    requires Distinct(open)
    ensures |Of(ConnId, open, x)| <= 1
    decreases |open|
  {
    if open != [] {
      var init := open[..|open| - 1];
      DistinctOf(init, x);
      assert Of(ConnId, init, x) != [] ==> Of(ConnId, init, x)[0] in init;
    }
  }

  // ----- Histories of one id -----

  /** What the client holds open once it has replayed these events. */
  function Held(events: seq<Event>): Option<Entry> { ShowAll(None, events) }

  /** NEW comes only for an id that is not open, UPDATE only for one that is. */
  predicate WellOrdered(events: seq<Event>) {
    forall i | 0 <= i < |events| ::
      && (events[i].New? ==> Held(events[..i]).None?)
      && (events[i].Update? ==> Held(events[..i]).Some?)
  }

  predicate NonNegative(events: seq<Event>) {
    forall e | e in events && e.Update? :: AtMost(ZERO, e.delta)
  }

  /** The last word on the id was a transfer. */
  predicate Hot(events: seq<Event>) {
    events != [] && events[|events| - 1].Update? && events[|events| - 1].delta != ZERO
  }

  /** The deltas since the last NEW. */
  function SumSince(events: seq<Event>): Traffic {
    if events == [] || !events[|events| - 1].Update? then ZERO
    else Plus(SumSince(events[..|events| - 1]), events[|events| - 1].delta)
  }

  /** The total the last NEW carried. */
  function ShownOf(events: seq<Event>): Traffic {
    if events == [] then ZERO
    else if events[|events| - 1].New? then events[|events| - 1].shown
    else ShownOf(events[..|events| - 1])
  }

  /** Server and client agree about an id, and its history makes sense. */
  predicate Good(s: Option<Snapshot>, events: seq<Event>) {
    && (Held(events).Some? <==> s.Some?)
    && WellOrdered(events)
    && NonNegative(events)
    && (Hot(events) <==> s.Some? && s.value.hadTraffic)
  }

  lemma GoodNext(s: Option<Snapshot>, events: seq<Event>, e: Event, s': Option<Snapshot>)
    requires Good(s, events)
    requires e.New? ==> s.None? && (s'.Some? <==> e.closedAt == 0) && (s'.Some? ==> !s'.value.hadTraffic)
    requires e.Update? ==> s.Some? && s'.Some? && AtMost(ZERO, e.delta) && (s'.value.hadTraffic <==> e.delta != ZERO)
    requires e.Closed? ==> s'.None?
    ensures Good(s', events + [e])
  {
    var all := events + [e];
    ShowAllSnoc(None, events, e);
    assert all[..|events|] == events;
    assert forall i | 0 <= i < |events| :: all[..i] == events[..i];
  }

  lemma GoodVisit(s: Option<Snapshot>, events: seq<Event>, c: Conn)
    requires Good(s, events)
    ensures Good(Some(Visit(s, c).0), events + Visit(s, c).1)
  {
    var (s', more) := Visit(s, c);
    if more == [] {
      assert events + more == events;
    } else {
      GoodNext(s, events, more[0], Some(s'));
    }
  }

  lemma GoodNotice(s: Option<Snapshot>, events: seq<Event>, n: Note)
    requires Good(s, events)
    ensures Good(Notice(s, n).0, events + Notice(s, n).1)
  {
    var (s', more) := Notice(s, n);
    if more == [] {
      assert events + more == events;
    } else {
      GoodNext(s, events, more[0], s');
    }
  }

  lemma {:induction false} GoodVisits(s: Option<Snapshot>, events: seq<Event>, cs: seq<Conn>)
    requires Good(s, events)
    ensures Good(VisitAll(s, cs).0, events + VisitAll(s, cs).1)
    decreases |cs|
  {
    hide Good, Visit;
    if cs == [] {
      assert events + [] == events;
    } else {
      var (s', more) := VisitAll(s, cs[..|cs| - 1]);
      GoodVisits(s, events, cs[..|cs| - 1]);
      GoodVisit(s', events + more, cs[|cs| - 1]);
      assert events + (more + Visit(s', cs[|cs| - 1]).1) == (events + more) + Visit(s', cs[|cs| - 1]).1;
    }
  }

  lemma {:induction false} GoodNotices(s: Option<Snapshot>, events: seq<Event>, ns: seq<Note>)
    requires Good(s, events)
    ensures Good(NoticeAll(s, ns).0, events + NoticeAll(s, ns).1)
    decreases |ns|
  {
    hide Good, Notice;
    if ns == [] {
      assert events + [] == events;
    } else {
      var (s', more) := NoticeAll(s, ns[..|ns| - 1]);
      GoodNotices(s, events, ns[..|ns| - 1]);
      GoodNotice(s', events + more, ns[|ns| - 1]);
      assert events + (more + Notice(s', ns[|ns| - 1]).1) == (events + more) + Notice(s', ns[|ns| - 1]).1;
    }
  }

  lemma GoodServe(s: Option<Snapshot>, events: seq<Event>, input: Input, x: Id)
    requires Good(s, events)
    ensures Good(ServeFor(input, x, s).0, events + ServeFor(input, x, s).1)
  {
    match input
    case Batch(notes) => GoodNotices(s, events, Of(NoteId, notes, x));
    case Tick(open, closed, clock) =>
      var cs := Of(ConnId, open, x);
      GoodVisits(s, events, cs);
      var (s', more) := VisitAll(s, cs);
      if cs == [] && s'.Some? {
        var e := ClosingEvent(x, LastOf(closed, x), clock(x));
        GoodNext(s', events + more, e, None);
        assert (events + more) + [e] == events + (more + [e]);
      }
  }

  lemma {:induction false} GoodClosedOnes(events: seq<Event>, ds: seq<Done>)
    requires Good(None, events)
    requires forall d | d in ds :: d.closedAt != Some(0)
    ensures Good(None, events + AnnounceClosed(ds))
    decreases |ds|
  {
    hide Good;
    if ds == [] {
      assert events + [] == events;
    } else {
      var d := ds[|ds| - 1];
      GoodClosedOnes(events, ds[..|ds| - 1]);
      var done, e := AnnounceClosed(ds[..|ds| - 1]), New(d.id, d.shown, Millis(d.closedAt));
      GoodNext(None, events + done, e, None);
      assert (events + done) + [e] == events + (done + [e]);
    }
  }

  lemma {:induction false} NoneClosed(closed: seq<Done>, x: Id)
    requires forall d | d in closed :: d.id != x
    ensures Of(DoneId, closed, x) == []
    decreases |closed|
  {
    if closed != [] {
      NoneClosed(closed[..|closed| - 1], x);
    }
  }

  lemma GoodStart(start: Start, x: Id)
    requires ProperStart(start)
    ensures Good(InitialFor(start.open, start.closed, x).0, InitialFor(start.open, start.closed, x).1)
  {
    var cs, ds := Of(ConnId, start.open, x), Of(DoneId, start.closed, x);
    DistinctOf(start.open, x);
    hide Of;
    assert cs != [] ==> cs[0] in start.open && cs[0].id == x;
    if cs == [] {
      GoodClosedOnes([], ds);
      assert Announce(cs) + AnnounceClosed(ds) == [] + AnnounceClosed(ds);
    } else {
      NoneClosed(start.closed, x);
      var e := New(cs[0].id, cs[0].shown, 0);
      GoodNext(None, [], e, Some(Snapshot(cs[0].sample, false)));
      assert Announce(cs) == [e] && Announce(cs) + AnnounceClosed(ds) == [] + [e];
    }
  }

  // ----- Every run -----

  lemma {:induction false} RunIsGood(start: Start, inputs: seq<Input>, x: Id)
    requires ProperStart(start)
    ensures var t := After(start, inputs, x); Good(t.snap, t.events) && t.entry == Held(t.events)
    decreases |inputs|
  {
    hide Good, ServeFor, InitialFor;
    if inputs == [] {
      GoodStart(start, x);
    } else {
      var t := After(start, inputs[..|inputs| - 1], x);
      var input := inputs[|inputs| - 1];
      RunIsGood(start, inputs[..|inputs| - 1], x);
      GoodServe(t.snap, t.events, input, x);
      ShowAllConcat(None, t.events, ServeFor(input, x, t.snap).1);
    }
  }

  /** After every message the client holds open exactly the ids in the server's snapshots. */
  lemma ClientMatchesSnapshots(start: Start, inputs: seq<Input>, snapshots: Snapshots, view: map<Id, Entry>)
    requires ProperStart(start)
    requires Together(start, inputs, snapshots, view)
    ensures (set x | x in view && view[x].closedAt == 0) == snapshots.Keys
  {
    forall x ensures x in snapshots <==> x in view && view[x].closedAt == 0 {
      hide After;
      RunIsGood(start, inputs, x);
      assert Get(snapshots, x) == After(start, inputs, x).snap;
    }
  }

  /** After every tick those are the manager's open connections. */
  lemma TickMatchesManager(start: Start, inputs: seq<Input>, snapshots: Snapshots, view: map<Id, Entry>)
    requires inputs != [] && inputs[|inputs| - 1].Tick?
    requires Together(start, inputs, snapshots, view)
    ensures snapshots.Keys == set c | c in inputs[|inputs| - 1].open :: c.id
  {
    var open := inputs[|inputs| - 1].open;
    forall x ensures x in snapshots <==> x in set c | c in open :: c.id {
      OfMember(open, x);
      assert Get(snapshots, x) == After(start, inputs, x).snap;
    }
  }

  /** Whatever the lists hold, the reset message leaves an id in step exactly when it is not listed as both open and
      closed. */
  lemma ResetInStepIff(start: Start, x: Id)
    requires forall d | d in start.closed :: d.closedAt != Some(0)
    ensures var t := After(start, [], x);
      (t.entry.Some? <==> t.snap.Some?) <==> !(Of(ConnId, start.open, x) != [] && Of(DoneId, start.closed, x) != [])
  {
    var cs, ds := Of(ConnId, start.open, x), Of(DoneId, start.closed, x);
    ShowAllConcat(None, Announce(cs), AnnounceClosed(ds));
    hide Of;
  }

  /** The mismatch heals: a tick that does not list the id as open forgets it, and tells the client if the server still
      had it, whatever the start lists were. */
  lemma TickHeals(start: Start, inputs: seq<Input>, x: Id)
    requires inputs != [] && inputs[|inputs| - 1].Tick?
    requires forall c | c in inputs[|inputs| - 1].open :: c.id != x
    ensures After(start, inputs, x).snap.None?
    ensures After(start, inputs[..|inputs| - 1], x).snap.Some? ==> After(start, inputs, x).entry.None?
  {
    hide ServeFor, ShowAll;
    var input, t := inputs[|inputs| - 1], After(start, inputs[..|inputs| - 1], x);
    var e := GoneAtTick(t.snap, input, x);
    if t.snap.Some? {
      LoneShow(t.entry, e);
    }
  }

  lemma GoneAtTick(s: Option<Snapshot>, input: Input, x: Id) returns (e: Event)
    requires input.Tick? && forall c | c in input.open :: c.id != x
    ensures e.Closed? && ServeFor(input, x, s) == (None, if s.Some? then [e] else [])
  {
    OfMember(input.open, x);
    hide Of, LastOf;
    e := ClosingEvent(x, LastOf(input.closed, x), input.clock(x));
    assert VisitAll(s, []) == (s, []) && [] + [e] == [e];
  }

  /** One id in both lists, as when it is closed between the two reads: the server keeps a snapshot, the client holds it
      closed. */
  lemma ResetOutOfStepExample() returns (start: Start)
    ensures After(start, [], 1).snap.Some? && After(start, [], 1).entry.None?
  {
    var c, d := Conn(1, ZERO, ZERO), Done(1, ZERO, Some(5));
    start := Start([c], [d]);
    ListedOnce(c, d);
    ResetInStepIff(start, 1);
    hide Of, ShowAll, Announce, AnnounceClosed;
  }

  lemma ListedOnce(c: Conn, d: Done)
    ensures Of(ConnId, [c], c.id) == [c] && Of(DoneId, [d], d.id) == [d]
  {
    OfOwn(ConnId, [c], c.id, c.id);
    OfOwn(DoneId, [d], d.id, d.id);
  }

  /** No id that is open gets a second NEW before a CLOSED, no UPDATE is about an id that is not open, and no delta is
      negative. */
  lemma EventsAreWellOrdered(start: Start, inputs: seq<Input>, x: Id)
    requires ProperStart(start)
    ensures WellOrdered(After(start, inputs, x).events) && NonNegative(After(start, inputs, x).events)
  {
    RunIsGood(start, inputs, x);
  }

  /** The server's flag says exactly that the last word on the id was a transfer. */
  lemma {:induction false} HotIsLastTick(start: Start, inputs: seq<Input>, x: Id)
    requires DistinctTicks(inputs)
    ensures var t := After(start, inputs, x);
      t.snap.Some? && t.snap.value.hadTraffic ==> Hot(LastTick(start, inputs, x)) && |LastTick(start, inputs, x)| == 1
    decreases |inputs|
  {
    if inputs != [] {
      var before, input := inputs[..|inputs| - 1], inputs[|inputs| - 1];
      var t := After(start, before, x);
      HotIsLastTick(start, before, x);
      match input
      case Batch(notes) =>
        BatchShape(t.snap, Of(NoteId, notes, x));
      case Tick(open, closed, clock) =>
        TickShape(t.snap, input, x);
    }
  }

  /** What the latest tick said about the id; nothing before the first tick. */
  function LastTick(start: Start, inputs: seq<Input>, x: Id): seq<Event> {
    if inputs == [] then []
    else
      var before, input := inputs[..|inputs| - 1], inputs[|inputs| - 1];
      if input.Batch? then LastTick(start, before, x) else ServeFor(input, x, After(start, before, x).snap).1
  }

  /** A batch leaves an id alone, or last announces it, or last closes it. */
  lemma {:induction false} BatchShape(s: Option<Snapshot>, ns: seq<Note>)
    ensures var (s', events) := NoticeAll(s, ns);
      || (s' == s && events == [])
      || (s'.Some? && !s'.value.hadTraffic && Announces(events) && exists n | n in ns && n.Appeared? :: n.sample == s'.value.total)
      || (s'.None? && events != [] && events[|events| - 1].Closed?)
    decreases |ns|
  {
    if ns != [] {
      BatchShape(s, ns[..|ns| - 1]);
      assert ns[|ns| - 1] in ns;
    }
  }

  predicate Announces(events: seq<Event>) {
    events != [] && events[|events| - 1].New?
  }

  /** A tick sends one event about an id, or none when an open id has stayed silent. */
  lemma TickShape(s: Option<Snapshot>, input: Input, x: Id)
    requires input.Tick? && Distinct(input.open)
    ensures var (s', events) := ServeFor(input, x, s);
      var cs := Of(ConnId, input.open, x);
      && |cs| <= 1
      && (cs == [] ==> s'.None? && |events| == (if s.Some? then 1 else 0) && (s.Some? ==> events[0].Closed?))
      && (cs != [] ==> (s', events) == (Some(Visit(s, cs[0]).0), Visit(s, cs[0]).1))
  {
    DistinctOf(input.open, x);
    var cs := Of(ConnId, input.open, x);
    if cs != [] {
      assert cs[..|cs| - 1] == [];
      assert VisitAll(s, []) == (s, []);
      assert [] + Visit(s, cs[0]).1 == Visit(s, cs[0]).1;
    }
  }

  /** A zero-delta UPDATE is sent only directly after a tick whose event about the id was a transfer; and after such a
      tick the next one is never silent about the id. */
  lemma ZeroOnlyAfterTransfer(start: Start, inputs: seq<Input>, x: Id)
    requires ProperStart(start) && DistinctTicks(inputs)
    requires inputs != [] && inputs[|inputs| - 1].Tick?
    ensures var before := inputs[..|inputs| - 1];
      var sent := ServeFor(inputs[|inputs| - 1], x, After(start, before, x).snap).1;
      && ((exists e | e in sent :: e.Update? && e.delta == ZERO) ==>
            Hot(LastTick(start, before, x)) && |LastTick(start, before, x)| == 1 && Hot(After(start, before, x).events))
      && (Hot(After(start, before, x).events) ==> sent != [])
  {
    hide After, LastTick, ServeFor, Of, WellOrdered, NonNegative, Held;
    var before, input := inputs[..|inputs| - 1], inputs[|inputs| - 1];
    HotIsLastTick(start, before, x);
    RunIsGood(start, before, x);
    TickShape(After(start, before, x).snap, input, x);
  }

  // ----- The ledger -----

  function ReadingsIn(input: Input, x: Id): set<Traffic> {
    match input
    case Batch(notes) => set n | n in notes && n.Appeared? && n.id == x :: n.sample
    case Tick(open, _, _) => set c | c in open && c.id == x :: c.sample
  }

  /** Every value of the id's counters that the server has loaded for a snapshot. */
  function Readings(start: Start, inputs: seq<Input>, x: Id): set<Traffic> {
    if inputs == [] then set c | c in start.open && c.id == x :: c.sample
    else Readings(start, inputs[..|inputs| - 1], x) + ReadingsIn(inputs[|inputs| - 1], x)
  }

  /** The id's counters never go down. */
  ghost predicate NeverDecreases(start: Start, inputs: seq<Input>, x: Id) {
    inputs == [] ||
    (&& NeverDecreases(start, inputs[..|inputs| - 1], x)
     && forall a, b | a in Readings(start, inputs[..|inputs| - 1], x) && b in ReadingsIn(inputs[|inputs| - 1], x) :: AtMost(a, b))
  }

  /** The counters stored when the id was last announced. */
  function Baseline(start: Start, inputs: seq<Input>, x: Id): Traffic {
    var t := After(start, inputs, x);
    if t.snap.None? then ZERO
    else if inputs == [] then t.snap.value.total
    else
      var before := inputs[..|inputs| - 1];
      if Announces(ServeFor(inputs[|inputs| - 1], x, After(start, before, x).snap).1) then t.snap.value.total
      else Baseline(start, before, x)
  }

  lemma StoresWhatItReads(s: Option<Snapshot>, input: Input, x: Id)
    requires input.Tick? ==> Distinct(input.open)
    ensures var s' := ServeFor(input, x, s).0; s' == s || s'.None? || s'.value.total in ReadingsIn(input, x)
  {
    match input
    case Batch(notes) =>
      BatchShape(s, Of(NoteId, notes, x));
      hide Of, NoticeAll;
    case Tick(open, closed, clock) =>
      TickShape(s, input, x);
      var cs := Of(ConnId, open, x);
      assert cs != [] ==> cs[0] in cs;
      hide Of, ServeFor;
  }

  /** A snapshot holds a value that was read. */
  lemma {:induction false} SnapshotWasRead(start: Start, inputs: seq<Input>, x: Id)
    requires DistinctTicks(inputs)
    ensures var t := After(start, inputs, x); t.snap.Some? ==> t.snap.value.total in Readings(start, inputs, x)
    decreases |inputs|
  {
    if inputs == [] {
      var cs := Of(ConnId, start.open, x);
      assert cs != [] ==> cs[|cs| - 1] in cs;
    } else {
      hide ServeFor, ReadingsIn, Distinct;
      var before, input := inputs[..|inputs| - 1], inputs[|inputs| - 1];
      SnapshotWasRead(start, before, x);
      StoresWhatItReads(After(start, before, x).snap, input, x);
    }
  }

  lemma SumSinceAppend(events: seq<Event>, sent: seq<Event>)
    ensures sent == [] ==> SumSince(events + sent) == SumSince(events)
    ensures Announces(sent) ==> SumSince(events + sent) == ZERO
    ensures |sent| == 1 && sent[0].Update? ==> SumSince(events + sent) == Plus(SumSince(events), sent[0].delta)
  {
    if sent == [] {
      assert events + sent == events;
    } else if |sent| == 1 {
      assert (events + sent)[..|events|] == events;
    }
  }

  lemma StartHasNoUpdates(start: Start, x: Id)
    ensures SumSince(InitialFor(start.open, start.closed, x).1) == ZERO
  {
    var cs, ds := Of(ConnId, start.open, x), Of(DoneId, start.closed, x);
    AnnouncementsAreNew(cs);
    ClosedAnnouncementsAreNew(ds);
    hide Of, Announce, AnnounceClosed;
    var events := InitialFor(start.open, start.closed, x).1;
    assert events == [] || events[|events| - 1] in events;
  }

  predicate Balanced(s: Option<Snapshot>, base: Traffic, events: seq<Event>) {
    s.Some? ==> Plus(base, SumSince(events)) == s.value.total
  }

  /** One visit keeps the books, if what it reads is not below what is stored. */
  lemma VisitBalances(s: Option<Snapshot>, events: seq<Event>, base: Traffic, c: Conn)
    requires Balanced(s, base, events)
    requires s.Some? ==> AtMost(s.value.total, c.sample)
    ensures var (s', sent) := Visit(s, c); Balanced(Some(s'), if Announces(sent) then s'.total else base, events + sent)
  {
    SumSinceAppend(events, Visit(s, c).1);
    hide SumSince;
  }

  lemma BatchBalances(s: Option<Snapshot>, events: seq<Event>, base: Traffic, ns: seq<Note>)
    requires Balanced(s, base, events)
    ensures var (s', sent) := NoticeAll(s, ns);
      s'.Some? ==> Balanced(s', if Announces(sent) then s'.value.total else base, events + sent)
  {
    BatchShape(s, ns);
    SumSinceAppend(events, NoticeAll(s, ns).1);
    hide SumSince, NoticeAll;
  }

  lemma LedgerStep(s: Option<Snapshot>, events: seq<Event>, base: Traffic, input: Input, x: Id)
    requires input.Tick? ==> Distinct(input.open)
    requires Balanced(s, base, events)
    requires s.Some? ==> forall b | b in ReadingsIn(input, x) :: AtMost(s.value.total, b)
    ensures var (s', sent) := ServeFor(input, x, s);
      s'.Some? ==> Balanced(s', if Announces(sent) then s'.value.total else base, events + sent)
  {
    hide Balanced;
    match input
    case Batch(notes) =>
      BatchBalances(s, events, base, Of(NoteId, notes, x));
    case Tick(open, closed, clock) =>
      TickShape(s, input, x);
      var cs := Of(ConnId, open, x);
      if cs != [] {
        assert cs[0] in cs && cs[0].sample in ReadingsIn(input, x);
        VisitBalances(s, events, base, cs[0]);
      }
      hide Of, ServeFor, Visit;
  }

  /** Between NEW and CLOSED, for counters that never go down, the baseline plus all the deltas sent is the counter as
      the server last stored it. */
  lemma {:induction false} LedgerBalances(start: Start, inputs: seq<Input>, x: Id)
    requires ProperStart(start) && DistinctTicks(inputs)
    requires NeverDecreases(start, inputs, x)
    ensures var t := After(start, inputs, x);
      Balanced(t.snap, Baseline(start, inputs, x), t.events)
    decreases |inputs|
  {
    if inputs == [] {
      StartHasNoUpdates(start, x);
    } else {
      var before, input := inputs[..|inputs| - 1], inputs[|inputs| - 1];
      var t := After(start, before, x);
      LedgerBalances(start, before, x);
      SnapshotWasRead(start, before, x);
      hide ServeFor, SumSince, ReadingsIn;
      LedgerStep(t.snap, t.events, Baseline(start, before, x), input, x);
    }
  }

  lemma TickStores(s: Option<Snapshot>, input: Input, x: Id, c: Conn)
    requires input.Tick? && Distinct(input.open) && c in input.open && c.id == x
    ensures var s' := ServeFor(input, x, s).0; s'.Some? && s'.value.total == c.sample
  {
    TickShape(s, input, x);
    OfMember(input.open, x);
    var cs := Of(ConnId, input.open, x);
    assert cs[0] in cs && cs[0] in input.open && cs[0].id == x;
    hide Of, ServeFor;
    var i :| 0 <= i < |input.open| && input.open[i] == c;
    var j :| 0 <= j < |input.open| && input.open[j] == cs[0];
    assert i == j;
  }

  lemma BatchTells(s: Option<Snapshot>, input: Input, x: Id)
    requires input.Batch?
    ensures ServeFor(input, x, s).0 == s || ServeFor(input, x, s).1 != []
  {
    BatchShape(s, Of(NoteId, input.notes, x));
    hide Of, NoticeAll;
  }

  /** A tick stores what it read, and a batch that says nothing about an id leaves what was stored. */
  lemma StoredIsLatest(start: Start, inputs: seq<Input>, x: Id)
    requires DistinctTicks(inputs) && inputs != []
    ensures var input, before := inputs[|inputs| - 1], After(start, inputs[..|inputs| - 1], x);
      var t := After(start, inputs, x);
      && (input.Tick? ==> forall c | c in input.open && c.id == x :: t.snap.Some? && t.snap.value.total == c.sample)
      && (input.Batch? ==> t.snap == before.snap || t.events != before.events)
  {
    hide ServeFor, Distinct;
    var input, before := inputs[|inputs| - 1], After(start, inputs[..|inputs| - 1], x);
    if input.Batch? {
      BatchTells(before.snap, input, x);
    } else {
      forall c | c in input.open && c.id == x
        ensures var s' := ServeFor(input, x, before.snap).0; s'.Some? && s'.value.total == c.sample
      {
        TickStores(before.snap, input, x, c);
      }
    }
  }

  /** What the client shows is what the last NEW carried plus the deltas since. */
  lemma {:induction false} HeldTotal(events: seq<Event>)
    ensures Held(events).Some? ==> Held(events).value.total == Plus(ShownOf(events), SumSince(events))
    decreases |events|
  {
    if events != [] {
      HeldTotal(events[..|events| - 1]);
    }
  }

  /** The client's total is off by the difference between the two loads made when the id was announced, for as long as
      the connection stays open; so it is right exactly when those loads agreed. */
  lemma ClientTotal(start: Start, inputs: seq<Input>, x: Id)
    requires ProperStart(start) && DistinctTicks(inputs)
    requires NeverDecreases(start, inputs, x)
    requires After(start, inputs, x).snap.Some?
    ensures var t := After(start, inputs, x);
      && t.entry.Some?
      && Minus(t.entry.value.total, t.snap.value.total) == Minus(ShownOf(t.events), Baseline(start, inputs, x))
      && (t.entry.value.total == t.snap.value.total <==> ShownOf(t.events) == Baseline(start, inputs, x))
  {
    hide After, Baseline, ShownOf, SumSince, NeverDecreases, WellOrdered, NonNegative, Hot, ShowAll, ProperStart, DistinctTicks;
    RunIsGood(start, inputs, x);
    LedgerBalances(start, inputs, x);
    HeldTotal(After(start, inputs, x).events);
  }

  lemma NoOneAnnounced(x: Id)
    ensures InitialFor([], [], x) == (None, [])
  {
    var none: seq<Event> := [];
    assert none + none == none;
  }

  /** Whenever an id is announced, the server stores the counters as it loads them for the snapshot and the client gets
      them as loaded for the message. */
  lemma AnnouncementTakesBothLoads(s: Option<Snapshot>, c: Conn, n: Note)
    requires s.None? && n.Appeared?
    ensures Visit(s, c) == (Snapshot(c.sample, false), [New(c.id, c.shown, 0)])
    ensures Notice(s, n) == (Some(Snapshot(n.sample, false)), [New(n.id, n.shown, 0)])
    ensures InitialFor([c], [], c.id) == (Some(Snapshot(c.sample, false)), [New(c.id, c.shown, 0)])
    ensures ShowAll(None, Visit(s, c).1) == Some(Entry(c.shown, ZERO, 0)) && ShowAll(None, Notice(s, n).1) == Some(Entry(n.shown, ZERO, 0))
  {
    LoneAnnouncement(c);
    hide InitialFor;
    LoneShow(None, New(c.id, c.shown, 0));
    LoneShow(None, New(n.id, n.shown, 0));
  }

  /** Closed connections are shown for five minutes, in milliseconds. */
  lemma FiveMinutes(v: Entry, now: int)
    ensures Retained(Some(v), now).None? <==> v.closedAt != 0 && now - v.closedAt > 300_000
  {
  }

  /** The two loads can disagree: here bytes counted between them never reach the client. */
  lemma ClientTotalCanDrift() returns (start: Start)
    ensures ProperStart(start)
    ensures var t := After(start, [], 1);
      t.snap.Some? && t.entry.Some? && t.entry.value.total != t.snap.value.total
  {
    hide InitialFor, Of, ShowAll;
    var c := Conn(1, Traffic(5, 0), Traffic(3, 0));
    start := Start([c], []);
    LoneAnnouncement(c);
    LoneShow(None, New(1, c.shown, 0));
  }

  lemma LoneAnnouncement(c: Conn)
    ensures InitialFor([c], [], c.id) == (Some(Snapshot(c.sample, false)), [New(c.id, c.shown, 0)])
  {
    hide InitialFor;
    NoOneAnnounced(c.id);
    InitialForNext([], c, c.id);
    assert [] + [c] == [c];
    assert [] + [New(c.id, c.shown, 0)] == [New(c.id, c.shown, 0)];
  }

  lemma LoneShow(v: Option<Entry>, e: Event)
    ensures ShowAll(v, [e]) == Show(v, e)
  {
    assert [e][..0] == [];
  }
}
