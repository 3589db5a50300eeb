/** The receiving side of a kTLS connection with kernel RX: records arrive whole from the kernel, application data is
    handed out through `Input`, and post-handshake messages are reassembled in `Hand`.

    The kernel writes every record into the one `RawInput` buffer, and `Input` is a window on that buffer, not a
    copy; a record read while `Input` is not drained would overwrite it. */
module KtlsRead {
  import opened Common

  datatype Record = Record(typ: Byte, data: seq<Byte>)

  datatype Error =
    | Eof                       // close_notify, or the kernel has nothing more
    | LocalAlert(code: Byte)    // we sent this alert
    | RemoteAlert(code: Byte)
    | TooLong                   // handshake message longer than maxHandshake
    | Renegotiation             // TLS 1.2
    | Rekey                     // a key update could not be carried out

  const CHANGE_CIPHER_SPEC: Byte := 20
  const ALERT: Byte := 21
  const HANDSHAKE: Byte := 22
  const APPLICATION_DATA: Byte := 23

  const CLOSE_NOTIFY: Byte := 0
  const UNEXPECTED_MESSAGE: Byte := 10
  const RECORD_OVERFLOW: Byte := 22
  const DECODE_ERROR: Byte := 50
  const USER_CANCELED: Byte := 90

  const NEW_SESSION_TICKET: Byte := 4
  const KEY_UPDATE: Byte := 24

  const MAX_PLAINTEXT: nat := 16384
  const MAX_HANDSHAKE: nat := 65536

  /** The receiving keys or the sending keys can fail to change; only the former poisons the reading side. */
  datatype Rekeying = Rekeyed | RxFailed | TxFailed

  /** What the code around the record layer decides: the protocol version, whether a ticket message parses, and
      how changing the keys on a given key update goes. */
  datatype Env = Env(tls13: bool, ticketParses: seq<Byte> -> bool, rekey: seq<Byte> -> Rekeying)

  datatype Conn = Conn(
    records: seq<Record>,       // what the kernel still has
    raw: seq<Byte>,             // RawInput's memory
    from: nat, to: nat,         // Input is raw[from..to]
    hand: seq<Byte>,
    sticky: Option<Error>       // In.Err
  )

  ghost predicate Valid(c: Conn) {
    c.from <= c.to <= |c.raw|
  }

  predicate Drained(c: Conn) {
    c.from == c.to
  }

  function Pending(c: Conn): seq<Byte>
    requires Valid(c)
  {
    c.raw[c.from..c.to]
  }

  // ----- readRecord -----

  /** recvmsg stores a record at the start of the buffer. */
  function Overwrite(raw: seq<Byte>, data: seq<Byte>): seq<Byte> {
    if |raw| <= |data| then data else data + raw[|data|..]
  }

  /** SetErrorLocked. */
  function Fail(c: Conn, e: Error): (Conn, Option<Error>) {
    (c.(sticky := Some(e)), Some(e))
  }

  /** The verdict on one record: drop it and read another, fail, take it as input, or take it as handshake bytes. */
  datatype Verdict = Retry | Refuse(e: Error) | TakeInput | TakeHand

  function Judge(tls13: bool, handPending: bool, r: Record): Verdict {
    if |r.data| > MAX_PLAINTEXT then Refuse(LocalAlert(RECORD_OVERFLOW))
    else if tls13 && r.typ != HANDSHAKE && handPending then Refuse(LocalAlert(UNEXPECTED_MESSAGE))
    else if r.typ == ALERT then
      if |r.data| != 2 then Refuse(LocalAlert(UNEXPECTED_MESSAGE))
      else if r.data[1] == CLOSE_NOTIFY then Refuse(Eof)
      else if tls13 then if r.data[1] == USER_CANCELED then Retry else Refuse(RemoteAlert(r.data[1]))
      else if r.data[0] == 1 then Retry
      else if r.data[0] == 2 then Refuse(RemoteAlert(r.data[1]))
      else Refuse(LocalAlert(UNEXPECTED_MESSAGE))
    else if r.typ == CHANGE_CIPHER_SPEC then
      if r.data != [1] then Refuse(LocalAlert(DECODE_ERROR))
      else if handPending then Refuse(LocalAlert(UNEXPECTED_MESSAGE))
      else if tls13 then Retry
      else Refuse(LocalAlert(UNEXPECTED_MESSAGE))
    else if r.typ == APPLICATION_DATA then TakeInput
    else if r.typ == HANDSHAKE then TakeHand
    else Refuse(LocalAlert(UNEXPECTED_MESSAGE))
  }

  /** readRecord with its retries.  A record without payload reads as end of file.  It may only be called once
      `Input` is drained: that is the precondition every call site has to meet. */
  function ReadRecord(tls13: bool, c: Conn): (r: (Conn, Option<Error>))
    requires Valid(c) && Drained(c)
    ensures Valid(r.0) && |r.0.records| <= |c.records|
    ensures r.1.Some? ==> Drained(r.0)
    ensures r.1.None? ==> |r.0.records| < |c.records|
    ensures r.1.None? && tls13 && r.0.hand != [] ==> Drained(r.0)
    ensures r.1.None? && tls13 && c.hand != [] ==> |r.0.hand| > |c.hand|
    decreases |c.records|
  {
    if c.sticky.Some? then (c, c.sticky)
    else if c.records == [] then Fail(c, Eof)
    else
      var record := c.records[0];
      var next := c.(records := c.records[1..], raw := Overwrite(c.raw, record.data));
      if record.data == [] then Fail(next, Eof)
      else match Judge(tls13, c.hand != [], record)
        case Retry => ReadRecord(tls13, next)
        case Refuse(e) => Fail(next, e)
        case TakeInput => (next.(from := 0, to := |record.data|), None)
        case TakeHand => (next.(hand := c.hand + record.data), None)
  }

  // ----- Handshake messages -----

  /** Length of the message at the front of `h`, header included. */
  function MessageLength(h: seq<Byte>): nat
    requires |h| >= 4
  {
    4 + (h[1] as int) * 65536 + (h[2] as int) * 256 + h[3] as int
  }

  predicate Complete(h: seq<Byte>) {
    |h| >= 4 && |h| >= MessageLength(h)
  }

  /** readHandshakeBytes, in TLS 1.3 and with a message begun. */
  function FillHand(c: Conn, n: nat): (r: (Conn, Option<Error>))
    requires Valid(c) && Drained(c) && c.hand != []
    ensures Valid(r.0) && Drained(r.0) && |r.0.records| <= |c.records|
    ensures r.1.None? ==> |r.0.hand| >= n && r.0.hand != []
    ensures |c.hand| >= n ==> r == (c, None)
    ensures r.1.None? && |c.hand| < n ==> |r.0.records| < |c.records|
    decreases |c.records|
  {
    if |c.hand| >= n then (c, None)
    else
      var (c', e) := ReadRecord(true, c);
      if e.Some? then (c', e) else FillHand(c', n)
  }

  datatype Handled = Done | Poisoned(e: Error) | Passed(e: Error)

  /** What unmarshalling and acting on a message comes to: success, an error that sticks to the reading side, or one
      that is only reported. */
  function Handle(env: Env, message: seq<Byte>): Handled
    requires |message| >= 4
  {
    if message[0] == NEW_SESSION_TICKET then
      if env.ticketParses(message) then Done else Poisoned(LocalAlert(DECODE_ERROR))
    else if message[0] == KEY_UPDATE then
      if |message| != 5 || message[4] > 1 then Poisoned(LocalAlert(DECODE_ERROR))
      else match env.rekey(message)
        case Rekeyed => Done
        case RxFailed => Poisoned(Rekey)
        case TxFailed => if message[4] == 1 then Passed(Rekey) else Done
    else Poisoned(LocalAlert(UNEXPECTED_MESSAGE))
  }

  /** handlePostHandshakeMessage: take one message off the front of `Hand`, reading more records if it is not all
      there, and act on it. */
  function HandleMessage(env: Env, c: Conn): (r: (Conn, Option<Error>))
    requires Valid(c) && c.hand != [] && (env.tls13 ==> Drained(c))
    ensures Valid(r.0) && |r.0.records| <= |c.records|
    ensures env.tls13 ==> Drained(r.0)
    ensures r.1.None? ==> env.tls13 && (|r.0.records| < |c.records| || |r.0.hand| < |c.hand|)
  {
    if !env.tls13 then (c, Some(Renegotiation))
    else
      var (c1, e1) := FillHand(c, 4);
      if e1.Some? then (c1, e1)
      else
        var n := MessageLength(c1.hand);
        if n - 4 > MAX_HANDSHAKE then Fail(c1, TooLong)
        else
          var (c2, e2) := FillHand(c1, n);
          if e2.Some? then (c2, e2)
          else
            var c3 := c2.(hand := c2.hand[n..]);
            match Handle(env, c2.hand[..n])
            case Done => (c3, None)
            case Poisoned(e) => Fail(c3, e)
            case Passed(e) => (c3, Some(e))
  }

  /** The inner loop of Read. */
  function DrainHand(env: Env, c: Conn): (r: (Conn, Option<Error>))
    requires Valid(c) && (env.tls13 && c.hand != [] ==> Drained(c))
    ensures Valid(r.0) && |r.0.records| <= |c.records|
    ensures r.1.None? ==> r.0.hand == []
    ensures c.hand == [] ==> r == (c, None)
    decreases |c.records|, |c.hand|
  {
    if c.hand == [] then (c, None)
    else
      var (c', e) := HandleMessage(env, c);
      if e.Some? then (c', e) else DrainHand(env, c')
  }

  /** The outer loop of Read: until there is input. */
  function FillInput(env: Env, c: Conn): (r: (Conn, Option<Error>))
    requires Valid(c)
    ensures Valid(r.0) && (r.1.None? ==> !Drained(r.0))
    decreases |c.records|
  {
    if !Drained(c) then (c, None)
    else
      var (c1, e1) := ReadRecord(env.tls13, c);
      if e1.Some? then (c1, e1)
      else
        var (c2, e2) := DrainHand(env, c1);
        if e2.Some? then (c2, e2) else FillInput(env, c2)
  }

  datatype ReadResult = Bytes(out: seq<Byte>) | ReadError(e: Error)

  /** Read into a buffer of `size` bytes. */
  function Read(env: Env, c: Conn, size: nat): (r: (Conn, ReadResult))
    requires Valid(c)
    ensures Valid(r.0)
  {
    if size == 0 then (c, Bytes([]))
    else
      var (c', e) := FillInput(env, c);
      if e.Some? then (c', ReadError(e.value))
      else
        var n := if size < c'.to - c'.from then size else c'.to - c'.from;
        (c'.(from := c'.from + n), Bytes(c'.raw[c'.from..c'.from + n]))
  }

  // ----- Nothing is lost, reordered or invented -----

  /** An alert of two bytes, the second of which is 0 (section 6 of RFC 8446). */
  predicate IsCloseNotify(r: Record) {
    r.typ == 21 && |r.data| == 2 && r.data[1] == 0
  }

  /** The application bytes the kernel still holds, up to a close_notify. */
  function AppBytes(records: seq<Record>): seq<Byte> {
    if records == [] || IsCloseNotify(records[0]) then []
    else (if records[0].typ == APPLICATION_DATA then records[0].data else []) + AppBytes(records[1..])
  }

  /** What a reader of `c` is still owed. */
  ghost function Owed(c: Conn): seq<Byte>
    requires Valid(c)
  {
    Pending(c) + AppBytes(c.records)
  }

  /** From `c` to `c'` exactly `out` was paid.  Getting poisoned on the way forfeits what the kernel still holds, and
      a poisoned connection only hands out what was already pending. */
  ghost predicate Paid(c: Conn, out: seq<Byte>, c': Conn)
    requires Valid(c) && Valid(c')
  {
    if c.sticky.Some? then c'.sticky.Some? && Pending(c) == out + Pending(c')
    else if c'.sticky.Some? then out + Pending(c') <= Owed(c)
    else Owed(c) == out + Owed(c')
  }

  lemma PaidTransitive(c: Conn, a: seq<Byte>, c1: Conn, b: seq<Byte>, c2: Conn)
    requires Valid(c) && Valid(c1) && Valid(c2) && Paid(c, a, c1) && Paid(c1, b, c2)
    ensures Paid(c, a + b, c2)
  {
    hide Pending, AppBytes;
    assert a + b + Pending(c2) == a + (b + Pending(c2));
    assert a + b + Owed(c2) == a + (b + Owed(c2));
  }

  lemma FreeThenFree(c: Conn, c1: Conn, c2: Conn)
    requires Valid(c) && Valid(c1) && Valid(c2) && Paid(c, [], c1) && Paid(c1, [], c2)
    ensures Paid(c, [], c2)
  {
    var none: seq<Byte> := [];
    PaidTransitive(c, none, c1, none, c2);
    assert none + none == none;
  }

  lemma {:induction false} ReadRecordPays(tls13: bool, c: Conn)
    requires Valid(c) && Drained(c)
    ensures Paid(c, [], ReadRecord(tls13, c).0)
    decreases |c.records|
  {
    if c.sticky.None? && c.records != [] && c.records[0].data != [] {
      var record := c.records[0];
      var next := c.(records := c.records[1..], raw := Overwrite(c.raw, record.data));
      match Judge(tls13, c.hand != [], record)
      case Retry => ReadRecordPays(tls13, next);
      case TakeInput => assert Overwrite(c.raw, record.data)[0..|record.data|] == record.data;
      case _ =>
    }
  }

  lemma {:induction false} FillHandPays(c: Conn, n: nat)
    requires Valid(c) && Drained(c) && c.hand != []
    ensures Paid(c, [], FillHand(c, n).0)
    decreases |c.records|
  {
    if |c.hand| < n {
      ReadRecordPays(true, c);
      var (c', e) := ReadRecord(true, c);
      if e.None? {
        FillHandPays(c', n);
        FreeThenFree(c, c', FillHand(c', n).0);
      }
    }
  }

  lemma TakingHandIsFree(c: Conn, c': Conn, h: seq<Byte>, e: Error)
    requires Valid(c) && Valid(c') && Paid(c, [], c')
    ensures Paid(c, [], c'.(hand := h)) && Paid(c, [], c'.(sticky := Some(e))) && Paid(c, [], c'.(hand := h, sticky := Some(e)))
  {
    hide AppBytes;
    var none: seq<Byte> := [];
    assert none + Owed(c') == Owed(c') && none + Pending(c') == Pending(c');
  }

  lemma HandleMessagePays(env: Env, c: Conn)
    requires Valid(c) && c.hand != [] && (env.tls13 ==> Drained(c))
    ensures Paid(c, [], HandleMessage(env, c).0)
  {
    hide FillHand, AppBytes, Handle, Paid;
    if env.tls13 {
      FillHandPays(c, 4);
      var (c1, e1) := FillHand(c, 4);
      if e1.None? {
        var n := MessageLength(c1.hand);
        TakingHandIsFree(c, c1, [], TooLong);
        FillHandPays(c1, n);
        var c2 := FillHand(c1, n).0;
        FreeThenFree(c, c1, c2);
        if |c2.hand| >= n {
          var handled := Handle(env, c2.hand[..n]);
          TakingHandIsFree(c, c2, c2.hand[n..], if handled.Done? then Rekey else handled.e);
        }
      }
    } else {
      PaidNothing(c);
    }
  }

  lemma PaidNothing(c: Conn)
    requires Valid(c)
    ensures Paid(c, [], c)
  {
    hide AppBytes;
    var none: seq<Byte> := [];
    assert none + Owed(c) == Owed(c) && none + Pending(c) == Pending(c);
  }

  lemma {:induction false} DrainHandPays(env: Env, c: Conn)
    requires Valid(c) && (env.tls13 && c.hand != [] ==> Drained(c))
    ensures Paid(c, [], DrainHand(env, c).0)
    decreases |c.records|, |c.hand|
  {
    if c.hand != [] {
      HandleMessagePays(env, c);
      var (c', e) := HandleMessage(env, c);
      if e.None? {
        DrainHandPays(env, c');
        FreeThenFree(c, c', DrainHand(env, c').0);
      }
    }
  }

  lemma {:induction false} FillInputPays(env: Env, c: Conn)
    requires Valid(c)
    ensures Paid(c, [], FillInput(env, c).0)
    decreases |c.records|
  {
    if Drained(c) {
      ReadRecordPays(env.tls13, c);
      var (c1, e1) := ReadRecord(env.tls13, c);
      if e1.None? {
        DrainHandPays(env, c1);
        var (c2, e2) := DrainHand(env, c1);
        FreeThenFree(c, c1, c2);
        if e2.None? {
          FillInputPays(env, c2);
          FreeThenFree(c, c2, FillInput(env, c2).0);
        }
      }
    }
  }

  function Delivered(r: ReadResult): seq<Byte> {
    if r.Bytes? then r.out else []
  }

  lemma HandOut(c: Conn, n: nat)
    requires Valid(c) && n <= c.to - c.from
    ensures Paid(c, c.raw[c.from..c.from + n], c.(from := c.from + n))
  {
    hide AppBytes;
    var c' := c.(from := c.from + n);
    assert Pending(c) == c.raw[c.from..c.from + n] + Pending(c');
    assert Owed(c) == c.raw[c.from..c.from + n] + Owed(c');
  }

  lemma ReadPays(env: Env, c: Conn, size: nat)
    requires Valid(c)
    ensures Paid(c, Delivered(Read(env, c, size).1), Read(env, c, size).0)
  {
    hide FillInput, AppBytes, Pending;
    assert [] + Pending(c) == Pending(c) && [] + Owed(c) == Owed(c);
    if size > 0 {
      FillInputPays(env, c);
      var (c', e) := FillInput(env, c);
      if e.None? {
        var n := if size < c'.to - c'.from then size else c'.to - c'.from;
        HandOut(c', n);
        var out := c'.raw[c'.from..c'.from + n];
        PaidTransitive(c, [], c', out, c'.(from := c'.from + n));
        assert [] + out == out;
      }
    }
  }

  /** A series of Read calls with buffers of the given sizes, going on after errors. */
  function ReadSeries(env: Env, c: Conn, sizes: seq<nat>): (r: (Conn, seq<Byte>))
    requires Valid(c)
    ensures Valid(r.0)
    decreases |sizes|
  {
    if sizes == [] then (c, [])
    else
      var (c1, r) := Read(env, c, sizes[0]);
      var (c2, rest) := ReadSeries(env, c1, sizes[1..]);
      (c2, Delivered(r) + rest)
  }

  /** Whatever the records are, a series of reads pays out the application payloads in order. */
  lemma {:induction false} SeriesPays(env: Env, c: Conn, sizes: seq<nat>)
    requires Valid(c)
    ensures Paid(c, ReadSeries(env, c, sizes).1, ReadSeries(env, c, sizes).0)
    decreases |sizes|
  {
    hide Read, AppBytes, Pending;
    if sizes == [] {
      assert [] + Pending(c) == Pending(c) && [] + Owed(c) == Owed(c);
    } else {
      ReadPays(env, c, sizes[0]);
      var (c1, r) := Read(env, c, sizes[0]);
      SeriesPays(env, c1, sizes[1..]);
      var (c2, rest) := ReadSeries(env, c1, sizes[1..]);
      PaidTransitive(c, Delivered(r), c1, rest, c2);
    }
  }

  /** On a fresh connection: any series of reads of any records delivers a prefix of the payloads concatenated in
      order, and while the connection is not poisoned the rest is still owed in full. */
  lemma SeriesDeliversPrefix(env: Env, c: Conn, sizes: seq<nat>)
    requires Valid(c) && Drained(c) && c.sticky.None?
    ensures var (c', out) := ReadSeries(env, c, sizes);
      out <= AppBytes(c.records) && (c'.sticky.None? ==> AppBytes(c.records) == out + Owed(c'))
  {
    SeriesPays(env, c, sizes);
    assert Owed(c) == AppBytes(c.records);
  }

  // ----- Well-formed streams are delivered in full -----

  /** The front message is acceptable as far as it can be seen, and so is what follows it. */
  predicate Acceptable(env: Env, h: seq<Byte>) {
    if |h| < 4 then true
    else if MessageLength(h) - 4 > MAX_HANDSHAKE then false
    else if |h| < MessageLength(h) then true
    else Handle(env, h[..MessageLength(h)]).Done? && Acceptable(env, h[MessageLength(h)..])
  }

  /** What is left of `h` once its complete messages are taken off. */
  function Strip(h: seq<Byte>): (r: seq<Byte>)
    ensures !Complete(r)
  {
    if Complete(h) then Strip(h[MessageLength(h)..]) else h
  }

  predicate Ignorable(r: Record) {
    || (r.typ == CHANGE_CIPHER_SPEC && r.data == [1])
    || (r.typ == ALERT && |r.data| == 2 && r.data[1] == USER_CANCELED)
  }

  /** Section 5.1 of RFC 8446: non-empty records, and handshake messages that may be split and joined across
      consecutive handshake records but not interleaved with anything else; then the end, or a close_notify and anything
      at all behind it. */
  predicate WellFormed(env: Env, h: seq<Byte>, records: seq<Record>)
    decreases |records|
  {
    if records == [] || IsCloseNotify(records[0]) then h == []
    else
      var r := records[0];
      && 0 < |r.data| <= MAX_PLAINTEXT
      && if r.typ == HANDSHAKE then Acceptable(env, h + r.data) && WellFormed(env, Strip(h + r.data), records[1..])
         else h == [] && (r.typ == APPLICATION_DATA || Ignorable(r)) && WellFormed(env, [], records[1..])
  }

  /** The state the reader keeps: what is in `Hand` is acceptable, and the records continue it well. */
  ghost predicate Healthy(env: Env, c: Conn) {
    env.tls13 && Valid(c) && c.sticky.None? && Acceptable(env, c.hand) && WellFormed(env, Strip(c.hand), c.records)
  }

  /** In the middle of a message the next record is handshake and extends it. */
  lemma ReadRecordExtends(env: Env, c: Conn)
    requires Healthy(env, c) && Drained(c) && c.hand != [] && !Complete(c.hand)
    ensures var (c', e) := ReadRecord(true, c);
      && e.None? && Healthy(env, c') && c.records != []
      && c'.hand == c.hand + c.records[0].data && c'.records == c.records[1..] && AppBytes(c'.records) == AppBytes(c.records)
  {
    assert Strip(c.hand) == c.hand;
    assert c.records != [];
  }

  lemma {:induction false} FillHandHealthy(env: Env, c: Conn, n: nat)
    requires Healthy(env, c) && Drained(c) && c.hand != []
    requires n <= 4 || (|c.hand| >= 4 && n == MessageLength(c.hand))
    ensures var (c', e) := FillHand(c, n);
      && e.None? && Healthy(env, c') && c.hand <= c'.hand && AppBytes(c'.records) == AppBytes(c.records)
    decreases |c.records|
  {
    if |c.hand| < n {
      ReadRecordExtends(env, c);
      var c' := ReadRecord(true, c).0;
      FillHandHealthy(env, c', n);
    }
  }

  lemma HandleMessageHealthy(env: Env, c: Conn)
    requires Healthy(env, c) && Drained(c) && c.hand != []
    ensures var (c', e) := HandleMessage(env, c);
      e.None? && Healthy(env, c') && AppBytes(c'.records) == AppBytes(c.records)
  {
    FillHandHealthy(env, c, 4);
    var c1 := FillHand(c, 4).0;
    var n := MessageLength(c1.hand);
    FillHandHealthy(env, c1, n);
    var c2 := FillHand(c1, n).0;
    assert MessageLength(c2.hand) == n;
    assert Complete(c2.hand);
  }

  lemma {:induction false} DrainHandHealthy(env: Env, c: Conn)
    requires Healthy(env, c) && (c.hand != [] ==> Drained(c))
    ensures var (c', e) := DrainHand(env, c);
      && e.None? && Healthy(env, c') && c'.hand == [] && AppBytes(c'.records) == AppBytes(c.records)
      && (c.hand != [] ==> Drained(c'))
    decreases |c.records|, |c.hand|
  {
    if c.hand != [] {
      HandleMessageHealthy(env, c);
      DrainHandHealthy(env, HandleMessage(env, c).0);
    }
  }

  /** Between reads: healthy with nothing half-assembled. */
  ghost predicate Idle(env: Env, c: Conn) {
    Healthy(env, c) && c.hand == []
  }

  lemma {:induction false} ReadRecordHealthy(env: Env, c: Conn)
    requires Idle(env, c) && Drained(c)
    ensures var (c', e) := ReadRecord(true, c);
      if e.None? then Healthy(env, c') && (c'.hand != [] ==> Drained(c'))
      else e == Some(Eof) && AppBytes(c.records) == []
    decreases |c.records|
  {
    if c.records != [] && Judge(true, false, c.records[0]).Retry? {
      var next := c.(records := c.records[1..], raw := Overwrite(c.raw, c.records[0].data));
      assert Strip([]) == [];
      ReadRecordHealthy(env, next);
    }
  }

  lemma {:induction false} FillInputHealthy(env: Env, c: Conn)
    requires Idle(env, c)
    ensures var (c', e) := FillInput(env, c);
      if e.None? then Idle(env, c') else e == Some(Eof) && Owed(c) == []
    decreases |c.records|
  {
    if Drained(c) {
      ReadRecordHealthy(env, c);
      ReadRecordPays(true, c);
      var (c1, e1) := ReadRecord(true, c);
      if e1.None? {
        DrainHandHealthy(env, c1);
        DrainHandPays(env, c1);
        FillInputHealthy(env, DrainHand(env, c1).0);
      }
    }
  }

  /** Each read with room makes progress until everything owed has been paid, and then reports end of file. */
  lemma ReadProgresses(env: Env, c: Conn, size: nat)
    requires Idle(env, c) && size > 0
    ensures var (c', r) := Read(env, c, size);
      if Owed(c) == [] then r == ReadError(Eof)
      else r.Bytes? && |r.out| > 0 && Idle(env, c') && Owed(c) == r.out + Owed(c')
  {
    hide AppBytes, WellFormed, Acceptable, FillInput;
    FillInputHealthy(env, c);
    FillInputPays(env, c);
    ReadPays(env, c, size);
    var (c', e) := FillInput(env, c);
    if e.None? {
      assert |Pending(c')| > 0;
      assert Owed(c) == [] + Owed(c');
      assert |Owed(c)| > 0;
    }
  }

  /** A well-formed stream is delivered exactly and completely by any series of reads with non-empty buffers that is
      long enough, however the buffers and the records are cut. */
  lemma {:induction false} SeriesDeliversEverything(env: Env, c: Conn, sizes: seq<nat>)
    requires Idle(env, c) && (forall i :: 0 <= i < |sizes| ==> sizes[i] > 0) && |sizes| >= |Owed(c)|
    ensures ReadSeries(env, c, sizes).1 == Owed(c)
    decreases |sizes|
  {
    hide Read, AppBytes, Pending, WellFormed, Acceptable;
    if sizes != [] {
      ReadProgresses(env, c, sizes[0]);
      var (c1, r) := Read(env, c, sizes[0]);
      if Owed(c) == [] {
        SeriesPays(env, c, sizes);
        SeriesWithNothingOwed(env, c, sizes);
      } else {
        SeriesDeliversEverything(env, c1, sizes[1..]);
      }
    }
  }

  lemma SeriesWithNothingOwed(env: Env, c: Conn, sizes: seq<nat>)
    requires Valid(c) && c.sticky.None? && Owed(c) == []
    ensures ReadSeries(env, c, sizes).1 == []
  {
    hide ReadSeries;
    SeriesPays(env, c, sizes);
    var (c', out) := ReadSeries(env, c, sizes);
    if c'.sticky.Some? {
      assert out + Pending(c') <= [];
    } else {
      assert [] == out + Owed(c');
    }
  }

  // ----- Fragmentation -----

  function Concat(parts: seq<seq<Byte>>): seq<Byte> {
    if parts == [] then [] else parts[0] + Concat(parts[1..])
  }

  /** One whole message the reader can act on. */
  predicate GoodMessage(env: Env, m: seq<Byte>) {
    |m| >= 4 && MessageLength(m) == |m| && |m| - 4 <= MAX_HANDSHAKE && Handle(env, m).Done?
  }

  function Fragments(chunks: seq<seq<Byte>>): seq<Record> {
    seq(|chunks|, i requires 0 <= i < |chunks| => Record(HANDSHAKE, chunks[i]))
  }

  lemma FrontMessage(m: seq<Byte>, rest: seq<Byte>, p: seq<Byte>, q: seq<Byte>)
    requires |m| >= 4 && p + q == m + rest
    ensures |p| >= 4 ==> MessageLength(p) == MessageLength(m)
    ensures |p| >= |m| ==> p[..|m|] == m && p[|m|..] + q == rest
  {
    assert forall i :: 0 <= i < |p| ==> p[i] == (m + rest)[i];
    if |p| >= |m| {
      assert (p + q)[|m|..] == p[|m|..] + q;
      assert (m + rest)[|m|..] == rest;
      assert p[..|m|] == (p + q)[..|m|];
    }
  }

  /** Any prefix of a stream of good messages is acceptable, and stripping it leaves a prefix of the messages that
      remain. */
  lemma {:induction false} StripPrefix(env: Env, messages: seq<seq<Byte>>, p: seq<Byte>, q: seq<Byte>) returns (remaining: seq<seq<Byte>>)
    requires (forall i :: 0 <= i < |messages| ==> GoodMessage(env, messages[i])) && p + q == Concat(messages)
    ensures Acceptable(env, p) && Strip(p) + q == Concat(remaining)
    ensures forall i :: 0 <= i < |remaining| ==> GoodMessage(env, remaining[i])
    ensures q == [] ==> Strip(p) == []
    decreases |messages|
  {
    if messages == [] {
      assert p == [];
      remaining := [];
    } else {
      var m, rest := messages[0], Concat(messages[1..]);
      assert GoodMessage(env, m);
      FrontMessage(m, rest, p, q);
      if |p| >= |m| {
        assert p[|m|..] + q == Concat(messages[1..]);
        remaining := StripPrefix(env, messages[1..], p[|m|..], q);
      } else {
        remaining := messages;
      }
    }
  }

  /** A handshake message by its content (section 4 of RFC 8446). */
  datatype Message = Message(typ: Byte, body: seq<Byte>)

  /** One byte of type, three of length, most significant first, and the body. */
  function EncodeMessage(m: Message): (bytes: seq<Byte>)
    requires |m.body| < 0x100_0000
    ensures |bytes| == 4 + |m.body|
  {
    var n := |m.body|;
    [m.typ, n / 65536, n / 256 % 256, n % 256] + m.body
  }

  /** The length read off the front of any bytes that start with a message is that message's. */
  lemma EncodedLength(m: Message, rest: seq<Byte>)
    requires |m.body| < 0x100_0000
    ensures MessageLength(EncodeMessage(m) + rest) == |EncodeMessage(m)|
  {
    var n := |m.body|;
    assert n == n / 65536 * 65536 + n / 256 % 256 * 256 + n % 256;
  }

  /** The post-handshake messages of sections 4.6.1 and 4.6.3 of RFC 8446 that can be acted on: a ticket (type 4) that
      parses, or a key update (type 24) with a request byte of 0 or 1 whose change of keys goes well. */
  predicate Actionable(env: Env, m: Message) {
    && |m.body| <= 65536
    && (|| (m.typ == 4 && env.ticketParses(EncodeMessage(m)))
        || (m.typ == 24 && (m.body == [0] || m.body == [1]) && env.rekey(EncodeMessage(m)).Rekeyed?))
  }

  predicate AllActionable(env: Env, messages: seq<Message>) {
    forall i :: 0 <= i < |messages| ==> Actionable(env, messages[i])
  }

  function Encoded(env: Env, messages: seq<Message>): seq<seq<Byte>>
    requires AllActionable(env, messages)
  {
    seq(|messages|, i requires 0 <= i < |messages| => EncodeMessage(messages[i]))
  }

  lemma ActionableIsGood(env: Env, m: Message)
    requires Actionable(env, m)
    ensures GoodMessage(env, EncodeMessage(m))
  {
    EncodedLength(m, []);
    assert EncodeMessage(m) + [] == EncodeMessage(m);
  }

  /** However a run of messages is cut into handshake records of at most 2^14 bytes, the result is well formed in front of
      anything well formed. */
  lemma MessagesAreWellFormed(env: Env, messages: seq<Message>, chunks: seq<seq<Byte>>, rest: seq<Record>)
    requires AllActionable(env, messages)
    requires forall i :: 0 <= i < |chunks| ==> 0 < |chunks[i]| <= 16384
    requires Concat(chunks) == Concat(Encoded(env, messages))
    requires WellFormed(env, [], rest)
    ensures WellFormed(env, [], Fragments(chunks) + rest)
  {
    hide WellFormed, Concat;
    forall i | 0 <= i < |messages| ensures GoodMessage(env, Encoded(env, messages)[i]) {
      ActionableIsGood(env, messages[i]);
    }
    assert [] + Concat(chunks) == Concat(chunks);
    FragmentsAreWellFormed(env, Encoded(env, messages), [], chunks, rest);
  }

  /** What a peer sends, piece by piece: application data, a record to ignore, or messages cut into handshake records. */
  datatype Piece = Data(payload: seq<Byte>) | Ignored(r: Record) | Messages(messages: seq<Message>, chunks: seq<seq<Byte>>)

  predicate PieceFits(env: Env, p: Piece) {
    match p
    case Data(payload) => 0 < |payload| <= 16384
    case Ignored(r) => r == Record(20, [1]) || (r.typ == 21 && |r.data| == 2 && r.data[1] == 90)
    case Messages(messages, chunks) =>
      && AllActionable(env, messages) && Concat(chunks) == Concat(Encoded(env, messages))
      && forall i :: 0 <= i < |chunks| ==> 0 < |chunks[i]| <= 16384
  }

  function PieceRecords(p: Piece): seq<Record> {
    match p
    case Data(payload) => [Record(23, payload)]
    case Ignored(r) => [r]
    case Messages(_, chunks) => Fragments(chunks)
  }

  function Sent(pieces: seq<Piece>): seq<Record> {
    if pieces == [] then [] else PieceRecords(pieces[0]) + Sent(pieces[1..])
  }

  function Payloads(pieces: seq<Piece>): seq<Byte> {
    if pieces == [] then [] else (if pieces[0].Data? then pieces[0].payload else []) + Payloads(pieces[1..])
  }

  ghost predicate EndOfStream(tail: seq<Record>) {
    tail == [] || IsCloseNotify(tail[0])
  }

  lemma {:induction false} AppBytesFragments(chunks: seq<seq<Byte>>, rest: seq<Record>)
    ensures AppBytes(Fragments(chunks) + rest) == AppBytes(rest)
    decreases |chunks|
  {
    var records := Fragments(chunks) + rest;
    if chunks == [] {
      assert records == rest;
    } else {
      assert records[1..] == Fragments(chunks[1..]) + rest;
      AppBytesFragments(chunks[1..], rest);
    }
  }

  lemma {:induction false} SentIsWellFormed(env: Env, pieces: seq<Piece>, tail: seq<Record>)
    requires (forall i :: 0 <= i < |pieces| ==> PieceFits(env, pieces[i])) && EndOfStream(tail)
    ensures WellFormed(env, [], Sent(pieces) + tail) && AppBytes(Sent(pieces) + tail) == Payloads(pieces)
    decreases |pieces|
  {
    if pieces == [] {
      assert Sent(pieces) + tail == tail;
    } else {
      SentIsWellFormed(env, pieces[1..], tail);
      var p, rest := pieces[0], Sent(pieces[1..]) + tail;
      var records := PieceRecords(p) + rest;
      assert Sent(pieces) + tail == records;
      assert PieceFits(env, p);
      match p
      case Data(_) => assert records[1..] == rest;
      case Ignored(_) => assert records[1..] == rest;
      case Messages(messages, chunks) =>
        MessagesAreWellFormed(env, messages, chunks, rest);
        AppBytesFragments(chunks, rest);
    }
  }

  /** Whatever pieces a peer sends, however it cuts its messages, and whether it ends by closing or by close_notify with
      anything behind it: enough reads of any non-empty sizes deliver exactly the payloads, in order. */
  lemma PeerIsHeardExactly(env: Env, pieces: seq<Piece>, tail: seq<Record>, sizes: seq<nat>)
    requires env.tls13 && (forall i :: 0 <= i < |pieces| ==> PieceFits(env, pieces[i])) && EndOfStream(tail)
    requires (forall i :: 0 <= i < |sizes| ==> sizes[i] > 0) && |sizes| >= |Payloads(pieces)|
    ensures ReadSeries(env, Conn(Sent(pieces) + tail, [], 0, 0, [], None), sizes).1 == Payloads(pieces)
  {
    hide WellFormed, AppBytes, ReadSeries, Sent, Payloads;
    var c := Conn(Sent(pieces) + tail, [], 0, 0, [], None);
    SentIsWellFormed(env, pieces, tail);
    assert Strip([]) == [];
    assert Owed(c) == Payloads(pieces);
    SeriesDeliversEverything(env, c, sizes);
  }

  // ----- What each record comes to -----

  /** TLS 1.3: which records are taken, which end the stream, which are passed over; all others are refused. */
  lemma VerdictsTls13(handPending: bool, r: Record)
    ensures var v := Judge(true, handPending, r);
      && (v.TakeInput? <==> |r.data| <= 16384 && !handPending && r.typ == 23)
      && (v.TakeHand? <==> |r.data| <= 16384 && r.typ == 22)
      && (v == Refuse(Eof) <==> !handPending && IsCloseNotify(r))
      && (v.Retry? <==> !handPending && (r == Record(20, [1]) || (r.typ == 21 && |r.data| == 2 && r.data[1] == 90)))
      && (v.Refuse? && v.e.RemoteAlert? <==> !handPending && r.typ == 21 && |r.data| == 2 && r.data[1] != 0 && r.data[1] != 90)
      && (v.Refuse? && v.e.RemoteAlert? ==> v.e.code == r.data[1])
      && (v == Refuse(LocalAlert(22)) <==> |r.data| > 16384)
      && (v == Refuse(LocalAlert(50)) <==> |r.data| <= 16384 && !handPending && r.typ == 20 && r.data != [1])
      && (v.Refuse? ==> v.e.Eof? || v.e.RemoteAlert? || v.e == LocalAlert(22) || v.e == LocalAlert(50) || v.e == LocalAlert(10))
  {
  }

  /** What acting on a message comes to: 50 is decode_error, 10 unexpected_message. */
  lemma MessageOutcomes(env: Env, m: Message)
    requires |m.body| < 0x100_0000
    ensures var h, bytes := Handle(env, EncodeMessage(m)), EncodeMessage(m);
      && (m.typ == 4 ==> h == if env.ticketParses(bytes) then Done else Poisoned(LocalAlert(50)))
      && (m.typ == 24 && m.body != [0] && m.body != [1] ==> h == Poisoned(LocalAlert(50)))
      && (m.typ == 24 && (m.body == [0] || m.body == [1]) ==>
            && (h.Done? <==> env.rekey(bytes).Rekeyed? || (env.rekey(bytes).TxFailed? && m.body == [0]))
            && (h == Poisoned(Rekey) <==> env.rekey(bytes).RxFailed?)
            && (h == Passed(Rekey) <==> env.rekey(bytes).TxFailed? && m.body == [1]))
      && (m.typ != 4 && m.typ != 24 ==> h == Poisoned(LocalAlert(10)))
  {
    assert m.body == EncodeMessage(m)[4..];
    assert |m.body| == 1 ==> m.body == [m.body[0]];
  }

  /** A header that announces more than 65536 bytes poisons the connection before anything else is read. */
  lemma OversizedIsRefused(env: Env, c: Conn)
    requires env.tls13 && Valid(c) && Drained(c) && |c.hand| >= 4
    requires c.hand[1] as int * 65536 + c.hand[2] as int * 256 + c.hand[3] as int > 65536
    ensures HandleMessage(env, c) == (c.(sticky := Some(TooLong)), Some(TooLong))
  {
  }

  /** One that does not is read in full and taken off the buffer, whatever it is. */
  lemma MessageIsTakenOff(env: Env, c: Conn, m: Message, rest: seq<Byte>)
    requires env.tls13 && Valid(c) && Drained(c) && |m.body| <= 65536 && c.hand == EncodeMessage(m) + rest
    ensures HandleMessage(env, c).0.hand == rest
    ensures HandleMessage(env, c).1.None? <==> Handle(env, EncodeMessage(m)).Done?
    ensures HandleMessage(env, c).0.sticky.Some? ==> c.sticky.Some? || Handle(env, EncodeMessage(m)).Poisoned?
  {
    hide Handle, FillHand;
    EncodedLength(m, rest);
    assert c.hand[..|EncodeMessage(m)|] == EncodeMessage(m) && c.hand[|EncodeMessage(m)|..] == rest;
  }

  /** TLS 1.2: warnings are passed over, and change_cipher_spec never is. */
  lemma VerdictsTls12(handPending: bool, r: Record)
    ensures var v := Judge(false, handPending, r);
      && (v.TakeInput? <==> |r.data| <= 16384 && r.typ == 23)
      && (v.TakeHand? <==> |r.data| <= 16384 && r.typ == 22)
      && (v == Refuse(Eof) <==> IsCloseNotify(r))
      && (v.Retry? <==> r.typ == 21 && |r.data| == 2 && r.data[1] != 0 && r.data[0] == 1)
      && (v.Refuse? && v.e.RemoteAlert? <==> r.typ == 21 && |r.data| == 2 && r.data[1] != 0 && r.data[0] == 2)
      && (v.Refuse? && v.e.RemoteAlert? ==> v.e.code == r.data[1])
      && (v == Refuse(LocalAlert(22)) <==> |r.data| > 16384)
      && (v == Refuse(LocalAlert(50)) <==> |r.data| <= 16384 && r.typ == 20 && r.data != [1])
  {
  }

  /** A poisoned reading side hands out what is pending and then the same error for ever. */
  lemma {:induction false} ErrorSticks(env: Env, c: Conn, sizes: seq<nat>)
    requires Valid(c) && Drained(c) && c.sticky.Some?
    ensures ReadSeries(env, c, sizes) == (c, [])
    ensures forall i :: 0 <= i < |sizes| && sizes[i] > 0 ==> Read(env, c, sizes[i]) == (c, ReadError(c.sticky.value))
    decreases |sizes|
  {
    if sizes != [] {
      ErrorSticks(env, c, sizes[1..]);
      assert ReadRecord(env.tls13, c) == (c, c.sticky);
      assert FillInput(env, c) == (c, c.sticky);
      assert Read(env, c, sizes[0]).0 == c && Delivered(Read(env, c, sizes[0]).1) == [];
      assert Delivered(Read(env, c, sizes[0]).1) + [] == [];
    }
  }

  /** However a run of good messages is cut into records, the result is well formed in front of anything well formed. */
  lemma {:induction false} FragmentsAreWellFormed(env: Env, messages: seq<seq<Byte>>, h: seq<Byte>, chunks: seq<seq<Byte>>, rest: seq<Record>)
    requires forall i :: 0 <= i < |messages| ==> GoodMessage(env, messages[i])
    requires forall i :: 0 <= i < |chunks| ==> 0 < |chunks[i]| <= MAX_PLAINTEXT
    requires h + Concat(chunks) == Concat(messages) && (chunks == [] ==> h == [])
    requires WellFormed(env, [], rest)
    ensures WellFormed(env, h, Fragments(chunks) + rest)
    decreases |chunks|
  {
    var records := Fragments(chunks) + rest;
    if chunks == [] {
      assert records == rest;
    } else {
      var p, q := h + chunks[0], Concat(chunks[1..]);
      assert p + q == h + Concat(chunks);
      var remaining := StripPrefix(env, messages, p, q);
      assert records[0] == Record(HANDSHAKE, chunks[0]);
      assert records[1..] == Fragments(chunks[1..]) + rest;
      if chunks[1..] == [] {
        assert q == [];
      }
      FragmentsAreWellFormed(env, remaining, Strip(p), chunks[1..], rest);
    }
  }
}
