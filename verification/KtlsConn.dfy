/** The connection object whose methods change `Input`, `Hand`, `RawInput` and the sticky error in place; each method
    does what the corresponding function of KtlsRead says. */
module KtlsConn {
  import opened Common
  import opened KtlsRead

  class Connection {
    const env: Env
    var records: seq<Record>
    var raw: seq<Byte>
    var from: nat
    var to: nat
    var hand: seq<Byte>
    var sticky: Option<Error>

    ghost function View(): Conn
      reads this
    {
      Conn(records, raw, from, to, hand, sticky)
    }

    ghost predicate Ok()
      reads this
    {
      Valid(View())
    }

    constructor (env: Env, records: seq<Record>)
      ensures this.env == env && View() == Conn(records, [], 0, 0, [], None)
    {
      this.env := env;
      this.records, raw, from, to, hand, sticky := records, [], 0, 0, [], None;
    }

    /** In.SetErrorLocked. */
    method SetError(e: Error) returns (err: Option<Error>)
      modifies this`sticky
      ensures (View(), err) == Fail(old(View()), e)
    {
      sticky := Some(e);
      return sticky;
    }

    method ReadRecord() returns (err: Option<Error>)
      requires Ok() && Drained(View())
      modifies this`records, this`raw, this`from, this`to, this`hand, this`sticky
      ensures (View(), err) == KtlsRead.ReadRecord(env.tls13, old(View()))
      decreases |records|
    {
      if sticky.Some? {
        return sticky;
      }
      if records == [] {
        err := SetError(Eof);
        return;
      }
      var typ, data := records[0].typ, records[0].data;
      records, raw := records[1..], Overwrite(raw, data);
      if |data| == 0 {
        err := SetError(Eof);
        return;
      }
      if |data| > MAX_PLAINTEXT {
        err := SetError(LocalAlert(RECORD_OVERFLOW));
        return;
      }
      if env.tls13 && typ != HANDSHAKE && |hand| > 0 {
        err := SetError(LocalAlert(UNEXPECTED_MESSAGE));
        return;
      }
      if typ == ALERT {
        if |data| != 2 {
          err := SetError(LocalAlert(UNEXPECTED_MESSAGE));
        } else if data[1] == CLOSE_NOTIFY {
          err := SetError(Eof);
        } else if env.tls13 {
          if data[1] == USER_CANCELED {
            err := ReadRecord();
          } else {
            err := SetError(RemoteAlert(data[1]));
          }
        } else if data[0] == 1 {
          err := ReadRecord();
        } else if data[0] == 2 {
          err := SetError(RemoteAlert(data[1]));
        } else {
          err := SetError(LocalAlert(UNEXPECTED_MESSAGE));
        }
      } else if typ == CHANGE_CIPHER_SPEC {
        if |data| != 1 || data[0] != 1 {
          err := SetError(LocalAlert(DECODE_ERROR));
        } else if |hand| > 0 {
          err := SetError(LocalAlert(UNEXPECTED_MESSAGE));
        } else if env.tls13 {
          assert data == [1];
          err := ReadRecord();
        } else {
          err := SetError(LocalAlert(UNEXPECTED_MESSAGE));
        }
      } else if typ == APPLICATION_DATA {
        from, to, err := 0, |data|, None;
      } else if typ == HANDSHAKE {
        hand, err := hand + data, None;
      } else {
        err := SetError(LocalAlert(UNEXPECTED_MESSAGE));
      }
    }

    method ReadHandshakeBytes(n: nat) returns (err: Option<Error>)
      requires Ok() && Drained(View()) && hand != [] && env.tls13
      modifies this`records, this`raw, this`from, this`to, this`hand, this`sticky
      ensures (View(), err) == FillHand(old(View()), n)
    {
      ghost var start := View();
      while |hand| < n
        invariant Ok() && Drained(View()) && hand != [] && FillHand(View(), n) == FillHand(start, n)
        decreases |records|
      {
        err := ReadRecord();
        if err.Some? {
          return;
        }
      }
      return None;
    }

    method HandlePostHandshakeMessage() returns (err: Option<Error>)
      requires Ok() && hand != [] && (env.tls13 ==> Drained(View()))
      modifies this`records, this`raw, this`from, this`to, this`hand, this`sticky
      ensures (View(), err) == HandleMessage(env, old(View()))
    {
      hide FillHand;
      if !env.tls13 {
        return Some(Renegotiation);
      }
      err := ReadHandshakeBytes(4);
      if err.Some? {
        return;
      }
      var n := MessageLength(hand);
      if n - 4 > MAX_HANDSHAKE {
        err := SetError(TooLong);
        return;
      }
      err := ReadHandshakeBytes(n);
      if err.Some? {
        return;
      }
      var message := hand[..n];
      hand := hand[n..];
      match Handle(env, message) {
        case Done => err := None;
        case Poisoned(e) => err := SetError(e);
        case Passed(e) => err := Some(e);
      }
    }

    method DrainHandshake() returns (err: Option<Error>)
      requires Ok() && (env.tls13 && hand != [] ==> Drained(View()))
      modifies this`records, this`raw, this`from, this`to, this`hand, this`sticky
      ensures (View(), err) == DrainHand(env, old(View()))
    {
      hide HandleMessage;
      ghost var start := View();
      while |hand| > 0
        invariant Ok() && (env.tls13 && hand != [] ==> Drained(View()))
        invariant DrainHand(env, View()) == DrainHand(env, start)
        decreases |records|, |hand|
      {
        err := HandlePostHandshakeMessage();
        if err.Some? {
          return;
        }
      }
      return None;
    }

    /** Read.  In kernel mode nothing is ever left in RawInput as unread bytes, so the look-ahead for a waiting
        close-notify does not apply. */
    method Read(size: nat) returns (result: ReadResult)
      requires Ok()
      modifies this`records, this`raw, this`from, this`to, this`hand, this`sticky
      ensures (View(), result) == KtlsRead.Read(env, old(View()), size)
      ensures Ok()
    {
      hide DrainHand, KtlsRead.ReadRecord;
      if size == 0 {
        return Bytes([]);
      }
      ghost var start := View();
      while from == to
        invariant Ok() && FillInput(env, View()) == FillInput(env, start)
        decreases |records|
      {
        var err := ReadRecord();
        if err.Some? {
          return ReadError(err.value);
        }
        err := DrainHandshake();
        if err.Some? {
          return ReadError(err.value);
        }
      }
      var n := if size < to - from then size else to - from;
      result := Bytes(raw[from..from + n]);
      from := from + n;
    }
  }
}
