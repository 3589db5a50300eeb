/** The JA3 ClientHello parser: nested length-prefixed parsing of one TLS record, with the wire encoding it inverts
    (sections 4.1.2 and 4.2 of RFC 8446). */
module ClientHello {
  import opened Common

  type Word = w: int | 0 <= w < 65536

  datatype Error =
    | LengthErr(check: nat)      // the parser numbers its length checks
    | ContentTypeErr
    | VersionErr(check: nat)
    | HandshakeTypeErr
    | SniTypeErr
    | OutOfRange                 // a slice expression out of range, which panics

  datatype Result<+T> = Ok(value: T) | Err(error: Error)

  /** What parseExtensions collects. */
  datatype Extensions = Extensions(
    serverName: seq<Byte>,
    types: seq<Word>,
    curves: seq<Word>,
    pointFormats: seq<Byte>,
    versions: seq<Word>,
    signatureAlgorithms: seq<Word>
  )

  datatype Hello = Hello(version: Word, cipherSuites: seq<Word>, extensions: Extensions)

  const NO_EXTENSIONS := Extensions([], [], [], [], [], [])

  const SERVER_NAME: Word := 0
  const SUPPORTED_GROUPS: Word := 10
  const POINT_FORMATS: Word := 11
  const SIGNATURE_ALGORITHMS: Word := 13
  const SUPPORTED_VERSIONS: Word := 43

  // ----- Parsing -----

  function WordAt(s: seq<Byte>, i: nat): Word
    requires i + 1 < |s|
  {
    s[i] as int * 256 + s[i + 1] as int
  }

  /** `v & 0xFFFC == 0x0300 || v == 0x0304`. */
  predicate Supported(v: Word) {
    v - v % 4 == 0x0300 || v == 0x0304
  }

  /** The first `n` big-endian words of `s`. */
  function Words(s: seq<Byte>, n: nat): seq<Word>
    requires 2 * n <= |s|
  {
    seq(n, i requires 0 <= i < n => WordAt(s, 2 * i))
  }

  /** `for i := 0; i < n; i += 2 { append(Uint16(s[i:])) }` from `i` on. */
  function WordLoop(s: seq<Byte>, n: nat, i: nat, done: seq<Word>): Result<seq<Word>>
    decreases n - i
  {
    if i >= n then Ok(done)
    else if i + 2 > |s| then Err(OutOfRange)
    else WordLoop(s, n, i + 2, done + [WordAt(s, i)])
  }

  function ParseServerName(body: seq<Byte>, x: Extensions): Result<Extensions> {
    if |body| < 5 then Err(LengthErr(13))
    else if |body| - 5 != WordAt(body, 3) then Err(LengthErr(14))
    else if body[2] != 0 then Err(SniTypeErr)
    else Ok(x.(serverName := body[5..]))
  }

  function ParseGroups(body: seq<Byte>, x: Extensions): Result<Extensions> {
    if |body| < 2 then Err(LengthErr(15))
    else if |body| - 2 != WordAt(body, 0) then Err(LengthErr(16))
    else Ok(x.(curves := Words(body[2..], (|body| - 2) / 2)))
  }

  function ParsePointFormats(body: seq<Byte>, x: Extensions): Result<Extensions> {
    if |body| < 1 then Err(LengthErr(17))
    else if |body| - 1 != body[0] then Err(LengthErr(18))
    else Ok(x.(pointFormats := body[1..]))
  }

  function ParseVersions(body: seq<Byte>, x: Extensions): Result<Extensions> {
    if |body| < 1 then Err(LengthErr(19))
    else
      var r := WordLoop(body[1..], body[0], 0, x.versions);
      if r.Ok? then Ok(x.(versions := r.value)) else Err(r.error)
  }

  function ParseAlgorithms(body: seq<Byte>, x: Extensions): Result<Extensions> {
    if |body| < 2 then Err(LengthErr(20))
    else
      var r := WordLoop(body[2..], WordAt(body, 0), 0, x.signatureAlgorithms);
      if r.Ok? then Ok(x.(signatureAlgorithms := r.value)) else Err(r.error)
  }

  function ParseBody(typ: Word, body: seq<Byte>, x: Extensions): Result<Extensions> {
    if typ == SERVER_NAME then ParseServerName(body, x)
    else if typ == SUPPORTED_GROUPS then ParseGroups(body, x)
    else if typ == POINT_FORMATS then ParsePointFormats(body, x)
    else if typ == SUPPORTED_VERSIONS then ParseVersions(body, x)
    else if typ == SIGNATURE_ALGORITHMS then ParseAlgorithms(body, x)
    else Ok(x)
  }

  /** The step `exs[4+exLen:]`, whose index is computed in 16 bits. */
  function Advance(length: Word): Word {
    (4 + length) % 65536
  }

  /** The extension loop.  The block comes out of a record whose length is 16 bits, so the index cannot wrap and the
      step strictly shrinks the input. */
  function ParseBlock(exs: seq<Byte>, x: Extensions): Result<Extensions>
    requires |exs| < 65536
    decreases |exs|
  {
    if exs == [] then Ok(x)
    else if |exs| < 4 then Err(LengthErr(11))
    else
      var typ, length := WordAt(exs, 0), WordAt(exs, 2);
      if |exs| < 4 + length then Err(LengthErr(12))
      else match ParseBody(typ, exs[4..4 + length], x.(types := x.types + [typ]))
        case Err(e) => Err(e)
        case Ok(x') => ParseBlock(exs[Advance(length)..], x')
  }

  function ParseExtensions(exs: seq<Byte>): Result<Extensions>
    requires |exs| < 65536
  {
    if exs == [] then Ok(NO_EXTENSIONS)
    else if |exs| < 2 then Err(LengthErr(9))
    else if |exs| - 2 < WordAt(exs, 0) then Err(LengthErr(10))
    else ParseBlock(exs[2..], NO_EXTENSIONS)
  }

  /** From the cipher suites on. */
  function ParseCiphers(version: Word, cs: seq<Byte>): Result<Hello>
    requires |cs| < 65536
  {
    if |cs| < 2 then Err(LengthErr(6))
    else
      var csLen := WordAt(cs, 0);
      if |cs| < 2 + csLen + 1 then Err(LengthErr(7))
      else
        var compressLen := cs[2 + csLen] as int;
        if |cs| < 2 + csLen + 1 + compressLen then Err(LengthErr(8))
        else match ParseExtensions(cs[2 + csLen + 1 + compressLen..])
          case Err(e) => Err(e)
          case Ok(x) => Ok(Hello(version, Words(cs[2..], csLen / 2), x))
  }

  function ParseHandshake(hs: seq<Byte>): Result<Hello>
    requires |hs| < 65536
  {
    if |hs| < 6 + 32 + 1 then Err(LengthErr(3))
    else if hs[0] != 1 then Err(HandshakeTypeErr)
    else if |hs| - 4 != hs[1] as int * 65536 + hs[2] as int * 256 + hs[3] as int then Err(LengthErr(4))
    else if !Supported(WordAt(hs, 4)) then Err(VersionErr(2))
    else if |hs| < 39 + hs[38] as int then Err(LengthErr(5))
    else ParseCiphers(WordAt(hs, 4), hs[39 + hs[38] as int..])
  }

  function ParseSegment(segment: seq<Byte>): Result<Hello> {
    if |segment| < 5 then Err(LengthErr(1))
    else if segment[0] != 22 then Err(ContentTypeErr)
    else if !Supported(WordAt(segment, 1)) then Err(VersionErr(1))
    else if |segment| - 5 < WordAt(segment, 3) then Err(LengthErr(2))
    else ParseHandshake(segment[5..5 + WordAt(segment, 3)])
  }

  // ----- Encoding -----

  datatype Extension =
    | ServerName(name: seq<Byte>)
    | Groups(groups: seq<Word>)
    | PointFormats(formats: seq<Byte>)
    | Versions(versions: seq<Word>)
    | SignatureAlgorithms(algorithms: seq<Word>)
    | Other(typ: Word, body: seq<Byte>)

  /** A ClientHello as it is written; `extensions` is absent when there is no extension block at all. */
  datatype Message = Message(
    recordVersion: Word, version: Word,
    random: seq<Byte>, sessionId: seq<Byte>,
    cipherSuites: seq<Word>, compression: seq<Byte>,
    extensions: Option<seq<Extension>>
  )

  function EncodeWord(w: Word): seq<Byte> {
    [w / 256, w % 256]
  }

  function EncodeWords(ws: seq<Word>): seq<Byte> {
    if ws == [] then [] else EncodeWord(ws[0]) + EncodeWords(ws[1..])
  }

  function TypeOf(e: Extension): Word {
    match e
    case ServerName(_) => SERVER_NAME
    case Groups(_) => SUPPORTED_GROUPS
    case PointFormats(_) => POINT_FORMATS
    case Versions(_) => SUPPORTED_VERSIONS
    case SignatureAlgorithms(_) => SIGNATURE_ALGORITHMS
    case Other(typ, _) => typ
  }

  predicate ExtensionFits(e: Extension) {
    match e
    case ServerName(name) => |name| + 5 < 65536
    case Groups(groups) => 2 * |groups| + 2 < 65536
    case PointFormats(formats) => |formats| < 256
    case Versions(versions) => 2 * |versions| < 256
    case SignatureAlgorithms(algorithms) => 2 * |algorithms| + 2 < 65536
    case Other(typ, body) =>
      && typ != SERVER_NAME && typ != SUPPORTED_GROUPS && typ != POINT_FORMATS
      && typ != SUPPORTED_VERSIONS && typ != SIGNATURE_ALGORITHMS
      && |body| < 65536
  }

  lemma {:induction false} EncodeWordsSize(ws: seq<Word>)
    ensures |EncodeWords(ws)| == 2 * |ws|
  {
    if ws != [] {
      EncodeWordsSize(ws[1..]);
    }
  }

  function EncodeBody(e: Extension): seq<Byte>
    requires ExtensionFits(e)
  {
    match e
    case ServerName(name) => EncodeWord(|name| + 3) + [0] + EncodeWord(|name|) + name
    case Groups(groups) => EncodeWord(2 * |groups|) + EncodeWords(groups)
    case PointFormats(formats) => [|formats|] + formats
    case Versions(versions) => [2 * |versions|] + EncodeWords(versions)
    case SignatureAlgorithms(algorithms) => EncodeWord(2 * |algorithms|) + EncodeWords(algorithms)
    case Other(_, body) => body
  }

  function EncodeExtension(e: Extension): seq<Byte>
    requires ExtensionFits(e) && |EncodeBody(e)| < 65536
  {
    EncodeWord(TypeOf(e)) + EncodeWord(|EncodeBody(e)|) + EncodeBody(e)
  }

  lemma BodyFits(e: Extension)
    requires ExtensionFits(e)
    ensures |EncodeBody(e)| < 65536
  {
    match e
    case Groups(ws) => EncodeWordsSize(ws);
    case Versions(ws) => EncodeWordsSize(ws);
    case SignatureAlgorithms(ws) => EncodeWordsSize(ws);
    case _ =>
  }

  predicate AllFit(es: seq<Extension>) {
    forall i :: 0 <= i < |es| ==> ExtensionFits(es[i])
  }

  function EncodeBlock(es: seq<Extension>): seq<Byte>
    requires AllFit(es)
  {
    if es == [] then []
    else
      assert ExtensionFits(es[0]);
      BodyFits(es[0]);
      EncodeExtension(es[0]) + EncodeBlock(es[1..])
  }

  predicate Fits(m: Message) {
    && Supported(m.recordVersion) && Supported(m.version)
    && |m.random| == 32 && |m.sessionId| < 256 && 2 * |m.cipherSuites| < 65536 && |m.compression| < 256
    && (m.extensions.Some? ==> AllFit(m.extensions.value) && |EncodeBlock(m.extensions.value)| < 65536)
  }

  /** From the extensions' length field on. */
  function EncodeTail(m: Message): seq<Byte>
    requires Fits(m)
  {
    if m.extensions.None? then []
    else EncodeWord(|EncodeBlock(m.extensions.value)|) + EncodeBlock(m.extensions.value)
  }

  /** From the cipher suites on. */
  function EncodeCiphers(m: Message): seq<Byte>
    requires Fits(m)
  {
    EncodeWord(2 * |m.cipherSuites|) + EncodeWords(m.cipherSuites) + ([|m.compression|] + m.compression) + EncodeTail(m)
  }

  /** The ClientHello body, without its handshake header. */
  function EncodeHello(m: Message): seq<Byte>
    requires Fits(m)
  {
    EncodeWord(m.version) + m.random + ([|m.sessionId|] + m.sessionId) + EncodeCiphers(m)
  }

  /** The message fits the one record the parser looks at. */
  predicate FitsRecord(m: Message) {
    Fits(m) && |EncodeHello(m)| + 4 < 65536
  }

  function EncodeHandshake(m: Message): seq<Byte>
    requires FitsRecord(m)
  {
    [1, 0] + EncodeWord(|EncodeHello(m)|) + EncodeHello(m)
  }

  function EncodeRecord(m: Message): seq<Byte>
    requires FitsRecord(m)
  {
    [22] + EncodeWord(m.recordVersion) + EncodeWord(|EncodeHello(m)| + 4) + EncodeHandshake(m)
  }

  // ----- What the parser should find -----

  /** What one extension contributes.  Names and groups are replaced by a later extension of the same kind; versions
      and signature algorithms accumulate. */
  function Contribute(x: Extensions, e: Extension): Extensions {
    match e
    case ServerName(name) => x.(serverName := name)
    case Groups(groups) => x.(curves := groups)
    case PointFormats(formats) => x.(pointFormats := formats)
    case Versions(versions) => x.(versions := x.versions + versions)
    case SignatureAlgorithms(algorithms) => x.(signatureAlgorithms := x.signatureAlgorithms + algorithms)
    case Other(_, _) => x
  }

  function Collect(x: Extensions, es: seq<Extension>): Extensions
    decreases |es|
  {
    if es == [] then x
    else Collect(Contribute(x.(types := x.types + [TypeOf(es[0])]), es[0]), es[1..])
  }

  function Expected(m: Message): Hello {
    Hello(m.version, m.cipherSuites, if m.extensions.None? then NO_EXTENSIONS else Collect(NO_EXTENSIONS, m.extensions.value))
  }

  // ----- Round trip -----

  lemma {:induction false} EncodeWordsAt(ws: seq<Word>, k: nat, after: seq<Byte>)
    requires k < |ws|
    ensures 2 * k + 1 < |EncodeWords(ws)| && WordAt(EncodeWords(ws) + after, 2 * k) == ws[k]
  {
    EncodeWordsSize(ws);
    var tail := EncodeWords(ws[1..]);
    EncodeWordsSize(ws[1..]);
    if k > 0 {
      EncodeWordsAt(ws[1..], k - 1, after);
      assert (EncodeWords(ws) + after)[2 * k] == (tail + after)[2 * (k - 1)];
      assert (EncodeWords(ws) + after)[2 * k + 1] == (tail + after)[2 * (k - 1) + 1];
    }
  }

  lemma WordsRoundTrip(ws: seq<Word>, after: seq<Byte>)
    ensures |EncodeWords(ws)| == 2 * |ws| && Words(EncodeWords(ws) + after, |ws|) == ws
  {
    EncodeWordsSize(ws);
    forall k | 0 <= k < |ws| ensures Words(EncodeWords(ws) + after, |ws|)[k] == ws[k] {
      EncodeWordsAt(ws, k, after);
    }
  }

  lemma {:induction false} WordLoopRoundTrip(ws: seq<Word>, k: nat, done: seq<Word>)
    requires k <= |ws|
    ensures WordLoop(EncodeWords(ws), 2 * |ws|, 2 * k, done) == Ok(done + ws[k..])
    decreases |ws| - k
  {
    EncodeWordsSize(ws);
    if k == |ws| {
      assert done + ws[k..] == done;
    } else {
      EncodeWordsAt(ws, k, []);
      assert EncodeWords(ws) + [] == EncodeWords(ws);
      WordLoopRoundTrip(ws, k + 1, done + [ws[k]]);
      assert done + [ws[k]] + ws[k + 1..] == done + ws[k..];
    }
  }

  /** The word loop stays in range exactly when the declared length, rounded up to a whole word, does. */
  lemma {:induction false} WordLoopInRange(s: seq<Byte>, n: nat, i: nat, done: seq<Word>)
    requires i % 2 == 0 && i <= n + 1
    ensures WordLoop(s, n, i, done).Ok? <==> i >= n || n + n % 2 <= |s|
    decreases n - i
  {
    if i < n && i + 2 <= |s| {
      WordLoopInRange(s, n, i + 2, done + [WordAt(s, i)]);
    }
  }

  lemma WordAtHead(w: Word, rest: seq<Byte>)
    ensures var s := EncodeWord(w) + rest; |s| == 2 + |rest| && WordAt(s, 0) == w && s[2..] == rest
  {
  }

  lemma GroupsParse(body: seq<Byte>, n: nat, x: Extensions)
    requires |body| == 2 + 2 * n && WordAt(body, 0) == 2 * n
    ensures ParseGroups(body, x) == Ok(x.(curves := Words(body[2..], n)))
  {
    hide Words, WordAt;
  }

  lemma GroupsRoundTrip(ws: seq<Word>, x: Extensions)
    requires 2 * |ws| + 2 < 65536
    ensures ParseGroups(EncodeWord(2 * |ws|) + EncodeWords(ws), x) == Ok(x.(curves := ws))
  {
    hide EncodeWord, EncodeWords, Words, WordAt;
    var n, list := 2 * |ws|, EncodeWords(ws);
    WordsRoundTrip(ws, []);
    assert list + [] == list;
    WordAtHead(n, list);
    GroupsParse(EncodeWord(n) + list, |ws|, x);
    hide ParseGroups;
  }

  lemma VersionsRoundTrip(ws: seq<Word>, x: Extensions)
    requires 2 * |ws| < 256
    ensures ParseVersions([2 * |ws|] + EncodeWords(ws), x) == Ok(x.(versions := x.versions + ws))
  {
    var body := [2 * |ws|] + EncodeWords(ws);
    WordLoopRoundTrip(ws, 0, x.versions);
    hide EncodeWords, WordLoop;
    assert body[1..] == EncodeWords(ws) && ws[0..] == ws;
  }

  lemma AlgorithmsRoundTrip(ws: seq<Word>, x: Extensions)
    requires 2 * |ws| + 2 < 65536
    ensures ParseAlgorithms(EncodeWord(2 * |ws|) + EncodeWords(ws), x) == Ok(x.(signatureAlgorithms := x.signatureAlgorithms + ws))
  {
    WordLoopRoundTrip(ws, 0, x.signatureAlgorithms);
    WordAtHead(2 * |ws|, EncodeWords(ws));
    hide EncodeWord, EncodeWords, WordLoop, WordAt;
    assert ws[0..] == ws;
  }

  lemma ServerNameRoundTrip(name: seq<Byte>, x: Extensions)
    requires |name| + 5 < 65536
    ensures ParseServerName(EncodeWord(|name| + 3) + [0] + EncodeWord(|name|) + name, x) == Ok(x.(serverName := name))
  {
    var body := EncodeWord(|name| + 3) + [0] + EncodeWord(|name|) + name;
    assert body[5..] == name;
  }

  lemma BodyRoundTrip(e: Extension, x: Extensions)
    requires ExtensionFits(e)
    ensures ParseBody(TypeOf(e), EncodeBody(e), x) == Ok(Contribute(x, e))
  {
    hide EncodeWord, EncodeWords, ParseServerName, ParseGroups, ParseVersions, ParseAlgorithms;
    match e
    case ServerName(name) => ServerNameRoundTrip(name, x);
    case Groups(ws) => GroupsRoundTrip(ws, x);
    case PointFormats(formats) => assert EncodeBody(e)[1..] == formats;
    case Versions(ws) => VersionsRoundTrip(ws, x);
    case SignatureAlgorithms(ws) => AlgorithmsRoundTrip(ws, x);
    case Other(_, _) =>
  }

  lemma BlockStep(e: Extension, rest: seq<Byte>, x: Extensions)
    requires ExtensionFits(e) && |EncodeBody(e)| < 65536 && |EncodeExtension(e) + rest| < 65536
    ensures |rest| < 65536
    ensures ParseBlock(EncodeExtension(e) + rest, x) == ParseBlock(rest, Contribute(x.(types := x.types + [TypeOf(e)]), e))
  {
    hide EncodeBody, ParseBody, ParseBlock, EncodeWord;
    FirstFrame(Raw(TypeOf(e), EncodeBody(e)), rest, x);
    BodyRoundTrip(e, x.(types := x.types + [TypeOf(e)]));
  }

  lemma {:induction false} BlockRoundTrip(es: seq<Extension>, x: Extensions)
    requires AllFit(es) && |EncodeBlock(es)| < 65536
    ensures ParseBlock(EncodeBlock(es), x) == Ok(Collect(x, es))
    decreases |es|
  {
    if es != [] {
      BodyFits(es[0]);
      BlockStep(es[0], EncodeBlock(es[1..]), x);
      BlockRoundTrip(es[1..], Contribute(x.(types := x.types + [TypeOf(es[0])]), es[0]));
    }
  }

  lemma TailRoundTrip(m: Message)
    requires Fits(m) && |EncodeTail(m)| < 65536
    ensures ParseExtensions(EncodeTail(m)) == Ok(Expected(m).extensions)
  {
    hide ParseBlock, EncodeBlock, Collect;
    if m.extensions.Some? {
      var block := EncodeBlock(m.extensions.value);
      BlockRoundTrip(m.extensions.value, NO_EXTENSIONS);
      assert WordAt(EncodeTail(m), 0) == |block|;
      assert EncodeTail(m)[2..] == block;
    }
  }

  lemma CiphersRoundTrip(m: Message)
    requires Fits(m) && |EncodeCiphers(m)| < 65536
    ensures ParseCiphers(m.version, EncodeCiphers(m)) == Ok(Expected(m))
  {
    hide ParseExtensions, EncodeTail, EncodeWords;
    var ws, tail, cs := EncodeWords(m.cipherSuites), EncodeTail(m), EncodeCiphers(m);
    var after := [|m.compression|] + m.compression + tail;
    WordsRoundTrip(m.cipherSuites, after);
    TailRoundTrip(m);
    assert cs[2..] == ws + after;
    assert WordAt(cs, 0) == 2 * |m.cipherSuites|;
    assert cs[2 + |ws|] == |m.compression|;
    assert cs[2 + |ws| + 1 + |m.compression|..] == tail;
  }

  lemma HandshakeRoundTrip(m: Message)
    requires FitsRecord(m)
    ensures ParseHandshake(EncodeHandshake(m)) == Ok(Expected(m))
  {
    hide ParseCiphers, EncodeCiphers, Expected;
    var hs, ciphers := EncodeHandshake(m), EncodeCiphers(m);
    CiphersRoundTrip(m);
    assert WordAt(hs, 4) == m.version;
    assert hs[38] == |m.sessionId|;
    assert hs[39 + |m.sessionId|..] == ciphers;
  }

  /** Parsing the record of any well-formed ClientHello, whatever follows it, recovers everything the fingerprint is
      made of. */
  lemma RecordRoundTrip(m: Message, suffix: seq<Byte>)
    requires FitsRecord(m)
    ensures ParseSegment(EncodeRecord(m) + suffix) == Ok(Expected(m))
  {
    hide ParseHandshake, EncodeHello, Expected;
    var segment, hs := EncodeRecord(m) + suffix, EncodeHandshake(m);
    HandshakeRoundTrip(m);
    assert WordAt(segment, 1) == m.recordVersion;
    assert WordAt(segment, 3) == |hs|;
    assert segment[5..5 + |hs|] == hs;
  }

  /** The guard in front of the slice step: there the 16-bit index equals the true one and the step shrinks the input. */
  lemma AdvanceNeverWraps(exs: seq<Byte>)
    requires 4 <= |exs| < 65536 && |exs| >= 4 + WordAt(exs, 2)
    ensures Advance(WordAt(exs, 2)) == 4 + WordAt(exs, 2) <= |exs|
    ensures |exs[Advance(WordAt(exs, 2))..]| < |exs|
  {
  }

  // ----- Which segments panic -----

  /** An extension as it lies in the block. */
  datatype Raw = Raw(typ: Word, body: seq<Byte>)

  predicate RawFits(raw: Raw) { |raw.body| < 65536 }

  function Frame(raw: Raw): seq<Byte>
    requires RawFits(raw)
  {
    EncodeWord(raw.typ) + EncodeWord(|raw.body|) + raw.body
  }

  function Frames(raws: seq<Raw>): seq<Byte>
    requires forall i :: 0 <= i < |raws| ==> RawFits(raws[i])
  {
    if raws == [] then [] else Frame(raws[0]) + Frames(raws[1..])
  }

  /** The list of a versions or signature-algorithms extension declares more bytes, rounded up to a whole word, than
      its body holds: the slice expression in the list loop goes out of range. */
  predicate Overruns(raw: Raw) {
    || (raw.typ == SUPPORTED_VERSIONS && |raw.body| >= 1 && raw.body[0] + raw.body[0] % 2 > |raw.body| - 1)
    || (raw.typ == SIGNATURE_ALGORITHMS && |raw.body| >= 2
        && WordAt(raw.body, 0) + WordAt(raw.body, 0) % 2 > |raw.body| - 2)
  }

  /** The parser goes on to the next extension. */
  predicate Accepted(raw: Raw) {
    ParseBody(raw.typ, raw.body, NO_EXTENSIONS).Ok?
  }

  /** The verdict on one extension does not depend on what was collected before it. */
  lemma BodyVerdict(raw: Raw, x: Extensions)
    ensures ParseBody(raw.typ, raw.body, x).Ok? <==> Accepted(raw)
    ensures ParseBody(raw.typ, raw.body, x) == Err(OutOfRange) <==> Overruns(raw)
  {
    if raw.typ == SUPPORTED_VERSIONS && |raw.body| >= 1 {
      LoopVerdict(raw.body[1..], raw.body[0], x.versions);
      LoopVerdict(raw.body[1..], raw.body[0], []);
    } else if raw.typ == SIGNATURE_ALGORITHMS && |raw.body| >= 2 {
      LoopVerdict(raw.body[2..], WordAt(raw.body, 0), x.signatureAlgorithms);
      LoopVerdict(raw.body[2..], WordAt(raw.body, 0), []);
    }
    hide WordLoop, Words;
  }

  lemma LoopVerdict(s: seq<Byte>, n: nat, done: seq<Word>)
    ensures WordLoop(s, n, 0, done).Ok? <==> n + n % 2 <= |s|
    ensures WordLoop(s, n, 0, done).Err? ==> WordLoop(s, n, 0, done).error == OutOfRange
  {
    WordLoopInRange(s, n, 0, done);
    LoopErrsOneWay(s, n, 0, done);
  }

  lemma {:induction false} LoopErrsOneWay(s: seq<Byte>, n: nat, i: nat, done: seq<Word>)
    ensures WordLoop(s, n, i, done).Err? ==> WordLoop(s, n, i, done).error == OutOfRange
    decreases n - i
  {
    if i < n && i + 2 <= |s| {
      LoopErrsOneWay(s, n, i + 2, done + [WordAt(s, i)]);
    }
  }

  /** The block holds an overrunning extension behind accepted ones only; what follows it does not matter. */
  ghost predicate Poisoned(exs: seq<Byte>) {
    exists raws: seq<Raw>, bad, rest :: PoisonedBy(exs, raws, bad, rest)
  }

  ghost predicate PoisonedBy(exs: seq<Byte>, raws: seq<Raw>, bad: Raw, rest: seq<Byte>) {
    && (forall i :: 0 <= i < |raws| ==> RawFits(raws[i]) && Accepted(raws[i]))
    && RawFits(bad) && Overruns(bad)
    && exs == Frames(raws) + Frame(bad) + rest
  }

  /** How the loop sees a block that starts with a whole extension. */
  lemma FirstFrame(raw: Raw, rest: seq<Byte>, x: Extensions)
    requires RawFits(raw) && |Frame(raw) + rest| < 65536
    ensures var r := ParseBody(raw.typ, raw.body, x.(types := x.types + [raw.typ]));
      ParseBlock(Frame(raw) + rest, x) == if r.Err? then Err(r.error) else ParseBlock(rest, r.value)
  {
    hide ParseBody;
    var exs := Frame(raw) + rest;
    assert WordAt(exs, 0) == raw.typ && WordAt(exs, 2) == |raw.body|;
    assert exs[4..4 + |raw.body|] == raw.body;
    assert exs[Advance(|raw.body|)..] == rest;
  }

  lemma {:induction false} PoisonedPanics(exs: seq<Byte>, raws: seq<Raw>, bad: Raw, rest: seq<Byte>, x: Extensions)
    requires |exs| < 65536 && PoisonedBy(exs, raws, bad, rest)
    ensures ParseBlock(exs, x) == Err(OutOfRange)
    decreases |raws|
  {
    hide ParseBlock, ParseBody, Accepted, Overruns;
    if raws == [] {
      assert exs == Frame(bad) + rest;
      FirstFrame(bad, rest, x);
      BodyVerdict(bad, x.(types := x.types + [bad.typ]));
    } else {
      var tail := Frames(raws[1..]) + Frame(bad) + rest;
      assert exs == Frame(raws[0]) + tail;
      FirstFrame(raws[0], tail, x);
      var x1 := x.(types := x.types + [raws[0].typ]);
      BodyVerdict(raws[0], x1);
      PoisonedPanics(tail, raws[1..], bad, rest, ParseBody(raws[0].typ, raws[0].body, x1).value);
    }
  }

  lemma {:induction false} PanicIsPoisoned(exs: seq<Byte>, x: Extensions) returns (raws: seq<Raw>, bad: Raw, rest: seq<Byte>)
    requires |exs| < 65536 && ParseBlock(exs, x) == Err(OutOfRange)
    ensures PoisonedBy(exs, raws, bad, rest)
    decreases |exs|
  {
    hide ParseBody, Accepted, Overruns;
    var raw, after := SplitFrame(exs);
    var x1 := x.(types := x.types + [raw.typ]);
    FirstFrame(raw, after, x);
    BodyVerdict(raw, x1);
    hide ParseBlock, Frame, Frames;
    if Overruns(raw) {
      PoisonedFirst(raw, after);
      raws, bad, rest := [], raw, after;
    } else {
      raws, bad, rest := PanicIsPoisoned(after, ParseBody(raw.typ, raw.body, x1).value);
      PoisonedLater(raw, after, raws, bad, rest);
      raws := [raw] + raws;
    }
  }

  lemma SplitFrame(exs: seq<Byte>) returns (raw: Raw, after: seq<Byte>)
    requires 4 <= |exs| < 65536 && |exs| >= 4 + WordAt(exs, 2)
    ensures RawFits(raw) && exs == Frame(raw) + after && |after| < |exs|
  {
    var n := WordAt(exs, 2);
    raw, after := Raw(WordAt(exs, 0), exs[4..4 + n]), exs[4 + n..];
    var frame := Frame(raw);
    assert frame[0] == exs[0] && frame[1] == exs[1] && frame[2] == exs[2] && frame[3] == exs[3];
  }

  lemma PoisonedFirst(raw: Raw, after: seq<Byte>)
    requires RawFits(raw) && Overruns(raw)
    ensures PoisonedBy(Frame(raw) + after, [], raw, after)
  {
    hide Overruns, Frame;
    assert Frames([]) + Frame(raw) + after == Frame(raw) + after;
  }

  lemma PoisonedLater(raw: Raw, after: seq<Byte>, raws: seq<Raw>, bad: Raw, rest: seq<Byte>)
    requires RawFits(raw) && Accepted(raw) && PoisonedBy(after, raws, bad, rest)
    ensures PoisonedBy(Frame(raw) + after, [raw] + raws, bad, rest)
  {
    hide Overruns, Accepted, Frame;
    assert ([raw] + raws)[1..] == raws;
    assert Frame(raw) + (Frames(raws) + Frame(bad) + rest) == (Frame(raw) + Frames(raws)) + Frame(bad) + rest;
  }

  /** The handshake message a segment holds, if the record header passes. */
  function HandshakeOf(segment: seq<Byte>): (hs: Option<seq<Byte>>)
    ensures hs.Some? ==> |hs.value| < 65536
  {
    if |segment| < 5 || segment[0] != 22 || !Supported(WordAt(segment, 1)) || |segment| - 5 < WordAt(segment, 3) then None
    else Some(segment[5..5 + WordAt(segment, 3)])
  }

  function CiphersOf(hs: seq<Byte>): (cs: Option<seq<Byte>>)
    ensures cs.Some? ==> |cs.value| < |hs| && |hs| >= 39
  {
    if |hs| < 39 || hs[0] != 1 || |hs| - 4 != hs[1] as int * 65536 + hs[2] as int * 256 + hs[3] as int
       || !Supported(WordAt(hs, 4)) || |hs| < 39 + hs[38] as int then None
    else Some(hs[39 + hs[38] as int..])
  }

  function BlockAfter(cs: seq<Byte>): (block: Option<seq<Byte>>)
    ensures block.Some? ==> |block.value| < |cs|
  {
    if |cs| < 2 || |cs| < 2 + WordAt(cs, 0) + 1 || |cs| < 2 + WordAt(cs, 0) + 1 + cs[2 + WordAt(cs, 0)] as int then None
    else
      var exs := cs[2 + WordAt(cs, 0) + 1 + cs[2 + WordAt(cs, 0)] as int..];
      if |exs| < 2 || |exs| - 2 < WordAt(exs, 0) then None else Some(exs[2..])
  }

  /** The extension block that a segment makes the parser walk, if it gets that far. */
  function BlockOf(segment: seq<Byte>): (block: Option<seq<Byte>>)
    ensures block.Some? ==> |block.value| < 65536
  {
    var hs := HandshakeOf(segment);
    if hs.None? then None
    else
      var cs := CiphersOf(hs.value);
      if cs.None? then None else BlockAfter(cs.value)
  }

  lemma CiphersReachBlock(version: Word, cs: seq<Byte>)
    requires |cs| < 65536
    ensures ParseCiphers(version, cs) == Err(OutOfRange) <==>
              BlockAfter(cs).Some? && ParseBlock(BlockAfter(cs).value, NO_EXTENSIONS) == Err(OutOfRange)
  {
    hide ParseBlock, Words;
  }

  lemma HandshakeReachesBlock(hs: seq<Byte>)
    requires |hs| < 65536
    ensures ParseHandshake(hs) == Err(OutOfRange) <==>
              CiphersOf(hs).Some? && ParseCiphers(WordAt(hs, 4), CiphersOf(hs).value) == Err(OutOfRange)
  {
    hide ParseCiphers;
  }

  lemma SegmentReachesBlock(segment: seq<Byte>)
    ensures ParseSegment(segment) == Err(OutOfRange) <==>
              BlockOf(segment).Some? && ParseBlock(BlockOf(segment).value, NO_EXTENSIONS) == Err(OutOfRange)
  {
    hide ParseHandshake, ParseCiphers, ParseBlock, CiphersOf, BlockAfter;
    var hs := HandshakeOf(segment);
    if hs.Some? {
      HandshakeReachesBlock(hs.value);
      if CiphersOf(hs.value).Some? {
        CiphersReachBlock(WordAt(hs.value, 4), CiphersOf(hs.value).value);
      }
    }
  }

  /** Exactly which segments make the parser panic. */
  lemma PanicsIff(segment: seq<Byte>)
    ensures ParseSegment(segment) == Err(OutOfRange) <==> BlockOf(segment).Some? && Poisoned(BlockOf(segment).value)
  {
    SegmentReachesBlock(segment);
    hide ParseSegment, ParseBlock, BlockOf;
    if BlockOf(segment).Some? {
      var block := BlockOf(segment).value;
      if ParseBlock(block, NO_EXTENSIONS) == Err(OutOfRange) {
        var raws, bad, rest := PanicIsPoisoned(block, NO_EXTENSIONS);
      }
      if Poisoned(block) {
        var raws: seq<Raw>, bad, rest :| PoisonedBy(block, raws, bad, rest);
        PoisonedPanics(block, raws, bad, rest, NO_EXTENSIONS);
      }
    }
  }

  /** One record that does: a ClientHello with nothing but a versions extension that declares two bytes and has none. */
  function PanicRecord(): seq<Byte> {
    [22, 3, 1, 0, 49] + PanicHandshake()
  }

  function PanicHandshake(): seq<Byte> {
    [1, 0, 0, 45, 3, 3] + seq(32, _ => 0) + [0, 0, 0, 0, 0, 5, 0, 43, 0, 1, 2]
  }

  lemma PanicHandshakeShape()
    ensures var hs := PanicHandshake();
      && |hs| == 49 && hs[0] == 1 && hs[1] == 0 && hs[2] == 0 && hs[3] == 45 && hs[4] == 3 && hs[5] == 3 && hs[38] == 0
      && hs[39..] == [0, 0, 0, 0, 5, 0, 43, 0, 1, 2]
  {
  }

  lemma PanicBlock(cs: seq<Byte>)
    requires cs == [0, 0, 0, 0, 5, 0, 43, 0, 1, 2]
    ensures BlockAfter(cs).Some? && Poisoned(BlockAfter(cs).value)
  {
    var bad := Raw(43, [2]);
    assert Frame(bad) == [0, 43, 0, 1, 2];
    PoisonedFirst(bad, []);
    assert WordAt(cs, 0) == 0 && cs[2] == 0 && WordAt(cs[3..], 0) == 5;
    assert Frame(bad) + [] == cs[3..][2..];
  }

  lemma PanicRecordPanics()
    ensures ParseSegment(PanicRecord()) == Err(OutOfRange)
  {
    hide PanicHandshake, ParseSegment, Poisoned, BlockAfter;
    var segment, hs := PanicRecord(), PanicHandshake();
    PanicHandshakeShape();
    assert HandshakeOf(segment) == Some(hs) by {
      assert WordAt(segment, 1) == 0x0301 && WordAt(segment, 3) == 49;
      assert segment[5..5 + 49] == hs;
    }
    hide HandshakeOf, PanicRecord;
    assert CiphersOf(hs) == Some(hs[39..]) by {
      assert WordAt(hs, 4) == 0x0303;
    }
    hide CiphersOf;
    PanicBlock(hs[39..]);
    PanicsIff(segment);
  }

  // ----- Which segments are accepted -----

  /** An extension the parser accepts, by the numbers: type 0 server name, 10 groups, 11 point formats, 13 signature
      algorithms, 43 versions. */
  predicate WellMade(raw: Raw) {
    var b := raw.body;
    if raw.typ == 0 then |b| >= 5 && b[2] == 0 && b[3] as int * 256 + b[4] as int == |b| - 5
    else if raw.typ == 10 then |b| >= 2 && b[0] as int * 256 + b[1] as int == |b| - 2
    else if raw.typ == 11 then |b| >= 1 && b[0] as int == |b| - 1
    else if raw.typ == 13 then |b| >= 2 && (var n := b[0] as int * 256 + b[1] as int; n + n % 2 <= |b| - 2)
    else if raw.typ == 43 then |b| >= 1 && b[0] as int + b[0] as int % 2 <= |b| - 1
    else true
  }

  lemma AcceptedIff(raw: Raw)
    ensures Accepted(raw) <==> WellMade(raw)
  {
    if raw.typ == SUPPORTED_VERSIONS && |raw.body| >= 1 {
      LoopVerdict(raw.body[1..], raw.body[0], []);
    } else if raw.typ == SIGNATURE_ALGORITHMS && |raw.body| >= 2 {
      LoopVerdict(raw.body[2..], WordAt(raw.body, 0), []);
    }
    hide WordLoop, Words;
  }

  predicate AllMade(raws: seq<Raw>) {
    forall i :: 0 <= i < |raws| ==> RawFits(raws[i]) && WellMade(raws[i])
  }

  lemma {:induction false} MadeIsAccepted(raws: seq<Raw>, x: Extensions)
    requires AllMade(raws) && |Frames(raws)| < 65536
    ensures ParseBlock(Frames(raws), x).Ok?
    decreases |raws|
  {
    hide ParseBody, WellMade, Accepted, Frame;
    if raws != [] {
      FirstFrame(raws[0], Frames(raws[1..]), x);
      var x1 := x.(types := x.types + [raws[0].typ]);
      AcceptedIff(raws[0]);
      BodyVerdict(raws[0], x1);
      MadeIsAccepted(raws[1..], ParseBody(raws[0].typ, raws[0].body, x1).value);
    }
  }

  lemma {:induction false} AcceptedIsMade(exs: seq<Byte>, x: Extensions) returns (raws: seq<Raw>)
    requires |exs| < 65536 && ParseBlock(exs, x).Ok?
    ensures AllMade(raws) && exs == Frames(raws)
    decreases |exs|
  {
    hide ParseBody, Accepted, Overruns, WellMade, Frame;
    if exs == [] {
      raws := [];
    } else {
      var raw, after := SplitFrame(exs);
      var x1 := x.(types := x.types + [raw.typ]);
      FirstFrame(raw, after, x);
      BodyVerdict(raw, x1);
      AcceptedIff(raw);
      var rest := AcceptedIsMade(after, ParseBody(raw.typ, raw.body, x1).value);
      raws := [raw] + rest;
      assert raws[1..] == rest;
    }
  }

  function Num2(s: seq<Byte>, i: nat): nat
    requires i + 1 < |s|
  {
    s[i] as int * 256 + s[i + 1] as int
  }

  /** What must stand around the extensions, by the numbers: a handshake record (22) of a version from 0x0300 to 0x0304,
      not shorter than it says, holding one ClientHello (1) of exactly the length it says and such a version. */
  predicate RecordHolds(segment: seq<Byte>) {
    && |segment| >= 5 && segment[0] == 22 && 0x0300 <= Num2(segment, 1) <= 0x0304 && |segment| - 5 >= Num2(segment, 3)
    && var hs := segment[5..5 + Num2(segment, 3)];
    && |hs| >= 39 && hs[0] == 1 && |hs| - 4 == hs[1] as int * 65536 + Num2(hs, 2) && 0x0300 <= Num2(hs, 4) <= 0x0304
    && |hs| >= 39 + hs[38] as int
  }

  /** And in it: session id, suites and compression methods that fit, then nothing, or a block of well-made extensions
      behind a length that it reaches. */
  ghost predicate HelloHolds(cs: seq<Byte>) {
    && |cs| >= 2 && |cs| >= 3 + Num2(cs, 0) && |cs| >= 3 + Num2(cs, 0) + cs[2 + Num2(cs, 0)] as int
    && var exs := cs[3 + Num2(cs, 0) + cs[2 + Num2(cs, 0)] as int..];
    && (exs == [] || (|exs| >= 2 && |exs| - 2 >= Num2(exs, 0) && exists raws :: AllMade(raws) && exs[2..] == Frames(raws)))
  }

  lemma CiphersAcceptedIff(version: Word, cs: seq<Byte>)
    requires |cs| < 65536
    ensures ParseCiphers(version, cs).Ok? <==> HelloHolds(cs)
  {
    if |cs| >= 2 && |cs| >= 3 + Num2(cs, 0) && |cs| >= 3 + Num2(cs, 0) + cs[2 + Num2(cs, 0)] as int {
      ExtensionsAcceptedIff(cs[3 + Num2(cs, 0) + cs[2 + Num2(cs, 0)] as int..]);
    }
    hide ParseExtensions, Words, WellMade, Frames;
  }

  lemma ExtensionsAcceptedIff(exs: seq<Byte>)
    requires |exs| < 65536
    ensures ParseExtensions(exs).Ok? <==>
      exs == [] || (|exs| >= 2 && |exs| - 2 >= Num2(exs, 0) && exists raws :: AllMade(raws) && exs[2..] == Frames(raws))
  {
    hide ParseBlock, WellMade, Frames;
    if |exs| >= 2 {
      if ParseBlock(exs[2..], NO_EXTENSIONS).Ok? {
        var raws := AcceptedIsMade(exs[2..], NO_EXTENSIONS);
      }
      if raws :| AllMade(raws) && exs[2..] == Frames(raws) {
        MadeIsAccepted(raws, NO_EXTENSIONS);
      }
    }
  }

  lemma HandshakeAccepted(hs: seq<Byte>)
    requires |hs| < 65536
    ensures ParseHandshake(hs).Ok? <==> CiphersOf(hs).Some? && ParseCiphers(WordAt(hs, 4), CiphersOf(hs).value).Ok?
    ensures ParseHandshake(hs).Ok? ==> |hs| >= 6 && ParseHandshake(hs).value.version == Num2(hs, 4)
  {
    if CiphersOf(hs).Some? {
      VersionPasses(WordAt(hs, 4), CiphersOf(hs).value);
    }
    hide ParseCiphers;
  }

  lemma VersionPasses(version: Word, cs: seq<Byte>)
    requires |cs| < 65536
    ensures ParseCiphers(version, cs).Ok? ==> ParseCiphers(version, cs).value.version == version
  {
    hide ParseExtensions, Words;
  }

  lemma RecordHoldsIff(segment: seq<Byte>)
    ensures RecordHolds(segment) <==> HandshakeOf(segment).Some? && CiphersOf(HandshakeOf(segment).value).Some?
    ensures RecordHolds(segment) ==> CiphersOf(HandshakeOf(segment).value).value == CiphersIn(segment)
  {
    if |segment| >= 5 {
      SupportedVersions(WordAt(segment, 1));
      if HandshakeOf(segment).Some? && |HandshakeOf(segment).value| >= 6 {
        SupportedVersions(WordAt(HandshakeOf(segment).value, 4));
      }
    }
    hide Supported;
  }

  /** Where the suites start. */
  function CiphersIn(segment: seq<Byte>): seq<Byte>
    requires RecordHolds(segment)
  {
    var hs := segment[5..5 + Num2(segment, 3)];
    hs[39 + hs[38] as int..]
  }

  /** Exactly which segments are accepted, and which version they are taken to have. */
  lemma AcceptsIff(segment: seq<Byte>)
    ensures ParseSegment(segment).Ok? <==> RecordHolds(segment) && HelloHolds(CiphersIn(segment))
    ensures ParseSegment(segment).Ok? ==> |segment| >= 11 && ParseSegment(segment).value.version == Num2(segment, 9)
  {
    hide ParseHandshake, ParseCiphers, HelloHolds, CiphersOf, CiphersIn;
    RecordHoldsIff(segment);
    hide RecordHolds;
    var hs := HandshakeOf(segment);
    if hs.Some? {
      HandshakeAccepted(hs.value);
      if CiphersOf(hs.value).Some? {
        CiphersAcceptedIff(WordAt(hs.value, 4), CiphersOf(hs.value).value);
      }
    }
  }

  // ----- The numbers on the wire -----

  /** SSL 3.0 to TLS 1.3. */
  lemma SupportedVersions(v: Word)
    ensures Supported(v) <==> 0x0300 <= v <= 0x0304
  {
  }

  /** The extensions by the numbers of section 4.2 of RFC 8446 and of RFC 8422, with bodies as those define them. */
  lemma ExtensionsOnTheWire()
    ensures EncodeExtension(ServerName([97, 98])) == [0, 0, 0, 7, 0, 5, 0, 0, 2, 97, 98]
    ensures EncodeExtension(Groups([29])) == [0, 10, 0, 4, 0, 2, 0, 29]
    ensures EncodeExtension(PointFormats([0])) == [0, 11, 0, 2, 1, 0]
    ensures EncodeExtension(SignatureAlgorithms([0x0403])) == [0, 13, 0, 4, 0, 2, 4, 3]
    ensures EncodeExtension(Versions([0x0304])) == [0, 43, 0, 3, 2, 3, 4]
  {
    var one: seq<Word> := [29];
    var two: seq<Word> := [0x0403];
    var three: seq<Word> := [0x0304];
    assert one[1..] == [] && two[1..] == [] && three[1..] == [];
    assert EncodeWords(one) == [0, 29] && EncodeWords(two) == [4, 3] && EncodeWords(three) == [3, 4];
  }

  lemma SuitesOnTheWire()
    ensures EncodeWords([0x1301, 0x1302]) == [0x13, 1, 0x13, 2]
  {
    var suites: seq<Word> := [0x1301, 0x1302];
    assert suites[1..] == [0x1302] && suites[1..][1..] == [];
    assert EncodeWords(suites[1..]) == [0x13, 2] + [];
    assert EncodeWord(0x1301) == [0x13, 1];
  }

  lemma BlockOnTheWire(es: seq<Extension>)
    requires es == [Versions([0x0304])]
    ensures EncodeBlock(es) == [0, 43, 0, 3, 2, 3, 4]
  {
    ExtensionsOnTheWire();
    assert es[1..] == [];
    assert EncodeBlock(es[1..]) == [];
    hide EncodeExtension;
    assert EncodeBlock(es) == EncodeExtension(es[0]) + [];
  }

  /** One whole ClientHello, header by header: record, handshake, version, random, session, suites, compression,
      extensions. */
  lemma RecordOnTheWire(m: Message)
    requires |m.random| == 32 && m.recordVersion == 0x0301 && m.version == 0x0303 && m.sessionId == [9]
    requires m.cipherSuites == [0x1301, 0x1302] && m.compression == [0] && m.extensions == Some([Versions([0x0304])])
    ensures FitsRecord(m)
    ensures EncodeRecord(m) == [22, 3, 1, 0, 57] + ([1, 0, 0, 53] + ([3, 3] + m.random + [1, 9] +
                               ([0, 4, 0x13, 1, 0x13, 2] + [1, 0] + [0, 7] + [0, 43, 0, 3, 2, 3, 4])))
  {
    hide EncodeWords, EncodeBlock;
    SuitesOnTheWire();
    BlockOnTheWire(m.extensions.value);
    assert EncodeWord(4) == [0, 4] && EncodeWord(7) == [0, 7] && EncodeWord(0x0303) == [3, 3];
    assert EncodeWord(0x0301) == [3, 1] && EncodeWord(53) == [0, 53] && EncodeWord(57) == [0, 57];
    hide EncodeWord;
    assert EncodeCiphers(m) == [0, 4, 0x13, 1, 0x13, 2] + [1, 0] + [0, 7] + [0, 43, 0, 3, 2, 3, 4];
    hide EncodeCiphers;
    assert EncodeHello(m) == [3, 3] + m.random + [1, 9] + EncodeCiphers(m);
    hide EncodeHello;
    assert EncodeHandshake(m) == [1, 0, 0, 53] + EncodeHello(m);
  }

  // ----- Extensions of distinct types -----

  /** The extension types in order. */
  function TypesOf(es: seq<Extension>): seq<Word> {
    seq(|es|, i requires 0 <= i < |es| => TypeOf(es[i]))
  }

  lemma {:induction false} CollectTypes(x: Extensions, es: seq<Extension>)
    ensures Collect(x, es).types == x.types + TypesOf(es)
    decreases |es|
  {
    if es == [] {
      assert x.types + TypesOf(es) == x.types;
    } else {
      CollectTypes(Contribute(x.(types := x.types + [TypeOf(es[0])]), es[0]), es[1..]);
      assert TypesOf(es) == [TypeOf(es[0])] + TypesOf(es[1..]);
    }
  }

  /** The field an extension type fills, and what an extension puts there. */
  function Field(x: Extensions, typ: Word): seq<int> {
    if typ == SERVER_NAME then x.serverName
    else if typ == SUPPORTED_GROUPS then x.curves
    else if typ == POINT_FORMATS then x.pointFormats
    else if typ == SUPPORTED_VERSIONS then x.versions
    else if typ == SIGNATURE_ALGORITHMS then x.signatureAlgorithms
    else []
  }

  function Content(e: Extension): seq<int> {
    match e
    case ServerName(name) => name
    case Groups(groups) => groups
    case PointFormats(formats) => formats
    case Versions(versions) => versions
    case SignatureAlgorithms(algorithms) => algorithms
    case Other(_, _) => []
  }

  lemma {:induction false} CollectKeeps(x: Extensions, es: seq<Extension>, typ: Word)
    requires AllFit(es) && forall i :: 0 <= i < |es| ==> TypeOf(es[i]) != typ
    ensures Field(Collect(x, es), typ) == Field(x, typ)
    decreases |es|
  {
    if es != [] {
      assert ExtensionFits(es[0]);
      CollectKeeps(Contribute(x.(types := x.types + [TypeOf(es[0])]), es[0]), es[1..], typ);
    }
  }

  /** With each type at most once, as section 4.2 of RFC 8446 requires, every field is exactly what its extension
      carried. */
  lemma {:induction false} CollectFinds(x: Extensions, es: seq<Extension>, k: nat)
    requires AllFit(es) && k < |es| && (forall i, j :: 0 <= i < j < |es| ==> TypeOf(es[i]) != TypeOf(es[j]))
    requires Field(x, TypeOf(es[k])) == []
    ensures Field(Collect(x, es), TypeOf(es[k])) == Content(es[k])
    decreases |es|
  {
    assert ExtensionFits(es[0]) && ExtensionFits(es[k]);
    var x' := Contribute(x.(types := x.types + [TypeOf(es[0])]), es[0]);
    if k == 0 {
      assert Field(x', TypeOf(es[0])) == Content(es[0]);
      CollectKeeps(x', es[1..], TypeOf(es[0]));
    } else {
      assert es[1..][k - 1] == es[k];
      assert TypeOf(es[0]) != TypeOf(es[k]);
      CollectFinds(x', es[1..], k - 1);
    }
  }

  // ----- The parser object -----

  /** One turn of the extension loop. */
  lemma BlockUnfolds(exs: seq<Byte>, x: Extensions)
    requires |exs| < 65536
    ensures exs == [] ==> ParseBlock(exs, x) == Ok(x)
    ensures 0 < |exs| < 4 ==> ParseBlock(exs, x) == Err(LengthErr(11))
    ensures |exs| >= 4 && |exs| < 4 + WordAt(exs, 2) ==> ParseBlock(exs, x) == Err(LengthErr(12))
    ensures |exs| >= 4 && |exs| >= 4 + WordAt(exs, 2) ==>
      var r := ParseBody(WordAt(exs, 0), exs[4..4 + WordAt(exs, 2)], x.(types := x.types + [WordAt(exs, 0)]));
      Advance(WordAt(exs, 2)) <= |exs| && ParseBlock(exs, x) == if r.Err? then Err(r.error) else ParseBlock(exs[Advance(WordAt(exs, 2))..], r.value)
  {
    hide ParseBody;
  }

  /** Version and cipher suites after parsing, also when it fails: each is filled as soon as its own checks pass. */
  function FieldsAfter(hs: seq<Byte>, fields: (Word, seq<Word>)): (Word, seq<Word>)
    requires |hs| < 65536
  {
    if |hs| < 39 || hs[0] != 1 || |hs| - 4 != hs[1] as int * 65536 + hs[2] as int * 256 + hs[3] as int
       || !Supported(WordAt(hs, 4)) then fields
    else if |hs| < 39 + hs[38] as int then (WordAt(hs, 4), fields.1)
    else
      var cs := hs[39 + hs[38] as int..];
      if |cs| < 2 || |cs| < 2 + WordAt(cs, 0) + 1 then (WordAt(hs, 4), fields.1)
      else (WordAt(hs, 4), Words(cs[2..], WordAt(cs, 0) / 2))
  }

  class Parser {
    var version: Word
    var cipherSuites: seq<Word>
    var extensions: Extensions

    constructor ()
      ensures extensions == NO_EXTENSIONS
    {
      version, cipherSuites, extensions := 0, [], NO_EXTENSIONS;
    }

    /** The two `append(Uint16(s[i:]))` loops. */
    method AppendWords(s: seq<Byte>, n: nat, start: seq<Word>) returns (r: Result<seq<Word>>)
      ensures r == WordLoop(s, n, 0, start)
    {
      var i, words := 0, start;
      while i < n
        invariant i >= 0 && WordLoop(s, n, i, words) == WordLoop(s, n, 0, start)
        decreases n - i
      {
        if i + 2 > |s| {
          return Err(OutOfRange);
        }
        words := words + [WordAt(s, i)];
        i := i + 2;
      }
      return Ok(words);
    }

    /** The counted loops over cipher suites and groups. */
    method ReadWords(s: seq<Byte>, n: nat) returns (words: seq<Word>)
      requires 2 * n <= |s|
      ensures words == Words(s, n)
    {
      words := [];
      for i := 0 to n
        invariant words == Words(s, i)
      {
        words := words + [WordAt(s, 2 * i)];
      }
    }

    method ReadBody(typ: Word, body: seq<Byte>, x: Extensions) returns (r: Result<Extensions>)
      ensures r == ParseBody(typ, body, x)
    {
      if typ == SERVER_NAME {
        if |body| < 5 {
          return Err(LengthErr(13));
        }
        var sniType, sniLen, name := body[2], WordAt(body, 3), body[5..];
        if |name| != sniLen {
          return Err(LengthErr(14));
        }
        if sniType != 0 {
          return Err(SniTypeErr);
        }
        return Ok(x.(serverName := name));
      } else if typ == SUPPORTED_GROUPS {
        if |body| < 2 {
          return Err(LengthErr(15));
        }
        var ecsLen := WordAt(body, 0);
        if |body[2..]| != ecsLen {
          return Err(LengthErr(16));
        }
        var curves := ReadWords(body[2..], ecsLen / 2);
        return Ok(x.(curves := curves));
      } else if typ == POINT_FORMATS {
        if |body| < 1 {
          return Err(LengthErr(17));
        }
        if |body[1..]| != body[0] {
          return Err(LengthErr(18));
        }
        return Ok(x.(pointFormats := body[1..]));
      } else if typ == SUPPORTED_VERSIONS {
        if |body| < 1 {
          return Err(LengthErr(19));
        }
        var versions := AppendWords(body[1..], body[0], x.versions);
        return if versions.Ok? then Ok(x.(versions := versions.value)) else Err(versions.error);
      } else if typ == SIGNATURE_ALGORITHMS {
        if |body| < 2 {
          return Err(LengthErr(20));
        }
        var algorithms := AppendWords(body[2..], WordAt(body, 0), x.signatureAlgorithms);
        return if algorithms.Ok? then Ok(x.(signatureAlgorithms := algorithms.value)) else Err(algorithms.error);
      }
      return Ok(x);
    }

    method ReadExtensions(block: seq<Byte>) returns (err: Option<Error>)
      requires |block| < 65536
      modifies this`extensions
      ensures match ParseExtensions(block)
        case Ok(x) => err.None? && (extensions == x || (block == [] && extensions == old(extensions)))
        case Err(e) => err == Some(e) && extensions == old(extensions)
    {
      hide ParseBody, ParseBlock;
      if |block| == 0 {
        return None;
      }
      if |block| < 2 {
        return Some(LengthErr(9));
      }
      var exsLen, exs, x := WordAt(block, 0), block[2..], NO_EXTENSIONS;
      if |exs| < exsLen {
        return Some(LengthErr(10));
      }
      while |exs| > 0
        invariant extensions == old(extensions)
        invariant |exs| < 65536 && ParseBlock(exs, x) == ParseBlock(block[2..], NO_EXTENSIONS)
        decreases |exs|
      {
        BlockUnfolds(exs, x);
        if |exs| < 4 {
          return Some(LengthErr(11));
        }
        var exType, exLen := WordAt(exs, 0), WordAt(exs, 2);
        if |exs| < 4 + exLen as int {
          return Some(LengthErr(12));
        }
        var r := ReadBody(exType, exs[4..4 + exLen as int], x.(types := x.types + [exType]));
        if r.Err? {
          return Some(r.error);
        }
        x := r.value;
        exs := exs[Advance(exLen)..];
      }
      BlockUnfolds(exs, x);
      extensions := x;
      return None;
    }

    method ReadHandshake(hs: seq<Byte>) returns (err: Option<Error>)
      requires |hs| < 65536 && extensions == NO_EXTENSIONS
      modifies this
      ensures match ParseHandshake(hs)
        case Ok(h) => err.None? && h == Hello(version, cipherSuites, extensions)
        case Err(e) => err == Some(e) && extensions == NO_EXTENSIONS
      ensures (version, cipherSuites) == FieldsAfter(hs, (old(version), old(cipherSuites)))
    {
      hide ParseBlock, Words;
      if |hs| < 39 {
        return Some(LengthErr(3));
      }
      if hs[0] != 1 {
        return Some(HandshakeTypeErr);
      }
      if |hs[4..]| != hs[1] as int * 65536 + hs[2] as int * 256 + hs[3] as int {
        return Some(LengthErr(4));
      }
      if !Supported(WordAt(hs, 4)) {
        return Some(VersionErr(2));
      }
      version := WordAt(hs, 4);
      if |hs| < 39 + hs[38] as int {
        return Some(LengthErr(5));
      }
      var cs := hs[39 + hs[38] as int..];
      if |cs| < 2 {
        return Some(LengthErr(6));
      }
      var csLen := WordAt(cs, 0) as int;
      if |cs| < 2 + csLen + 1 {
        return Some(LengthErr(7));
      }
      cipherSuites := ReadWords(cs[2..], csLen / 2);
      var compressLen := cs[2 + csLen] as int;
      if |cs| < 2 + csLen + 1 + compressLen {
        return Some(LengthErr(8));
      }
      err := ReadExtensions(cs[2 + csLen + 1 + compressLen..]);
    }

    /** parseSegment on a fresh object. */
    method ReadSegment(segment: seq<Byte>) returns (err: Option<Error>)
      requires extensions == NO_EXTENSIONS
      modifies this
      ensures match ParseSegment(segment)
        case Ok(h) => err.None? && h == Hello(version, cipherSuites, extensions)
        case Err(e) => err == Some(e) && extensions == NO_EXTENSIONS
      ensures (version, cipherSuites) ==
        if HandshakeOf(segment).None? then (old(version), old(cipherSuites))
        else FieldsAfter(HandshakeOf(segment).value, (old(version), old(cipherSuites)))
    {
      hide ParseHandshake, FieldsAfter;
      if |segment| < 5 {
        return Some(LengthErr(1));
      }
      if segment[0] != 22 {
        return Some(ContentTypeErr);
      }
      if !Supported(WordAt(segment, 1)) {
        return Some(VersionErr(1));
      }
      var segmentLen := WordAt(segment, 3);
      if |segment[5..]| < segmentLen {
        return Some(LengthErr(2));
      }
      err := ReadHandshake(segment[5..5 + segmentLen]);
    }
  }
}
