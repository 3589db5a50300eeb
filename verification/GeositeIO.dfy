/** The geosite writer's loops and the stateful reader: a seekable source behind a buffered reader and, while the
    metadata is read, a byte counter. */
module GeositeIO {
  import opened Common
  import opened Uvarint
  import opened GeositeFormat

  // ----- sort.Strings -----

  /** Go compares strings byte by byte. */
  predicate Less(a: seq<Byte>, b: seq<Byte>) {
    if b == [] then false
    else if a == [] then true
    else if a[0] != b[0] then a[0] < b[0]
    else Less(a[1..], b[1..])
  }

  /** The order is the dictionary order of bytes: at the first difference the smaller byte decides, and a proper prefix
      comes first. */
  lemma {:induction false} LessIsLexicographic(a: seq<Byte>, b: seq<Byte>)
    ensures Less(a, b) <==> exists k :: 0 <= k <= |a| && k < |b| && a[..k] == b[..k] && (k == |a| || a[k] < b[k])
    decreases |b|
  {
    if b != [] && a != [] {
      var a1, b1 := a[1..], b[1..];
      LessIsLexicographic(a1, b1);
      if a[0] == b[0] {
        if k :| 0 <= k <= |a1| && k < |b1| && a1[..k] == b1[..k] && (k == |a1| || a1[k] < b1[k]) {
          assert a[..k + 1] == [a[0]] + a1[..k] && b[..k + 1] == [b[0]] + b1[..k];
          assert k + 1 == |a| || a[k + 1] < b[k + 1];
        }
        if k :| 0 <= k <= |a| && k < |b| && a[..k] == b[..k] && (k == |a| || a[k] < b[k]) {
          assert k > 0;
          assert a1[..k - 1] == a[..k][1..] && b1[..k - 1] == b[..k][1..];
          assert k - 1 == |a1| || a1[k - 1] < b1[k - 1];
        }
      } else {
        assert a[..0] == b[..0];
        if k :| 0 <= k <= |a| && k < |b| && a[..k] == b[..k] && (k == |a| || a[k] < b[k]) {
          assert k > 0 ==> a[..k][0] == b[..k][0];
        }
      }
    } else if b != [] {
      assert a[..0] == b[..0];
    }
  }

  lemma {:induction false} LessTrichotomy(a: seq<Byte>, b: seq<Byte>)
    ensures (Less(a, b) || Less(b, a)) <==> a != b
    ensures !(Less(a, b) && Less(b, a))
  {
    if a != [] && b != [] && a[0] == b[0] {
      LessTrichotomy(a[1..], b[1..]);
      assert a == [a[0]] + a[1..] && b == [b[0]] + b[1..];
    }
  }

  lemma {:induction false} LessTransitive(a: seq<Byte>, b: seq<Byte>, c: seq<Byte>)
    requires Less(a, b) && Less(b, c)
    ensures Less(a, c)
  {
    if a != [] && a[0] == b[0] && b[0] == c[0] {
      LessTransitive(a[1..], b[1..], c[1..]);
    }
  }

  ghost predicate Sorted(keys: seq<Code>) {
    forall i, j :: 0 <= i < j < |keys| ==> Less(keys[i], keys[j])
  }

  function Insert(keys: seq<Code>, key: Code): (r: seq<Code>)
    ensures forall k :: k in r <==> k in keys || k == key
  {
    if keys == [] then [key]
    else if Less(key, keys[0]) then [key] + keys
    else [keys[0]] + Insert(keys[1..], key)
  }

  lemma {:induction false} InsertSorted(keys: seq<Code>, key: Code)
    requires Sorted(keys) && key !in keys
    ensures Sorted(Insert(keys, key))
  {
    if keys != [] {
      LessTrichotomy(key, keys[0]);
      if Less(key, keys[0]) {
        forall j | 0 <= j < |keys| ensures Less(key, keys[j]) {
          if j > 0 { LessTransitive(key, keys[0], keys[j]); }
        }
      } else {
        var tail := Insert(keys[1..], key);
        InsertSorted(keys[1..], key);
        forall j | 0 <= j < |tail| ensures Less(keys[0], tail[j]) {
          assert tail[j] in tail;
          if tail[j] != key {
            var i :| 0 <= i < |keys[1..]| && keys[1..][i] == tail[j];
            assert Less(keys[0], keys[i + 1]);
          }
        }
      }
    }
  }

  /** The sorted key list of a map is unique, so the file is a function of the map. */
  lemma {:induction false} SortedUnique(a: seq<Code>, b: seq<Code>)
    requires Sorted(a) && Sorted(b) && forall k :: k in a <==> k in b
    ensures a == b
  {
    assert |a| > 0 ==> a[0] in b;
    assert |b| > 0 ==> b[0] in a;
    if a != [] && b != [] {
      FirstIsLeast(a, b);
      FirstIsLeast(b, a);
      LessTrichotomy(a[0], b[0]);
      forall k ensures k in a[1..] <==> k in b[1..] {
        RestMembers(a, k);
        RestMembers(b, k);
      }
      SortedUnique(a[1..], b[1..]);
      assert a == [a[0]] + a[1..] && b == [b[0]] + b[1..];
    }
  }

  lemma FirstIsLeast(a: seq<Code>, b: seq<Code>)
    requires a != [] && b != [] && Sorted(a) && b[0] in a
    ensures a[0] == b[0] || Less(a[0], b[0])
  {
  }

  lemma RestMembers(a: seq<Code>, k: Code)
    requires a != [] && Sorted(a)
    ensures k in a[1..] <==> k in a && k != a[0]
  {
    LessTrichotomy(a[0], k);
    assert a == [a[0]] + a[1..];
    if k in a[1..] {
      var i :| 0 <= i < |a[1..]| && a[1..][i] == k;
      assert Less(a[0], a[i + 1]);
    }
  }

  lemma SortedIsKeyList(domains: Domains, keys: seq<Code>)
    requires Sorted(keys) && forall k :: k in keys <==> k in domains
    ensures KeyList(domains, keys)
  {
    forall i, j | 0 <= i < j < |keys| ensures keys[i] != keys[j] {
      LessTrichotomy(keys[i], keys[j]);
    }
  }

  /** The keys of the map in ascending order, whatever order the map yields them in. */
  method SortedKeys(domains: Domains) returns (keys: seq<Code>)
    ensures Sorted(keys) && forall k :: k in keys <==> k in domains
  {
    keys := [];
    var todo := domains.Keys;
    while todo != {}
      invariant todo <= domains.Keys && Sorted(keys)
      invariant forall k :: k in keys <==> k in domains && k !in todo
      decreases |todo|
    {
      var k :| k in todo;
      InsertSorted(keys, k);
      keys := Insert(keys, k);
      todo := todo - {k};
    }
  }

  // ----- Writing -----

  method WriteItems(content: seq<Byte>, items: seq<Item>) returns (out: seq<Byte>)
    ensures out == content + PrintItems(items)
  {
    out := content;
    for i := 0 to |items|
      invariant out + PrintItems(items[i..]) == content + PrintItems(items)
    {
      hide PrintString;
      assert items[i..][1..] == items[i + 1..];
      ghost var tail := PrintItems(items[i + 1..]);
      out := out + [items[i].kind] + PrintString(items[i].value);
      assert PrintItems(items[i..]) == PrintItem(items[i]) + tail;
    }
    assert items[|items|..] == [];
    assert out + PrintItems([]) == out;
  }

  lemma ContentStart(domains: Domains, keys: seq<Code>)
    ensures Content(domains, keys, 0) == []
  {
  }

  lemma ContentStep(domains: Domains, keys: seq<Code>, i: nat)
    requires i < |keys|
    ensures Content(domains, keys, i + 1) == Content(domains, keys, i) + PrintItems(ItemsOf(domains, keys[i]))
  {
  }

  lemma PrintRowsStep(rows: seq<Row>, i: nat)
    requires i < |rows|
    ensures PrintRows(rows[i..]) == PrintRow(rows[i]) + PrintRows(rows[i + 1..])
  {
    assert rows[i..][1..] == rows[i + 1..];
  }

  /** The content area, with the offset of each code. */
  method WriteContent(domains: Domains, keys: seq<Code>) returns (content: seq<Byte>, index: map<Code, nat>)
    requires KeyList(domains, keys)
    ensures content == Content(domains, keys, |keys|)
    ensures forall j :: 0 <= j < |keys| ==> keys[j] in index && index[keys[j]] == |Content(domains, keys, j)|
  {
    hide Content, PrintItems;
    content, index := [], map[];
    ContentStart(domains, keys);
    for i := 0 to |keys|
      invariant content == Content(domains, keys, i)
      invariant forall j :: 0 <= j < i ==> keys[j] in index && index[keys[j]] == |Content(domains, keys, j)|
    {
      assert keys[i] in keys;
      ContentStep(domains, keys, i);
      index := index[keys[i] := |content|];
      content := WriteItems(content, domains[keys[i]]);
    }
  }

  /** Write: the bytes are the file of the sorted keys, so they are determined by the map. */
  method Write(domains: Domains) returns (out: seq<Byte>, ghost keys: seq<Code>)
    ensures KeyList(domains, keys) && Sorted(keys)
    ensures out == File(domains, keys)
  {
    hide PrintRows, Encode, Content, Less;
    var sorted := SortedKeys(domains);
    SortedIsKeyList(domains, sorted);
    keys := sorted;
    var content, index := WriteContent(domains, sorted);
    var rows := WriteRows(domains, sorted, index);
    out := [0] + (Encode(|sorted|) + rows) + content;
  }

  method WriteRows(domains: Domains, keys: seq<Code>, index: map<Code, nat>) returns (out: seq<Byte>)
    requires forall k :: k in keys ==> k in domains
    requires forall j :: 0 <= j < |keys| ==> keys[j] in index && index[keys[j]] == |Content(domains, keys, j)|
    ensures out == PrintRows(Rows(domains, keys))
  {
    hide PrintString, Encode, Content, PrintRows;
    ghost var rows := Rows(domains, keys);
    out := [];
    assert rows[0..] == rows;
    for i := 0 to |keys|
      invariant out + PrintRows(rows[i..]) == PrintRows(rows)
    {
      PrintRowsStep(rows, i);
      assert rows[i] == RowAt(domains, keys, i);
      assert keys[i] in keys;
      ghost var before, tail := out, PrintRows(rows[i + 1..]);
      var row := PrintString(keys[i]) + (Encode(index[keys[i]]) + Encode(|domains[keys[i]]|));
      out := out + row;
      assert row == PrintRow(rows[i]);
      assert out + tail == before + (row + tail);
    }
    assert rows[|keys|..] == [];
    PrintRowsEmpty();
    assert out + [] == out;
  }

  lemma PrintRowsEmpty()
    ensures PrintRows([]) == []
  {
  }

  lemma WriteDeterministic(domains: Domains, a: seq<Code>, b: seq<Code>)
    requires KeyList(domains, a) && KeyList(domains, b) && Sorted(a) && Sorted(b)
    ensures File(domains, a) == File(domains, b)
  {
    SortedUnique(a, b);
  }

  // ----- Reading -----

  datatype Result<+T> = Success(value: T) | Failure(error: Error)

  /** What a parse says to a caller that keeps the remaining input itself. */
  function Outcome<T>(p: Parsed<T>): Result<T> {
    match p case Ok(v, _) => Success(v) case Err(e) => Failure(e)
  }

  const BUFFER_SIZE: nat := 4096

  lemma DecodeUnfold(bytes: seq<Byte>, i: nat, x: nat, unit: nat)
    requires i <= 10
    ensures i == 10 ==> DecodeFrom(bytes, i, x, unit) == Err(Overflow)
    ensures i < 10 && bytes == [] ==> DecodeFrom(bytes, i, x, unit) == Err(if i > 0 then UnexpectedEOF else EOF)
    ensures i < 10 && bytes != [] && bytes[0] < 128 ==>
              DecodeFrom(bytes, i, x, unit) ==
                if i == 9 && bytes[0] > 1 then Err(Overflow) else Ok(x + bytes[0] * unit, bytes[1..])
    ensures i < 10 && bytes != [] && bytes[0] >= 128 ==>
              DecodeFrom(bytes, i, x, unit) == DecodeFrom(bytes[1..], i + 1, x + (bytes[0] - 128) * unit, unit * 128)
  {
  }

  class Reader {
    const data: seq<Byte>                 // what the io.ReadSeeker holds
    var position: nat                     // its seek position
    var buffer: seq<Byte>                 // bytes bufio has read ahead and not yet handed out
    var counting: bool                    // bufio reads through the readCounter
    var count: nat                        // readCounter.count
    var metadataIndex: nat
    var meta: Metadata                    // domainIndex and domainLength

    /** Everything still to be read, in order. */
    ghost function Rest(): seq<Byte>
      reads this
    {
      buffer + if position <= |data| then data[position..] else []
    }

    /** While counting, the counter is the source's position, so that count minus what is buffered is how far
        the reader has consumed. */
    ghost predicate Valid()
      reads this
    {
      && (counting ==> count == position && position <= |data|)
      && (counting ==> |buffer| <= position)
    }

    constructor (data: seq<Byte>)
      ensures Valid() && counting && Rest() == data && this.data == data && meta == NO_METADATA
    {
      this.data := data;
      position, buffer, counting, count, metadataIndex, meta := 0, [], true, 0, 0, NO_METADATA;
    }

    /** bufio's ReadByte: refills with a chunk of any size the source chooses to return. */
    method ReadByte() returns (r: Result<Byte>)
      requires Valid()
      modifies this`position, this`buffer, this`count
      ensures Valid()
      ensures if old(Rest()) == [] then r == Failure(EOF) && Rest() == []
              else r == Success(old(Rest())[0]) && Rest() == old(Rest())[1..]
    {
      if buffer == [] {
        if position >= |data| {
          return Failure(EOF);
        }
        var n: nat :| 1 <= n <= |data| - position && n <= BUFFER_SIZE;
        buffer := data[position..position + n];
        assert buffer + data[position + n..] == data[position..];
        position := position + n;
        if counting {
          count := count + n;
        }
      }
      r := Success(buffer[0]);
      buffer := buffer[1..];
    }

    method ReadUvarint() returns (r: Result<nat>)
      requires Valid()
      modifies this`position, this`buffer, this`count
      ensures Valid() && r == Outcome(Decode(old(Rest())))
      ensures r.Success? ==> Rest() == Decode(old(Rest())).rest
    {
      hide DecodeFrom;
      ghost var start := Rest();
      var x: nat, unit: nat := 0, 1;
      for i := 0 to 10
        invariant Valid()
        invariant DecodeFrom(Rest(), i, x, unit) == Decode(start)
      {
        DecodeUnfold(Rest(), i, x, unit);
        var b := ReadByte();
        if b.Failure? {
          return Failure(if i > 0 then UnexpectedEOF else EOF);
        }
        if b.value < 128 {
          if i == 9 && b.value > 1 {
            return Failure(Overflow);
          }
          return Success(x + b.value * unit);
        }
        x, unit := x + (b.value - 128) * unit, unit * 128;
      }
      DecodeUnfold(Rest(), 10, x, unit);
      return Failure(Overflow);
    }

    /** The byte loop of readString. */
    method ReadBytes(n: nat) returns (r: Result<seq<Byte>>)
      requires Valid()
      modifies this`position, this`buffer, this`count
      ensures Valid()
      ensures if |old(Rest())| < n then r == Failure(EOF)
              else r == Success(old(Rest())[..n]) && Rest() == old(Rest())[n..]
    {
      ghost var start := Rest();
      var bytes: seq<Byte> := [];
      for i := 0 to n
        invariant Valid()
        invariant |bytes| == i <= |start| && bytes == start[..i] && Rest() == start[i..]
      {
        var b := ReadByte();
        if b.Failure? {
          return Failure(EOF);
        }
        bytes := bytes + [b.value];
      }
      return Success(bytes);
    }

    method ReadString() returns (r: Result<seq<Byte>>)
      requires Valid()
      modifies this`position, this`buffer, this`count
      ensures Valid() && r == Outcome(ParseString(old(Rest())))
      ensures r.Success? ==> Rest() == ParseString(old(Rest())).rest
    {
      hide Decode;
      var length := ReadUvarint();
      if length.Failure? {
        return Failure(length.error);
      }
      r := ReadBytes(length.value);
    }

    method ReadRow() returns (r: Result<Row>)
      requires Valid()
      modifies this`position, this`buffer, this`count
      ensures Valid() && r == Outcome(ParseRow(old(Rest())))
      ensures r.Success? ==> Rest() == ParseRow(old(Rest())).rest
    {
      hide ParseString, Decode;
      var code := ReadString();
      if code.Failure? {
        return Failure(code.error);
      }
      var offset := ReadUvarint();
      if offset.Failure? {
        return Failure(offset.error);
      }
      var length := ReadUvarint();
      if length.Failure? {
        return Failure(length.error);
      }
      return Success(Row(code.value, offset.value, length.value));
    }

    /** readMetadata: on success the maps are those of the parse and `metadataIndex` is where the content area
        starts, although the buffer has usually read past it. */
    method ReadMetadata() returns (r: Result<()>)
      requires Valid() && counting && Rest() == data
      modifies this
      ensures match ParseMetadata(data)
        case Ok(m, rest) => r == Success(()) && meta == m && metadataIndex + |rest| == |data|
        case Err(e) => r == Failure(e)
    {
      hide Decode, ParseRow;
      var version := ReadByte();
      if version.Failure? {
        return Failure(version.error);
      }
      if version.value != 0 {
        return Failure(UnknownVersion);
      }
      var entryLength := ReadUvarint();
      if entryLength.Failure? {
        return Failure(entryLength.error);
      }
      if entryLength.value >= TWO63 {
        return Failure(AllocationPanic);
      }
      ghost var start := Rest();
      var m := NO_METADATA;
      for i := 0 to entryLength.value
        invariant Valid() && counting
        invariant ParseRows(entryLength.value - i, Rest(), m) == ParseRows(entryLength.value, start, NO_METADATA)
      {
        var row := ReadRow();
        if row.Failure? {
          return Failure(row.error);
        }
        m := Indexed(m, row.value);
      }
      meta := m;
      metadataIndex := count - |buffer|;
      return Success(());
    }

    /** Read: seek, drop what was buffered, parse.  The outcome depends only on the file and the metadata, so codes
        can be read in any order and any number of times. */
    method Read(code: Code) returns (r: Result<seq<Item>>)
      modifies this`position, this`buffer, this`counting, this`count
      ensures r == Outcome(ReadCode(data, metadataIndex, meta, code))
    {
      hide ParseString;
      if code !in meta.index || code !in meta.length {
        return Failure(NotExists);
      }
      if metadataIndex + meta.index[code] < 0 {
        return Failure(SeekError);
      }
      if meta.length[code] < 0 {
        return Failure(AllocationPanic);
      }
      position, buffer, counting := metadataIndex + meta.index[code], [], false;
      ghost var start := Rest();
      assert start == if position <= |data| then data[position..] else [];
      var n := meta.length[code];
      var items: seq<Item> := [];
      for i := 0 to n
        invariant Valid() && !counting
        invariant ParseItems(n - i, Rest(), items) == ParseItems(n, start, [])
      {
        ghost var before := Rest();
        var kind := ReadByte();
        if kind.Failure? {
          return Failure(kind.error);
        }
        var value := ReadString();
        if value.Failure? {
          assert ParseString(before[1..]) == Err(value.error);
          assert ParseItems(n - i, before, items) == Err(value.error);
          return Failure(value.error);
        }
        items := items + [Item(kind.value, value.value)];
      }
      return Success(items);
    }
  }

  /** The whole trip through the file: write a map, open the bytes, ask for any codes in any order and as often
      as wanted, and get each code's items, or an error for a code the map does not have. */
  method WriteOpenRead(domains: Domains, codes: seq<Code>) returns (answers: seq<Result<seq<Item>>>, listed: set<Code>, tooLong: bool)
    ensures !tooLong ==> listed == domains.Keys && |answers| == |codes|
    ensures !tooLong ==> forall i :: 0 <= i < |codes| ==>
              answers[i] == if codes[i] in domains then Success(domains[codes[i]]) else Failure(NotExists)
    ensures tooLong ==> exists keys :: KeyList(domains, keys) && |File(domains, keys)| >= TWO63
  {
    hide File, ParseMetadata, ReadCode, Header, Less;
    var bytes, keys := Write(domains);
    answers, listed, tooLong := [], {}, |bytes| >= TWO63;
    if tooLong {
      return;
    }
    ghost var meta := OpenWritten(domains, keys);
    var reader := new Reader(bytes);
    var opening := reader.ReadMetadata();
    OpenWrittenStart(domains, keys);
    listed := reader.meta.index.Keys;
    forall code ensures code in listed <==> code in domains {
      assert HoldsCode(domains, meta, code);
    }
    for i := 0 to |codes|
      invariant reader.meta == meta && reader.metadataIndex == |Header(domains, keys)| && fresh(reader) && |answers| == i
      invariant forall j :: 0 <= j < i ==>
                  answers[j] == if codes[j] in domains then Success(domains[codes[j]]) else Failure(NotExists)
    {
      ReadWritten(domains, keys, meta, codes[i]);
      var answer := reader.Read(codes[i]);
      answers := answers + [answer];
    }
  }

  lemma OpenWrittenStart(domains: Domains, keys: seq<Code>)
    ensures |Header(domains, keys)| + |Content(domains, keys, |keys|)| == |File(domains, keys)|
  {
  }
}
