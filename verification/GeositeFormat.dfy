/** The geosite file: a version byte, the number of codes, an index table of (code, content offset, item
    count), and a content area.  Printing and parsing as functions, and the round trip between them. */
module GeositeFormat {
  import opened Common
  import opened Uvarint

  type Code = seq<Byte>

  datatype Item = Item(kind: Byte, value: seq<Byte>)

  type Domains = map<Code, seq<Item>>

  // ----- Printing -----

  function PrintString(s: seq<Byte>): seq<Byte> {
    Encode(|s|) + s
  }

  function PrintItem(item: Item): seq<Byte> {
    [item.kind] + PrintString(item.value)
  }

  function PrintItems(items: seq<Item>): seq<Byte> {
    if items == [] then [] else PrintItem(items[0]) + PrintItems(items[1..])
  }

  /** A missing key reads as the nil slice. */
  function ItemsOf(domains: Domains, code: Code): seq<Item> {
    if code in domains then domains[code] else []
  }

  /** The content area of the first `n` codes; its length is the offset of code `n`. */
  function Content(domains: Domains, keys: seq<Code>, n: nat): seq<Byte>
    requires n <= |keys|
  {
    if n == 0 then [] else Content(domains, keys, n - 1) + PrintItems(ItemsOf(domains, keys[n - 1]))
  }

  /** An entry of the index table. */
  datatype Row = Row(code: Code, offset: nat, count: nat)

  function RowAt(domains: Domains, keys: seq<Code>, i: nat): Row
    requires i < |keys|
  {
    Row(keys[i], |Content(domains, keys, i)|, |ItemsOf(domains, keys[i])|)
  }

  function Rows(domains: Domains, keys: seq<Code>): seq<Row> {
    seq(|keys|, i requires 0 <= i < |keys| => RowAt(domains, keys, i))
  }

  function PrintRow(row: Row): seq<Byte> {
    PrintString(row.code) + (Encode(row.offset) + Encode(row.count))
  }

  function PrintRows(rows: seq<Row>): seq<Byte> {
    if rows == [] then [] else PrintRow(rows[0]) + PrintRows(rows[1..])
  }

  /** Everything before the content area. */
  function Header(domains: Domains, keys: seq<Code>): seq<Byte> {
    [0] + (Encode(|keys|) + PrintRows(Rows(domains, keys)))
  }

  function File(domains: Domains, keys: seq<Code>): seq<Byte> {
    Header(domains, keys) + Content(domains, keys, |keys|)
  }

  /** The layout, byte by byte, of a file with the codes "a" and "b": version, number of codes, a row of name, offset and
      count for each, then the items, each a kind and a value. */
  lemma FileLayout(domains: Domains)
    requires domains == map[[97] := [Item(1, [120, 121])], [98] := [Item(0, []), Item(2, [122])]]
    ensures File(domains, [[97], [98]]) == [0, 2] + [1, 97, 0, 1] + [1, 98, 4, 2] + [1, 2, 120, 121] + [0, 0] + [2, 1, 122]
  {
    hide PrintItems, PrintRows, Content;
    var keys: seq<Code> := [[97], [98]];
    LayoutOfContent(domains, keys);
    var rows := Rows(domains, keys);
    assert rows == [Row([97], 0, 1), Row([98], 4, 2)];
    LayoutOfRows(rows);
    assert Encode(2) == [2];
  }

  lemma LayoutOfItems()
    ensures PrintItems([Item(1, [120, 121])]) == [1, 2, 120, 121]
    ensures PrintItems([Item(0, []), Item(2, [122])]) == [0, 0] + [2, 1, 122]
  {
    var one: seq<Item> := [Item(1, [120, 121])];
    var two: seq<Item> := [Item(0, []), Item(2, [122])];
    assert one[1..] == [] && two[1..] == [Item(2, [122])] && two[1..][1..] == [];
    assert PrintItem(one[0]) == [1, 2, 120, 121] && PrintItem(two[0]) == [0, 0] && PrintItem(two[1]) == [2, 1, 122];
    assert PrintItems(one) == [1, 2, 120, 121] + [];
    assert PrintItems(two[1..]) == [2, 1, 122] + [];
  }

  lemma LayoutOfContent(domains: Domains, keys: seq<Code>)
    requires domains == map[[97] := [Item(1, [120, 121])], [98] := [Item(0, []), Item(2, [122])]] && keys == [[97], [98]]
    ensures Content(domains, keys, 0) == [] && Content(domains, keys, 1) == [1, 2, 120, 121]
    ensures Content(domains, keys, 2) == [1, 2, 120, 121] + ([0, 0] + [2, 1, 122])
  {
    LayoutOfItems();
    hide PrintItems;
    assert ItemsOf(domains, keys[0]) == [Item(1, [120, 121])];
    assert ItemsOf(domains, keys[1]) == [Item(0, []), Item(2, [122])];
    assert Content(domains, keys, 1) == [] + [1, 2, 120, 121];
  }

  lemma LayoutOfRows(rows: seq<Row>)
    requires rows == [Row([97], 0, 1), Row([98], 4, 2)]
    ensures PrintRows(rows) == [1, 97, 0, 1] + [1, 98, 4, 2]
  {
    assert rows[1..] == [rows[1]] && rows[1..][1..] == [];
    assert PrintRow(rows[0]) == [1, 97, 0, 1] && PrintRow(rows[1]) == [1, 98, 4, 2];
    assert PrintRows(rows[1..]) == [1, 98, 4, 2] + [];
  }

  // ----- Parsing -----

  function ParseString(bytes: seq<Byte>): Parsed<seq<Byte>> {
    match Decode(bytes)
    case Err(e) => Err(e)
    case Ok(length, rest) => if |rest| < length then Err(EOF) else Ok(rest[..length], rest[length..])
  }

  function ParseItems(n: nat, bytes: seq<Byte>, done: seq<Item>): Parsed<seq<Item>> {
    if n == 0 then Ok(done, bytes)
    else if bytes == [] then Err(EOF)
    else match ParseString(bytes[1..])
      case Err(e) => Err(e)
      case Ok(value, rest) => ParseItems(n - 1, rest, done + [Item(bytes[0], value)])
  }

  /** int(x) of a uint64. */
  function ToInt(x: nat): int {
    if x % TWO64 < TWO63 then x % TWO64 else x % TWO64 - TWO64
  }

  datatype Metadata = Metadata(index: map<Code, int>, length: map<Code, int>)

  function ParseRow(bytes: seq<Byte>): Parsed<Row> {
    match ParseString(bytes)
    case Err(e) => Err(e)
    case Ok(code, rest) =>
      match Decode(rest)
      case Err(e) => Err(e)
      case Ok(offset, rest2) =>
        match Decode(rest2)
        case Err(e) => Err(e)
        case Ok(count, rest3) => Ok(Row(code, offset, count), rest3)
  }

  function Indexed(meta: Metadata, row: Row): Metadata {
    Metadata(meta.index[row.code := ToInt(row.offset)], meta.length[row.code := ToInt(row.count)])
  }

  function ParseRows(n: nat, bytes: seq<Byte>, meta: Metadata): Parsed<Metadata> {
    if n == 0 then Ok(meta, bytes)
    else match ParseRow(bytes)
      case Err(e) => Err(e)
      case Ok(row, rest) => ParseRows(n - 1, rest, Indexed(meta, row))
  }

  const NO_METADATA := Metadata(map[], map[])

  /** readMetadata; allocating a table of 2^63 or more keys panics before anything else is read. */
  function ParseMetadata(bytes: seq<Byte>): Parsed<Metadata> {
    if bytes == [] then Err(EOF)
    else if bytes[0] != 0 then Err(UnknownVersion)
    else match Decode(bytes[1..])
      case Err(e) => Err(e)
      case Ok(n, rest) => if n >= TWO63 then Err(AllocationPanic) else ParseRows(n, rest, NO_METADATA)
  }

  /** Read(code) on an opened file whose content area starts at `start`. */
  function ReadCode(file: seq<Byte>, start: nat, meta: Metadata, code: Code): Parsed<seq<Item>> {
    if code !in meta.index || code !in meta.length then Err(NotExists)
    else if start + meta.index[code] < 0 then Err(SeekError)
    else if meta.length[code] < 0 then Err(AllocationPanic)
    else
      var position := start + meta.index[code];
      ParseItems(meta.length[code], if position <= |file| then file[position..] else [], [])
  }

  // ----- Round trip -----

  lemma StringRoundTrip(s: seq<Byte>, suffix: seq<Byte>)
    requires |s| < TWO64
    ensures ParseString(PrintString(s) + suffix) == Ok(s, suffix)
  {
    assert PrintString(s) + suffix == Encode(|s|) + (s + suffix);
    DecodeEncode(|s|, s + suffix);
    assert (s + suffix)[..|s|] == s && (s + suffix)[|s|..] == suffix;
  }

  /** Each item takes at least two bytes, and no string is longer than what contains it. */
  lemma {:induction false} PrintItemsSize(items: seq<Item>)
    ensures |items| <= |PrintItems(items)|
    ensures forall i :: 0 <= i < |items| ==> |items[i].value| <= |PrintItems(items)|
  {
    if items != [] {
      PrintItemsSize(items[1..]);
      forall i | 0 <= i < |items| ensures |items[i].value| <= |PrintItems(items)| {
        assert i > 0 ==> items[i] == items[1..][i - 1];
      }
    }
  }

  lemma ItemStep(n: nat, item: Item, suffix: seq<Byte>, done: seq<Item>)
    requires |item.value| < TWO64
    ensures ParseItems(n + 1, PrintItem(item) + suffix, done) == ParseItems(n, suffix, done + [item])
  {
    var bytes := PrintItem(item) + suffix;
    assert bytes[1..] == PrintString(item.value) + suffix;
    StringRoundTrip(item.value, suffix);
    assert Item(bytes[0], item.value) == item;
  }

  lemma {:induction false} ItemsRoundTrip(items: seq<Item>, done: seq<Item>, suffix: seq<Byte>)
    requires forall i :: 0 <= i < |items| ==> |items[i].value| < TWO64
    ensures ParseItems(|items|, PrintItems(items) + suffix, done) == Ok(done + items, suffix)
    decreases |items|
  {
    hide PrintItem, ParseString;
    if items == [] {
      assert PrintItems(items) + suffix == suffix;
      assert done + items == done;
    } else {
      var item, tail := items[0], items[1..];
      assert PrintItems(items) + suffix == PrintItem(item) + (PrintItems(tail) + suffix);
      ItemStep(|tail|, item, PrintItems(tail) + suffix, done);
      ItemsRoundTrip(tail, done + [item], suffix);
      assert done + [item] + tail == done + items;
    }
  }

  ghost predicate RowFits(row: Row) {
    |row.code| < TWO63 && row.offset < TWO63 && row.count < TWO63
  }

  lemma RowRoundTrip(row: Row, suffix: seq<Byte>)
    requires RowFits(row)
    ensures ParseRow(PrintRow(row) + suffix) == Ok(row, suffix)
  {
    var offset, count := Encode(row.offset), Encode(row.count);
    assert PrintRow(row) + suffix == PrintString(row.code) + (offset + (count + suffix));
    StringRoundTrip(row.code, offset + (count + suffix));
    DecodeEncode(row.offset, count + suffix);
    DecodeEncode(row.count, suffix);
  }

  function IndexedAll(meta: Metadata, rows: seq<Row>): Metadata
    decreases |rows|
  {
    if rows == [] then meta else IndexedAll(Indexed(meta, rows[0]), rows[1..])
  }

  lemma FirstRow(rows: seq<Row>, suffix: seq<Byte>)
    requires rows != []
    ensures PrintRows(rows) + suffix == PrintRow(rows[0]) + (PrintRows(rows[1..]) + suffix)
  {
  }

  lemma {:induction false} RowsRoundTrip(rows: seq<Row>, suffix: seq<Byte>, meta: Metadata)
    requires forall i :: 0 <= i < |rows| ==> RowFits(rows[i])
    ensures ParseRows(|rows|, PrintRows(rows) + suffix, meta) == Ok(IndexedAll(meta, rows), suffix)
    decreases |rows|
  {
    if rows == [] {
      assert PrintRows(rows) + suffix == suffix;
    } else {
      hide PrintRows, PrintRow, ParseRow, RowFits;
      FirstRow(rows, suffix);
      RowRoundTrip(rows[0], PrintRows(rows[1..]) + suffix);
      RowsRoundTrip(rows[1..], suffix, Indexed(meta, rows[0]));
    }
  }

  ghost predicate DistinctRows(rows: seq<Row>) {
    forall i, j :: 0 <= i < j < |rows| ==> rows[i].code != rows[j].code
  }

  /** With distinct codes the maps hold every row's own numbers and nothing else. */
  lemma {:induction false} IndexedAllLookup(meta: Metadata, rows: seq<Row>, code: Code)
    requires DistinctRows(rows) && forall i :: 0 <= i < |rows| ==> RowFits(rows[i])
    ensures var m := IndexedAll(meta, rows);
      && (forall i :: 0 <= i < |rows| && rows[i].code == code ==>
            code in m.index && m.index[code] == rows[i].offset && code in m.length && m.length[code] == rows[i].count)
      && ((forall i :: 0 <= i < |rows| ==> rows[i].code != code) ==>
            && (code in m.index <==> code in meta.index) && (code in m.length <==> code in meta.length)
            && (code in m.index ==> m.index[code] == meta.index[code])
            && (code in m.length ==> m.length[code] == meta.length[code]))
    decreases |rows|
  {
    if rows != [] {
      var tail := rows[1..];
      assert forall i :: 0 < i < |rows| ==> rows[i] == tail[i - 1];
      IndexedAllLookup(Indexed(meta, rows[0]), tail, code);
    }
  }

  // ----- The file -----

  ghost predicate KeyList(domains: Domains, keys: seq<Code>) {
    && (forall i, j :: 0 <= i < j < |keys| ==> keys[i] != keys[j])
    && (forall k :: k in keys <==> k in domains)
  }

  lemma Regroup(a: seq<Byte>, b: seq<Byte>, c: seq<Byte>, d: seq<Byte>)
    ensures a + (b + c) + d == a + (b + (c + d))
  {
  }

  /** Content offsets are prefix sums: code `i`'s items start at the length of the content before it. */
  lemma {:induction false} ContentSplit(domains: Domains, keys: seq<Code>, i: nat, n: nat) returns (tail: seq<Byte>)
    requires i < n <= |keys|
    ensures Content(domains, keys, n) == Content(domains, keys, i) + (PrintItems(ItemsOf(domains, keys[i])) + tail)
  {
    if n == i + 1 {
      tail := [];
      assert PrintItems(ItemsOf(domains, keys[i])) + tail == PrintItems(ItemsOf(domains, keys[i]));
    } else {
      var before := ContentSplit(domains, keys, i, n - 1);
      var last := PrintItems(ItemsOf(domains, keys[n - 1]));
      tail := before + last;
      Regroup(Content(domains, keys, i), PrintItems(ItemsOf(domains, keys[i])), before, last);
    }
  }

  lemma PrintRowSize(row: Row)
    ensures |PrintRow(row)| >= 1 && |PrintRow(row)| >= |row.code|
  {
  }

  /** Everything in the table is bounded by its size. */
  lemma {:induction false} PrintRowsSize(rows: seq<Row>)
    ensures |rows| <= |PrintRows(rows)|
    ensures forall i :: 0 <= i < |rows| ==> |rows[i].code| <= |PrintRows(rows)|
  {
    if rows != [] {
      PrintRowsSize(rows[1..]);
      PrintRowSize(rows[0]);
      forall i | 0 <= i < |rows| ensures |rows[i].code| <= |PrintRows(rows)| {
        assert i > 0 ==> rows[i] == rows[1..][i - 1];
      }
    }
  }

  lemma FileFits(domains: Domains, keys: seq<Code>, i: nat)
    requires |File(domains, keys)| < TWO63 && i < |keys|
    ensures RowFits(RowAt(domains, keys, i))
    ensures forall j :: 0 <= j < |ItemsOf(domains, keys[i])| ==> |ItemsOf(domains, keys[i])[j].value| < TWO64
  {
    PrintRowsSize(Rows(domains, keys));
    assert Rows(domains, keys)[i].code == keys[i];
    var tail := ContentSplit(domains, keys, i, |keys|);
    PrintItemsSize(ItemsOf(domains, keys[i]));
  }

  /** What an opened reader holds: exactly the map's codes, each with its offset and count. */
  ghost predicate MetadataFor(domains: Domains, keys: seq<Code>, meta: Metadata) {
    && (forall code :: HoldsCode(domains, meta, code))
    && forall i :: 0 <= i < |keys| ==> HoldsRow(meta, RowAt(domains, keys, i))
  }

  ghost predicate HoldsCode(domains: Domains, meta: Metadata, code: Code) {
    (code in meta.index <==> code in domains) && (code in meta.length <==> code in domains)
  }

  ghost predicate HoldsRow(meta: Metadata, row: Row) {
    && row.code in meta.index && meta.index[row.code] == row.offset
    && row.code in meta.length && meta.length[row.code] == row.count
  }

  lemma RowsGiveKeys(domains: Domains, keys: seq<Code>, rows: seq<Row>, code: Code)
    requires KeyList(domains, keys) && |rows| == |keys|
    requires DistinctRows(rows) && forall i :: 0 <= i < |keys| ==> rows[i].code == keys[i] && RowFits(rows[i])
    ensures HoldsCode(domains, IndexedAll(NO_METADATA, rows), code)
  {
    IndexedAllLookup(NO_METADATA, rows, code);
    if code in domains {
      assert code in keys;
      var i :| 0 <= i < |keys| && keys[i] == code;
      assert rows[i].code == code;
    }
  }

  lemma RowsGiveMetadata(domains: Domains, keys: seq<Code>, rows: seq<Row>)
    requires KeyList(domains, keys) && |rows| == |keys|
    requires forall i :: 0 <= i < |keys| ==> rows[i] == RowAt(domains, keys, i) && RowFits(rows[i])
    ensures MetadataFor(domains, keys, IndexedAll(NO_METADATA, rows))
  {
    var meta := IndexedAll(NO_METADATA, rows);
    assert DistinctRows(rows) by {
      forall i, j | 0 <= i < j < |rows| ensures rows[i].code != rows[j].code {
        assert rows[i].code == keys[i] && rows[j].code == keys[j];
      }
    }
    forall code ensures HoldsCode(domains, meta, code) {
      RowsGiveKeys(domains, keys, rows, code);
    }
    forall i | 0 <= i < |keys| ensures HoldsRow(meta, RowAt(domains, keys, i)) {
      HoldsEachRow(rows, i);
    }
  }

  lemma HoldsEachRow(rows: seq<Row>, i: nat)
    requires DistinctRows(rows) && i < |rows| && forall j :: 0 <= j < |rows| ==> RowFits(rows[j])
    ensures HoldsRow(IndexedAll(NO_METADATA, rows), rows[i])
  {
    IndexedAllLookup(NO_METADATA, rows, rows[i].code);
  }

  lemma BehindVersion(version: Byte, a: seq<Byte>, b: seq<Byte>, c: seq<Byte>)
    ensures ([version] + (a + b) + c)[0] == version && ([version] + (a + b) + c)[1..] == a + (b + c)
  {
  }

  lemma HeaderParses(rows: seq<Row>, content: seq<Byte>)
    requires |rows| < TWO63 && forall i :: 0 <= i < |rows| ==> RowFits(rows[i])
    ensures ParseMetadata([0] + (Encode(|rows|) + PrintRows(rows)) + content) == Ok(IndexedAll(NO_METADATA, rows), content)
  {
    var count, table := Encode(|rows|), PrintRows(rows);
    BehindVersion(0, count, table, content);
    DecodeEncode(|rows|, table + content);
    RowsRoundTrip(rows, content, NO_METADATA);
  }

  /** Opening what was written yields the map's codes and leaves exactly the content area unread.  The file
      must fit an int64 offset. */
  lemma OpenWritten(domains: Domains, keys: seq<Code>) returns (meta: Metadata)
    requires KeyList(domains, keys) && |File(domains, keys)| < TWO63
    ensures ParseMetadata(File(domains, keys)) == Ok(meta, Content(domains, keys, |keys|))
    ensures MetadataFor(domains, keys, meta)
  {
    var rows := Rows(domains, keys);
    forall i | 0 <= i < |keys| ensures rows[i] == RowAt(domains, keys, i) && RowFits(rows[i]) {
      FileFits(domains, keys, i);
    }
    PrintRowsSize(rows);
    HeaderParses(rows, Content(domains, keys, |keys|));
    RowsGiveMetadata(domains, keys, rows);
    meta := IndexedAll(NO_METADATA, rows);
  }

  lemma ReadAfter(header: seq<Byte>, before: seq<Byte>, items: seq<Item>, tail: seq<Byte>)
    requires forall j :: 0 <= j < |items| ==> |items[j].value| < TWO64
    ensures ParseItems(|items|, (header + (before + (PrintItems(items) + tail)))[|header| + |before|..], []) == Ok(items, tail)
  {
    var bytes := PrintItems(items) + tail;
    assert (header + (before + bytes))[|header| + |before|..] == bytes;
    ItemsRoundTrip(items, [], tail);
    assert [] + items == items;
  }

  ghost predicate ItemsAt(file: seq<Byte>, position: nat, items: seq<Item>) {
    && position <= |file|
    && ParseItems(|items|, file[position..], []).Ok?
    && ParseItems(|items|, file[position..], []).value == items
  }

  lemma ItemsAtOffset(domains: Domains, keys: seq<Code>, i: nat)
    requires i < |keys|
    requires forall j :: 0 <= j < |ItemsOf(domains, keys[i])| ==> |ItemsOf(domains, keys[i])[j].value| < TWO64
    ensures ItemsAt(File(domains, keys), |Header(domains, keys)| + |Content(domains, keys, i)|, ItemsOf(domains, keys[i]))
  {
    hide PrintItems, ParseItems, Content, ItemsOf, Header;
    var items := ItemsOf(domains, keys[i]);
    var tail := ContentSplit(domains, keys, i, |keys|);
    ReadAfter(Header(domains, keys), Content(domains, keys, i), items, tail);
  }

  lemma ReadRow(file: seq<Byte>, start: nat, meta: Metadata, row: Row, items: seq<Item>)
    requires HoldsRow(meta, row) && row.count == |items| && ItemsAt(file, start + row.offset, items)
    ensures ReadCode(file, start, meta, row.code).Ok? && ReadCode(file, start, meta, row.code).value == items
  {
  }

  lemma ReadWrittenAt(domains: Domains, keys: seq<Code>, meta: Metadata, i: nat)
    requires |File(domains, keys)| < TWO63 && i < |keys| && HoldsRow(meta, RowAt(domains, keys, i))
    ensures var r := ReadCode(File(domains, keys), |Header(domains, keys)|, meta, keys[i]);
      r.Ok? && r.value == ItemsOf(domains, keys[i])
  {
    hide File, Header, ReadCode, HoldsRow, ItemsAt, ItemsOf;
    FileFits(domains, keys, i);
    ItemsAtOffset(domains, keys, i);
    ReadRow(File(domains, keys), |Header(domains, keys)|, meta, RowAt(domains, keys, i), ItemsOf(domains, keys[i]));
  }

  /** Reading any code of an opened file yields exactly its items; an unknown code is reported as such. */
  lemma ReadWritten(domains: Domains, keys: seq<Code>, meta: Metadata, code: Code)
    requires KeyList(domains, keys) && |File(domains, keys)| < TWO63 && MetadataFor(domains, keys, meta)
    ensures var r := ReadCode(File(domains, keys), |Header(domains, keys)|, meta, code);
      if code in domains then r.Ok? && r.value == domains[code] else r == Err(NotExists)
  {
    assert HoldsCode(domains, meta, code);
    if code in domains {
      assert code in keys;
      var i :| 0 <= i < |keys| && keys[i] == code;
      ReadWrittenAt(domains, keys, meta, i);
    }
  }
}
