/**
 The ZIP archives the packager writes and the reader takes apart: record layouts, the CRC and
 its incremental form, and the round trip through any number of entries and any bytes in
 front. The CRC table is an arbitrary function of the index.
 */
module ZipFormat {
  import opened Bytes

  type Table = bv32 -> bv32

  const STORED: nat := 0
  const NAME_MAX: nat := 255
  const LOCAL_SIZE: nat := 30
  const CENTRAL_SIZE: nat := 46
  const EOCD_SIZE: nat := 22
  const SEARCH_MAX: nat := 66000
  const S31: nat := 0x8000_0000

  /** The low `width` bytes, least significant first. */
  function ToLE(n: nat, width: nat): (s: seq<byte>)
    ensures |s| == width
  {
    if width == 0 then [] else [n % 256] + ToLE(n / 256, width - 1)
  }

  function FromLE(s: seq<byte>): nat {
    if s == [] then 0 else s[0] + 256 * FromLE(s[1..])
  }

  lemma {:induction false} FromToLE(n: nat, width: nat)
    requires n < Pow256(width)
    ensures FromLE(ToLE(n, width)) == n
  {
    if width > 0 {
      FromToLE(n / 256, width - 1);
      assert ToLE(n, width)[1..] == ToLE(n / 256, width - 1);
    }
  }

  /** An unsigned 32-bit value taken as an int. */
  function ToInt32(n: nat): int {
    if n < S31 then n else n - U32
  }

  // ---- CRC ----

  function CrcStep(tab: Table, crc: bv32, b: byte): bv32 {
    tab((crc ^ (b as bv32)) & 0xFF) ^ (crc >> 8)
  }

  function CrcFold(tab: Table, crc: bv32, data: seq<byte>): bv32 {
    if data == [] then crc else CrcStep(tab, CrcFold(tab, crc, data[..|data| - 1]), data[|data| - 1])
  }

  /** crc32(crc, buf, len). */
  function Crc(tab: Table, crc: bv32, data: seq<byte>): bv32 {
    Flip(CrcFold(tab, Flip(crc), data))
  }

  function Flip(x: bv32): bv32 {
    x ^ 0xFFFF_FFFF
  }

  lemma {:induction false} CrcFoldConcat(tab: Table, crc: bv32, a: seq<byte>, b: seq<byte>)
    ensures CrcFold(tab, crc, a + b) == CrcFold(tab, CrcFold(tab, crc, a), b)
  {
    hide CrcStep;
    if b == [] {
      assert a + b == a;
    } else {
      var n := |b| - 1;
      assert (a + b)[..|a + b| - 1] == a + b[..n];
      CrcFoldConcat(tab, crc, a, b[..n]);
    }
  }

  lemma FlipTwice(x: bv32)
    ensures Flip(Flip(x)) == x
  {
  }

  /** The checksum of chunks fed one after the other is the checksum of them joined. */
  lemma CrcConcat(tab: Table, crc: bv32, a: seq<byte>, b: seq<byte>)
    ensures Crc(tab, Crc(tab, crc, a), b) == Crc(tab, crc, a + b)
  {
    hide CrcFold, Flip;
    FlipTwice(CrcFold(tab, Flip(crc), a));
    CrcFoldConcat(tab, Flip(crc), a, b);
  }

  lemma CrcOfNothing(tab: Table)
    ensures Crc(tab, 0, []) == 0
  {
    FlipTwice(0);
  }

  /** The checksum loop. */
  method ComputeCrc(tab: Table, crc: bv32, data: seq<byte>) returns (r: bv32)
    ensures r == Crc(tab, crc, data)
  {
    hide CrcStep, Flip;
    var c := Flip(crc);
    for i := 0 to |data|
      invariant c == CrcFold(tab, Flip(crc), data[..i])
    {
      assert data[..i + 1][..i] == data[..i];
      c := CrcStep(tab, c, data[i]);
    }
    assert data[..|data|] == data;
    r := Flip(c);
  }

  function CrcOf(tab: Table, data: seq<byte>): nat {
    Crc(tab, 0, data) as nat
  }

  // ---- records ----

  datatype Entry = Entry(name: seq<byte>, compression: nat, data: seq<byte>)

  /** Signature, version, flags, method, time and date: what precedes the sizes. */
  function LocalHead(compression: nat): (s: seq<byte>)
    ensures |s| == 14
  {
    [0x50, 0x4b, 3, 4, 20, 0, 0, 0] + ToLE(compression, 2) + [0, 0, 0, 0]
  }

  /** The twelve bytes patched on close. */
  function Sizes(crc: nat, size: nat): (s: seq<byte>)
    ensures |s| == 12
  {
    ToLE(crc, 4) + ToLE(size, 4) + ToLE(size, 4)
  }

  function NameLengths(name: seq<byte>): (s: seq<byte>)
    ensures |s| == 4
  {
    ToLE(|name|, 2) + [0, 0]
  }

  /** A local header, a name and the data. */
  function Local(e: Entry, crc: nat, size: nat): (s: seq<byte>)
    ensures |s| == LOCAL_SIZE + |e.name| + |e.data|
  {
    LocalHead(e.compression) + Sizes(crc, size) + NameLengths(e.name) + e.name + e.data
  }

  /** The record as it stands until the archive is closed, and as it stands in the end. */
  function Unpatched(e: Entry): (s: seq<byte>)
    ensures |s| == LOCAL_SIZE + |e.name| + |e.data|
  {
    Local(e, 0, 0)
  }

  function Patched(tab: Table, e: Entry): (s: seq<byte>)
    ensures |s| == LOCAL_SIZE + |e.name| + |e.data|
  {
    Local(e, CrcOf(tab, e.data), |e.data|)
  }

  ghost function Body(tab: Table, entries: seq<Entry>, patched: bool): seq<byte> {
    if entries == [] then []
    else Body(tab, entries[..|entries| - 1], patched) + Record(tab, entries[|entries| - 1], patched)
  }

  ghost function BodySize(entries: seq<Entry>): nat {
    if entries == [] then 0
    else BodySize(entries[..|entries| - 1]) + LOCAL_SIZE + |entries[|entries| - 1].name| + |entries[|entries| - 1].data|
  }

  lemma {:induction false} BodyLength(tab: Table, entries: seq<Entry>, patched: bool)
    ensures |Body(tab, entries, patched)| == BodySize(entries)
  {
    if entries != [] {
      BodyLength(tab, entries[..|entries| - 1], patched);
    }
  }

  /** What the central directory says of an entry, apart from its name. */
  function CentralHeader(crc: nat, size: nat, name: seq<byte>, offset: nat): (s: seq<byte>)
    ensures |s| == CENTRAL_SIZE
  {
    [0x50, 0x4b, 1, 2, 20, 0, 20, 0, 0, 0, 0, 0, 0, 0, 0, 0] + ToLE(crc, 4) + ToLE(size, 4) + ToLE(size, 4) +
    ToLE(|name|, 2) + Zeros(12) + ToLE(offset, 4)
  }

  function Central(tab: Table, e: Entry, offset: nat): (s: seq<byte>)
    ensures |s| == CENTRAL_SIZE + |e.name|
  {
    CentralHeader(CrcOf(tab, e.data), |e.data|, e.name, offset) + e.name
  }

  /** The directory of the entries from `i` on; `start` is where the first local header stands. */
  ghost function Directory(tab: Table, entries: seq<Entry>, i: nat, start: nat): seq<byte>
    requires i <= |entries|
    decreases |entries| - i
  {
    if i == |entries| then []
    else Central(tab, entries[i], start + BodySize(entries[..i])) + Directory(tab, entries, i + 1, start)
  }

  function EndRecord(count: nat, directorySize: nat, directoryOffset: nat): (s: seq<byte>)
    ensures |s| == EOCD_SIZE
  {
    [0x50, 0x4b, 5, 6, 0, 0, 0, 0] + ToLE(count, 2) + ToLE(count, 2) + ToLE(directorySize, 4) +
    ToLE(directoryOffset, 4) + [0, 0]
  }

  /** A closed archive that begins with `lead`, the bytes written before the first entry. */
  ghost function Archive(tab: Table, lead: seq<byte>, entries: seq<Entry>): seq<byte> {
    var body := Body(tab, entries, true);
    var directory := Directory(tab, entries, 0, |lead|);
    lead + body + directory + EndRecord(|entries|, |directory|, |lead| + |body|)
  }

  // ---- reading ----

  /** One row of the reader's tables; a row the directory did not reach has no name. */
  datatype Info = Info(name: Option<seq<byte>>, compression: nat, crc: int, compressed: int, uncompressed: int, offset: int)

  const BLANK := Info(None, 0, 0, 0, 0, 0)

  /** What strdup keeps of a buffer. */
  function CString(s: seq<byte>): (t: seq<byte>)
    ensures t <= s && 0 !in t
  {
    if s == [] || s[0] == 0 then [] else [s[0]] + CString(s[1..])
  }

  lemma {:induction false} CStringIntact(s: seq<byte>)
    requires 0 !in s
    ensures CString(s) == s
  {
    if s != [] {
      CStringIntact(s[1..]);
    }
  }

  /** Whether the signature of the end record stands at `i`. */
  predicate EndAt(bytes: seq<byte>, i: nat) {
    i + EOCD_SIZE <= |bytes| && bytes[i] == 0x50 && bytes[i + 1] == 0x4b && bytes[i + 2] == 5 && bytes[i + 3] == 6
  }

  /** The last place the signature stands at or before `i`. */
  ghost function LastEnd(bytes: seq<byte>, i: int): (at: int)
    requires i + EOCD_SIZE <= |bytes|
    decreases i + 1
    ensures -1 <= at && (at >= 0 ==> at <= i && EndAt(bytes, at))
  {
    if i < 0 then -1 else if EndAt(bytes, i) then i else LastEnd(bytes, i - 1)
  }

  /** Rows read from the rest of the file, or nothing when a name is cut off. */
  ghost function Rows(rest: seq<byte>, count: nat, base: nat): Option<seq<Info>>
    decreases count
  {
    if count == 0 then Some([])
    else if |rest| < CENTRAL_SIZE || rest[0] != 0x50 || rest[1] != 0x4b then Some(seq(count, _ => BLANK))
    else
      var row := RowAt(rest, base);
      if row.name.None? then None
      else
        match Rows(AfterRow(rest), count - 1, base)
        case None => None
        case Some(rows) => Some([row] + rows)
  }

  /** The fields of one directory record; no name when the file ends inside it. */
  function RowAt(rest: seq<byte>, base: nat): Info
    requires CENTRAL_SIZE <= |rest|
  {
    var nameLen := Min(FromLE(rest[28..30]), NAME_MAX);
    Info(if CENTRAL_SIZE + nameLen <= |rest| then Some(CString(rest[CENTRAL_SIZE..CENTRAL_SIZE + nameLen])) else None,
         FromLE(rest[10..12]), ToInt32(FromLE(rest[16..20])), ToInt32(FromLE(rest[20..24])),
         ToInt32(FromLE(rest[24..28])), FromLE(rest[42..46]) + base)
  }

  /** Where the reader goes on: past the name as far as it was read, extra field and comment. */
  function AfterRow(rest: seq<byte>): seq<byte>
    requires CENTRAL_SIZE <= |rest|
  {
    Drop(rest, CENTRAL_SIZE + Min(FromLE(rest[28..30]), NAME_MAX) + FromLE(rest[30..32]) + FromLE(rest[32..34]))
  }

  function Min(a: nat, b: nat): nat {
    if a < b then a else b
  }

  /** The bytes from a position on; none past the end. */
  function Drop(s: seq<byte>, n: nat): seq<byte> {
    if n <= |s| then s[n..] else []
  }

  /** Where the archive really begins, and where its directory is. */
  function BaseOffset(end: nat, directorySize: nat, directoryOffset: nat): nat {
    var believed := (directorySize + directoryOffset) % U32;
    if end < believed then 0 else end - believed
  }

  /** zip_reader_open on the bytes of a file. */
  ghost function OpenSpec(bytes: seq<byte>): Option<seq<Info>> {
    if |bytes| < EOCD_SIZE then None
    else
      var search := Min(|bytes|, SEARCH_MAX);
      var tail := bytes[|bytes| - search..];
      var at := LastEnd(tail, search - EOCD_SIZE);
      if at < 0 then None
      else
        var end := |bytes| - search + at;
        var count := FromLE(tail[at + 8..at + 10]);
        var base := BaseOffset(end, FromLE(tail[at + 12..at + 16]), FromLE(tail[at + 16..at + 20]));
        if count == 0 then None
        else Rows(Drop(bytes, (FromLE(tail[at + 16..at + 20]) + base) % U32), count, base)
  }

  datatype Extracted = Content(data: seq<byte>) | Unsupported | Unreadable

  /** zip_reader_extract on the bytes of a file: what is written to the output. */
  function ExtractSpec(bytes: seq<byte>, row: Info): Extracted {
    if row.compression != STORED then Unsupported
    else if row.offset < 0 then Unreadable
    else
      var rest := Drop(bytes, row.offset);
      if |rest| < LOCAL_SIZE then Unreadable
      else
        var data := Drop(rest, LOCAL_SIZE + FromLE(rest[26..28]) + FromLE(rest[28..30]));
        if row.compressed <= 0 then Content([])
        else if row.compressed <= |data| then Content(data[..row.compressed])
        else Unreadable
  }

  // ---- the round trip ----

  ghost predicate Packable(entries: seq<Entry>) {
    && 1 <= |entries| <= 65535
    && forall e :: e in entries ==> |e.name| <= NAME_MAX && 0 !in e.name
  }

  /** The row an entry must come back as. */
  function RowOf(tab: Table, e: Entry, offset: nat): Info {
    Info(Some(e.name), STORED, ToInt32(CrcOf(tab, e.data)), |e.data|, |e.data|, offset)
  }

  lemma CentralSizes(crc: nat, size: nat, name: seq<byte>, offset: nat)
    ensures var h := CentralHeader(crc, size, name, offset);
            && h[0] == 0x50 && h[1] == 0x4b && h[10..12] == [0, 0]
            && h[16..20] == ToLE(crc, 4) && h[20..24] == ToLE(size, 4) && h[24..28] == ToLE(size, 4)
  {
    hide ToLE;
    var fixed := [0x50, 0x4b, 1, 2, 20, 0, 20, 0, 0, 0, 0, 0, 0, 0, 0, 0];
    var p3 := fixed + ToLE(crc, 4) + ToLE(size, 4) + ToLE(size, 4);
    var h := CentralHeader(crc, size, name, offset);
    assert p3 <= h && fixed <= p3;
    SliceOfPrefix(h, fixed, 10, 12);
    SliceOfPrefix(h, p3, 16, 20);
    SliceOfPrefix(h, p3, 20, 24);
    SliceOfPrefix(h, p3, 24, 28);
  }

  lemma CentralLengths(crc: nat, size: nat, name: seq<byte>, offset: nat)
    ensures var h := CentralHeader(crc, size, name, offset);
            && h[28..30] == ToLE(|name|, 2) && h[30..32] == Zeros(2) && h[32..34] == Zeros(2) && h[42..46] == ToLE(offset, 4)
  {
    hide ToLE;
    var p3 := [0x50, 0x4b, 1, 2, 20, 0, 20, 0, 0, 0, 0, 0, 0, 0, 0, 0] + ToLE(crc, 4) + ToLE(size, 4) + ToLE(size, 4);
    var p4 := p3 + ToLE(|name|, 2);
    var p5 := p4 + Zeros(12);
    var h := CentralHeader(crc, size, name, offset);
    assert h == p5 + ToLE(offset, 4);
    SliceOfPrefix(h, p5, 28, 30);
    SliceOfPrefix(h, p5, 30, 32);
    SliceOfPrefix(h, p5, 32, 34);
    assert Zeros(12)[0..2] == Zeros(12)[2..4] == Zeros(2);
    SliceOfSuffix(p4, Zeros(12), 0, 2);
    SliceOfSuffix(p4, Zeros(12), 2, 4);
    SliceOfPrefix(p5, p4, 28, 30);
  }

  lemma ZeroLE()
    ensures FromLE([0, 0]) == 0 && FromLE(Zeros(2)) == 0
  {
    assert Zeros(2) == [0, 0];
    assert [0, 0][1..] == [0];
  }

  /** One directory record is read back as its row, and reading goes on right behind it. */
  lemma RowRoundTrip(tab: Table, e: Entry, offset: nat, more: seq<byte>, base: nat)
    requires |e.name| <= NAME_MAX && 0 !in e.name && |e.data| < S31 && offset < U32
    ensures var rest := Central(tab, e, offset) + more;
            && rest[0] == 0x50 && rest[1] == 0x4b
            && RowAt(rest, base) == RowOf(tab, e, offset + base) && AfterRow(rest) == more
  {
    hide ToLE, FromLE, CrcOf, CString;
    var crc := CrcOf(tab, e.data);
    CrcFits(tab, e.data);
    var h := CentralHeader(crc, |e.data|, e.name, offset);
    var rest := Central(tab, e, offset) + more;
    CentralSizes(crc, |e.data|, e.name, offset);
    CentralLengths(crc, |e.data|, e.name, offset);
    assert h <= rest;
    SliceOfPrefix(rest, h, 10, 12);
    SliceOfPrefix(rest, h, 16, 20);
    SliceOfPrefix(rest, h, 20, 24);
    SliceOfPrefix(rest, h, 24, 28);
    SliceOfPrefix(rest, h, 28, 30);
    SliceOfPrefix(rest, h, 30, 32);
    SliceOfPrefix(rest, h, 32, 34);
    SliceOfPrefix(rest, h, 42, 46);
    Pow256Values();
    FromToLE(crc, 4);
    FromToLE(|e.data|, 4);
    FromToLE(|e.name|, 2);
    FromToLE(offset, 4);
    ZeroLE();
    CStringIntact(e.name);
    assert rest[CENTRAL_SIZE..CENTRAL_SIZE + |e.name|] == e.name;
    assert rest[CENTRAL_SIZE + |e.name|..] == more;
  }

  lemma CrcFits(tab: Table, data: seq<byte>)
    ensures CrcOf(tab, data) < U32
  {
  }

  /** The rows of the entries from `i` on, the first local header being at `start`. */
  ghost function RowsOf(tab: Table, entries: seq<Entry>, i: nat, start: nat): (rows: seq<Info>)
    requires i <= |entries|
    ensures |rows| == |entries| - i
    decreases |entries| - i
  {
    if i == |entries| then []
    else [RowOf(tab, entries[i], start + BodySize(entries[..i]))] + RowsOf(tab, entries, i + 1, start)
  }

  lemma {:induction false} RowsOfAt(tab: Table, entries: seq<Entry>, i: nat, start: nat, j: nat)
    requires i <= j < |entries|
    ensures RowsOf(tab, entries, i, start)[j - i] == RowOf(tab, entries[j], start + BodySize(entries[..j]))
    decreases j - i
  {
    hide RowOf, BodySize;
    if i < j {
      RowsOfAt(tab, entries, i + 1, start, j);
    }
  }

  /** The whole directory is read back, row by row. */
  lemma {:induction false} DirectoryRoundTrip(tab: Table, entries: seq<Entry>, i: nat, start: nat, more: seq<byte>, base: nat)
    requires i <= |entries| && start + BodySize(entries) < S31
    requires forall e :: e in entries ==> |e.name| <= NAME_MAX && 0 !in e.name
    ensures Rows(Directory(tab, entries, i, start) + more, |entries| - i, base) ==
            Some(RowsOf(tab, entries, i, start + base))
    decreases |entries| - i
  {
    hide RowAt, AfterRow, Central, RowOf;
    if i < |entries| {
      var offset := start + BodySize(entries[..i]);
      var rest := Directory(tab, entries, i + 1, start) + more;
      assert Directory(tab, entries, i, start) + more == Central(tab, entries[i], offset) + rest;
      BodySizeAt(entries, i);
      RowRoundTrip(tab, entries[i], offset, rest, base);
      RowHasName(tab, entries[i], offset + base);
      DirectoryRoundTrip(tab, entries, i + 1, start, more, base);
    }
  }

  lemma RowHasName(tab: Table, e: Entry, offset: nat)
    ensures RowOf(tab, e, offset).name == Some(e.name)
  {
  }

  lemma {:induction false} BodySizeAt(entries: seq<Entry>, i: nat)
    requires i < |entries|
    ensures BodySize(entries[..i]) + LOCAL_SIZE + |entries[i].name| + |entries[i].data| <= BodySize(entries)
    decreases |entries|
  {
    var n := |entries| - 1;
    if i == n {
      assert entries[..i] == entries[..n];
    } else {
      BodySizeAt(entries[..n], i);
      assert entries[..n][..i] == entries[..i];
    }
  }

  /** One local record, as it is while the archive is open or once it is closed. */
  function Record(tab: Table, e: Entry, patched: bool): seq<byte> {
    if patched then Patched(tab, e) else Unpatched(e)
  }

  /** The local record of entry i stands behind the records of the entries before it. */
  lemma {:induction false} BodyAt(tab: Table, entries: seq<Entry>, patched: bool, i: nat) returns (after: seq<byte>)
    requires i < |entries|
    ensures Body(tab, entries, patched) == Body(tab, entries[..i], patched) + Record(tab, entries[i], patched) + after
    decreases |entries|
  {
    hide Record;
    var n := |entries| - 1;
    if i == n {
      after := [];
      assert entries[..i] == entries[..n];
    } else {
      var more := BodyAt(tab, entries[..n], patched, i);
      assert entries[..n][..i] == entries[..i];
      after := more + Record(tab, entries[n], patched);
    }
  }

  /** Extracting from a local record, whatever follows it, gives the data. */
  lemma LocalRoundTrip(tab: Table, e: Entry, bytes: seq<byte>, offset: nat)
    requires |e.name| <= NAME_MAX && |e.data| < S31 && offset <= |bytes| && Patched(tab, e) <= bytes[offset..]
    ensures ExtractSpec(bytes, RowOf(tab, e, offset)) == Content(e.data)
  {
    hide ToLE, FromLE, CrcOf;
    var rest := bytes[offset..];
    var record := Patched(tab, e);
    var head := LocalHead(e.compression) + Sizes(CrcOf(tab, e.data), |e.data|);
    var all := head + NameLengths(e.name);
    AppendKeeps(ToLE(|e.name|, 2), [0, 0]);
    assert all <= record <= rest;
    assert all[26..28] == ToLE(|e.name|, 2) && all[28..30] == [0, 0];
    SliceOfPrefix(rest, all, 26, 28);
    SliceOfPrefix(rest, all, 28, 30);
    Pow256Values();
    FromToLE(|e.name|, 2);
    ZeroLE();
    var skip := LOCAL_SIZE + |e.name|;
    assert record[skip..] == e.data;
    assert rest[skip..][..|e.data|] == rest[..|record|][skip..] == record[skip..];
  }

  lemma EndFields(count: nat, size: nat, offset: nat)
    ensures var r := EndRecord(count, size, offset);
            && EndAt(r, 0) && r[8..10] == ToLE(count, 2) && r[12..16] == ToLE(size, 4) && r[16..20] == ToLE(offset, 4)
  {
    hide ToLE;
    var fixed := [0x50, 0x4b, 5, 6, 0, 0, 0, 0];
    var p1 := fixed + ToLE(count, 2);
    var p2 := p1 + ToLE(count, 2);
    var p3 := p2 + ToLE(size, 4);
    AppendKeeps(fixed, ToLE(count, 2));
    AppendKeeps(p1, ToLE(count, 2));
    AppendKeeps(p2, ToLE(size, 4));
    AppendKeeps(p3, ToLE(offset, 4));
  }

  /** In a file that ends with an end record the search stops there at once. */
  lemma EndIsFound(before: seq<byte>, count: nat, size: nat, offset: nat, tail: seq<byte>)
    requires var bytes := before + EndRecord(count, size, offset);
             tail == bytes[|bytes| - Min(|bytes|, SEARCH_MAX)..]
    ensures var at := |tail| - EOCD_SIZE;
            && at >= 0 && LastEnd(tail, at) == at
            && tail[at + 8..at + 10] == ToLE(count, 2)
            && tail[at + 12..at + 16] == ToLE(size, 4) && tail[at + 16..at + 20] == ToLE(offset, 4)
  {
    hide ToLE, EndRecord, LastEnd, EndAt;
    var r := EndRecord(count, size, offset);
    var n := |before + r| - Min(|before + r|, SEARCH_MAX);
    var p := before[n..];
    TailOf(before, r, n);
    EndFields(count, size, offset);
    SliceOfSuffix(p, r, 8, 10);
    SliceOfSuffix(p, r, 12, 16);
    SliceOfSuffix(p, r, 16, 20);
    EndAtShifted(p, r);
    SearchStops(tail, |p|);
  }

  lemma TailOf(before: seq<byte>, r: seq<byte>, n: nat)
    requires n <= |before|
    ensures (before + r)[n..] == before[n..] + r
  {
  }

  lemma EndAtShifted(p: seq<byte>, r: seq<byte>)
    requires EndAt(r, 0)
    ensures EndAt(p + r, |p|)
  {
  }

  lemma SliceOfSuffix(p: seq<byte>, r: seq<byte>, i: nat, j: nat)
    requires i <= j <= |r|
    ensures (p + r)[|p| + i..|p| + j] == r[i..j]
  {
  }

  lemma SearchStops(bytes: seq<byte>, i: nat)
    requires EndAt(bytes, i)
    ensures LastEnd(bytes, i) == i
  {
    hide EndAt;
  }

  /** The end record tells where the archive begins, whatever was put in front of it. */
  lemma EndRoundTrip(before: seq<byte>, count: nat, size: nat, offset: nat)
    requires 0 < count <= 65535 && size + offset <= |before| < S31
    ensures var base := |before| - size - offset;
            var bytes := before + EndRecord(count, size, offset);
            OpenSpec(bytes) == Rows(Drop(bytes, offset + base), count, base)
  {
    hide ToLE, FromLE, Rows, Drop, EndRecord, LastEnd, EndAt, BaseOffset;
    var bytes := before + EndRecord(count, size, offset);
    EndIsFound(before, count, size, offset, bytes[|bytes| - Min(|bytes|, SEARCH_MAX)..]);
    EndValues(count, size, offset);
    BaseFound(|before|, size, offset);
  }

  lemma EndValues(count: nat, size: nat, offset: nat)
    requires count < U16 && size < U32 && offset < U32
    ensures FromLE(ToLE(count, 2)) == count && FromLE(ToLE(size, 4)) == size && FromLE(ToLE(offset, 4)) == offset
  {
    hide ToLE, FromLE, Pow256;
    Pow256Values();
    FromToLE(count, 2);
    FromToLE(size, 4);
    FromToLE(offset, 4);
  }

  lemma BaseFound(end: nat, size: nat, offset: nat)
    requires size + offset <= end < S31
    ensures var base := BaseOffset(end, size, offset);
            base == end - size - offset && (offset + base) % U32 == offset + base
  {
  }

  /**
   The round trip: any 1 to 65535 entries with names of at most 255 bytes and no zero byte,
   any bytes put in front of the archive afterwards, and less than 2^31 bytes in all. The
   reader lists every entry in order and extracts exactly its data.
   */
  lemma RoundTrip(tab: Table, front: seq<byte>, lead: seq<byte>, entries: seq<Entry>)
    requires Packable(entries) && |front| + |Archive(tab, lead, entries)| < S31
    ensures var bytes := front + Archive(tab, lead, entries);
            var rows := OpenSpec(bytes);
            && rows.Some? && |rows.value| == |entries|
            && forall i :: 0 <= i < |entries| ==>
                 && rows.value[i] == RowOf(tab, entries[i], |front| + |lead| + BodySize(entries[..i]))
                 && ExtractSpec(bytes, rows.value[i]) == Content(entries[i].data)
  {
    hide Archive, Body, BodySize, RowOf, RowsOf, ExtractSpec, OpenSpec;
    var bytes := front + Archive(tab, lead, entries);
    var more := ArchiveOpens(tab, front, lead, entries);
    var rows := OpenSpec(bytes).value;
    assert |front + lead| == |front| + |lead|;
    forall i | 0 <= i < |entries|
      ensures rows[i] == RowOf(tab, entries[i], |front| + |lead| + BodySize(entries[..i]))
      ensures ExtractSpec(bytes, rows[i]) == Content(entries[i].data)
    {
      EntryComesBack(tab, front + lead, entries, i, more, rows[i]);
    }
  }

  /** Entry i is listed, and its data is extracted from the body of the archive. */
  lemma EntryComesBack(tab: Table, before: seq<byte>, entries: seq<Entry>, i: nat, more: seq<byte>, row: Info)
    requires i < |entries| && |entries[i].name| <= NAME_MAX && |before| + BodySize(entries) < S31
    requires row == RowsOf(tab, entries, 0, |before|)[i]
    ensures row == RowOf(tab, entries[i], |before| + BodySize(entries[..i]))
    ensures ExtractSpec(before + Body(tab, entries, true) + more, row) == Content(entries[i].data)
  {
    hide RowOf, RowsOf, ExtractSpec, Body, BodySize;
    RowsOfAt(tab, entries, 0, |before|, i);
    EntryRoundTrip(tab, before, entries, i, more);
  }

  lemma Regroup(a: seq<byte>, b: seq<byte>, c: seq<byte>, d: seq<byte>, e: seq<byte>)
    ensures a + (b + c + d + e) == (a + b + c + d) + e == (a + b) + c + (d + e)
    ensures (a + b + c + d + e)[|a + b + c|..] == d + e
  {
    assert (a + b + c + d) + e == (a + b + c) + (d + e);
  }

  /** The reader finds one row for each entry. */
  lemma ArchiveOpens(tab: Table, front: seq<byte>, lead: seq<byte>, entries: seq<Entry>) returns (more: seq<byte>)
    requires Packable(entries) && |front| + |Archive(tab, lead, entries)| < S31
    ensures var bytes := front + Archive(tab, lead, entries);
            && OpenSpec(bytes) == Some(RowsOf(tab, entries, 0, |front| + |lead|))
            && bytes == (front + lead) + Body(tab, entries, true) + more
            && |front + lead| + BodySize(entries) < S31
  {
    hide Archive, Body, BodySize, Directory, Rows, RowsOf, OpenSpec, EndRecord, Drop;
    var body := Body(tab, entries, true);
    var directory := Directory(tab, entries, 0, |lead|);
    var end := EndRecord(|entries|, |directory|, |lead| + |body|);
    var before := front + lead + body + directory;
    var bytes := front + Archive(tab, lead, entries);
    BodyLength(tab, entries, true);
    more := directory + end;
    ArchiveParts(tab, lead, entries);
    Regroup(front, lead, body, directory, end);
    EndRoundTrip(before, |entries|, |directory|, |lead| + |body|);
    DropFront(before + end, |front + lead + body|);
    DirectoryRoundTrip(tab, entries, 0, |lead|, end, |front|);
  }

  lemma ArchiveParts(tab: Table, lead: seq<byte>, entries: seq<Entry>)
    ensures var body := Body(tab, entries, true);
            var directory := Directory(tab, entries, 0, |lead|);
            Archive(tab, lead, entries) == lead + body + directory + EndRecord(|entries|, |directory|, |lead| + |body|)
  {
    hide Body, Directory, EndRecord;
  }

  lemma DropFront(bytes: seq<byte>, n: nat)
    requires n <= |bytes|
    ensures Drop(bytes, n) == bytes[n..]
  {
  }

  /** The data of entry i is extracted from the body of the archive. */
  lemma EntryRoundTrip(tab: Table, before: seq<byte>, entries: seq<Entry>, i: nat, more: seq<byte>)
    requires i < |entries| && |entries[i].name| <= NAME_MAX && |before| + BodySize(entries) < S31
    ensures ExtractSpec(before + Body(tab, entries, true) + more, RowOf(tab, entries[i], |before| + BodySize(entries[..i]))) ==
            Content(entries[i].data)
  {
    hide RowOf, ExtractSpec, Patched;
    var bytes := before + Body(tab, entries, true) + more;
    var after := BodyAt(tab, entries, true, i);
    BodySizeAt(entries, i);
    BodyLength(tab, entries[..i], true);
    var offset := |before| + BodySize(entries[..i]);
    assert bytes[offset..] == Patched(tab, entries[i]) + (after + more);
    LocalRoundTrip(tab, entries[i], bytes, offset);
  }
}
