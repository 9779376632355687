/**
 The ZIP writer and reader as they run: a stream with a position, tables that grow by one row
 an entry, headers patched on close; and the reader's search and loops.
 */
module ZipArchive {
  import opened Bytes
  import opened FileIo
  import opened ZipFormat

  const CHUNK: nat := 4096

  /** "ALRIGROUP@APP", a zero byte, and version 1 little-endian. */
  const ARAPP_HEADER: seq<byte> := [65, 76, 82, 73, 71, 82, 79, 85, 80, 64, 65, 80, 80, 0, 1, 0]

  /** The body of an archive whose first `k` local headers have been patched. */
  ghost function MixedBody(tab: Table, entries: seq<Entry>, k: nat): seq<byte> {
    if entries == [] then []
    else
      var n := |entries| - 1;
      MixedBody(tab, entries[..n], k) + Record(tab, entries[n], n < k)
  }

  lemma {:induction false} MixedEnds(tab: Table, entries: seq<Entry>, k: nat)
    ensures MixedBody(tab, entries, 0) == Body(tab, entries, false)
    ensures |entries| <= k ==> MixedBody(tab, entries, k) == Body(tab, entries, true)
  {
    hide Record;
    if entries != [] {
      MixedEnds(tab, entries[..|entries| - 1], k);
    }
  }

  /** Patching header k changes its record and nothing else. */
  lemma {:induction false} MixedSplits(tab: Table, entries: seq<Entry>, k: nat) returns (after: seq<byte>)
    requires k < |entries|
    ensures MixedBody(tab, entries, k) == Body(tab, entries[..k], true) + Unpatched(entries[k]) + after
    ensures MixedBody(tab, entries, k + 1) == Body(tab, entries[..k], true) + Patched(tab, entries[k]) + after
    decreases |entries|
  {
    hide Patched, Unpatched, Record, Body;
    var n := |entries| - 1;
    RecordIs(tab, entries[n]);
    if k == n {
      MixedEnds(tab, entries[..n], k);
      MixedEnds(tab, entries[..n], k + 1);
      after := [];
    } else {
      var more := MixedSplits(tab, entries[..n], k);
      assert entries[..n][..k] == entries[..k];
      var record := Record(tab, entries[n], false);
      after := more + record;
      Behind4(Body(tab, entries[..k], true), Unpatched(entries[k]), more, record);
      Behind4(Body(tab, entries[..k], true), Patched(tab, entries[k]), more, record);
    }
  }

  lemma RecordIs(tab: Table, e: Entry)
    ensures Record(tab, e, true) == Patched(tab, e) && Record(tab, e, false) == Unpatched(e)
  {
  }

  lemma Behind4(a: seq<byte>, b: seq<byte>, c: seq<byte>, d: seq<byte>)
    ensures (a + b + c) + d == a + b + (c + d)
  {
  }

  /** Twelve bytes written behind the first fourteen turn an open record into a closed one. */
  lemma PatchRecord(tab: Table, e: Entry, before: seq<byte>, after: seq<byte>)
    ensures Overwrite(before + Unpatched(e) + after, |before| + 14, Sizes(CrcOf(tab, e.data), |e.data|)) ==
            before + Patched(tab, e) + after
  {
    hide LocalHead, Sizes, NameLengths;
    var head := LocalHead(e.compression);
    var old12 := Sizes(0, 0);
    var new12 := Sizes(CrcOf(tab, e.data), |e.data|);
    var rest := NameLengths(e.name) + e.name + e.data + after;
    assert before + Unpatched(e) + after == (before + head) + old12 + rest;
    assert before + Patched(tab, e) + after == (before + head) + new12 + rest;
    SpliceMiddle(before + head, old12, new12, rest);
  }

  lemma SpliceMiddle(a: seq<byte>, b: seq<byte>, c: seq<byte>, d: seq<byte>)
    requires |b| == |c|
    ensures Overwrite(a + b + d, |a|, c) == a + c + d
  {
  }

  /** More data for the last entry is more bytes at the end of an open body. */
  lemma GrowLast(tab: Table, entries: seq<Entry>, more: seq<byte>)
    requires entries != []
    ensures var n := |entries| - 1;
            var grown := entries[n := entries[n].(data := entries[n].data + more)];
            && Body(tab, grown, false) == Body(tab, entries, false) + more
            && grown[..n] == entries[..n]
  {
    var n := |entries| - 1;
    var e := entries[n];
    var grown := entries[n := e.(data := e.data + more)];
    assert grown[..n] == entries[..n];
    assert Unpatched(grown[n]) == Unpatched(e) + more;
  }

  /** The writer's five tables, row by row. */
  ghost predicate Describe(tab: Table, start: nat, entries: seq<Entry>, offsets: seq<nat>, names: seq<seq<byte>>,
                           crcs: seq<bv32>, compressed: seq<nat>, uncompressed: seq<nat>)
  {
    && |offsets| == |names| == |crcs| == |compressed| == |uncompressed| == |entries|
    && forall i :: 0 <= i < |entries| ==>
         && offsets[i] == start + BodySize(entries[..i])
         && names[i] == entries[i].name && crcs[i] == Crc(tab, 0, entries[i].data)
         && compressed[i] == uncompressed[i] == |entries[i].data|
  }

  lemma DescribeAdded(tab: Table, start: nat, entries: seq<Entry>, offsets: seq<nat>, names: seq<seq<byte>>,
                      crcs: seq<bv32>, compressed: seq<nat>, uncompressed: seq<nat>, name: seq<byte>, compression: nat)
    requires Describe(tab, start, entries, offsets, names, crcs, compressed, uncompressed)
    ensures Describe(tab, start, entries + [Entry(name, compression, [])], offsets + [start + BodySize(entries)],
                     names + [name], crcs + [0], compressed + [0], uncompressed + [0])
  {
    hide Crc, BodySize;
    CrcOfNothing(tab);
    var all := entries + [Entry(name, compression, [])];
    forall i | 0 <= i < |all|
      ensures all[..i] == if i < |entries| then entries[..i] else entries
    {
    }
  }

  lemma DescribeGrown(tab: Table, start: nat, entries: seq<Entry>, offsets: seq<nat>, names: seq<seq<byte>>,
                      crcs: seq<bv32>, compressed: seq<nat>, uncompressed: seq<nat>, data: seq<byte>)
    requires Describe(tab, start, entries, offsets, names, crcs, compressed, uncompressed) && entries != []
    ensures var n := |entries| - 1;
            Describe(tab, start, entries[n := entries[n].(data := entries[n].data + data)], offsets, names,
                     crcs[n := Crc(tab, crcs[n], data)], compressed[n := compressed[n] + |data|],
                     uncompressed[n := uncompressed[n] + |data|])
  {
    hide Crc, BodySize;
    var n := |entries| - 1;
    CrcConcat(tab, 0, entries[n].data, data);
    var grown := entries[n := entries[n].(data := entries[n].data + data)];
    forall i | 0 <= i < |entries|
      ensures grown[..i] == entries[..i]
    {
    }
  }

  lemma DescribeLengths(tab: Table, start: nat, entries: seq<Entry>, offsets: seq<nat>, names: seq<seq<byte>>,
                        crcs: seq<bv32>, compressed: seq<nat>, uncompressed: seq<nat>)
    requires Describe(tab, start, entries, offsets, names, crcs, compressed, uncompressed)
    ensures |offsets| == |names| == |crcs| == |compressed| == |uncompressed| == |entries|
  {
  }

  class ZipWriter {
    const tab: Table
    /** Whether no allocation fails. */
    const reliable: bool
    var file: seq<byte>
    var pos: nat
    var offsets: seq<nat>
    var names: seq<seq<byte>>
    var crcs: seq<bv32>
    var compressed: seq<nat>
    var uncompressed: seq<nat>
    /** What was written before the first entry, and the entries so far. */
    ghost const lead: seq<byte>
    ghost var entries: seq<Entry>

    ghost predicate Tables()
      reads this
    {
      Describe(tab, |lead|, entries, offsets, names, crcs, compressed, uncompressed)
    }

    ghost predicate Valid()
      reads this
    {
      pos == |file| && file == lead + Body(tab, entries, false) && Tables()
    }

    /** zip_open, or zip_open_arapp with its header. */
    constructor (table: Table, arapp: bool, faultless: bool)
      ensures Valid() && entries == [] && tab == table && reliable == faultless && lead == if arapp then ARAPP_HEADER else []
    {
      tab, reliable := table, faultless;
      file := if arapp then ARAPP_HEADER else [];
      lead := if arapp then ARAPP_HEADER else [];
      pos := if arapp then |ARAPP_HEADER| else 0;
      offsets, names, crcs, compressed, uncompressed := [], [], [], [], [];
      entries := [];
    }

    /** fwrite at the position of the stream. */
    method Put(data: seq<byte>)
      requires pos <= |file|
      modifies this`file, this`pos
      ensures file == Overwrite(old(file), old(pos), data) && pos == old(pos) + |data| <= |file|
    {
      file := Overwrite(file, pos, data);
      pos := pos + |data|;
    }

    /** zip_add_entry, for a C string. When a table cannot grow, the header stands in the file without a row. */
    method AddEntry(filename: seq<byte>, compression: nat) returns (ok: bool)
      requires Valid() && 0 !in filename
      modifies this
      ensures reliable ==> ok
      ensures ok ==> Valid() && entries == old(entries) + [Entry(filename, compression, [])]
      ensures !ok ==>
                && Tables() && entries == old(entries) && pos == |file|
                && file == old(file) + Unpatched(Entry(filename, compression, []))
    {
      hide Describe, LocalHead, Sizes, NameLengths, BodySize;
      var offset := pos;
      ghost var e := Entry(filename, compression, []);
      ghost var before := entries;
      BodyLength(tab, entries, false);
      Put(LocalHead(compression) + Sizes(0, 0) + NameLengths(filename));
      Put(filename);
      var full: bool := *;
      if full && !reliable {
        assert Unpatched(e) == LocalHead(compression) + Sizes(0, 0) + NameLengths(filename) + filename;
        return false;
      }
      DescribeAdded(tab, |lead|, entries, offsets, names, crcs, compressed, uncompressed, filename, compression);
      DescribeLengths(tab, |lead|, entries, offsets, names, crcs, compressed, uncompressed);
      offsets, names, crcs := offsets + [offset], names + [filename], crcs + [0];
      compressed, uncompressed := compressed + [0], uncompressed + [0];
      entries := before + [e];
      assert entries[..|before|] == before;
      assert Unpatched(e) == LocalHead(compression) + Sizes(0, 0) + NameLengths(filename) + filename;
      assert file == lead + Body(tab, entries, false);
      return true;
    }

    /** zip_write: more data for the entry added last; false when there is none. */
    method Write(data: seq<byte>) returns (ok: bool)
      requires Valid()
      modifies this
      ensures Valid() && ok == (old(entries) != [])
      ensures ok ==>
                var n := |old(entries)| - 1;
                entries == old(entries)[n := old(entries)[n].(data := old(entries)[n].data + data)]
      ensures !ok ==> entries == old(entries)
    {
      hide Describe, Crc, Body, BodySize;
      DescribeLengths(tab, |lead|, entries, offsets, names, crcs, compressed, uncompressed);
      if |offsets| == 0 {
        return false;
      }
      ghost var before := entries;
      Put(data);
      var index := |offsets| - 1;
      var crc := ComputeCrc(tab, crcs[index], data);
      DescribeGrown(tab, |lead|, entries, offsets, names, crcs, compressed, uncompressed, data);
      crcs := crcs[index := crc];
      compressed := compressed[index := compressed[index] + |data|];
      uncompressed := uncompressed[index := uncompressed[index] + |data|];
      GrowLast(tab, before, data);
      entries := before[index := before[index].(data := before[index].data + data)];
      return true;
    }

    /** The first loop of zip_close: sizes and checksum go into every local header. */
    method PatchHeaders()
      requires Valid()
      modifies this`file, this`pos
      ensures file == lead + Body(tab, entries, true) && pos == |file|
    {
      hide Crc, Body, BodySize, MixedBody, Overwrite, Sizes;
      MixedEnds(tab, entries, 0);
      for i := 0 to |offsets|
        invariant file == lead + MixedBody(tab, entries, i)
      {
        ghost var after := MixedSplits(tab, entries, i);
        BodyLength(tab, entries[..i], true);
        ghost var before := lead + Body(tab, entries[..i], true);
        assert file == before + Unpatched(entries[i]) + after;
        pos := offsets[i] + 14;
        PatchRecord(tab, entries[i], before, after);
        Put(Sizes(crcs[i] as nat, compressed[i]));
        assert file == before + Patched(tab, entries[i]) + after;
        assert file == lead + MixedBody(tab, entries, i + 1);
      }
      MixedEnds(tab, entries, |entries|);
      pos := |file|;
    }

    /** The second loop: one directory record for each entry. */
    method WriteDirectory()
      requires Tables() && pos == |file| && file == lead + Body(tab, entries, true)
      modifies this`file, this`pos
      ensures pos == |file| && file == lead + Body(tab, entries, true) + Directory(tab, entries, 0, |lead|)
    {
      hide Crc, Body, BodySize, CentralHeader;
      ghost var whole := file + Directory(tab, entries, 0, |lead|);
      for i := 0 to |offsets|
        invariant pos == |file| && file + Directory(tab, entries, i, |lead|) == whole
      {
        ghost var record := Central(tab, entries[i], offsets[i]);
        ghost var before := file;
        assert Directory(tab, entries, i, |lead|) == record + Directory(tab, entries, i + 1, |lead|);
        Put(CentralHeader(crcs[i] as nat, compressed[i], names[i], offsets[i]));
        Put(names[i]);
        assert file == before + record;
        assert file + Directory(tab, entries, i + 1, |lead|) == before + (record + Directory(tab, entries, i + 1, |lead|));
      }
      assert file + [] == file;
    }

    /** zip_close: the file is the archive of the entries. */
    method Close()
      requires Valid()
      modifies this
      ensures file == Archive(tab, lead, old(entries)) && entries == old(entries)
    {
      hide Crc, Body, BodySize, Directory, EndRecord;
      PatchHeaders();
      var directoryOffset := pos;
      WriteDirectory();
      var directorySize := pos - directoryOffset;
      Put(EndRecord(|offsets|, directorySize, directoryOffset));
    }
  }

  /** The backward search for the end record. */
  method FindEnd(buf: seq<byte>) returns (at: int)
    requires EOCD_SIZE <= |buf|
    ensures at == LastEnd(buf, |buf| - EOCD_SIZE)
  {
    var i := |buf| - EOCD_SIZE;
    while i >= 0
      invariant -1 <= i <= |buf| - EOCD_SIZE
      invariant LastEnd(buf, i) == LastEnd(buf, |buf| - EOCD_SIZE)
    {
      if buf[i] == 0x50 && buf[i + 1] == 0x4b && buf[i + 2] == 5 && buf[i + 3] == 6 {
        return i;
      }
      i := i - 1;
    }
    return -1;
  }

  ghost function Behind(first: seq<Info>, rest: Option<seq<Info>>): Option<seq<Info>> {
    match rest
    case None => None
    case Some(rows) => Some(first + rows)
  }

  lemma RowsStep(rest: seq<byte>, count: nat, base: nat, first: seq<Info>)
    requires 0 < count && CENTRAL_SIZE <= |rest| && rest[0] == 0x50 && rest[1] == 0x4b
    ensures var row := RowAt(rest, base);
            Behind(first, Rows(rest, count, base)) ==
            if row.name.None? then None else Behind(first + [row], Rows(AfterRow(rest), count - 1, base))
  {
    hide RowAt, AfterRow;
    var row := RowAt(rest, base);
    if row.name.Some? {
      match Rows(AfterRow(rest), count - 1, base)
      case None =>
      case Some(rows) => assert first + ([row] + rows) == (first + [row]) + rows;
    }
  }

  /** The directory loop: the tables start out blank and are filled row by row. */
  method ReadDirectory(bytes: seq<byte>, start: nat, count: nat, base: nat) returns (ok: bool, rows: seq<Info>)
    ensures ok ==> Rows(Drop(bytes, start), count, base) == Some(rows)
    ensures !ok ==> Rows(Drop(bytes, start), count, base) == None
  {
    hide Rows, RowAt, AfterRow, FromLE, Min, BLANK;
    var pos: nat := start;
    rows := [];
    RowsEnd(Drop(bytes, start), base);
    for i := 0 to count
      invariant |rows| == i
      invariant Behind(rows, Rows(Drop(bytes, pos), count - i, base)) == Rows(Drop(bytes, start), count, base)
    {
      var rest := Drop(bytes, pos);
      if |rest| < CENTRAL_SIZE || rest[0] != 0x50 || rest[1] != 0x4b {
        RowsStop(rest, count - i, base);
        return true, rows + seq(count - i, _ => BLANK);
      }
      RowsStep(rest, count - i, base, rows);
      var row := RowAt(rest, base);
      if row.name.None? {
        return false, [];
      }
      var step := CENTRAL_SIZE + Min(FromLE(rest[28..30]), NAME_MAX) + FromLE(rest[30..32]) + FromLE(rest[32..34]);
      DropTwice(bytes, pos, step);
      RowsAfter(rest);
      rows := rows + [row];
      pos := pos + step;
    }
    RowsEnd(Drop(bytes, pos), base);
    assert rows + [] == rows;
    ok := true;
  }

  lemma RowsEnd(rest: seq<byte>, base: nat)
    ensures Rows(rest, 0, base) == Some([])
    ensures forall o: Option<seq<Info>> :: Behind([], o) == o
  {
    forall o: Option<seq<Info>>
      ensures Behind([], o) == o
    {
      if o.Some? {
        assert [] + o.value == o.value;
      }
    }
  }

  lemma RowsStop(rest: seq<byte>, count: nat, base: nat)
    requires 0 < count && (|rest| < CENTRAL_SIZE || rest[0] != 0x50 || rest[1] != 0x4b)
    ensures Rows(rest, count, base) == Some(seq(count, _ => BLANK))
  {
  }

  lemma RowsAfter(rest: seq<byte>)
    requires CENTRAL_SIZE <= |rest|
    ensures AfterRow(rest) == Drop(rest, CENTRAL_SIZE + Min(FromLE(rest[28..30]), NAME_MAX) + FromLE(rest[30..32]) + FromLE(rest[32..34]))
  {
  }

  lemma DropTwice(s: seq<byte>, i: nat, j: nat)
    requires i <= |s|
    ensures Drop(Drop(s, i), j) == Drop(s, i + j)
  {
  }

  /** zip_reader_open. */
  method ReaderOpen(bytes: seq<byte>) returns (ok: bool, rows: seq<Info>)
    ensures ok ==> OpenSpec(bytes) == Some(rows)
    ensures !ok ==> OpenSpec(bytes) == None
  {
    hide Rows, FromLE, LastEnd, BaseOffset, Drop;
    rows := [];
    if |bytes| < EOCD_SIZE {
      return false, [];
    }
    var search := if |bytes| > SEARCH_MAX then SEARCH_MAX else |bytes|;
    var buf := bytes[|bytes| - search..];
    var at := FindEnd(buf);
    if at < 0 {
      return false, [];
    }
    LastEndRange(buf, |buf| - EOCD_SIZE);
    var end := |bytes| - search + at;
    var count := FromLE(buf[at + 8..at + 10]);
    var directorySize := FromLE(buf[at + 12..at + 16]);
    var directoryOffset := FromLE(buf[at + 16..at + 20]);
    var base := BaseOffset(end, directorySize, directoryOffset);
    CountFits(buf[at + 8..at + 10]);
    if count <= 0 || count > 65535 {
      return false, [];
    }
    ok, rows := ReadDirectory(bytes, (directoryOffset + base) % U32, count, base);
  }

  lemma LastEndRange(bytes: seq<byte>, i: int)
    requires i + EOCD_SIZE <= |bytes|
    ensures LastEnd(bytes, i) <= i || LastEnd(bytes, i) == -1
  {
  }

  lemma CountFits(s: seq<byte>)
    requires |s| == 2
    ensures FromLE(s) <= 65535
  {
    assert FromLE(s[1..]) == s[1..][0] + 256 * FromLE(s[1..][1..]);
  }

  /** zip_reader_extract: seeks past the local header and copies the content in chunks. */
  method Extract(bytes: seq<byte>, row: Info) returns (result: Extracted)
    requires row.offset >= 0
    ensures result == ExtractSpec(bytes, row)
  {
    hide FromLE;
    if row.compression != STORED {
      return Unsupported;
    }
    var rest := Drop(bytes, row.offset);
    if |rest| < LOCAL_SIZE {
      return Unreadable;
    }
    var data := Drop(rest, LOCAL_SIZE + FromLE(rest[26..28]) + FromLE(rest[28..30]));
    var output: seq<byte> := [];
    var remaining := row.compressed;
    while remaining > 0
      invariant remaining > 0 ==> |output| + remaining == row.compressed
      invariant remaining <= 0 ==> |output| == if row.compressed > 0 then row.compressed else 0
      invariant |output| <= |data| && output == data[..|output|]
      decreases remaining
    {
      var chunk := if remaining > CHUNK then CHUNK else remaining;
      if |data| < |output| + chunk {
        return Unreadable;
      }
      output := output + data[|output|..|output| + chunk];
      remaining := remaining - chunk;
    }
    return Content(output);
  }

  /** Packs every name with its chunks, in order. */
  method Pack(tab: Table, arapp: bool, names: seq<seq<byte>>, chunks: seq<seq<seq<byte>>>) returns (file: seq<byte>)
    requires |names| == |chunks| && forall n :: n in names ==> 0 !in n
    ensures file == Archive(tab, if arapp then ARAPP_HEADER else [], Packed(names, chunks))
  {
    hide Archive, Body;
    var writer := new ZipWriter(tab, arapp, true);
    ghost var entries := Packed(names, chunks);
    for i := 0 to |names|
      invariant fresh(writer) && writer.Valid() && writer.reliable && writer.entries == entries[..i]
    {
      assert names[i] in names;
      AddOne(writer, names, chunks, i);
    }
    assert entries[..|names|] == entries;
    writer.Close();
    file := writer.file;
  }

  /** Opens an archive, lists every entry and extracts it. */
  method Unpack(bytes: seq<byte>, ghost tab: Table, ghost front: seq<byte>, ghost lead: seq<byte>, ghost entries: seq<Entry>)
    returns (ok: bool, listed: seq<seq<byte>>, contents: seq<Extracted>)
    requires Packable(entries) && bytes == front + Archive(tab, lead, entries) && |bytes| < S31
    ensures ok && |listed| == |contents| == |entries|
    ensures forall i :: 0 <= i < |entries| ==> listed[i] == entries[i].name && contents[i] == Content(entries[i].data)
  {
    hide Archive, OpenSpec, ExtractSpec, BodySize;
    RoundTrip(tab, front, lead, entries);
    var rows;
    ok, rows := ReaderOpen(bytes);
    listed, contents := [], [];
    for i := 0 to |rows|
      invariant |listed| == |contents| == i
      invariant forall j :: 0 <= j < i ==> listed[j] == entries[j].name && contents[j] == Content(entries[j].data)
    {
      listed := listed + [rows[i].name.value];
      var content := Extract(bytes, rows[i]);
      contents := contents + [content];
    }
  }

  /** Everything together: what was packed is what comes out, in order, wherever the archive now begins. */
  method PackAndUnpack(tab: Table, front: seq<byte>, arapp: bool, names: seq<seq<byte>>, chunks: seq<seq<seq<byte>>>)
    returns (ok: bool, listed: seq<seq<byte>>, contents: seq<Extracted>)
    requires 1 <= |names| == |chunks| <= 65535
    requires forall n :: n in names ==> |n| <= NAME_MAX && 0 !in n
    requires |front| + |Archive(tab, if arapp then ARAPP_HEADER else [], Packed(names, chunks))| < S31
    ensures ok && listed == names && |contents| == |names|
    ensures forall i :: 0 <= i < |names| ==> contents[i] == Content(Joined(chunks[i]))
  {
    hide Archive, Joined;
    ghost var entries := Packed(names, chunks);
    var file := Pack(tab, arapp, names, chunks);
    forall e | e in entries
      ensures |e.name| <= NAME_MAX && 0 !in e.name
    {
      var k :| 0 <= k < |entries| && entries[k] == e;
      assert e.name == names[k] && names[k] in names;
    }
    ok, listed, contents := Unpack(front + file, tab, front, if arapp then ARAPP_HEADER else [], entries);
  }

  method AddOne(writer: ZipWriter, names: seq<seq<byte>>, chunks: seq<seq<seq<byte>>>, i: nat)
    requires |names| == |chunks| && i < |names| && 0 !in names[i]
    requires writer.Valid() && writer.reliable && writer.entries == Packed(names, chunks)[..i]
    modifies writer
    ensures writer.Valid() && writer.entries == Packed(names, chunks)[..i + 1]
  {
    hide Body;
    var added := writer.AddEntry(names[i], STORED);
    ghost var before := Packed(names, chunks)[..i];
    for j := 0 to |chunks[i]|
      invariant writer.Valid()
      invariant writer.entries == before + [Entry(names[i], STORED, Joined(chunks[i][..j]))]
    {
      assert chunks[i][..j + 1][..j] == chunks[i][..j];
      var ok := writer.Write(chunks[i][j]);
    }
    assert chunks[i][..|chunks[i]|] == chunks[i];
    assert Packed(names, chunks)[..i + 1] == before + [Packed(names, chunks)[i]];
  }

  ghost function Joined(chunks: seq<seq<byte>>): seq<byte> {
    if chunks == [] then [] else Joined(chunks[..|chunks| - 1]) + chunks[|chunks| - 1]
  }

  ghost function Packed(names: seq<seq<byte>>, chunks: seq<seq<seq<byte>>>): (entries: seq<Entry>)
    requires |names| == |chunks|
    ensures |entries| == |names|
  {
    seq(|names|, i requires 0 <= i < |names| => Entry(names[i], STORED, Joined(chunks[i])))
  }
}
