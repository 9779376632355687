/**
 The audit log file: the scanner, tail recovery, and append with rollback. `Scan` is the
 specification of one pass over the file; the lemmas tie it to lists of linked blocks.
 */
module AuditChain {
  import opened Bytes
  import opened FileIo
  import opened AuditBlock

  const ZERO_HASH: Digest := Zeros(32)

  /** Blocks numbered from `count + 1` on, each holding the hash of the one before it. */
  ghost predicate Linked(H: Hash, blocks: seq<Block>, count: nat, tip: Digest) {
    blocks == [] ||
    (&& WellFormed(blocks[0]) && blocks[0].sequence == count + 1 && blocks[0].previous == tip
     && Linked(H, blocks[1..], count + 1, BlockHash(H, blocks[0])))
  }

  ghost predicate ValidChain(H: Hash, blocks: seq<Block>) {
    Linked(H, blocks, 0, ZERO_HASH)
  }

  /** The hash the next block must hold. */
  ghost function Tip(H: Hash, blocks: seq<Block>, tip: Digest): Digest {
    if blocks == [] then tip else Tip(H, blocks[1..], BlockHash(H, blocks[0]))
  }

  ghost function TipHash(H: Hash, blocks: seq<Block>): Digest {
    Tip(H, blocks, ZERO_HASH)
  }

  ghost function EncodeAll(H: Hash, blocks: seq<Block>): (s: seq<byte>)
    ensures |s| >= WIRE_MIN * |blocks|
  {
    if blocks == [] then [] else Encode(H, blocks[0]) + EncodeAll(H, blocks[1..])
  }

  /** What a pass over some bytes finds: a chain, a chain and an unfinished record, or a defect. */
  datatype Scanned = Clean(blocks: seq<Block>) | Torn(blocks: seq<Block>) | Bad(status: Status)

  ghost function Prepend(first: seq<Block>, rest: Scanned): Scanned {
    match rest
    case Clean(blocks) => Clean(first + blocks)
    case Torn(blocks) => Torn(first + blocks)
    case Bad(status) => Bad(status)
  }

  /** A record that is cut short: recognisable as far as it goes. */
  ghost predicate Incomplete(tail: seq<byte>) {
    && tail != []
    && (if |tail| < |MAGIC| then tail == MAGIC[..|tail|]
        else && tail[..8] == MAGIC
             && (|tail| < HEADER_SIZE ||
                 (HeaderStatus(tail[..HEADER_SIZE]) == Ok && |tail| < TotalLen(tail[..HEADER_SIZE]))))
  }

  ghost function Scan(H: Hash, rest: seq<byte>, count: nat, tip: Digest): Scanned
    decreases |rest|
  {
    if rest == [] then Clean([])
    else if |rest| < |MAGIC| then
      if rest == MAGIC[..|rest|] then Torn([]) else Bad(Format)
    else if rest[..8] != MAGIC then Bad(Format)
    else if |rest| < HEADER_SIZE then Torn([])
    else if HeaderStatus(rest[..HEADER_SIZE]) != Ok then Bad(HeaderStatus(rest[..HEADER_SIZE]))
    else if |rest| < TotalLen(rest[..HEADER_SIZE]) then Torn([])
    else
      var total := TotalLen(rest[..HEADER_SIZE]);
      if BlockStatus(H, rest[..total]) != Ok then Bad(BlockStatus(H, rest[..total]))
      else
        var b := Decode(rest[..total]);
        if b.sequence != count + 1 then Bad(Sequence)
        else if b.previous != tip then Bad(ChainError)
        else Prepend([b], Scan(H, rest[total..], count + 1, BlockHash(H, b)))
  }

  ghost function ScanFile(H: Hash, bytes: seq<byte>): Scanned {
    Scan(H, bytes, 0, ZERO_HASH)
  }

  /** One verified record at the front is consumed. */
  lemma ScanBlock(H: Hash, b: Block, tail: seq<byte>, count: nat, tip: Digest)
    requires WellFormed(b) && b.sequence == count + 1 && b.previous == tip
    ensures Scan(H, Encode(H, b) + tail, count, tip) == Prepend([b], Scan(H, tail, count + 1, BlockHash(H, b)))
  {
    var wire := Encode(H, b);
    var rest := wire + tail;
    EncodeVerifies(H, b);
    var h := rest[..HEADER_SIZE];
    assert h == wire[..HEADER_SIZE] == Header(H, b);
    HeaderReadsBack(H, b, h);
    HeaderFields(H, b, h);
    assert rest[..8] == h[..8];
    assert rest[..|wire|] == wire && rest[|wire|..] == tail;
  }

  /** Scanning a chain and whatever follows finds the chain and then scans what follows. */
  lemma {:induction false} ScanChain(H: Hash, blocks: seq<Block>, tail: seq<byte>, count: nat, tip: Digest)
    requires Linked(H, blocks, count, tip)
    ensures Scan(H, EncodeAll(H, blocks) + tail, count, tip) ==
            Prepend(blocks, Scan(H, tail, count + |blocks|, Tip(H, blocks, tip)))
    decreases |blocks|
  {
    hide Scan, Encode, BlockHash, WellFormed;
    if blocks == [] {
      assert [] + tail == tail;
      assert Prepend([], Scan(H, tail, count, tip)) == Scan(H, tail, count, tip);
    } else {
      var b := blocks[0];
      var rest := EncodeAll(H, blocks[1..]) + tail;
      assert EncodeAll(H, blocks) + tail == Encode(H, b) + rest;
      ScanBlock(H, b, rest, count, tip);
      ScanChain(H, blocks[1..], tail, count + 1, BlockHash(H, b));
      assert [b] + blocks[1..] == blocks;
      PrependPrepend([b], blocks[1..], Scan(H, tail, count + |blocks|, Tip(H, blocks, tip)));
    }
  }

  lemma PrependPrepend(first: seq<Block>, second: seq<Block>, rest: Scanned)
    ensures Prepend(first, Prepend(second, rest)) == Prepend(first + second, rest)
  {
    if !rest.Bad? {
      assert first + (second + rest.blocks) == (first + second) + rest.blocks;
    }
  }

  /** Whatever a scan reports as blocks is linked, and their encodings are what was read. */
  lemma {:induction false} ScanSound(H: Hash, rest: seq<byte>, count: nat, tip: Digest)
    requires !Scan(H, rest, count, tip).Bad?
    ensures var s := Scan(H, rest, count, tip);
            && Linked(H, s.blocks, count, tip)
            && EncodeAll(H, s.blocks) <= rest
            && (if s.Clean? then rest == EncodeAll(H, s.blocks)
                else Incomplete(rest[|EncodeAll(H, s.blocks)|..]))
    decreases |rest|
  {
    if Incomplete(rest) || rest == [] {
      var s := Scan(H, rest, count, tip);
      assert s.blocks == [] && EncodeAll(H, s.blocks) == [];
      assert rest[0..] == rest;
    } else {
      var b, tail := ScanStep(H, rest, count, tip);
      ScanSound(H, tail, count + 1, BlockHash(H, b));
      ScanSoundStep(H, b, tail, Scan(H, tail, count + 1, BlockHash(H, b)), count, tip);
    }
  }

  /** A scan that gets past the first record has consumed the encoding of a block. */
  lemma ScanStep(H: Hash, rest: seq<byte>, count: nat, tip: Digest) returns (b: Block, tail: seq<byte>)
    requires !Scan(H, rest, count, tip).Bad? && !Incomplete(rest) && rest != []
    ensures WellFormed(b) && b.sequence == count + 1 && b.previous == tip
    ensures rest == Encode(H, b) + tail
    ensures Scan(H, rest, count, tip) == Prepend([b], Scan(H, tail, count + 1, BlockHash(H, b)))
  {
    hide Encode, BlockStatus, HeaderStatus, BlockHash, WellFormed, Decode, Prepend;
    var total := TotalLen(rest[..HEADER_SIZE]);
    b := Decode(rest[..total]);
    tail := rest[total..];
    PrependBad([b], Scan(H, tail, count + 1, BlockHash(H, b)));
    VerifiedIsCanonical(H, rest[..total]);
    assert rest == rest[..total] + tail;
  }

  lemma PrependBad(first: seq<Block>, rest: Scanned)
    ensures Prepend(first, rest).Bad? <==> rest.Bad?
  {
  }

  lemma ScanSoundStep(H: Hash, b: Block, tail: seq<byte>, next: Scanned, count: nat, tip: Digest)
    requires WellFormed(b) && b.sequence == count + 1 && b.previous == tip && !next.Bad?
    requires Linked(H, next.blocks, count + 1, BlockHash(H, b)) && EncodeAll(H, next.blocks) <= tail
    requires if next.Clean? then tail == EncodeAll(H, next.blocks) else Incomplete(tail[|EncodeAll(H, next.blocks)|..])
    ensures var s := Prepend([b], next);
            var rest := Encode(H, b) + tail;
            && Linked(H, s.blocks, count, tip)
            && EncodeAll(H, s.blocks) <= rest
            && (if s.Clean? then rest == EncodeAll(H, s.blocks)
                else Incomplete(rest[|EncodeAll(H, s.blocks)|..]))
  {
    hide Encode, Incomplete, BlockHash;
    var blocks := [b] + next.blocks;
    var rest := Encode(H, b) + tail;
    assert blocks[1..] == next.blocks;
    assert EncodeAll(H, blocks) == Encode(H, b) + EncodeAll(H, next.blocks);
    assert rest[|EncodeAll(H, blocks)|..] == tail[|EncodeAll(H, next.blocks)|..];
  }

  /** An unfinished record is reported as such, and nothing else is. */
  lemma ScanIncomplete(H: Hash, tail: seq<byte>, count: nat, tip: Digest)
    requires Incomplete(tail)
    ensures Scan(H, tail, count, tip) == Torn([])
  {
  }

  /**
   Scanner soundness and completeness: a file is reported clean exactly when it is the
   concatenation of the canonical encodings of blocks numbered 1..n, linked from the zero hash.
   */
  lemma CleanIff(H: Hash, bytes: seq<byte>, blocks: seq<Block>)
    ensures ScanFile(H, bytes) == Clean(blocks) <==> ValidChain(H, blocks) && bytes == EncodeAll(H, blocks)
  {
    if ScanFile(H, bytes) == Clean(blocks) {
      ScanSound(H, bytes, 0, ZERO_HASH);
    }
    if ValidChain(H, blocks) && bytes == EncodeAll(H, blocks) {
      ScanChain(H, blocks, [], 0, ZERO_HASH);
      assert bytes + [] == bytes && blocks + [] == blocks;
    }
  }

  /** A file is reported torn exactly when a valid chain is followed by an unfinished record. */
  lemma TornIff(H: Hash, bytes: seq<byte>, blocks: seq<Block>)
    ensures ScanFile(H, bytes) == Torn(blocks) <==>
            && ValidChain(H, blocks) && EncodeAll(H, blocks) <= bytes
            && Incomplete(bytes[|EncodeAll(H, blocks)|..])
  {
    hide Scan, Encode, EncodeAll, Incomplete, Linked;
    if ScanFile(H, bytes) == Torn(blocks) {
      ScanSound(H, bytes, 0, ZERO_HASH);
    }
    if ValidChain(H, blocks) && EncodeAll(H, blocks) <= bytes && Incomplete(bytes[|EncodeAll(H, blocks)|..]) {
      var tail := bytes[|EncodeAll(H, blocks)|..];
      ScanChain(H, blocks, tail, 0, ZERO_HASH);
      ScanIncomplete(H, tail, |blocks|, TipHash(H, blocks));
      assert EncodeAll(H, blocks) + tail == bytes && blocks + [] == blocks;
    }
  }

  /** Any proper non-empty prefix of any record is recognised as unfinished. */
  lemma PrefixIsIncomplete(H: Hash, b: Block, k: nat)
    requires WellFormed(b) && 0 < k < |Encode(H, b)|
    ensures Incomplete(Encode(H, b)[..k])
  {
    var wire := Encode(H, b);
    var tail := wire[..k];
    assert wire[..HEADER_SIZE] == Header(H, b);
    HeaderReadsBack(H, b, wire);
    if k < |MAGIC| {
      assert tail == wire[..8][..k];
    } else {
      assert tail[..8] == wire[..8];
      if HEADER_SIZE <= k {
        assert tail[..HEADER_SIZE] == wire[..HEADER_SIZE];
        HeaderReadsBack(H, b, tail[..HEADER_SIZE]);
      }
    }
  }

  /** The content recovery leaves behind. */
  ghost function Recovered(H: Hash, bytes: seq<byte>): seq<byte>
  {
    var s := ScanFile(H, bytes);
    if s.Torn? then EncodeAll(H, s.blocks) else bytes
  }

  /** Torn-write recovery gives back exactly the chain, for every cut through every record. */
  lemma RecoveryRestoresChain(H: Hash, blocks: seq<Block>, b: Block, k: nat)
    requires ValidChain(H, blocks) && WellFormed(b) && k < |Encode(H, b)|
    ensures Recovered(H, EncodeAll(H, blocks) + Encode(H, b)[..k]) == EncodeAll(H, blocks)
  {
    var bytes := EncodeAll(H, blocks) + Encode(H, b)[..k];
    if k == 0 {
      assert bytes == EncodeAll(H, blocks);
      CleanIff(H, bytes, blocks);
    } else {
      PrefixIsIncomplete(H, b, k);
      assert bytes[|EncodeAll(H, blocks)|..] == Encode(H, b)[..k];
      TornIff(H, bytes, blocks);
    }
  }

  /** Recovery is idempotent, and does nothing to a valid chain. */
  lemma RecoveryIdempotent(H: Hash, bytes: seq<byte>)
    ensures Recovered(H, Recovered(H, bytes)) == Recovered(H, bytes)
    ensures ScanFile(H, bytes).Clean? ==> Recovered(H, bytes) == bytes
    ensures !ScanFile(H, bytes).Bad? ==> ScanFile(H, Recovered(H, bytes)) == Clean(ScanFile(H, bytes).blocks)
  {
    var s := ScanFile(H, bytes);
    if !s.Bad? {
      ScanSound(H, bytes, 0, ZERO_HASH);
      CleanIff(H, Recovered(H, bytes), s.blocks);
    }
  }

  /** The block an append adds. */
  ghost function NextBlock(H: Hash, blocks: seq<Block>, timestamp: u64, payload: seq<byte>): Block
    requires |blocks| + 1 < U64
  {
    Block(|blocks| + 1, timestamp, TipHash(H, blocks), payload)
  }

  lemma {:induction false} EncodeAppend(H: Hash, blocks: seq<Block>, b: Block)
    ensures EncodeAll(H, blocks + [b]) == EncodeAll(H, blocks) + Encode(H, b)
  {
    if blocks == [] {
      assert [b][1..] == [];
      assert EncodeAll(H, [b]) == Encode(H, b) + [];
    } else {
      assert (blocks + [b])[1..] == blocks[1..] + [b];
      EncodeAppend(H, blocks[1..], b);
    }
  }

  lemma {:induction false} LinkedAppend(H: Hash, blocks: seq<Block>, b: Block, count: nat, tip: Digest)
    requires Linked(H, blocks, count, tip)
    requires WellFormed(b) && b.sequence == count + |blocks| + 1 && b.previous == Tip(H, blocks, tip)
    ensures Linked(H, blocks + [b], count, tip)
    ensures Tip(H, blocks + [b], tip) == BlockHash(H, b)
    decreases |blocks|
  {
    if blocks == [] {
      assert [b][1..] == [];
      assert [] + [b] == [b];
    } else {
      assert (blocks + [b])[1..] == blocks[1..] + [b];
      LinkedAppend(H, blocks[1..], b, count + 1, BlockHash(H, blocks[0]));
    }
  }

  /** The chain with one more block is a valid chain, and its encoding is the old one and a record. */
  lemma AppendKeepsChain(H: Hash, blocks: seq<Block>, timestamp: u64, payload: seq<byte>)
    requires ValidChain(H, blocks) && |payload| <= PAYLOAD_MAX && |blocks| + 1 < U64
    ensures var b := NextBlock(H, blocks, timestamp, payload);
            && ValidChain(H, blocks + [b])
            && EncodeAll(H, blocks + [b]) == EncodeAll(H, blocks) + Encode(H, b)
            && TipHash(H, blocks + [b]) == BlockHash(H, b)
  {
    var b := NextBlock(H, blocks, timestamp, payload);
    LinkedAppend(H, blocks, b, 0, ZERO_HASH);
    EncodeAppend(H, blocks, b);
  }

  datatype ChainResult = ChainResult(
    blockCount: nat, validBytes: nat, lastSequence: nat, lastHash: Digest, tailRecovered: bool)

  const NO_RESULT := ChainResult(0, 0, 0, Zeros(32), false)

  ghost function ResultOf(H: Hash, blocks: seq<Block>, recovered: bool): ChainResult {
    ChainResult(|blocks|, |EncodeAll(H, blocks)|, |blocks|, TipHash(H, blocks), recovered)
  }

  function FromOutcome(outcome: Outcome): Status {
    match outcome
    case Done => Ok
    case EndOfFile => Truncated
    case IoError => Io
    case OffsetOverflow => Overflow
  }

  /** A whole header that passes its checks stands at the front. */
  ghost predicate HeaderAt(rest: seq<byte>) {
    HEADER_SIZE <= |rest| && rest[..8] == MAGIC && HeaderStatus(rest[..HEADER_SIZE]) == Ok
  }

  /** A whole verified record stands at the front, whatever its number and link. */
  ghost predicate RecordAt(H: Hash, rest: seq<byte>, total: nat)
    ensures RecordAt(H, rest, total) ==> WIRE_MIN <= total <= |rest|
  {
    && HeaderAt(rest) && total == TotalLen(rest[..HEADER_SIZE]) <= |rest|
    && BlockStatus(H, rest[..total]) == Ok
  }

  /** How the next record on the file is judged. */
  datatype Verdict = Record(metadata: Metadata, total: nat) | Partial | Defect(status: Status)

  /** The verdict fits the bytes; a defect is one whatever number and link are asked for. */
  ghost predicate Judged(H: Hash, rest: seq<byte>, verdict: Verdict) {
    match verdict
    case Partial => Incomplete(rest)
    case Record(m, total) => RecordAt(H, rest, total) && m == MetadataOf(H, Decode(rest[..total]))
    case Defect(status) => status != Ok && forall count, tip :: Scan(H, rest, count, tip) == Bad(status)
  }

  lemma ShortJudged(H: Hash, rest: seq<byte>)
    requires 0 < |rest| < |MAGIC|
    ensures Judged(H, rest, if rest != MAGIC[..|rest|] then Defect(Format) else Partial)
  {
  }

  lemma MagicJudged(H: Hash, rest: seq<byte>)
    requires |MAGIC| <= |rest|
    ensures rest[..8] != MAGIC ==> Judged(H, rest, Defect(Format))
    ensures rest[..8] == MAGIC && |rest| < HEADER_SIZE ==> Judged(H, rest, Partial)
  {
    hide BlockStatus, HeaderStatus, TotalLen, Decode;
  }

  lemma HeaderJudged(H: Hash, rest: seq<byte>)
    requires HEADER_SIZE <= |rest| && rest[..8] == MAGIC
    ensures var status := HeaderStatus(rest[..HEADER_SIZE]);
            if status != Ok then Judged(H, rest, Defect(status))
            else |rest| < TotalLen(rest[..HEADER_SIZE]) ==> Judged(H, rest, Partial)
  {
    hide BlockStatus, HeaderStatus, TotalLen, Decode;
  }

  lemma BlockJudged(H: Hash, rest: seq<byte>, total: nat)
    requires HeaderAt(rest) && total == TotalLen(rest[..HEADER_SIZE]) <= |rest|
    ensures var status := BlockStatus(H, rest[..total]);
            status != Ok ==> Judged(H, rest, Defect(status))
  {
    hide BlockStatus, HeaderStatus, TotalLen, Decode;
  }

  lemma FrontOf(bytes: seq<byte>, offset: nat, n: nat)
    requires offset + n <= |bytes|
    ensures bytes[offset..][..n] == bytes[offset..offset + n]
  {
  }

  lemma WholeRecord(header: seq<byte>)
    requires |header| == HEADER_SIZE && HeaderStatus(header) == Ok
    ensures TotalLen(header) >= WIRE_MIN
  {
  }

  /** Reads the header at `offset`; a verdict is reached here unless a whole record may follow. */
  method ReadHeader(ghost H: Hash, file: File, fileSize: nat, offset: nat)
    returns (verdict: Option<Verdict>, total: nat, ghost fault: bool)
    requires file.Valid() && fileSize == |file.bytes| && offset < fileSize
    modifies file`interrupts
    ensures fault ==> verdict.Some? && verdict.value.Defect? && verdict.value.status != Ok && !file.reliable
    ensures !fault && verdict.Some? ==> Judged(H, file.bytes[offset..], verdict.value)
    ensures verdict.None? ==>
              var rest := file.bytes[offset..];
              HeaderAt(rest) && WIRE_MIN <= total == TotalLen(rest[..HEADER_SIZE]) <= |rest|
  {
    hide Judged, HeaderStatus, TotalLen;
    var remaining := fileSize - offset;
    ghost var rest := file.bytes[offset..];
    var header := new byte[HEADER_SIZE](_ => 0);
    total := 0;
    if remaining < |MAGIC| {
      var outcome := ReadExactAt(file, header, remaining, offset);
      if outcome != Done {
        return Some(Defect(FromOutcome(outcome))), 0, true;
      }
      assert header[..remaining] == rest;
      ShortJudged(H, rest);
      return Some(if header[..remaining] != MAGIC[..remaining] then Defect(Format) else Partial), 0, false;
    }
    var outcome := ReadExactAt(file, header, |MAGIC|, offset);
    if outcome != Done {
      return Some(Defect(FromOutcome(outcome))), 0, true;
    }
    FrontOf(file.bytes, offset, |MAGIC|);
    assert header[..8] == rest[..8];
    MagicJudged(H, rest);
    if header[..8] != MAGIC {
      return Some(Defect(Format)), 0, false;
    }
    if remaining < HEADER_SIZE {
      return Some(Partial), 0, false;
    }
    outcome := ReadExactAt(file, header, HEADER_SIZE, offset);
    if outcome != Done {
      return Some(Defect(FromOutcome(outcome))), 0, true;
    }
    FrontOf(file.bytes, offset, HEADER_SIZE);
    assert header[..HEADER_SIZE] == rest[..HEADER_SIZE];
    HeaderJudged(H, rest);
    var status;
    status, total := DecodeHeader(header, HEADER_SIZE);
    if status != Ok {
      return Some(Defect(status)), 0, false;
    }
    WholeRecord(header[..HEADER_SIZE]);
    return if total > remaining then Some(Partial) else None, total, false;
  }

  /**
   Reads and judges the record at `offset`. The verdict is about the bytes there alone:
   whether its number and link fit is for the caller.
   */
  method ReadRecord(H: Hash, file: File, fileSize: nat, offset: nat)
    returns (verdict: Verdict, ghost fault: bool)
    requires file.Valid() && fileSize == |file.bytes| && offset < fileSize
    modifies file`interrupts
    ensures fault ==> verdict.Defect? && verdict.status != Ok && !file.reliable
    ensures !fault ==> Judged(H, file.bytes[offset..], verdict)
  {
    hide Scan, Incomplete, HeaderStatus, TotalLen, BlockStatus, Decode, MetadataOf;
    ghost var rest := file.bytes[offset..];
    var early, total;
    early, total, fault := ReadHeader(H, file, fileSize, offset);
    if early.Some? {
      return early.value, fault;
    }
    var full: bool := *;
    if full && !file.reliable {
      // no memory for the record
      return Defect(Capacity), true;
    }
    var record := new byte[total](_ => 0);
    var outcome := ReadExactAt(file, record, total, offset);
    if outcome != Done {
      return Defect(FromOutcome(outcome)), true;
    }
    FrontOf(file.bytes, offset, total);
    assert record[..] == record[..total] == rest[..total];
    BlockJudged(H, rest, total);
    var status, metadata;
    status, metadata, fault := BlockVerify(H, file.reliable, record);
    verdict := if status != Ok then Defect(status) else Record(metadata, total);
  }

  /** What a scan leaves in the file and reports, given what the specification finds. */
  ghost predicate ScanOutcome(H: Hash, before: seq<byte>, after: seq<byte>, recover: bool,
                              status: Status, result: ChainResult, fault: bool)
  {
    var s := ScanFile(H, before);
    && (status == Ok ==>
          && !fault && !s.Bad? && (s.Torn? ==> recover)
          && result == ResultOf(H, s.blocks, s.Torn?) && after == Recovered(H, before))
    && (status != Ok ==> after == before || (recover && after == Recovered(H, before)))
    && (!fault && s.Bad? ==> status == s.status && after == before)
    && (!fault && s.Torn? && !recover ==> status == Truncated)
    && (!fault && (s.Clean? || (s.Torn? && recover)) ==> status == Ok)
  }

  /** The loop invariant of the scan: `blocks` have been read, the rest is still to be scanned. */
  ghost predicate Progress(H: Hash, bytes: seq<byte>, offset: nat, blocks: seq<Block>, count: nat, tip: Digest) {
    && offset <= |bytes| && count == |blocks| && WIRE_MIN * count <= offset
    && ValidChain(H, blocks) && EncodeAll(H, blocks) == bytes[..offset] && tip == TipHash(H, blocks)
    && ScanFile(H, bytes) == Prepend(blocks, Scan(H, bytes[offset..], count, tip))
  }

  lemma ProgressStart(H: Hash, bytes: seq<byte>)
    ensures Progress(H, bytes, 0, [], 0, ZERO_HASH)
  {
    assert bytes[0..] == bytes;
    PrependNothing(ScanFile(H, bytes));
  }

  lemma ProgressEnd(H: Hash, bytes: seq<byte>, blocks: seq<Block>, count: nat, tip: Digest)
    requires Progress(H, bytes, |bytes|, blocks, count, tip)
    ensures ScanFile(H, bytes) == Clean(blocks)
  {
    assert bytes[|bytes|..] == [] && blocks + [] == blocks;
  }

  lemma ProgressPartial(H: Hash, bytes: seq<byte>, offset: nat, blocks: seq<Block>, count: nat, tip: Digest)
    requires Progress(H, bytes, offset, blocks, count, tip) && Incomplete(bytes[offset..])
    ensures ScanFile(H, bytes) == Torn(blocks)
  {
    ScanIncomplete(H, bytes[offset..], count, tip);
    assert blocks + [] == blocks;
  }

  /** One iteration: the record either continues the chain or makes the file defective. */
  lemma ProgressStep(H: Hash, bytes: seq<byte>, offset: nat, total: nat, blocks: seq<Block>, count: nat, tip: Digest)
    requires Progress(H, bytes, offset, blocks, count, tip) && RecordAt(H, bytes[offset..], total)
    ensures var b := Decode(bytes[offset..][..total]);
            if b.sequence != count + 1 then ScanFile(H, bytes) == Bad(Sequence)
            else if b.previous != tip then ScanFile(H, bytes) == Bad(ChainError)
            else Progress(H, bytes, offset + total, blocks + [b], count + 1, BlockHash(H, b))
  {
    hide Encode, BlockStatus, HeaderStatus;
    var rest := bytes[offset..];
    var b := Decode(rest[..total]);
    RecordScan(H, rest, total, count, tip);
    if b.sequence == count + 1 && b.previous == tip {
      VerifiedIsCanonical(H, rest[..total]);
      LinkedAppend(H, blocks, b, 0, ZERO_HASH);
      EncodeAppend(H, blocks, b);
      assert bytes[..offset + total] == bytes[..offset] + rest[..total];
      assert rest[total..] == bytes[offset + total..];
      PrependPrepend(blocks, [b], Scan(H, rest[total..], count + 1, BlockHash(H, b)));
    }
  }

  lemma RecordScan(H: Hash, rest: seq<byte>, total: nat, count: nat, tip: Digest)
    requires RecordAt(H, rest, total)
    ensures BlockStatus(H, rest[..total]) == Ok
    ensures var b := Decode(rest[..total]);
            Scan(H, rest, count, tip) ==
            if b.sequence != count + 1 then Bad(Sequence)
            else if b.previous != tip then Bad(ChainError)
            else Prepend([b], Scan(H, rest[total..], count + 1, BlockHash(H, b)))
  {
    hide BlockStatus, HeaderStatus, Decode, BlockHash;
  }

  lemma EmptyChain(H: Hash, tip: Digest)
    ensures Linked(H, [], 0, tip) && Tip(H, [], tip) == tip && EncodeAll(H, []) == []
  {
  }

  lemma PrependNothing(s: Scanned)
    ensures Prepend([], s) == s
  {
    if !s.Bad? {
      assert [] + s.blocks == s.blocks;
    }
  }

  /** The whole pass, under the lock. */
  method ScanLocked(H: Hash, file: File, recover: bool)
    returns (status: Status, result: ChainResult, ghost fault: bool)
    requires file.Valid()
    modifies file
    ensures file.Valid() && (file.reliable ==> !fault)
    ensures ScanOutcome(H, old(file.bytes), file.bytes, recover, status, result, fault)
  {
    hide Scan, Encode, EncodeAll, Incomplete, Linked, Tip, RecordAt, Decode, BlockHash;
    ghost var bytes := file.bytes;
    result, fault := NO_RESULT, true;
    var fails: bool := *;
    if fails && !file.reliable {
      // fstat failed, or this is not a regular file
      return Io, NO_RESULT, true;
    }
    var fileSize := |file.bytes|;
    var offset, count := 0, 0;
    var previousHash: Digest := ZERO_HASH;
    ghost var blocks: seq<Block> := [];
    ProgressStart(H, bytes);
    while offset < fileSize
      invariant file.bytes == bytes && file.Valid() && fileSize == |bytes|
      invariant Progress(H, bytes, offset, blocks, count, previousHash)
      decreases fileSize - offset
    {
      var verdict;
      verdict, fault := ReadRecord(H, file, fileSize, offset);
      if verdict.Defect? {
        return verdict.status, NO_RESULT, fault;
      }
      if verdict.Partial? {
        ProgressPartial(H, bytes, offset, blocks, count, previousHash);
        status, result, fault := PartialTail(H, file, recover, offset, count, previousHash, blocks);
        return;
      }
      var metadata, total := verdict.metadata, verdict.total;
      ProgressStep(H, bytes, offset, total, blocks, count, previousHash);
      if metadata.sequence != count + 1 {
        return Sequence, NO_RESULT, false;
      }
      if metadata.previous != previousHash {
        return ChainError, NO_RESULT, false;
      }
      blocks := blocks + [Decode(bytes[offset..][..total])];
      previousHash := metadata.blockHash;
      offset := offset + total;
      count := count + 1;
      if count == U64 - 1 && offset < fileSize {
        // block number 2^64 would be refused here; no file is long enough for that
        assert false;
      }
    }
    ProgressEnd(H, bytes, blocks, count, previousHash);
    return Ok, ChainResult(count, offset, count, previousHash, false), false;
  }

  /** The scan stopped at an unfinished record: recovery cuts it off. */
  method PartialTail(H: Hash, file: File, recover: bool, offset: nat, count: nat, previousHash: Digest,
                     ghost blocks: seq<Block>)
    returns (status: Status, result: ChainResult, ghost fault: bool)
    requires file.Valid() && ScanFile(H, file.bytes) == Torn(blocks)
    requires offset <= |file.bytes| && EncodeAll(H, blocks) == file.bytes[..offset]
    requires count == |blocks| && previousHash == TipHash(H, blocks)
    modifies file
    ensures file.Valid() && (file.reliable ==> !fault)
    ensures ScanOutcome(H, old(file.bytes), file.bytes, recover, status, result, fault)
  {
    if !recover {
      return Truncated, NO_RESULT, false;
    }
    var outcome := FileIo.Truncate(file, offset);
    if outcome != Done {
      return FromOutcome(outcome), NO_RESULT, true;
    }
    outcome := Sync(file);
    if outcome != Done {
      return FromOutcome(outcome), NO_RESULT, true;
    }
    return Ok, ChainResult(count, offset, count, previousHash, true), false;
  }

  /** An advisory lock call: it succeeds or reports an error. */
  method LockCall(reliable: bool) returns (ok: bool)
    ensures reliable ==> ok
  {
    ok := *;
    ok := ok || reliable;
  }

  /** verify_fd (recover false) and recover_fd (recover true). */
  method ChainOperation(H: Hash, file: File, recover: bool)
    returns (status: Status, result: ChainResult, ghost fault: bool)
    requires file.Valid()
    modifies file
    ensures file.Valid()
    ensures !recover ==> file.bytes == old(file.bytes)
    ensures recover && !file.writable ==> status == InvalidArgument && file.bytes == old(file.bytes)
    ensures file.bytes == old(file.bytes) || file.bytes == Recovered(H, old(file.bytes))
    ensures status == Ok ==> ScanOutcome(H, old(file.bytes), file.bytes, recover, Ok, result, false)
    ensures status != Ok ==> result == NO_RESULT
    ensures file.reliable ==> !fault
    ensures !fault && (recover ==> file.writable) ==>
              ScanOutcome(H, old(file.bytes), file.bytes, recover, status, result, false)
  {
    fault := false;
    if recover && !file.writable {
      return InvalidArgument, NO_RESULT, false;
    }
    var locked := LockCall(file.reliable);
    if !locked {
      return Busy, NO_RESULT, true;
    }
    var scanned;
    status, scanned, fault := ScanLocked(H, file, recover);
    var unlocked := LockCall(file.reliable);
    if status == Ok && !unlocked {
      return Io, NO_RESULT, true;
    }
    result := if status == Ok then scanned else NO_RESULT;
  }
}
