/**
 The canonical V1 record of the audit log: its printer, its verifier, and the proof that the
 verifier accepts exactly what the printer writes. SHA-256 is an arbitrary function from byte
 strings to 32 bytes, so every result holds for every hash.
 */
module AuditBlock {
  import opened Bytes

  const HEADER_SIZE: nat := 104
  const HASH_SIZE: nat := 32
  const WIRE_MIN: nat := 136
  const PAYLOAD_MAX: nat := 1048576
  const WIRE_MAX: nat := 1048712
  const VERSION_1: nat := 1

  const MAGIC: seq<byte> := [0x41, 0x4c, 0x52, 0x49, 0x41, 0x55, 0x44, 0x54]
  const DOMAIN: seq<byte> := [
    0x41, 0x4c, 0x52, 0x49, 0x4f, 0x53, 0x2d, 0x41, 0x55, 0x44, 0x49, 0x54, 0x2d, 0x42,
    0x4c, 0x4f, 0x43, 0x4b, 0x2d, 0x56, 0x31]

  type u64 = n: int | 0 <= n < 0x1_0000_0000_0000_0000

  type Digest = s: seq<byte> | |s| == 32 witness Zeros(32)

  type Hash = seq<byte> -> Digest

  datatype Status =
    | Ok | InvalidArgument | Capacity | Format | Version | Length | Noncanonical
    | HashError | ChainError | Sequence | Truncated | Io | Overflow | Busy

  datatype Block = Block(sequence: u64, timestamp: u64, previous: Digest, payload: seq<byte>)

  datatype Metadata = Metadata(
    sequence: u64, timestamp: u64, payloadLen: nat, previous: Digest, payloadHash: Digest, blockHash: Digest)

  const NO_METADATA := Metadata(0, 0, 0, Zeros(32), Zeros(32), Zeros(32))

  predicate WellFormed(b: Block) {
    b.sequence != 0 && |b.payload| <= PAYLOAD_MAX
  }

  function Pack(magic: seq<byte>, version: seq<byte>, headerSize: seq<byte>, total: seq<byte>,
                payloadLen: seq<byte>, flags: seq<byte>, sequence: seq<byte>, timestamp: seq<byte>): seq<byte>
  {
    magic + version + headerSize + total + payloadLen + flags + sequence + timestamp
  }

  /** The first 40 bytes: everything before the two hashes. */
  function Preamble(b: Block): (s: seq<byte>)
    ensures |s| == 40
  {
    Pack(MAGIC, ToBE(VERSION_1, 2), ToBE(HEADER_SIZE, 2), ToBE(WIRE_MIN + |b.payload|, 4),
         ToBE(|b.payload|, 4), ToBE(0, 4), ToBE(b.sequence, 8), ToBE(b.timestamp, 8))
  }

  function Header(H: Hash, b: Block): (s: seq<byte>)
    ensures |s| == HEADER_SIZE
  {
    Preamble(b) + b.previous + H(b.payload)
  }

  /** What the block hash is taken over. */
  function Preimage(H: Hash, b: Block): seq<byte> {
    DOMAIN + Header(H, b) + b.payload
  }

  function BlockHash(H: Hash, b: Block): Digest {
    H(Preimage(H, b))
  }

  /** The canonical encoding of a block. */
  function Encode(H: Hash, b: Block): (s: seq<byte>)
    ensures |s| == WIRE_MIN + |b.payload|
  {
    Header(H, b) + b.payload + BlockHash(H, b)
  }

  function MetadataOf(H: Hash, b: Block): Metadata {
    Metadata(b.sequence, b.timestamp, |b.payload|, b.previous, H(b.payload), BlockHash(H, b))
  }

  function TotalLen(wire: seq<byte>): nat
    requires HEADER_SIZE <= |wire|
  {
    WIRE_MIN + FromBE(wire[16..20])
  }

  /** The verdict on a header. */
  function HeaderStatus(wire: seq<byte>): Status {
    if |wire| < HEADER_SIZE then Truncated
    else if wire[..8] != MAGIC then Format
    else if FromBE(wire[8..10]) != VERSION_1 then Version
    else if FromBE(wire[10..12]) != HEADER_SIZE || FromBE(wire[20..24]) != 0 then Noncanonical
    else if FromBE(wire[16..20]) > PAYLOAD_MAX then Length
    else if FromBE(wire[12..16]) != TotalLen(wire) then Length
    else Ok
  }

  /** The verdict on a whole record. */
  function BlockStatus(H: Hash, wire: seq<byte>): Status {
    if HeaderStatus(wire) != Ok then HeaderStatus(wire)
    else if |wire| < TotalLen(wire) then Truncated
    else if |wire| > TotalLen(wire) then Length
    else if FromBE(wire[24..32]) == 0 then Sequence
    else
      var payload := wire[HEADER_SIZE..|wire| - HASH_SIZE];
      if H(payload) != wire[72..104] then HashError
      else if H(DOMAIN + wire[..HEADER_SIZE] + payload) != wire[|wire| - HASH_SIZE..] then HashError
      else Ok
  }

  lemma U64Bound(s: seq<byte>)
    requires |s| == 8
    ensures FromBE(s) < U64
  {
    ToFromBE(s);
    Pow256Values();
  }

  /** The block a record of the right length spells out. */
  function Decode(wire: seq<byte>): Block
    requires WIRE_MIN <= |wire|
  {
    U64Bound(wire[24..32]);
    U64Bound(wire[32..40]);
    Block(FromBE(wire[24..32]), FromBE(wire[32..40]), wire[40..72], wire[HEADER_SIZE..|wire| - HASH_SIZE])
  }

  lemma PreambleFields(b: Block)
    ensures Preamble(b)[..8] == MAGIC
    ensures Preamble(b)[8..10] == ToBE(VERSION_1, 2) && Preamble(b)[10..12] == ToBE(HEADER_SIZE, 2)
    ensures Preamble(b)[12..16] == ToBE(WIRE_MIN + |b.payload|, 4)
    ensures Preamble(b)[16..20] == ToBE(|b.payload|, 4) && Preamble(b)[20..24] == ToBE(0, 4)
    ensures Preamble(b)[24..32] == ToBE(b.sequence, 8) && Preamble(b)[32..40] == ToBE(b.timestamp, 8)
  {
    var p1 := MAGIC + ToBE(VERSION_1, 2);
    var p2 := p1 + ToBE(HEADER_SIZE, 2);
    var p3 := p2 + ToBE(WIRE_MIN + |b.payload|, 4);
    var p4 := p3 + ToBE(|b.payload|, 4);
    var p5 := p4 + ToBE(0, 4);
    var p6 := p5 + ToBE(b.sequence, 8);
    AppendKeeps(MAGIC, ToBE(VERSION_1, 2));
    AppendKeeps(p1, ToBE(HEADER_SIZE, 2));
    AppendKeeps(p2, ToBE(WIRE_MIN + |b.payload|, 4));
    AppendKeeps(p3, ToBE(|b.payload|, 4));
    AppendKeeps(p4, ToBE(0, 4));
    AppendKeeps(p5, ToBE(b.sequence, 8));
    AppendKeeps(p6, ToBE(b.timestamp, 8));
  }

  lemma HeaderFields(H: Hash, b: Block, wire: seq<byte>)
    requires HEADER_SIZE <= |wire| && wire[..HEADER_SIZE] == Header(H, b)
    ensures wire[..8] == MAGIC && wire[8..10] == ToBE(VERSION_1, 2) && wire[10..12] == ToBE(HEADER_SIZE, 2)
    ensures wire[12..16] == ToBE(WIRE_MIN + |b.payload|, 4) && wire[16..20] == ToBE(|b.payload|, 4)
    ensures wire[20..24] == ToBE(0, 4) && wire[24..32] == ToBE(b.sequence, 8) && wire[32..40] == ToBE(b.timestamp, 8)
    ensures wire[40..72] == b.previous && wire[72..104] == H(b.payload)
  {
    var p := Preamble(b);
    assert p <= Header(H, b) <= wire;
    SliceOfPrefix(wire, p, 0, 8);
    SliceOfPrefix(wire, p, 8, 10);
    SliceOfPrefix(wire, p, 10, 12);
    SliceOfPrefix(wire, p, 12, 16);
    SliceOfPrefix(wire, p, 16, 20);
    SliceOfPrefix(wire, p, 20, 24);
    SliceOfPrefix(wire, p, 24, 32);
    SliceOfPrefix(wire, p, 32, 40);
    PreambleFields(b);
    AppendKeeps(p, b.previous);
    AppendKeeps(p + b.previous, H(b.payload));
    SliceOfPrefix(wire, Header(H, b), 40, 72);
    SliceOfPrefix(wire, Header(H, b), 72, 104);
  }

  /** Every field of a well-formed header can be read back, whatever bytes follow it. */
  lemma HeaderReadsBack(H: Hash, b: Block, wire: seq<byte>)
    requires WellFormed(b) && HEADER_SIZE <= |wire| && wire[..HEADER_SIZE] == Header(H, b)
    ensures HeaderStatus(wire) == Ok && TotalLen(wire) == WIRE_MIN + |b.payload|
    ensures FromBE(wire[24..32]) == b.sequence && FromBE(wire[32..40]) == b.timestamp
    ensures wire[40..72] == b.previous && wire[72..104] == H(b.payload)
  {
    HeaderFields(H, b, wire);
    Pow256Values();
    FromToBE(VERSION_1, 2);
    FromToBE(HEADER_SIZE, 2);
    FromToBE(WIRE_MIN + |b.payload|, 4);
    FromToBE(|b.payload|, 4);
    FromToBE(0, 4);
    FromToBE(b.sequence, 8);
    FromToBE(b.timestamp, 8);
  }

  /** Completeness: what the encoder writes, the verifier accepts, and it decodes to the block. */
  lemma EncodeVerifies(H: Hash, b: Block)
    requires WellFormed(b)
    ensures BlockStatus(H, Encode(H, b)) == Ok && Decode(Encode(H, b)) == b
  {
    var wire := Encode(H, b);
    assert wire[..HEADER_SIZE] == Header(H, b);
    HeaderReadsBack(H, b, wire);
    assert wire[HEADER_SIZE..|wire| - HASH_SIZE] == b.payload;
    assert wire[|wire| - HASH_SIZE..] == BlockHash(H, b);
  }

  lemma CanonicalPreamble(wire: seq<byte>)
    requires WIRE_MIN <= |wire| && HeaderStatus(wire) == Ok && |wire| == TotalLen(wire)
    ensures Preamble(Decode(wire)) == wire[..40]
  {
    ToFromBE(wire[8..10]);
    ToFromBE(wire[10..12]);
    ToFromBE(wire[12..16]);
    ToFromBE(wire[16..20]);
    ToFromBE(wire[20..24]);
    ToFromBE(wire[24..32]);
    ToFromBE(wire[32..40]);
    JoinFields(wire);
    var b := Decode(wire);
    assert ToBE(WIRE_MIN + |b.payload|, 4) == wire[12..16] && ToBE(|b.payload|, 4) == wire[16..20];
    assert ToBE(b.sequence, 8) == wire[24..32] && ToBE(b.timestamp, 8) == wire[32..40];
  }

  /** The eight fields of the preamble, side by side. */
  lemma JoinFields(wire: seq<byte>)
    requires 40 <= |wire|
    ensures Pack(wire[..8], wire[8..10], wire[10..12], wire[12..16], wire[16..20], wire[20..24], wire[24..32],
                 wire[32..40]) == wire[..40]
  {
    Join(wire, 8, 10);
    Join(wire, 10, 12);
    Join(wire, 12, 16);
    Join(wire, 16, 20);
    Join(wire, 20, 24);
    Join(wire, 24, 32);
    Join(wire, 32, 40);
  }

  /** Soundness: what the verifier accepts is the canonical encoding of the block it decodes to. */
  lemma VerifiedIsCanonical(H: Hash, wire: seq<byte>)
    requires BlockStatus(H, wire) == Ok
    ensures WellFormed(Decode(wire)) && wire == Encode(H, Decode(wire))
  {
    CanonicalPreamble(wire);
    Join(wire, 40, 72);
    Join(wire, 72, 104);
    Join(wire, HEADER_SIZE, |wire| - HASH_SIZE);
    Join(wire, |wire| - HASH_SIZE, |wire|);
  }

  /** The verifier accepts exactly the canonical encodings. */
  lemma VerifyExact(H: Hash, wire: seq<byte>)
    ensures BlockStatus(H, wire) == Ok <==> exists b :: WellFormed(b) && wire == Encode(H, b)
  {
    if BlockStatus(H, wire) == Ok {
      VerifiedIsCanonical(H, wire);
    }
    forall b | WellFormed(b) && wire == Encode(H, b)
      ensures BlockStatus(H, wire) == Ok
    {
      EncodeVerifies(H, b);
    }
  }

  /** SHA-256 over up to three parts; the library may fail, and then the digest is zeroed. */
  method Sha256Parts(H: Hash, reliable: bool, first: seq<byte>, second: seq<byte>, third: seq<byte>)
    returns (status: Status, digest: Digest, ghost fault: bool)
    ensures status == Ok || (status == HashError && !reliable)
    ensures digest == if status == Ok then H(first + second + third) else Zeros(32)
    ensures fault <==> status != Ok
  {
    var fails: bool := *;
    if fails && !reliable {
      status, digest, fault := HashError, Zeros(32), true;
    } else {
      status, digest, fault := Ok, H(first + second + third), false;
    }
  }

  method DecodeHeader(wire: array<byte>, available: nat) returns (status: Status, totalLen: nat)
    requires available <= wire.Length
    ensures status == HeaderStatus(wire[..available])
    ensures status == Ok ==> totalLen == TotalLen(wire[..available]) <= WIRE_MAX
  {
    totalLen := 0;
    ghost var s := wire[..available];
    if available < HEADER_SIZE {
      return Truncated, 0;
    }
    assert forall i, j | 0 <= i <= j <= HEADER_SIZE :: wire[i..j] == s[i..j];
    if wire[..8] != MAGIC {
      return Format, 0;
    }
    var version := LoadBE(wire, 8, 2);
    if version != VERSION_1 {
      return Version, 0;
    }
    var headerSize := LoadBE(wire, 10, 2);
    var flags := LoadBE(wire, 20, 4);
    if headerSize != HEADER_SIZE || flags != 0 {
      return Noncanonical, 0;
    }
    var declared := LoadBE(wire, 12, 4);
    var payloadLen := LoadBE(wire, 16, 4);
    if payloadLen > PAYLOAD_MAX {
      return Length, 0;
    }
    if declared != WIRE_MIN + payloadLen || declared < WIRE_MIN || declared > WIRE_MAX {
      return Length, 0;
    }
    return Ok, WIRE_MIN + payloadLen;
  }

  /**
   Encodes one record into `output`, which may be longer than the record. Only the hash
   library can make a call with valid arguments and enough room fail.
   */
  method BlockEncode(H: Hash, reliable: bool, previous: Digest, sequence: u64, timestamp: u64, payload: seq<byte>, output: array<byte>)
    returns (status: Status, written: nat, metadata: Metadata, ghost fault: bool)
    modifies output
    ensures fault ==> status == HashError && !reliable
    ensures !fault ==> status == if sequence == 0 then InvalidArgument
                                 else if |payload| > PAYLOAD_MAX then Length
                                 else if output.Length < WIRE_MIN + |payload| then Capacity
                                 else Ok
    ensures status == Ok ==>
              var b := Block(sequence, timestamp, previous, payload);
              && WellFormed(b) && written == |Encode(H, b)| <= output.Length
              && output[..] == Encode(H, b) + old(output[written..])
              && metadata == MetadataOf(H, b)
    ensures status != Ok ==> written == 0 && metadata == NO_METADATA
    ensures status != Ok && !fault ==> output[..] == old(output[..])
    ensures fault ==>
              var n := WIRE_MIN + |payload|;
              n <= output.Length && (output[..] == old(output[..]) || output[..] == Zeros(n) + old(output[n..]))
  {
    written, metadata, fault := 0, NO_METADATA, false;
    if sequence == 0 {
      return InvalidArgument, 0, NO_METADATA, false;
    }
    if |payload| > PAYLOAD_MAX {
      return Length, 0, NO_METADATA, false;
    }
    var wireLen := WIRE_MIN + |payload|;
    if output.Length < wireLen {
      return Capacity, 0, NO_METADATA, false;
    }
    ghost var b := Block(sequence, timestamp, previous, payload);
    var payloadHash: Digest;
    assert payload + [] + [] == payload;
    status, payloadHash, fault := Sha256Parts(H, reliable, payload, [], []);
    if status != Ok {
      return status, 0, NO_METADATA, fault;
    }
    ghost var rest := output[HEADER_SIZE + |payload|..];
    hide Splice, Header;
    DropTwice(output[..], HEADER_SIZE + |payload|, HASH_SIZE);
    WriteHeader(H, b, previous, sequence, timestamp, payload, payloadHash, output);
    RecordLayout(Header(H, b), payload, rest, Zeros(wireLen));
    assert output[..HEADER_SIZE] == Header(H, b) && output[HEADER_SIZE..HEADER_SIZE + |payload|] == payload;
    var blockHash: Digest;
    status, blockHash, fault := Sha256Parts(H, reliable, DOMAIN, output[..HEADER_SIZE], output[HEADER_SIZE..HEADER_SIZE + |payload|]);
    if status != Ok {
      CopyIn(output, 0, Zeros(wireLen));
      return status, 0, NO_METADATA, fault;
    }
    CopyIn(output, HEADER_SIZE + |payload|, blockHash);
    SpliceExtends(Header(H, b) + payload, rest, blockHash);
    written := wireLen;
    metadata := Metadata(sequence, timestamp, |payload|, previous, payloadHash, blockHash);
  }

  lemma DropTwice(s: seq<byte>, i: nat, n: nat)
    requires i + n <= |s|
    ensures s[i..][n..] == s[i + n..]
  {
  }

  lemma RecordLayout(header: seq<byte>, payload: seq<byte>, rest: seq<byte>, zeros: seq<byte>)
    requires |zeros| == |header| + |payload| + HASH_SIZE && HASH_SIZE <= |rest|
    ensures var s := header + payload + rest;
            && s[..|header|] == header && s[|header|..|header| + |payload|] == payload
            && Splice(s, 0, zeros) == zeros + rest[HASH_SIZE..]
  {
  }

  /** Fills the header and the payload. */
  method WriteHeader(H: Hash, ghost b: Block, previous: Digest, sequence: u64, timestamp: u64, payload: seq<byte>,
                     payloadHash: Digest, output: array<byte>)
    requires b == Block(sequence, timestamp, previous, payload) && payloadHash == H(payload)
    requires WIRE_MIN + |payload| <= output.Length
    modifies output
    ensures output[..] == Header(H, b) + payload + old(output[HEADER_SIZE + |payload|..])
  {
    ghost var tail := output[HEADER_SIZE..];
    CopyIn(output, 0, Zeros(HEADER_SIZE));
    assert output[..] == [] + Zeros(HEADER_SIZE) + tail;
    PutField(output, 0, MAGIC, [], HEADER_SIZE, tail);
    ghost var done := [] + MAGIC;
    done := PutInt(output, 8, VERSION_1, 2, done, 96, tail);
    done := PutInt(output, 10, HEADER_SIZE, 2, done, 94, tail);
    done := PutInt(output, 12, WIRE_MIN + |payload|, 4, done, 92, tail);
    done := PutInt(output, 16, |payload|, 4, done, 88, tail);
    SkipField(done, 84, 4, tail);
    done := PutInt(output, 24, sequence, 8, done + ToBE(0, 4), 80, tail);
    done := PutInt(output, 32, timestamp, 8, done, 72, tail);
    assert done == Preamble(b) by {
      assert [] + MAGIC == MAGIC;
    }
    PutField(output, 40, previous, done, 64, tail);
    PutField(output, 72, payloadHash, done + previous, 32, tail);
    assert output[..] == Header(H, b) + tail by {
      assert Zeros(0) == [];
    }
    CopyIn(output, HEADER_SIZE, payload);
    SpliceExtends(Header(H, b), tail, payload);
  }

  /** Checks exactly one record. */
  method BlockVerify(H: Hash, reliable: bool, wire: array<byte>) returns (status: Status, metadata: Metadata, ghost fault: bool)
    ensures fault ==> status == HashError && !reliable
    ensures !fault ==> status == BlockStatus(H, wire[..])
    ensures status == Ok ==> WIRE_MIN <= wire.Length && metadata == MetadataOf(H, Decode(wire[..]))
    ensures status != Ok ==> metadata == NO_METADATA
  {
    metadata, fault := NO_METADATA, false;
    ghost var s := wire[..];
    var total;
    assert wire[..wire.Length] == s;
    status, total := DecodeHeader(wire, wire.Length);
    if status != Ok {
      return status, NO_METADATA, false;
    }
    if wire.Length != total {
      return if wire.Length < total then Truncated else Length, NO_METADATA, false;
    }
    var sequence := LoadBE(wire, 24, 8);
    assert wire[24..32] == s[24..32];
    if sequence == 0 {
      return Sequence, NO_METADATA, false;
    }
    status, metadata, fault := VerifyHashes(H, reliable, wire, sequence);
  }

  /** The two hash comparisons, and the metadata of a record that passes both. */
  method VerifyHashes(H: Hash, reliable: bool, wire: array<byte>, sequence: nat)
    returns (status: Status, metadata: Metadata, ghost fault: bool)
    requires HeaderStatus(wire[..]) == Ok && wire.Length == TotalLen(wire[..])
    requires sequence == FromBE(wire[24..32]) && sequence != 0
    ensures fault ==> status == HashError && !reliable
    ensures !fault ==> status == BlockStatus(H, wire[..])
    ensures status == Ok ==> WIRE_MIN <= wire.Length && metadata == MetadataOf(H, Decode(wire[..]))
    ensures status != Ok ==> metadata == NO_METADATA
  {
    ghost var s := wire[..];
    metadata := NO_METADATA;
    assert wire[24..32] == s[24..32];
    var payload := wire[HEADER_SIZE..wire.Length - HASH_SIZE];
    assert payload == s[HEADER_SIZE..|s| - HASH_SIZE];
    var payloadHash: Digest;
    assert payload + [] + [] == payload;
    status, payloadHash, fault := Sha256Parts(H, reliable, payload, [], []);
    if status != Ok {
      return status, NO_METADATA, fault;
    }
    assert wire[72..104] == s[72..104];
    if payloadHash != wire[72..104] {
      return HashError, NO_METADATA, false;
    }
    var blockHash: Digest;
    assert wire[..HEADER_SIZE] == s[..HEADER_SIZE];
    status, blockHash, fault := Sha256Parts(H, reliable, DOMAIN, wire[..HEADER_SIZE], payload);
    assert wire[wire.Length - HASH_SIZE..] == s[|s| - HASH_SIZE..];
    if status != Ok || blockHash != wire[wire.Length - HASH_SIZE..] {
      return HashError, NO_METADATA, fault;
    }
    assert BlockStatus(H, s) == Ok;
    var timestamp := LoadBE(wire, 32, 8);
    assert wire[32..40] == s[32..40] && wire[40..72] == s[40..72];
    U64Bound(s[24..32]);
    U64Bound(s[32..40]);
    metadata := Metadata(sequence, timestamp, wire.Length - WIRE_MIN, wire[40..72], payloadHash, blockHash);
    assert BlockHash(H, Decode(s)) == blockHash by {
      VerifiedIsCanonical(H, s);
      assert Encode(H, Decode(s))[|s| - HASH_SIZE..] == BlockHash(H, Decode(s));
    }
  }
}
