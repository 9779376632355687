/**
 The authenticated fixed-size records of the forwarder: checkpoints, receipts and the
 acknowledgement state file. HMAC-SHA256 is an arbitrary function of key and message.
 */
module ForwarderWire {
  import opened Bytes
  import opened FileIo
  import opened AuditBlock

  type Mac = (seq<byte>, seq<byte>) -> Digest

  datatype FwdStatus =
    | Accepted | BadArgument | QueueFull | Transport | Auth | RollbackDetected | IoFailure | TooLarge | StateCorrupt

  const CHECKPOINT_MAGIC: seq<byte> := [0x41, 0x4c, 0x52, 0x49, 0x43, 0x48, 0x4b, 0x50]
  const RECEIPT_MAGIC: seq<byte> := [0x41, 0x4c, 0x52, 0x49, 0x52, 0x43, 0x50, 0x54]
  const STATE_MAGIC: seq<byte> := [0x41, 0x4c, 0x52, 0x49, 0x41, 0x43, 0x4b, 0x53]
  // "ALRIOS-AUDIT-CHECKPOINT-V1", "ALRIOS-AUDIT-RECEIPT-V1", "ALRIOS-AUDIT-STATE-V1"
  const CHECKPOINT_DOMAIN: seq<byte> := [
    65, 76, 82, 73, 79, 83, 45, 65, 85, 68, 73, 84, 45, 67, 72, 69, 67, 75, 80, 79, 73, 78, 84, 45, 86, 49]
  const RECEIPT_DOMAIN: seq<byte> := [
    65, 76, 82, 73, 79, 83, 45, 65, 85, 68, 73, 84, 45, 82, 69, 67, 69, 73, 80, 84, 45, 86, 49]
  const STATE_DOMAIN: seq<byte> := [
    65, 76, 82, 73, 79, 83, 45, 65, 85, 68, 73, 84, 45, 83, 84, 65, 84, 69, 45, 86, 49]

  const CHECKPOINT_SIZE: nat := 92
  const RECEIPT_SIZE: nat := 100
  const STATE_SIZE: nat := 84
  const NONCE_SIZE: nat := 16

  datatype Checkpoint = Checkpoint(sequence: u64, timestamp: u64, blockHash: Digest)

  const NO_CHECKPOINT := Checkpoint(0, 0, Zeros(32))

  datatype AckState = AckState(sequence: u64, hash: Digest)

  const NO_ACK := AckState(0, Zeros(32))

  /** What a receipt record holds: the acknowledgement, and the nonce and MAC beside it. */
  datatype Receipt = Receipt(ack: AckState, nonce: seq<byte>, mac: Digest)

  const NO_RECEIPT := Receipt(NO_ACK, Zeros(16), Zeros(32))

  /** The first 20 bytes of every record: magic, version 1, flags 0, sequence. */
  function Prefix(magic: seq<byte>, sequence: u64): (s: seq<byte>)
    ensures |s| == |magic| + 12
  {
    magic + ToBE(1, 2) + ToBE(0, 2) + ToBE(sequence, 8)
  }

  /** A sealed record: prefix, fields, and the MAC of the domain and all that. */
  function Seal(M: Mac, key: seq<byte>, domain: seq<byte>, magic: seq<byte>, sequence: u64, fields: seq<byte>): (s: seq<byte>)
    ensures |s| == |magic| + 12 + |fields| + 32
  {
    var body := Prefix(magic, sequence) + fields;
    body + M(key, domain + body)
  }

  /** Whether a record of the right size passes every check before its fields are read. */
  predicate Opens(M: Mac, key: seq<byte>, domain: seq<byte>, magic: seq<byte>, wire: seq<byte>)
    requires 52 <= |wire|
  {
    && wire[..8] == magic && FromBE(wire[8..10]) == 1 && FromBE(wire[10..12]) == 0 && FromBE(wire[12..20]) != 0
    && M(key, domain + wire[..|wire| - 32]) == wire[|wire| - 32..]
  }

  /** What is sealed opens again, and its sequence and fields stand where they are read. */
  lemma SealedOpens(M: Mac, key: seq<byte>, domain: seq<byte>, magic: seq<byte>, sequence: u64, fields: seq<byte>)
    requires |magic| == 8 && sequence != 0
    ensures var wire := Seal(M, key, domain, magic, sequence, fields);
            && Opens(M, key, domain, magic, wire)
            && FromBE(wire[12..20]) == sequence && wire[20..20 + |fields|] == fields
  {
    hide FromBE, ToBE;
    var wire := Seal(M, key, domain, magic, sequence, fields);
    var p1 := magic + ToBE(1, 2);
    var p2 := p1 + ToBE(0, 2);
    var p := p2 + ToBE(sequence, 8);
    AppendKeeps(magic, ToBE(1, 2));
    AppendKeeps(p1, ToBE(0, 2));
    AppendKeeps(p2, ToBE(sequence, 8));
    assert p <= wire;
    SliceOfPrefix(wire, p, 0, 8);
    SliceOfPrefix(wire, p, 8, 10);
    SliceOfPrefix(wire, p, 10, 12);
    SliceOfPrefix(wire, p, 12, 20);
    Pow256Values();
    FromToBE(1, 2);
    FromToBE(0, 2);
    FromToBE(sequence, 8);
    assert wire[..|wire| - 32] == p + fields;
  }

  /** What opens was sealed: there is no second encoding of the same content. */
  lemma OpenedIsSealed(M: Mac, key: seq<byte>, domain: seq<byte>, magic: seq<byte>, wire: seq<byte>)
    requires 52 <= |wire| && |magic| == 8 && Opens(M, key, domain, magic, wire)
    ensures 0 < FromBE(wire[12..20]) < U64
    ensures wire == Seal(M, key, domain, magic, FromBE(wire[12..20]), wire[20..|wire| - 32])
  {
    hide FromBE, ToBE;
    U64Bound(wire[12..20]);
    ToFromBE(wire[8..10]);
    ToFromBE(wire[10..12]);
    ToFromBE(wire[12..20]);
    Join(wire, 8, 10);
    Join(wire, 10, 12);
    Join(wire, 12, 20);
    Join(wire, 20, |wire| - 32);
    assert Prefix(magic, FromBE(wire[12..20])) == wire[..20];
  }

  function EncodeCheckpoint(M: Mac, key: seq<byte>, c: Checkpoint): (wire: seq<byte>)
    ensures |wire| == CHECKPOINT_SIZE
  {
    Seal(M, key, CHECKPOINT_DOMAIN, CHECKPOINT_MAGIC, c.sequence, ToBE(c.timestamp, 8) + c.blockHash)
  }

  function EncodeReceipt(M: Mac, key: seq<byte>, ack: AckState, nonce: seq<byte>): (wire: seq<byte>)
    requires |nonce| == NONCE_SIZE
    ensures |wire| == RECEIPT_SIZE
  {
    Seal(M, key, RECEIPT_DOMAIN, RECEIPT_MAGIC, ack.sequence, ack.hash + nonce)
  }

  function EncodeState(M: Mac, key: seq<byte>, ack: AckState): (wire: seq<byte>)
    ensures |wire| == STATE_SIZE
  {
    Seal(M, key, STATE_DOMAIN, STATE_MAGIC, ack.sequence, ack.hash)
  }

  function SequenceOf(wire: seq<byte>): u64
    requires 52 <= |wire|
  {
    U64Bound(wire[12..20]);
    FromBE(wire[12..20])
  }

  /** The collector's view of a checkpoint record. */
  function DecodeCheckpoint(M: Mac, key: seq<byte>, wire: seq<byte>): Option<Checkpoint>
    requires |wire| == CHECKPOINT_SIZE
  {
    if Opens(M, key, CHECKPOINT_DOMAIN, CHECKPOINT_MAGIC, wire) then
      U64Bound(wire[20..28]);
      Some(Checkpoint(SequenceOf(wire), FromBE(wire[20..28]), wire[28..60]))
    else None
  }

  /** The forwarder's view of a receipt record. */
  function DecodeReceipt(M: Mac, key: seq<byte>, wire: seq<byte>): Option<AckState>
    requires |wire| == RECEIPT_SIZE
  {
    if Opens(M, key, RECEIPT_DOMAIN, RECEIPT_MAGIC, wire) then Some(AckState(SequenceOf(wire), wire[20..52])) else None
  }

  /** The state file: empty means nothing has been acknowledged yet. */
  function DecodeState(M: Mac, key: seq<byte>, content: seq<byte>): Option<AckState> {
    if content == [] then Some(NO_ACK)
    else if |content| != STATE_SIZE then None
    else if Opens(M, key, STATE_DOMAIN, STATE_MAGIC, content) then Some(AckState(SequenceOf(content), content[20..52]))
    else None
  }

  /** A checkpoint decodes exactly when it is the encoding of what it decodes to. */
  lemma CheckpointRoundTrip(M: Mac, key: seq<byte>, wire: seq<byte>, c: Checkpoint)
    requires |wire| == CHECKPOINT_SIZE
    ensures DecodeCheckpoint(M, key, wire) == Some(c) <==> c.sequence != 0 && wire == EncodeCheckpoint(M, key, c)
  {
    hide Opens, Seal;
    if c.sequence != 0 && wire == EncodeCheckpoint(M, key, c) {
      var fields := ToBE(c.timestamp, 8) + c.blockHash;
      SealedOpens(M, key, CHECKPOINT_DOMAIN, CHECKPOINT_MAGIC, c.sequence, fields);
      assert wire[20..28] == wire[20..60][..8] == fields[..8];
      assert wire[28..60] == wire[20..60][8..];
      Pow256Values();
      FromToBE(c.timestamp, 8);
    }
    if DecodeCheckpoint(M, key, wire) == Some(c) {
      OpenedIsSealed(M, key, CHECKPOINT_DOMAIN, CHECKPOINT_MAGIC, wire);
      ToFromBE(wire[20..28]);
      assert wire[20..60] == wire[20..28] + wire[28..60];
    }
  }

  /** A receipt decodes exactly when it is an encoding of what it decodes to, for some nonce. */
  lemma ReceiptRoundTrip(M: Mac, key: seq<byte>, wire: seq<byte>, ack: AckState)
    requires |wire| == RECEIPT_SIZE
    ensures DecodeReceipt(M, key, wire) == Some(ack) <==>
            ack.sequence != 0 && exists nonce: seq<byte> :: |nonce| == NONCE_SIZE && wire == EncodeReceipt(M, key, ack, nonce)
  {
    hide Opens, Seal;
    forall nonce: seq<byte> | |nonce| == NONCE_SIZE && ack.sequence != 0 && wire == EncodeReceipt(M, key, ack, nonce)
      ensures DecodeReceipt(M, key, wire) == Some(ack)
    {
      SealedOpens(M, key, RECEIPT_DOMAIN, RECEIPT_MAGIC, ack.sequence, ack.hash + nonce);
      assert wire[20..52] == wire[20..68][..32];
    }
    if DecodeReceipt(M, key, wire) == Some(ack) {
      OpenedIsSealed(M, key, RECEIPT_DOMAIN, RECEIPT_MAGIC, wire);
      assert wire[20..68] == wire[20..52] + wire[52..68];
      assert wire == EncodeReceipt(M, key, ack, wire[52..68]);
    }
  }

  /** What was written to the state file is read back; only the empty file stands for nothing. */
  lemma StateRoundTrip(M: Mac, key: seq<byte>, content: seq<byte>, ack: AckState)
    ensures DecodeState(M, key, content) == Some(ack) <==>
            (content == [] && ack == NO_ACK) || (ack.sequence != 0 && content == EncodeState(M, key, ack))
  {
    hide Opens, Seal;
    if ack.sequence != 0 && content == EncodeState(M, key, ack) {
      SealedOpens(M, key, STATE_DOMAIN, STATE_MAGIC, ack.sequence, ack.hash);
    }
    if DecodeState(M, key, content) == Some(ack) && content != [] {
      OpenedIsSealed(M, key, STATE_DOMAIN, STATE_MAGIC, content);
    }
  }

  /** What a state write that stopped part way, or was cut off, leaves of the file. */
  ghost predicate PartlyWritten(M: Mac, key: seq<byte>, before: seq<byte>, ack: AckState, after: seq<byte>) {
    exists k :: 0 <= k <= STATE_SIZE && after == Overwrite(before, 0, EncodeState(M, key, ack)[..k])
  }

  /**
   What is read back after such a write: nothing, what was there before, or what was to be
   written. If anything else, the proof hands over two messages with one MAC.
   */
  lemma StateAfterCut(M: Mac, key: seq<byte>, before: seq<byte>, a: AckState, b: AckState, after: seq<byte>)
    returns (x: seq<byte>, y: seq<byte>)
    requires DecodeState(M, key, before) == Some(a) && b.sequence != 0 && PartlyWritten(M, key, before, b, after)
    ensures DecodeState(M, key, after) in {None, Some(a), Some(b)} || (x != y && M(key, x) == M(key, y))
  {
    hide Seal, Opens, EncodeState, DecodeState;
    var k :| 0 <= k <= STATE_SIZE && after == Overwrite(before, 0, EncodeState(M, key, b)[..k]);
    StateRoundTrip(M, key, before, a);
    StateRoundTrip(M, key, after, b);
    x, y := [], [];
    EmptyState(M, key);
    if before == [] {
      ShortState(M, key, EncodeState(M, key, b)[..k]);
      assert after == EncodeState(M, key, b)[..k];
    } else if DecodeState(M, key, after).Some? {
      var c := DecodeState(M, key, after).value;
      StateRoundTrip(M, key, after, c);
      StateParts(M, key, a);
      StateParts(M, key, b);
      StateParts(M, key, c);
      MixedState(EncodeState(M, key, b), EncodeState(M, key, a), k);
      if k <= 52 {
        x, y := STATE_DOMAIN + EncodeState(M, key, a)[..52], STATE_DOMAIN + after[..52];
        if x == y {
          assert EncodeState(M, key, a)[..52] == x[|STATE_DOMAIN|..] && after[..52] == y[|STATE_DOMAIN|..];
          assert after == after[..52] + after[52..] && EncodeState(M, key, a) == EncodeState(M, key, a)[..52] + EncodeState(M, key, a)[52..];
        }
      } else {
        assert after == after[..52] + after[52..] && EncodeState(M, key, b) == EncodeState(M, key, b)[..52] + EncodeState(M, key, b)[52..];
      }
    }
  }

  lemma EmptyState(M: Mac, key: seq<byte>)
    ensures DecodeState(M, key, []) == Some(NO_ACK)
    ensures forall b: AckState :: |EncodeState(M, key, b)| == STATE_SIZE
  {
  }

  lemma ShortState(M: Mac, key: seq<byte>, content: seq<byte>)
    ensures content != [] && |content| != STATE_SIZE ==> DecodeState(M, key, content) == None
  {
  }

  /** The MAC of a state record is taken over its first 52 bytes. */
  lemma StateParts(M: Mac, key: seq<byte>, ack: AckState)
    ensures var s := EncodeState(M, key, ack);
            |s| == STATE_SIZE && s[52..] == M(key, STATE_DOMAIN + s[..52])
  {
    var body := Prefix(STATE_MAGIC, ack.sequence) + ack.hash;
    assert EncodeState(M, key, ack)[..52] == body;
  }

  lemma MixedState(s: seq<byte>, t: seq<byte>, k: nat)
    requires |s| == |t| == STATE_SIZE && k <= STATE_SIZE
    ensures var after := Overwrite(t, 0, s[..k]);
            && |after| == STATE_SIZE
            && (k <= 52 ==> after[52..] == t[52..])
            && (k >= 52 ==> after[..52] == s[..52])
  {
  }

  /** HMAC over a domain and a body; the library may fail, and then the result is zeroed. */
  method HmacSha256(M: Mac, reliable: bool, key: seq<byte>, domain: seq<byte>, body: seq<byte>)
    returns (status: FwdStatus, mac: Digest, ghost fault: bool)
    ensures status == Accepted || (status == Auth && !reliable)
    ensures mac == if status == Accepted then M(key, domain + body) else Zeros(32)
    ensures fault <==> status != Accepted
  {
    var fails: bool := *;
    if fails && !reliable {
      status, mac, fault := Auth, Zeros(32), true;
    } else {
      status, mac, fault := Accepted, M(key, domain + body), false;
    }
  }

  /** Fills `output` with a sealed record, or zeroes it when the MAC cannot be computed. */
  method SealInto(M: Mac, reliable: bool, key: seq<byte>, domain: seq<byte>, magic: seq<byte>, sequence: u64, fields: seq<byte>, output: array<byte>)
    returns (status: FwdStatus, ghost fault: bool)
    requires |magic| == 8 && output.Length == 20 + |fields| + 32
    modifies output
    ensures status == (if fault then Auth else Accepted) && (reliable ==> !fault)
    ensures output[..] == if fault then Zeros(output.Length) else Seal(M, key, domain, magic, sequence, fields)
  {
    hide ToBE, FromBE;
    var n := output.Length;
    CopyIn(output, 0, Zeros(n));
    assert output[..] == [] + Zeros(n) + [];
    PutField(output, 0, magic, [], n, []);
    ghost var done := [] + magic;
    done := PutInt(output, 8, 1, 2, done, n - 8, []);
    done := PutInt(output, 10, 0, 2, done, n - 10, []);
    done := PutInt(output, 12, sequence, 8, done, n - 12, []);
    assert done == Prefix(magic, sequence) by {
      assert [] + magic == magic;
    }
    PutField(output, 20, fields, done, n - 20, []);
    done := done + fields;
    assert output[..] == done + Zeros(32) + [];
    assert output[..n - 32] == done;
    var mac: Digest;
    status, mac, fault := HmacSha256(M, reliable, key, domain, output[..n - 32]);
    if status != Accepted {
      CopyIn(output, 0, Zeros(n));
      return;
    }
    PutField(output, n - 32, mac, done, 32, []);
    assert output[..] == done + mac by {
      assert Zeros(0) == [];
    }
  }

  /** alrios_checkpoint_encode. */
  method CheckpointEncode(M: Mac, reliable: bool, key: seq<byte>, c: Checkpoint, output: array<byte>)
    returns (status: FwdStatus, ghost fault: bool)
    requires output.Length == CHECKPOINT_SIZE
    modifies output
    ensures c.sequence == 0 ==> status == BadArgument && output[..] == old(output[..])
    ensures c.sequence != 0 ==> status == (if fault then Auth else Accepted)
    ensures reliable ==> !fault
    ensures status == Accepted ==> output[..] == EncodeCheckpoint(M, key, c)
    ensures fault ==> output[..] == Zeros(CHECKPOINT_SIZE)
    ensures c.sequence == 0 ==> !fault
  {
    if c.sequence == 0 {
      return BadArgument, false;
    }
    status, fault := SealInto(M, reliable, key, CHECKPOINT_DOMAIN, CHECKPOINT_MAGIC, c.sequence, ToBE(c.timestamp, 8) + c.blockHash, output);
  }

  /** The header and MAC checks all three decoders make, in their order. */
  method OpenWire(M: Mac, reliable: bool, key: seq<byte>, domain: seq<byte>, magic: seq<byte>, wire: array<byte>)
    returns (ok: bool, sequence: u64, ghost fault: bool)
    requires 52 <= wire.Length && |magic| == 8
    ensures fault ==> !ok && !reliable
    ensures !fault ==> ok == Opens(M, key, domain, magic, wire[..])
    ensures ok ==> Opens(M, key, domain, magic, wire[..]) && sequence == SequenceOf(wire[..])
  {
    ghost var s := wire[..];
    assert wire[..8] == s[..8] && wire[8..10] == s[8..10] && wire[10..12] == s[10..12] && wire[12..20] == s[12..20];
    U64Bound(wire[12..20]);
    var version := LoadBE(wire, 8, 2);
    var flags := LoadBE(wire, 10, 2);
    var loaded := LoadBE(wire, 12, 8);
    sequence := loaded;
    if wire[..8] != magic || version != 1 || flags != 0 || loaded == 0 {
      return false, sequence, false;
    }
    var status;
    var mac: Digest;
    assert wire[..wire.Length - 32] == s[..|s| - 32] && wire[wire.Length - 32..] == s[|s| - 32..];
    status, mac, fault := HmacSha256(M, reliable, key, domain, wire[..wire.Length - 32]);
    ok := status == Accepted && mac == wire[wire.Length - 32..];
  }

  /** alrios_receipt_decode_and_verify. */
  method ReceiptDecodeAndVerify(M: Mac, reliable: bool, key: seq<byte>, wire: array<byte>)
    returns (status: FwdStatus, receipt: Receipt, ghost fault: bool)
    requires wire.Length == RECEIPT_SIZE
    ensures status == Accepted || status == Auth
    ensures fault ==> status == Auth && !reliable
    ensures !fault ==> (status == Accepted <==> DecodeReceipt(M, key, wire[..]).Some?)
    ensures status == Accepted ==>
              && DecodeReceipt(M, key, wire[..]) == Some(receipt.ack) && |receipt.nonce| == NONCE_SIZE
              && wire[..] == EncodeReceipt(M, key, receipt.ack, receipt.nonce)
              && receipt.mac == wire[RECEIPT_SIZE - 32..]
    ensures status != Accepted ==> receipt == NO_RECEIPT
  {
    var ok, sequence;
    ok, sequence, fault := OpenWire(M, reliable, key, RECEIPT_DOMAIN, RECEIPT_MAGIC, wire);
    if !ok {
      return Auth, NO_RECEIPT, fault;
    }
    ghost var s := wire[..];
    assert wire[20..52] == s[20..52] && wire[52..68] == s[52..68] && wire[68..] == s[68..];
    OpenedIsSealed(M, key, RECEIPT_DOMAIN, RECEIPT_MAGIC, s);
    JoinBetween(s, 20, 52, 68);
    return Accepted, Receipt(AckState(sequence, wire[20..52]), wire[52..68], wire[68..]), fault;
  }

  function FromOutcome(outcome: Outcome): FwdStatus {
    match outcome
    case Done => Accepted
    case EndOfFile => StateCorrupt
    case IoError => IoFailure
    case OffsetOverflow => TooLarge
  }

  /** alrios_forwarder_state_read. */
  method StateRead(M: Mac, key: seq<byte>, file: File)
    returns (status: FwdStatus, state: AckState, ghost fault: bool)
    requires file.Valid()
    modifies file`interrupts
    ensures fault ==> status != Accepted && !file.reliable
    ensures !fault ==> status == if DecodeState(M, key, file.bytes).Some? then Accepted else StateCorrupt
    ensures status == Accepted ==> DecodeState(M, key, file.bytes) == Some(state)
    ensures status != Accepted ==> state == NO_ACK
  {
    var fails: bool := *;
    if fails && !file.reliable {
      return IoFailure, NO_ACK, true;
    }
    if |file.bytes| == 0 {
      return Accepted, NO_ACK, false;
    }
    if |file.bytes| != STATE_SIZE {
      return StateCorrupt, NO_ACK, false;
    }
    var wire := new byte[STATE_SIZE](_ => 0);
    var outcome := ReadExactAt(file, wire, STATE_SIZE, 0);
    if outcome != Done {
      return FromOutcome(outcome), NO_ACK, true;
    }
    assert wire[..] == file.bytes;
    var ok, sequence;
    ok, sequence, fault := OpenWire(M, file.reliable, key, STATE_DOMAIN, STATE_MAGIC, wire);
    if !ok {
      return StateCorrupt, NO_ACK, fault;
    }
    assert wire[20..52] == wire[..][20..52];
    return Accepted, AckState(sequence, wire[20..52]), fault;
  }

  /**
   alrios_forwarder_state_write, in place: when it fails part way, a first part of the new
   record stands over the old content. The write retries after a signal; the truncation and
   the sync do not, so a signal alone can make it fail.
   */
  method StateWrite(M: Mac, key: seq<byte>, file: File, state: AckState)
    returns (status: FwdStatus, ghost written: nat)
    requires file.Valid()
    modifies file
    ensures file.Valid() && written <= STATE_SIZE
    ensures status != RollbackDetected
    ensures state.sequence == 0 ==> status == BadArgument && file.bytes == old(file.bytes)
    ensures status == Accepted ==> file.bytes == EncodeState(M, key, state)
    ensures file.reliable && old(file.interrupts) == 0 && state.sequence != 0 ==> status == Accepted
    ensures status != Accepted ==>
              file.bytes == Overwrite(old(file.bytes), 0, EncodeState(M, key, state)[..written]) ||
              file.bytes == EncodeState(M, key, state)
    ensures |old(file.bytes)| <= STATE_SIZE && status != Accepted ==> PartlyWritten(M, key, old(file.bytes), state, file.bytes)
  {
    ghost var target := EncodeState(M, key, state);
    ghost var before := file.bytes;
    written := 0;
    assert Overwrite(before, 0, target[..0]) == before;
    if state.sequence == 0 {
      return BadArgument, 0;
    }
    var wire := new byte[STATE_SIZE](_ => 0);
    ghost var fault;
    status, fault := SealInto(M, file.reliable, key, STATE_DOMAIN, STATE_MAGIC, state.sequence, state.hash, wire);
    if status != Accepted {
      return;
    }
    var outcome;
    outcome, written := WriteExactAt(file, wire[..], 0);
    if outcome != Done {
      return FromOutcome(outcome), written;
    }
    assert target[..written] == target;
    assert Resize(Overwrite(before, 0, target), STATE_SIZE) == target;
    var r := file.FTruncate(STATE_SIZE);
    if !r.Moved? {
      return IoFailure, written;
    }
    r := file.FSync();
    if !r.Moved? {
      return IoFailure, written;
    }
  }
}
