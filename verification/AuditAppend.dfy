/**
 Appending to the audit log under failing system calls, and what every run of appends,
 recoveries, verifications and crashes keeps.
 */
module AuditAppend {
  import opened Bytes
  import opened FileIo
  import opened AuditBlock
  import opened AuditChain

  /** What went wrong around an append: nothing, a call before or after which everything was undone, ... */
  datatype Mishap = Nothing | Undone | OnlyUnlock | RollbackFailed(written: nat)

  /** A record of this size still fits below the largest offset. */
  ghost predicate Fits(H: Hash, blocks: seq<Block>, payload: seq<byte>) {
    |EncodeAll(H, blocks)| + WIRE_MIN + |payload| <= OFF_MAX
  }

  ghost predicate AppendOutcome(H: Hash, before: seq<byte>, timestamp: u64, payload: seq<byte>, after: seq<byte>,
                                status: Status, metadata: Metadata, mishap: Mishap)
  {
    var s := ScanFile(H, before);
    && (status != Ok ==> metadata == NO_METADATA)
    && (s.Bad? ==> status != Ok && after == before)
    && (!s.Bad? && mishap.Nothing? ==> (status == Ok <==> |payload| <= PAYLOAD_MAX && Fits(H, s.blocks, payload)))
    && (!s.Bad? && (status == Ok || mishap.OnlyUnlock? || mishap.RollbackFailed?) ==>
          && |payload| <= PAYLOAD_MAX && |s.blocks| + 1 < U64
          && var b := NextBlock(H, s.blocks, timestamp, payload);
             var kept := EncodeAll(H, s.blocks);
             match mishap
             case Nothing => status == Ok && after == kept + Encode(H, b) && metadata == MetadataOf(H, b)
             case OnlyUnlock => status == Io && after == kept + Encode(H, b)
             case RollbackFailed(k) => status != Ok && k <= |Encode(H, b)| && after == kept + Encode(H, b)[..k]
             case Undone => false)
    && (!s.Bad? && status != Ok && (mishap.Nothing? || mishap.Undone?) ==>
          after == before || after == EncodeAll(H, s.blocks))
  }

  /** What the write, the sync and the rollback leave behind, once the record is built. */
  method WriteRecord(file: File, wire: seq<byte>, validBytes: nat)
    returns (status: Status, ghost mishap: Mishap)
    requires file.Valid() && validBytes == |file.bytes|
    modifies file
    ensures file.Valid()
    ensures !mishap.OnlyUnlock?
    ensures file.reliable && validBytes + |wire| <= OFF_MAX ==> mishap.Nothing?
    ensures match mishap
            case Nothing => status == Ok && file.bytes == old(file.bytes) + wire
            case RollbackFailed(k) => status != Ok && k <= |wire| && file.bytes == old(file.bytes) + wire[..k]
            case _ => status != Ok && file.bytes == old(file.bytes)
  {
    var outcome;
    ghost var written;
    outcome, written := WriteExactAt(file, wire, validBytes);
    assert file.bytes == old(file.bytes) + wire[..written];
    if outcome == Done {
      outcome := Sync(file);
    }
    if outcome != Done {
      status := FromOutcome(outcome);
      var rollback := FileIo.Truncate(file, validBytes);
      mishap := if rollback == Done then Undone else RollbackFailed(written);
      if rollback == Done {
        assert file.bytes == old(file.bytes);
        rollback := Sync(file);
      }
      if rollback != Done {
        status := FromOutcome(rollback);
      }
      return;
    }
    assert wire[..written] == wire;
    return Ok, Nothing;
  }

  method AppendFd(H: Hash, file: File, timestamp: u64, payload: seq<byte>)
    returns (status: Status, metadata: Metadata, ghost mishap: Mishap)
    requires file.Valid()
    modifies file
    ensures file.Valid()
    ensures !file.writable || |payload| > PAYLOAD_MAX ==> status == InvalidArgument && file.bytes == old(file.bytes)
    ensures file.reliable ==> mishap.Nothing?
    ensures file.writable ==>
              AppendOutcome(H, old(file.bytes), timestamp, payload, file.bytes, status, metadata, mishap)
  {
    hide Scan, Encode, EncodeAll, Linked, Tip, Incomplete, AppendOutcome, ScanOutcome, ResultOf, Recovered;
    ghost var before := file.bytes;
    metadata, mishap := NO_METADATA, Nothing;
    if |payload| > PAYLOAD_MAX || !file.writable {
      status := InvalidArgument;
      if |payload| > PAYLOAD_MAX {
        NotTried(H, before, timestamp, payload, status, mishap);
      }
      return;
    }
    var locked := LockCall(file.reliable);
    if !locked {
      status, mishap := Busy, Undone;
      NotTried(H, before, timestamp, payload, status, mishap);
      return;
    }
    var chain;
    ghost var fault;
    status, chain, fault := ScanLocked(H, file, true);
    if status == Ok {
      ScanSucceeded(H, before, file.bytes, chain, fault);
      status, metadata, mishap := AppendLocked(H, file, timestamp, payload, chain, ScanFile(H, before).blocks, before);
    } else {
      mishap := if fault then Undone else Nothing;
      ScanFailed(H, before, file.bytes, timestamp, payload, status, chain, fault);
    }
    var unlocked := LockCall(file.reliable);
    if status == Ok && !unlocked {
      UnlockFailed(H, before, file.bytes, timestamp, payload, metadata, mishap);
      return Io, NO_METADATA, OnlyUnlock;
    }
  }

  lemma NotTried(H: Hash, before: seq<byte>, timestamp: u64, payload: seq<byte>, status: Status, mishap: Mishap)
    requires status != Ok && (mishap.Undone? || (mishap.Nothing? && |payload| > PAYLOAD_MAX))
    ensures AppendOutcome(H, before, timestamp, payload, before, status, NO_METADATA, mishap)
  {
    hide Scan, Encode, EncodeAll;
  }

  lemma ScanSucceeded(H: Hash, before: seq<byte>, after: seq<byte>, chain: ChainResult, fault: bool)
    requires ScanOutcome(H, before, after, true, Ok, chain, fault)
    ensures var s := ScanFile(H, before);
            !s.Bad? && after == EncodeAll(H, s.blocks) && chain == ResultOf(H, s.blocks, s.Torn?)
  {
    hide Scan, Encode, EncodeAll;
    ScanSound(H, before, 0, ZERO_HASH);
  }

  lemma ScanFailed(H: Hash, before: seq<byte>, after: seq<byte>, timestamp: u64, payload: seq<byte>,
                   status: Status, chain: ChainResult, fault: bool)
    requires status != Ok && ScanOutcome(H, before, after, true, status, chain, fault)
    ensures AppendOutcome(H, before, timestamp, payload, after, status, NO_METADATA, if fault then Undone else Nothing)
  {
    hide Scan, Encode, EncodeAll;
    if !ScanFile(H, before).Bad? {
      ScanSound(H, before, 0, ZERO_HASH);
    }
  }

  lemma UnlockFailed(H: Hash, before: seq<byte>, after: seq<byte>, timestamp: u64, payload: seq<byte>,
                     metadata: Metadata, mishap: Mishap)
    requires AppendOutcome(H, before, timestamp, payload, after, Ok, metadata, mishap) && !mishap.OnlyUnlock?
    ensures AppendOutcome(H, before, timestamp, payload, after, Io, NO_METADATA, OnlyUnlock)
  {
    hide Scan, Encode, EncodeAll;
  }

  /** The part of an append after a successful scan. */
  method AppendLocked(H: Hash, file: File, timestamp: u64, payload: seq<byte>, chain: ChainResult,
                      ghost blocks: seq<Block>, ghost before: seq<byte>)
    returns (status: Status, metadata: Metadata, ghost mishap: Mishap)
    requires file.Valid() && |payload| <= PAYLOAD_MAX
    requires !ScanFile(H, before).Bad? && ScanFile(H, before).blocks == blocks
    requires file.bytes == EncodeAll(H, blocks) && chain == ResultOf(H, blocks, ScanFile(H, before).Torn?)
    modifies file
    ensures file.Valid() && !mishap.OnlyUnlock? && (file.reliable ==> mishap.Nothing?)
    ensures AppendOutcome(H, before, timestamp, payload, file.bytes, status, metadata, mishap)
  {
    hide Scan, Encode, Linked, Tip, Incomplete, EncodeAll;
    metadata, mishap := NO_METADATA, Nothing;
    assert WIRE_MIN * |blocks| <= |EncodeAll(H, blocks)|;
    if chain.lastSequence == U64 - 1 || chain.validBytes > OFF_MAX - WIRE_MIN ||
       |payload| > OFF_MAX - chain.validBytes - WIRE_MIN {
      return Overflow, NO_METADATA, Nothing;
    }
    var sequence := if chain.blockCount == 0 then 1 else chain.lastSequence + 1;
    var full: bool := *;
    if full && !file.reliable {
      // no memory for the record
      return Capacity, NO_METADATA, Undone;
    }
    var wire := new byte[WIRE_MIN + |payload|](_ => 0);
    var built: Metadata;
    var wireLen;
    ghost var fault;
    status, wireLen, built, fault := BlockEncode(H, file.reliable, chain.lastHash, sequence, timestamp, payload, wire);
    if status != Ok {
      return status, NO_METADATA, Undone;
    }
    ghost var b := NextBlock(H, blocks, timestamp, payload);
    assert wire[..] == Encode(H, b);
    status, mishap := WriteRecord(file, wire[..], chain.validBytes);
    if status == Ok {
      metadata := built;
    }
  }

  /** What an append does to the list of blocks, exactly, in each case. */
  lemma AppendAddsAtMostOne(H: Hash, before: seq<byte>, timestamp: u64, payload: seq<byte>, after: seq<byte>,
                            status: Status, metadata: Metadata, mishap: Mishap)
    requires !ScanFile(H, before).Bad?
    requires AppendOutcome(H, before, timestamp, payload, after, status, metadata, mishap)
    ensures var blocks := ScanFile(H, before).blocks;
            var s := ScanFile(H, after);
            if status == Ok || mishap.OnlyUnlock? then
              && |payload| <= PAYLOAD_MAX && |blocks| + 1 < U64
              && s == Clean(blocks + [NextBlock(H, blocks, timestamp, payload)])
            else if mishap.RollbackFailed? then
              && |payload| <= PAYLOAD_MAX && |blocks| + 1 < U64
              && (if mishap.written == WIRE_MIN + |payload| then
                    s == Clean(blocks + [NextBlock(H, blocks, timestamp, payload)])
                  else s == if mishap.written == 0 then Clean(blocks) else Torn(blocks))
            else s == Clean(blocks) || s == ScanFile(H, before)
  {
    hide Scan, Encode, EncodeAll, Linked, Tip, Incomplete;
    var blocks := ScanFile(H, before).blocks;
    ScanSound(H, before, 0, ZERO_HASH);
    if status == Ok || mishap.OnlyUnlock? || mishap.RollbackFailed? {
      var b := NextBlock(H, blocks, timestamp, payload);
      AppendKeepsChain(H, blocks, timestamp, payload);
      CleanIff(H, EncodeAll(H, blocks) + Encode(H, b), blocks + [b]);
      if mishap.RollbackFailed? {
        CutRecord(H, blocks, b, mishap.written);
      }
    } else {
      CleanIff(H, EncodeAll(H, blocks), blocks);
    }
  }

  /** A chain followed by a first part of a record. */
  lemma CutRecord(H: Hash, blocks: seq<Block>, b: Block, k: nat)
    requires ValidChain(H, blocks) && WellFormed(b) && k <= |Encode(H, b)|
    ensures k == |Encode(H, b)| ==> Encode(H, b)[..k] == Encode(H, b)
    ensures k < |Encode(H, b)| ==>
              ScanFile(H, EncodeAll(H, blocks) + Encode(H, b)[..k]) == if k == 0 then Clean(blocks) else Torn(blocks)
  {
    hide Scan, Encode, EncodeAll, Linked, Tip, Incomplete;
    var bytes := EncodeAll(H, blocks) + Encode(H, b)[..k];
    if k == 0 {
      assert bytes == EncodeAll(H, blocks);
      CleanIff(H, bytes, blocks);
    } else if k < |Encode(H, b)| {
      PrefixIsIncomplete(H, b, k);
      assert bytes[|EncodeAll(H, blocks)|..] == Encode(H, b)[..k];
      TornIff(H, bytes, blocks);
    }
  }

  /** One thing that can happen to the file. A crash stops an append after some of its bytes. */
  datatype Event =
    | Append(timestamp: u64, payload: seq<byte>, status: Status, metadata: Metadata, mishap: Mishap)
    | Recover
    | Verify
    | Crash(timestamp: u64, payload: seq<byte>, written: nat)

  /** The effects proved of AppendFd and ChainOperation, and the states an append goes through. */
  ghost predicate Step(H: Hash, before: seq<byte>, e: Event, after: seq<byte>) {
    match e
    case Append(timestamp, payload, status, metadata, mishap) =>
      AppendOutcome(H, before, timestamp, payload, after, status, metadata, mishap)
    case Recover => after == before || after == Recovered(H, before)
    case Verify => after == before
    case Crash(timestamp, payload, written) =>
      var s := ScanFile(H, before);
      after == before ||
      (!s.Bad? && |payload| <= PAYLOAD_MAX && |s.blocks| + 1 < U64 &&
       var wire := Encode(H, NextBlock(H, s.blocks, timestamp, payload));
       written <= |wire| && after == EncodeAll(H, s.blocks) + wire[..written])
  }

  lemma StepKeepsChain(H: Hash, before: seq<byte>, e: Event, after: seq<byte>)
    requires !ScanFile(H, before).Bad? && Step(H, before, e, after)
    ensures !ScanFile(H, after).Bad?
    ensures ScanFile(H, before).blocks <= ScanFile(H, after).blocks
    ensures |ScanFile(H, after).blocks| <= |ScanFile(H, before).blocks| + 1
    ensures ScanFile(H, before).Clean? && !e.Crash? && !(e.Append? && e.mishap.RollbackFailed?) ==>
              ScanFile(H, after).Clean?
  {
    hide Scan, Encode, EncodeAll, Linked, Tip, Incomplete;
    match e
    case Append(timestamp, payload, status, metadata, mishap) =>
      AppendAddsAtMostOne(H, before, timestamp, payload, after, status, metadata, mishap);
    case Recover =>
      RecoveryIdempotent(H, before);
    case Verify =>
    case Crash(timestamp, payload, written) =>
      if after != before {
        var blocks := ScanFile(H, before).blocks;
        ScanSound(H, before, 0, ZERO_HASH);
        AppendKeepsChain(H, blocks, timestamp, payload);
        var b := NextBlock(H, blocks, timestamp, payload);
        CutRecord(H, blocks, b, written);
        CleanIff(H, EncodeAll(H, blocks) + Encode(H, b), blocks + [b]);
      }
  }

  ghost predicate Run(H: Hash, states: seq<seq<byte>>, events: seq<Event>) {
    && |states| == |events| + 1
    && forall i :: 0 <= i < |events| ==> Step(H, states[i], events[i], states[i + 1])
  }

  /**
   Crash safety over whole runs: from any file that is a chain, possibly torn, every later
   state is again one, and the blocks of each state extend those of every earlier state.
   */
  lemma {:induction false} RunExtendsChain(H: Hash, states: seq<seq<byte>>, events: seq<Event>, i: nat, j: nat)
    requires Run(H, states, events) && !ScanFile(H, states[0]).Bad? && i <= j < |states|
    ensures !ScanFile(H, states[i]).Bad? && !ScanFile(H, states[j]).Bad?
    ensures ScanFile(H, states[i]).blocks <= ScanFile(H, states[j]).blocks
    decreases j
  {
    hide ScanFile, Step;
    if j > 0 {
      RunExtendsChain(H, states, events, if i < j then i else 0, j - 1);
      assert Step(H, states[j - 1], events[j - 1], states[j]);
      StepKeepsChain(H, states[j - 1], events[j - 1], states[j]);
    }
  }

  /** Without crashes and failed rollbacks no state of a run is ever torn. */
  lemma {:induction false} RunStaysClean(H: Hash, states: seq<seq<byte>>, events: seq<Event>, i: nat)
    requires Run(H, states, events) && ScanFile(H, states[0]).Clean? && i < |states|
    requires forall k :: 0 <= k < |events| ==>
               !events[k].Crash? && !(events[k].Append? && events[k].mishap.RollbackFailed?)
    ensures ScanFile(H, states[i]).Clean?
  {
    hide ScanFile, Step;
    if i > 0 {
      RunStaysClean(H, states, events, i - 1);
      StepKeepsChain(H, states[i - 1], events[i - 1], states[i]);
    }
  }

  /** The number of appends among the first `n` events that reported success. */
  ghost function Successes(events: seq<Event>, n: nat): nat
    requires n <= |events|
  {
    if n == 0 then 0
    else Successes(events, n - 1) + (if events[n - 1].Append? && events[n - 1].status == Ok then 1 else 0)
  }

  /** No successful append is ever lost: in every later state its block stands where it was appended. */
  lemma SuccessesAreKept(H: Hash, states: seq<seq<byte>>, events: seq<Event>, i: nat, j: nat)
    requires Run(H, states, events) && !ScanFile(H, states[0]).Bad? && i < j < |states|
    requires events[i].Append? && events[i].status == Ok
    ensures !ScanFile(H, states[i]).Bad? && !ScanFile(H, states[j]).Bad?
    ensures var before, after := ScanFile(H, states[i]).blocks, ScanFile(H, states[j]).blocks;
            && |before| < |after| && |before| + 1 < U64 && before <= after
            && after[|before|] == NextBlock(H, before, events[i].timestamp, events[i].payload)
  {
    hide ScanFile, AppendOutcome, NextBlock;
    RunExtendsChain(H, states, events, i, j);
    RunExtendsChain(H, states, events, i + 1, j);
    RunExtendsChain(H, states, events, 0, i);
    var e := events[i];
    assert Step(H, states[i], e, states[i + 1]);
    AppendAddsAtMostOne(H, states[i], e.timestamp, e.payload, states[i + 1], e.status, e.metadata, e.mishap);
  }

  /** And they are counted: the log has grown by at least the number of successes. */
  lemma {:induction false} SuccessesAreCounted(H: Hash, states: seq<seq<byte>>, events: seq<Event>, n: nat)
    requires Run(H, states, events) && !ScanFile(H, states[0]).Bad? && n <= |events|
    ensures !ScanFile(H, states[n]).Bad?
    ensures |ScanFile(H, states[n]).blocks| >= |ScanFile(H, states[0]).blocks| + Successes(events, n)
  {
    hide ScanFile;
    if n > 0 {
      SuccessesAreCounted(H, states, events, n - 1);
      var e := events[n - 1];
      assert Step(H, states[n - 1], e, states[n]);
      StepKeepsChain(H, states[n - 1], e, states[n]);
      if e.Append? {
        AppendAddsAtMostOne(H, states[n - 1], e.timestamp, e.payload, states[n], e.status, e.metadata, e.mishap);
      }
    }
  }
}
