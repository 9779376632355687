/**
 The audit daemon: the startup check against the acknowledged tip, and the loop that forwards
 new tips, while other processes keep appending to the log.
 */
module AuditDaemon {
  import opened Bytes
  import opened FileIo
  import opened AuditBlock
  import opened AuditChain
  import opened AuditAppend
  import opened ForwarderWire
  import opened Forwarder
  import TipBinding

  const QUEUE_SIZE: nat := 128

  /** The startup check on the bytes of the log. */
  ghost predicate NotRolledBack(H: Hash, bytes: seq<byte>, state: AckState) {
    var s := ScanFile(H, bytes);
    s.Clean? && (state.sequence == 0 || (|s.blocks| == state.sequence && TipHash(H, s.blocks) == state.hash))
  }

  /** alrios_forwarder_verify_chain_not_rolled_back. */
  method VerifyNotRolledBack(H: Hash, audit: File, state: AckState) returns (status: FwdStatus, ghost fault: bool)
    requires audit.Valid()
    modifies audit
    ensures audit.Valid() && audit.bytes == old(audit.bytes)
    ensures status == Accepted ==> NotRolledBack(H, audit.bytes, state)
    ensures status != Accepted ==> status == RollbackDetected
    ensures !fault ==> (status == Accepted <==> NotRolledBack(H, audit.bytes, state))
    ensures audit.reliable ==> !fault
  {
    hide Scan, Tip, EncodeAll;
    var scanned, result;
    scanned, result, fault := ChainOperation(H, audit, false);
    if scanned != Ok {
      return RollbackDetected, fault;
    }
    if state.sequence == 0 {
      return Accepted, fault;
    }
    if result.lastSequence != state.sequence || result.lastHash != state.hash {
      return RollbackDetected, fault;
    }
    return Accepted, fault;
  }

  /** The number and hash name a block of the chain, or nothing at all yet. */
  ghost predicate Names(H: Hash, blocks: seq<Block>, sequence: nat, hash: Digest) {
    sequence <= |blocks| && (sequence != 0 ==> hash == TipHash(H, blocks[..sequence]))
  }

  /**
   alrios_forwarder_verify_chain_not_rolled_back demands the acknowledged tip itself, not an
   extension of it, and no unfinished record behind it.
   */
  lemma CheckRejectsProgress(H: Hash, bytes: seq<byte>, state: AckState)
    requires !ScanFile(H, bytes).Bad? && state.sequence != 0
    requires Names(H, ScanFile(H, bytes).blocks, state.sequence, state.hash)
    ensures NotRolledBack(H, bytes, state) <==> ScanFile(H, bytes).Clean? && |ScanFile(H, bytes).blocks| == state.sequence
  {
    var blocks := ScanFile(H, bytes).blocks;
    assert blocks[..|blocks|] == blocks;
  }

  /** Two logs that hold the acknowledged block and have only grown, by a block or by a byte of one, and are refused. */
  lemma ProgressIsRefused(H: Hash)
    ensures var one := Block(1, 0, ZERO_HASH, []);
            var two := Block(2, 0, BlockHash(H, one), []);
            var state := AckState(1, BlockHash(H, one));
            && NotRolledBack(H, EncodeAll(H, [one]), state)
            && ScanFile(H, EncodeAll(H, [one, two])) == Clean([one, two])
            && Names(H, [one, two], state.sequence, state.hash)
            && !NotRolledBack(H, EncodeAll(H, [one, two]), state)
            && ScanFile(H, EncodeAll(H, [one]) + MAGIC[..1]) == Torn([one])
            && Names(H, [one], state.sequence, state.hash)
            && !NotRolledBack(H, EncodeAll(H, [one]) + MAGIC[..1], state)
  {
    hide Scan, Encode, BlockHash;
    var one := Block(1, 0, ZERO_HASH, []);
    var two := Block(2, 0, BlockHash(H, one), []);
    LinkedAppend(H, [], one, 0, ZERO_HASH);
    assert [] + [one] == [one];
    LinkedAppend(H, [one], two, 0, ZERO_HASH);
    assert [one] + [two] == [one, two] && [one, two][..1] == [one] && [one][..1] == [one];
    CleanIff(H, EncodeAll(H, [one]), [one]);
    CleanIff(H, EncodeAll(H, [one, two]), [one, two]);
    var torn := EncodeAll(H, [one]) + MAGIC[..1];
    assert torn[|EncodeAll(H, [one])|..] == MAGIC[..1];
    TornIff(H, torn, [one]);
  }

  /**
   If the startup check passes with something acknowledged, the log is byte for byte any valid
   log that had the acknowledged tip, or a hash collision is exhibited.
   */
  lemma StartupBindsFile(H: Hash, bytes: seq<byte>, state: AckState, acknowledged: seq<byte>)
    returns (x: seq<byte>, y: seq<byte>)
    requires NotRolledBack(H, bytes, state) && state.sequence != 0
    requires ScanFile(H, acknowledged).Clean?
    requires |ScanFile(H, acknowledged).blocks| == state.sequence && TipHash(H, ScanFile(H, acknowledged).blocks) == state.hash
    ensures bytes == acknowledged || TipBinding.Collision(H, x, y)
  {
    x, y := TipBinding.TipBindsFile(H, bytes, acknowledged);
  }

  /** Every queued checkpoint names a block, in order, from the acknowledged one to the tip. */
  ghost predicate Ordered(H: Hash, blocks: seq<Block>, ack: AckState, queued: seq<Checkpoint>) {
    && Names(H, blocks, ack.sequence, ack.hash)
    && (forall i :: 0 <= i < |queued| ==> ack.sequence <= queued[i].sequence && Names(H, blocks, queued[i].sequence, queued[i].blockHash))
    && (forall i, j :: 0 <= i < j < |queued| ==> queued[i].sequence <= queued[j].sequence)
  }

  lemma OrderedExtends(H: Hash, blocks: seq<Block>, longer: seq<Block>, ack: AckState, queued: seq<Checkpoint>)
    requires Ordered(H, blocks, ack, queued) && blocks <= longer
    ensures Ordered(H, longer, ack, queued)
  {
    hide Tip;
    assert forall n | 0 <= n <= |blocks| :: longer[..n] == blocks[..n];
  }

  /** Acknowledging the oldest entry keeps the order. */
  lemma OrderedAdvances(H: Hash, blocks: seq<Block>, ack: AckState, queued: seq<Checkpoint>)
    requires Ordered(H, blocks, ack, queued) && queued != []
    ensures Ordered(H, blocks, AckState(queued[0].sequence, queued[0].blockHash), queued[1..])
  {
    hide Tip;
  }

  /** Queueing the present tip keeps the order. */
  lemma OrderedGrows(H: Hash, blocks: seq<Block>, ack: AckState, queued: seq<Checkpoint>, c: Checkpoint)
    requires Ordered(H, blocks, ack, queued) && c.sequence == |blocks| && c.blockHash == TipHash(H, blocks)
    ensures Ordered(H, blocks, ack, queued + [c])
  {
    hide Tip;
    assert blocks[..|blocks|] == blocks;
  }

  ghost function LogBlocks(H: Hash, audit: File): seq<Block>
    requires !ScanFile(H, audit.bytes).Bad?
    reads audit
  {
    ScanFile(H, audit.bytes).blocks
  }

  /** Other processes append to the log, any number of times, with any outcome. */
  method OthersAppend(H: Hash, audit: File)
    requires audit.Valid() && audit.writable && !ScanFile(H, audit.bytes).Bad?
    modifies audit
    ensures audit.Valid() && !ScanFile(H, audit.bytes).Bad?
    ensures old(LogBlocks(H, audit)) <= LogBlocks(H, audit)
  {
    hide Scan, AppendOutcome;
    var times: nat :| 0 <= times;
    for i := 0 to times
      invariant audit.Valid() && !ScanFile(H, audit.bytes).Bad?
      invariant old(LogBlocks(H, audit)) <= LogBlocks(H, audit)
    {
      var timestamp: u64 :| 0 <= timestamp;
      var payload: seq<byte> := *;
      ghost var before := audit.bytes;
      var status, metadata;
      ghost var mishap;
      status, metadata, mishap := AppendFd(H, audit, timestamp, payload);
      StepKeepsChain(H, before, Append(timestamp, payload, status, metadata, mishap), audit.bytes);
    }
  }

  /** Forwards the tip just seen: enqueue, and flush when that worked. */
  method ForwardTip(H: Hash, audit: File, forwarder: AuditForwarder, result: ChainResult, ghost blocks: seq<Block>)
    returns (enqueued: FwdStatus, flushed: FwdStatus)
    requires forwarder.Valid() && audit.Valid() && audit != forwarder.stateFile
    requires result.lastSequence == |blocks| < U64 && result.lastHash == TipHash(H, blocks)
    requires Ordered(H, blocks, forwarder.ack, forwarder.Contents())
    modifies forwarder, forwarder.queue, forwarder.stateFile
    ensures forwarder.Valid() && audit.Valid() && audit.bytes == old(audit.bytes)
    ensures Ordered(H, blocks, forwarder.ack, forwarder.Contents())
    ensures enqueued == if |blocks| == 0 then BadArgument
                        else if |old(forwarder.Contents())| == forwarder.queue.Length then QueueFull else Accepted
    ensures forwarder.accepted == if enqueued == Accepted then old(forwarder.accepted) + [Checkpoint(|blocks|, 0, TipHash(H, blocks))]
                                  else old(forwarder.accepted)
    ensures enqueued != Accepted ==> flushed == Accepted
    ensures flushed != RollbackDetected
    ensures old(forwarder.ack.sequence) <= forwarder.ack.sequence
    ensures flushed == Accepted && enqueued == Accepted ==> forwarder.Persisted()
  {
    hide Ordered, DecodeState;
    flushed := Accepted;
    ghost var queued := forwarder.Contents();
    enqueued := forwarder.Enqueue(result.lastSequence, 0, result.lastHash);
    if enqueued != Accepted {
      return;
    }
    OrderedGrows(H, blocks, forwarder.ack, queued, Checkpoint(result.lastSequence, 0, result.lastHash));
    ghost var pending, acked := forwarder.Contents(), forwarder.ack;
    ghost var receipt;
    flushed, receipt := forwarder.Flush();
    if flushed == RollbackDetected {
      assert pending[0].sequence < acked.sequence;
      OrderedFirst(H, blocks, acked, pending);
    }
    OrderedAdvances(H, blocks, acked, pending);
  }

  lemma OrderedFirst(H: Hash, blocks: seq<Block>, ack: AckState, queued: seq<Checkpoint>)
    requires Ordered(H, blocks, ack, queued) && queued != []
    ensures ack.sequence <= queued[0].sequence
  {
  }

  /** What holds between any two calls of the daemon. */
  ghost predicate Healthy(H: Hash, audit: File, forwarder: AuditForwarder)
    reads audit, forwarder, forwarder.queue, forwarder.stateFile
  {
    && audit.Valid() && !ScanFile(H, audit.bytes).Bad? && forwarder.Valid() && audit != forwarder.stateFile
    && Ordered(H, LogBlocks(H, audit), forwarder.ack, forwarder.Contents())
  }

  /** One look at the log (the loop body; a status stays Accepted when its call is not made), after others may have appended: verify, and forward a new tip. */
  method Round(H: Hash, audit: File, forwarder: AuditForwarder)
    returns (verified: bool, enqueued: FwdStatus, flushed: FwdStatus)
    requires Healthy(H, audit, forwarder) && audit.writable
    modifies audit, forwarder, forwarder.queue, forwarder.stateFile
    ensures Healthy(H, audit, forwarder) && !ScanFile(H, audit.bytes).Bad?
    ensures old(LogBlocks(H, audit)) <= LogBlocks(H, audit)
    ensures enqueued != RollbackDetected && flushed != RollbackDetected
    ensures old(forwarder.ack.sequence) <= forwarder.ack.sequence
    ensures verified ==> ScanFile(H, audit.bytes).Clean?
    ensures audit.reliable ==> (verified <==> ScanFile(H, audit.bytes).Clean?)
    ensures verified && |LogBlocks(H, audit)| > old(forwarder.ack.sequence) ==>
              var blocks := LogBlocks(H, audit);
              && |blocks| < U64
              && enqueued == (if |old(forwarder.Contents())| == forwarder.queue.Length then QueueFull else Accepted)
              && forwarder.accepted == old(forwarder.accepted) +
                   (if enqueued == Accepted then [Checkpoint(|blocks|, 0, TipHash(H, blocks))] else [])
    ensures !(verified && |LogBlocks(H, audit)| > old(forwarder.ack.sequence)) ==>
              && enqueued == flushed == Accepted && forwarder.accepted == old(forwarder.accepted)
              && forwarder.Contents() == old(forwarder.Contents()) && forwarder.ack == old(forwarder.ack)
  {
    hide Ordered, DecodeState, Scan, EncodeAll, Tip;
    verified, enqueued, flushed := false, Accepted, Accepted;
    ghost var blocks := LogBlocks(H, audit);
    OthersAppend(H, audit);
    OrderedExtends(H, blocks, LogBlocks(H, audit), forwarder.ack, forwarder.Contents());
    var scanned, result;
    ghost var fault;
    scanned, result, fault := ChainOperation(H, audit, false);
    if scanned != Ok {
      return;
    }
    verified := true;
    if result.blockCount > 0 && result.lastSequence > forwarder.ack.sequence {
      LogFits(H, audit);
      enqueued, flushed := ForwardTip(H, audit, forwarder, result, LogBlocks(H, audit));
    }
  }

  /** The steps up to the loop: read the state, check for rollback, start the forwarder. */
  method Startup(H: Hash, M: Mac, key: seq<byte>, audit: File, stateFile: File)
    returns (forwarder: AuditForwarder?)
    requires audit.Valid() && stateFile.Valid() && audit != stateFile
    requires audit.writable && !ScanFile(H, audit.bytes).Bad?
    modifies audit, stateFile
    ensures audit.Valid() && !ScanFile(H, audit.bytes).Bad?
    ensures old(LogBlocks(H, audit)) <= LogBlocks(H, audit)
    ensures stateFile.Valid() && stateFile.bytes == old(stateFile.bytes)
    ensures forwarder != null ==>
              && fresh(forwarder) && fresh(forwarder.queue) && forwarder.stateFile == stateFile
              && Healthy(H, audit, forwarder) && forwarder.Contents() == []
              && NotRolledBack(H, audit.bytes, forwarder.ack)
  {
    hide Ordered, DecodeState, NotRolledBack, Scan, EncodeAll, Tip;
    forwarder := null;
    var status, state;
    ghost var fault;
    status, state, fault := StateRead(M, key, stateFile);
    if status != Accepted {
      return;
    }
    OthersAppend(H, audit);
    status, fault := VerifyNotRolledBack(H, audit, state);
    if status != Accepted {
      return;
    }
    StartOrdered(H, audit.bytes, state);
    var buffer := new Checkpoint[QUEUE_SIZE](_ => NO_CHECKPOINT);
    status, forwarder, fault := Init(M, stateFile.reliable, key, buffer, stateFile);
  }

  /**
   The daemon, for any number of rounds. At every point between calls the acknowledged and
   queued checkpoints name blocks of the log in order, so no flush ever detects a rollback.
   With `drainExisting` the first look must forward successfully or the daemon gives up.
   */
  method Run(H: Hash, M: Mac, key: seq<byte>, audit: File, stateFile: File, drainExisting: bool, rounds: nat)
    returns (success: bool, forwarder: AuditForwarder?, ghost flushes: seq<FwdStatus>, ghost acks: seq<nat>)
    requires audit.Valid() && stateFile.Valid() && audit != stateFile
    requires audit.writable && !ScanFile(H, audit.bytes).Bad?
    modifies audit, stateFile
    ensures audit.Valid() && !ScanFile(H, audit.bytes).Bad?
    ensures old(LogBlocks(H, audit)) <= LogBlocks(H, audit)
    ensures RollbackDetected !in flushes
    ensures forall i, j :: 0 <= i < j < |acks| ==> acks[i] <= acks[j]
    ensures forwarder != null ==> Healthy(H, audit, forwarder)
    ensures forwarder == null ==> stateFile.bytes == old(stateFile.bytes)
    ensures success ==> forwarder != null
  {
    hide Healthy, LogBlocks, ScanFile, NotRolledBack;
    success, flushes, acks := false, [], [];
    forwarder := Startup(H, M, key, audit, stateFile);
    if forwarder == null {
      return;
    }
    acks := [forwarder.ack.sequence];
    var verified, enqueued, flushed;
    if drainExisting {
      verified, enqueued, flushed := Round(H, audit, forwarder);
      flushes, acks := flushes + [flushed], acks + [forwarder.ack.sequence];
      if verified && (enqueued != Accepted || flushed != Accepted) {
        HealthyParts(H, audit, forwarder);
        return;
      }
    }
    for round := 0 to rounds
      invariant fresh(forwarder) && fresh(forwarder.queue) && forwarder.stateFile == stateFile
      invariant Healthy(H, audit, forwarder) && !ScanFile(H, audit.bytes).Bad?
      invariant old(LogBlocks(H, audit)) <= LogBlocks(H, audit)
      invariant RollbackDetected !in flushes
      invariant forall i, j :: 0 <= i < j < |acks| ==> acks[i] <= acks[j]
      invariant acks != [] && acks[|acks| - 1] == forwarder.ack.sequence
    {
      verified, enqueued, flushed := Round(H, audit, forwarder);
      flushes, acks := flushes + [flushed], acks + [forwarder.ack.sequence];
      if !verified {
        HealthyParts(H, audit, forwarder);
        return;
      }
    }
    HealthyParts(H, audit, forwarder);
    success := true;
  }

  lemma HealthyParts(H: Hash, audit: File, forwarder: AuditForwarder)
    requires Healthy(H, audit, forwarder)
    ensures audit.Valid() && !ScanFile(H, audit.bytes).Bad?
  {
  }

  /** A file below the largest offset holds fewer than 2^64 blocks. */
  lemma LogFits(H: Hash, audit: File)
    requires audit.Valid() && !ScanFile(H, audit.bytes).Bad?
    ensures |LogBlocks(H, audit)| < U64
  {
    hide Scan, EncodeAll;
    ScanSound(H, audit.bytes, 0, ZERO_HASH);
  }

  lemma StartOrdered(H: Hash, bytes: seq<byte>, state: AckState)
    requires NotRolledBack(H, bytes, state)
    ensures Ordered(H, ScanFile(H, bytes).blocks, state, [])
  {
    hide Scan, Tip;
    var blocks := ScanFile(H, bytes).blocks;
    assert blocks[..|blocks|] == blocks;
  }
}
