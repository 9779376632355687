/**
 The checkpoint forwarder: a ring buffer of checkpoints, one authenticated exchange per
 flush, and the acknowledgement kept in memory and in the state file.
 */
module Forwarder {
  import opened Bytes
  import opened FileIo
  import opened AuditBlock
  import opened ForwarderWire

  const MAX_QUEUE_ENTRIES: nat := 1024

  /** The ring slot `i` places after `head`. */
  function Slot(head: nat, i: nat, capacity: nat): nat {
    if head + i < capacity then head + i else head + i - capacity
  }

  /** The queue a ring stands for: `count` slots from `head` on, wrapping around. */
  ghost function Ring<T>(slots: seq<T>, head: nat, count: nat): (q: seq<T>)
    requires head < |slots| && count <= |slots|
    ensures |q| == count
  {
    seq(count, i requires 0 <= i < count => slots[Slot(head, i, |slots|)])
  }

  /** The index update the ring uses. */
  lemma NextSlot(at: nat, capacity: nat)
    requires at < capacity
    ensures (at + 1) % capacity == Slot(at, 1, capacity) < capacity
  {
  }

  /** Filling the slot after the last one adds at the back. */
  lemma RingPush<T>(slots: seq<T>, head: nat, count: nat, entry: T)
    requires head < |slots| && count < |slots|
    ensures Slot(head, count, |slots|) < |slots|
    ensures Ring(slots[Slot(head, count, |slots|) := entry], head, count + 1) == Ring(slots, head, count) + [entry]
    ensures Slot(Slot(head, count, |slots|), 1, |slots|) == Slot(head, count + 1, |slots|)
  {
  }

  /** Moving the head on, whatever is left in its slot, removes from the front. */
  lemma RingPop<T>(slots: seq<T>, head: nat, count: nat, blank: T)
    requires head < |slots| && 0 < count <= |slots|
    ensures Ring(slots, head, count)[0] == slots[head]
    ensures Ring(slots[head := blank], Slot(head, 1, |slots|), count - 1) == Ring(slots, head, count)[1..]
    ensures Slot(Slot(head, 1, |slots|), count - 1, |slots|) == Slot(head, count, |slots|)
  {
    var q := Ring(slots[head := blank], Slot(head, 1, |slots|), count - 1);
    forall i | 0 <= i < count - 1
      ensures q[i] == Ring(slots, head, count)[i + 1]
    {
      assert Slot(Slot(head, 1, |slots|), i, |slots|) == Slot(head, i + 1, |slots|) != head;
    }
  }

  class AuditForwarder {
    const mac: Mac
    const key: seq<byte>
    const queue: array<Checkpoint>
    const stateFile: File?
    /** Whether the MAC library and the state file never fail. */
    const reliable: bool
    var head: nat
    var tail: nat
    var count: nat
    var ack: AckState
    /** Every checkpoint ever enqueued, and those a receipt has been accepted for. */
    ghost var accepted: seq<Checkpoint>
    ghost var acknowledged: seq<Checkpoint>
    /** Every message handed to the transport. */
    ghost var sent: seq<seq<byte>>

    /** The queued checkpoints, oldest first. */
    ghost function Contents(): (s: seq<Checkpoint>)
      requires queue.Length > 0 && head < queue.Length && count <= queue.Length
      reads this, queue
      ensures |s| == count
    {
      Ring(queue[..], head, count)
    }

    ghost predicate Valid()
      reads this, queue, stateFile
    {
      && 0 < queue.Length <= MAX_QUEUE_ENTRIES
      && head < queue.Length && tail < queue.Length && count <= queue.Length
      && tail == Slot(head, count, queue.Length)
      && (forall c :: c in Contents() ==> c.sequence != 0)
      && accepted == acknowledged + Contents()
      && (stateFile != null ==> stateFile.Valid() && stateFile.reliable == reliable && |stateFile.bytes| <= STATE_SIZE && (count == 0 ==> Persisted()))
    }

    /** The state file holds exactly the acknowledgement in memory. */
    ghost predicate Persisted()
      reads this, stateFile
    {
      stateFile == null || DecodeState(mac, key, stateFile.bytes) == Some(ack)
    }

    /** alrios_forwarder_init, after the state file has been read. */
    constructor (M: Mac, k: seq<byte>, faultless: bool, buffer: array<Checkpoint>, file: File?, state: AckState)
      requires 0 < buffer.Length <= MAX_QUEUE_ENTRIES
      requires file == null ==> state == NO_ACK
      requires file != null ==> file.Valid() && file.reliable == faultless && DecodeState(M, k, file.bytes) == Some(state)
      ensures Valid() && reliable == faultless && queue == buffer && stateFile == file && mac == M && key == k
      ensures ack == state && count == 0 && Contents() == [] && accepted == [] && acknowledged == [] && sent == []
    {
      mac, key, queue, stateFile, reliable := M, k, buffer, file, faultless;
      head, tail, count, ack := 0, 0, 0, state;
      accepted, acknowledged, sent := [], [], [];
    }

    /** alrios_forwarder_enqueue. */
    method Enqueue(sequence: u64, timestamp: u64, blockHash: Digest) returns (status: FwdStatus)
      requires Valid()
      modifies this, queue
      ensures Valid()
      ensures status == if sequence == 0 then BadArgument
                        else if |old(Contents())| == queue.Length then QueueFull
                        else Accepted
      ensures ack == old(ack) && acknowledged == old(acknowledged) && sent == old(sent)
      ensures status == Accepted ==>
                && Contents() == old(Contents()) + [Checkpoint(sequence, timestamp, blockHash)]
                && accepted == old(accepted) + [Checkpoint(sequence, timestamp, blockHash)]
      ensures status != Accepted ==> Contents() == old(Contents()) && accepted == old(accepted)
    {
      hide DecodeState, Ring, Slot;
      if sequence == 0 {
        return BadArgument;
      }
      if count == queue.Length {
        return QueueFull;
      }
      var entry := Checkpoint(sequence, timestamp, blockHash);
      ghost var slots := queue[..];
      ghost var before := Contents();
      RingPush(slots, head, count, entry);
      NextSlot(tail, queue.Length);
      queue[tail] := entry;
      assert queue[..] == slots[Slot(head, count, |slots|) := entry];
      tail := (tail + 1) % queue.Length;
      count := count + 1;
      assert Contents() == before + [entry];
      accepted := accepted + [entry];
      return Accepted;
    }

    /** Drops the oldest entry once it is acknowledged. */
    method Pop()
      requires Valid() && count > 0
      requires stateFile != null ==> DecodeState(mac, key, stateFile.bytes) == Some(ack)
      modifies this, queue
      ensures Valid()
      ensures Contents() == old(Contents())[1..]
      ensures ack == old(ack) && accepted == old(accepted) && sent == old(sent)
      ensures acknowledged == old(acknowledged) + [old(Contents())[0]]
    {
      hide DecodeState, Ring, Slot;
      ghost var slots := queue[..];
      ghost var before := Contents();
      RingPop(slots, head, count, NO_CHECKPOINT);
      NextSlot(head, queue.Length);
      queue[head] := NO_CHECKPOINT;
      assert queue[..] == slots[head := NO_CHECKPOINT];
      head := (head + 1) % queue.Length;
      count := count - 1;
      acknowledged := acknowledged + [before[0]];
      assert Contents() == before[1..];
      assert accepted == acknowledged + before[1..];
    }

    /** The transport callback: it may fail, and may hand back any bytes at all. */
    method Exchange(checkpoint: seq<byte>) returns (ok: bool, reply: seq<byte>)
      modifies this`sent
      ensures sent == old(sent) + [checkpoint]
    {
      sent := sent + [checkpoint];
      ok := *;
      reply := *;
    }

    /** Sends one checkpoint and takes the receipt for it: authentic, and for exactly that one. */
    method Request(entry: Checkpoint) returns (status: FwdStatus, reply: AckState, ghost receipt: seq<byte>)
      requires entry.sequence != 0
      modifies this`sent
      ensures sent == old(sent) || sent == old(sent) + [EncodeCheckpoint(mac, key, entry)]
      ensures reliable ==> sent != old(sent)
      ensures status == Accepted || status == Transport || status == Auth
      ensures status == Accepted ==>
                && reply == AckState(entry.sequence, entry.blockHash)
                && |receipt| == RECEIPT_SIZE && DecodeReceipt(mac, key, receipt) == Some(reply)
      ensures reliable && |receipt| == RECEIPT_SIZE
              && DecodeReceipt(mac, key, receipt) == Some(AckState(entry.sequence, entry.blockHash)) ==>
                status == Accepted
    {
      hide DecodeReceipt, EncodeReceipt, EncodeCheckpoint;
      reply, receipt := NO_ACK, [];
      var wire := new byte[CHECKPOINT_SIZE](_ => 0);
      ghost var fault;
      status, fault := CheckpointEncode(mac, reliable, key, entry, wire);
      if status != Accepted {
        return;
      }
      var answered, received := Exchange(wire[..]);
      if !answered {
        return Transport, NO_ACK, [];
      }
      receipt := received;
      if |received| != RECEIPT_SIZE {
        return Transport, NO_ACK, received;
      }
      var receiptWire := new byte[RECEIPT_SIZE](i requires 0 <= i < RECEIPT_SIZE => received[i]);
      assert receiptWire[..] == received;
      var answer;
      status, answer, fault := ReceiptDecodeAndVerify(mac, reliable, key, receiptWire);
      if status != Accepted || answer.ack.sequence != entry.sequence || answer.ack.hash != entry.blockHash {
        return Auth, NO_ACK, received;
      }
      return Accepted, answer.ack, received;
    }

    /**
     alrios_forwarder_flush: sends the oldest checkpoint and, on an authentic receipt for
     exactly it, records the acknowledgement and drops it. `receipt` is what the transport
     handed back when it reported success. An authentic receipt in time is always accepted,
     unless a library or file call fails or a signal hits the state file.
     */
    method Flush() returns (status: FwdStatus, ghost receipt: seq<byte>)
      requires Valid()
      modifies this, queue, stateFile
      ensures Valid()
      ensures accepted == old(accepted)
      ensures old(Contents()) == [] ==>
                status == Accepted && Contents() == [] && sent == old(sent) && ack == old(ack) && acknowledged == old(acknowledged)
      ensures status == Accepted && old(Contents()) != [] ==>
                var first := old(Contents())[0];
                && Contents() == old(Contents())[1..]
                && ack == AckState(first.sequence, first.blockHash)
                && acknowledged == old(acknowledged) + [first]
                && |receipt| == RECEIPT_SIZE && DecodeReceipt(mac, key, receipt) == Some(ack)
      ensures sent == old(sent) || (old(Contents()) != [] && sent == old(sent) + [EncodeCheckpoint(mac, key, old(Contents())[0])])
      ensures reliable && old(Contents()) != [] ==> sent != old(sent)
      ensures reliable && old(Contents()) != [] && (stateFile != null ==> old(stateFile.interrupts) == 0) ==>
                var first := old(Contents())[0];
                status == Accepted <==>
                  && old(ack.sequence) <= first.sequence && |receipt| == RECEIPT_SIZE
                  && DecodeReceipt(mac, key, receipt) == Some(AckState(first.sequence, first.blockHash))
      ensures status == Accepted ==> Persisted()
      ensures status != Accepted ==>
                Contents() == old(Contents()) && ack == old(ack) && acknowledged == old(acknowledged)
      ensures old(ack.sequence) <= ack.sequence
      ensures status == RollbackDetected ==> old(Contents()) != [] && old(Contents())[0].sequence < ack.sequence
      ensures stateFile != null && stateFile.bytes != old(stateFile.bytes) ==> old(Contents()) != []
      ensures stateFile != null && status != Accepted ==>
                var first := old(Contents())[0];
                stateFile.bytes == old(stateFile.bytes) ||
                PartlyWritten(mac, key, old(stateFile.bytes), AckState(first.sequence, first.blockHash), stateFile.bytes)
    {
      hide DecodeState, DecodeReceipt, EncodeState, EncodeCheckpoint, PartlyWritten, Ring, Slot, Overwrite;
      receipt := [];
      if count == 0 {
        return Accepted, [];
      }
      RingPop(queue[..], head, count, NO_CHECKPOINT);
      ghost var pending := Contents();
      var entry := queue[head];
      assert entry == pending[0];
      var reply;
      status, reply, receipt := Request(entry);
      assert Contents() == pending;
      if status != Accepted {
        return status, receipt;
      }
      if ack.sequence > reply.sequence {
        return RollbackDetected, receipt;
      }
      if stateFile != null {
        ghost var written;
        status, written := StateWrite(mac, key, stateFile, reply);
        if status != Accepted {
          assert Contents() == pending;
          return status, receipt;
        }
        StateRoundTrip(mac, key, stateFile.bytes, reply);
      }
      ack := reply;
      assert Contents() == pending;
      Pop();
      return Accepted, receipt;
    }
  }

  /** alrios_forwarder_init: reads the state file, when there is one, and starts empty. */
  method Init(M: Mac, reliable: bool, key: seq<byte>, buffer: array<Checkpoint>, file: File?)
    returns (status: FwdStatus, forwarder: AuditForwarder?, ghost fault: bool)
    requires file != null ==> file.Valid() && file.reliable == reliable
    modifies buffer, file
    ensures file != null ==> file.Valid() && file.bytes == old(file.bytes)
    ensures buffer.Length == 0 || buffer.Length > MAX_QUEUE_ENTRIES ==> status == BadArgument
    ensures status == Accepted <==> forwarder != null
    ensures forwarder != null ==>
              && fresh(forwarder) && forwarder.Valid() && forwarder.queue == buffer && forwarder.stateFile == file
              && forwarder.mac == M && forwarder.key == key && forwarder.reliable == reliable && forwarder.Contents() == []
              && Some(forwarder.ack) == (if file == null then Some(NO_ACK) else DecodeState(M, key, file.bytes))
              && forwarder.accepted == [] && forwarder.acknowledged == []
    ensures reliable ==> !fault
    ensures !fault && 0 < buffer.Length <= MAX_QUEUE_ENTRIES ==>
              (status == Accepted <==> file == null || DecodeState(M, key, file.bytes).Some?)
  {
    forwarder, fault := null, false;
    if buffer.Length == 0 || buffer.Length > MAX_QUEUE_ENTRIES {
      return BadArgument, null, false;
    }
    for i := 0 to buffer.Length
      invariant file != null ==> file.Valid() && file.bytes == old(file.bytes)
    {
      buffer[i] := NO_CHECKPOINT;
    }
    var state := NO_ACK;
    if file != null {
      status, state, fault := StateRead(M, key, file);
      if status != Accepted {
        return status, null, fault;
      }
    }
    forwarder := new AuditForwarder(M, key, reliable, buffer, file, state);
    return Accepted, forwarder, false;
  }
}
