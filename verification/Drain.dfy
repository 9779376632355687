/**
 The connection drain tracker: threads that register, complete, begin, poll and wait, as
 interleaved single steps over one shared tracker. Each atomic load, each test-and-set of
 the spin lock and each store to the fields below is a step of its own.
 */
module Drain {

  const MAX_STREAMS: nat := 1024
  const DEFAULT_TIMEOUT_MS: nat := 5000

  datatype Phase = Active | Draining | Completed | TimedOut

  datatype StreamState = Blank | Open | Closing | Closed

  datatype Stream = Stream(id: nat, state: StreamState)

  datatype Result = Success | StillDraining | Invalid | BadState | Timeout | Limit | NotFound

  datatype Lock = Free | Held(owner: nat)

  datatype Tracker = Tracker(
    phase: Phase, lock: Lock, streams: seq<Stream>, active: nat, startMs: nat, timeoutMs: nat,
    accepted: nat, completed: nat, timedOut: nat,
    /** Whether some begin has stored its phase. */
    begun: bool)

  predicate IsOpen(s: Stream) {
    s.id != 0 && s.state != Closed
  }

  ghost function OpenCount(streams: seq<Stream>): nat {
    if streams == [] then 0 else (if IsOpen(streams[0]) then 1 else 0) + OpenCount(streams[1..])
  }

  ghost predicate DistinctOpen(streams: seq<Stream>) {
    forall i, j :: 0 <= i < j < |streams| && IsOpen(streams[i]) && IsOpen(streams[j]) ==> streams[i].id != streams[j].id
  }

  /** The first stream that is open under this id, or the capacity. */
  function FindOpen(streams: seq<Stream>, id: nat): (i: nat)
    ensures i <= |streams|
    ensures i < |streams| ==> streams[i].id == id && streams[i].state != Closed
    ensures forall j :: 0 <= j < i ==> streams[j].id != id || streams[j].state == Closed
  {
    if streams == [] then 0
    else if streams[0].id == id && streams[0].state != Closed then 0
    else FindOpen(streams[1..], id) + 1
  }

  /** The first stream slot that can be reused, or the capacity. */
  function FindFree(streams: seq<Stream>): (i: nat)
    ensures i <= |streams|
    ensures i < |streams| ==> !IsOpen(streams[i])
    ensures forall j :: 0 <= j < i ==> IsOpen(streams[j])
  {
    if streams == [] then 0 else if !IsOpen(streams[0]) then 0 else FindFree(streams[1..]) + 1
  }

  /** The one scan a registration makes: it stops at a duplicate, and notes the first free slot. */
  method ScanForRegister(streams: seq<Stream>, id: nat) returns (duplicate: bool, freeIndex: nat)
    requires id != 0
    ensures duplicate == (FindOpen(streams, id) < |streams|)
    ensures !duplicate ==> freeIndex == FindFree(streams)
  {
    freeIndex := |streams|;
    for i := 0 to |streams|
      invariant freeIndex == |streams| || freeIndex < i
      invariant forall j :: 0 <= j < i ==> streams[j].id != id || streams[j].state == Closed
      invariant freeIndex < |streams| ==> !IsOpen(streams[freeIndex])
      invariant forall j :: 0 <= j < i && j < freeIndex ==> IsOpen(streams[j])
    {
      if streams[i].id == id && streams[i].state != Closed {
        return true, freeIndex;
      }
      if freeIndex == |streams| && (streams[i].id == 0 || streams[i].state == Closed) {
        freeIndex := i;
      }
    }
    duplicate := false;
  }

  /** The scan a completion makes. */
  method ScanForComplete(streams: seq<Stream>, id: nat) returns (found: nat)
    ensures found == FindOpen(streams, id)
  {
    found := |streams|;
    for i := 0 to |streams|
      invariant forall j :: 0 <= j < i ==> streams[j].id != id || streams[j].state == Closed
    {
      if streams[i].id == id && streams[i].state != Closed {
        return i;
      }
    }
  }

  /** Where a thread is. Spin steps wait for the lock; the others name the access they make next. */
  datatype Pc =
    | Outside(last: Result)
    // register
    | RegPreCheck(id: nat) | RegSpin(id: nat) | RegCheck(id: nat) | RegId(id: nat) | RegState(at: nat, id: nat) | RegCount | RegTotal
    // complete
    | CmpSpin(id: nat) | CmpState(id: nat) | CmpId(at: nat) | CmpCount | CmpTotal | CmpPhase
    // begin
    | BegSpin | BegStart | BegPhase
    // poll, on its own or from wait_complete with a deadline
    | PollLoad(deadline: Deadline) | PollSpin(deadline: Deadline) | PollCheck(deadline: Deadline)
    | PollExpire(deadline: Deadline) | PollAdd(deadline: Deadline)
    // wait_complete
    | WaitStart(timeout: int) | WaitClock(deadlineMs: nat) | WaitSpin | WaitStore | WaitAdd
    // release the lock and return, or go on waiting
    | Unlock(result: Result, deadline: Deadline)

  datatype Deadline = NoDeadline | At(ms: nat)

  predicate InLock(pc: Pc) {
    pc.RegCheck? || pc.RegId? || pc.RegState? || pc.RegCount? || pc.RegTotal? ||
    pc.CmpState? || pc.CmpId? || pc.CmpCount? || pc.CmpTotal? || pc.CmpPhase? ||
    pc.BegStart? || pc.BegPhase? || pc.PollCheck? || pc.PollExpire? || pc.PollAdd? ||
    pc.WaitStore? || pc.WaitAdd? || pc.Unlock?
  }

  /** The first step of a call. */
  predicate Entry(pc: Pc) {
    (pc.RegPreCheck? && pc.id != 0) || (pc.CmpSpin? && pc.id != 0) || pc.BegSpin? || pc == PollLoad(NoDeadline) || pc.WaitStart?
  }

  /** How long a wait lasts: never zero. */
  function WaitLimit(t: Tracker, timeout: int): (ms: nat)
    ensures ms > 0
  {
    if timeout > 0 then timeout else if t.timeoutMs > 0 then t.timeoutMs else DEFAULT_TIMEOUT_MS
  }

  /** What a poll result means to its caller. */
  function AfterPoll(result: Result, deadline: Deadline): Pc {
    match deadline
    case NoDeadline => Outside(result)
    case At(ms) => if result == Success || result == Timeout then Outside(result) else WaitClock(ms)
  }

  function Acquire(t: Tracker, me: nat, pc: Pc, next: Pc): (Tracker, Pc) {
    if t.lock.Free? then (t.(lock := Held(me)), next) else (t, pc)
  }

  function SetState(t: Tracker, i: nat, state: StreamState): Tracker {
    if i < |t.streams| then t.(streams := t.streams[i := t.streams[i].(state := state)]) else t
  }

  /** One step of thread `me` at clock reading `now`. */
  function Exec(t: Tracker, me: nat, pc: Pc, now: nat): (Tracker, Pc) {
    match pc
    case Outside(_) => (t, pc)
    case RegPreCheck(id) => if t.phase != Active then (t, Outside(BadState)) else (t, RegSpin(id))
    case RegSpin(id) => Acquire(t, me, pc, RegCheck(id))
    case RegCheck(id) => if t.phase != Active then (t, Unlock(BadState, NoDeadline)) else (t, RegId(id))
    case RegId(id) =>
      if FindOpen(t.streams, id) < |t.streams| then (t, Unlock(Invalid, NoDeadline))
      else
        var i := FindFree(t.streams);
        if i == |t.streams| then (t, Unlock(Limit, NoDeadline))
        else (t.(streams := t.streams[i := t.streams[i].(id := id)]), RegState(i, id))
    case RegState(i, _) => (SetState(t, i, Open), RegCount)
    case RegCount => (t.(active := t.active + 1), RegTotal)
    case RegTotal => (t.(accepted := t.accepted + 1), Unlock(Success, NoDeadline))
    case CmpSpin(id) => Acquire(t, me, pc, CmpState(id))
    case CmpState(id) =>
      var i := FindOpen(t.streams, id);
      if i == |t.streams| then (t, Unlock(NotFound, NoDeadline)) else (SetState(t, i, Closed), CmpId(i))
    case CmpId(i) => (if i < |t.streams| then t.(streams := t.streams[i := t.streams[i].(id := 0)]) else t, CmpCount)
    case CmpCount => (if t.active > 0 then t.(active := t.active - 1) else t, CmpTotal)
    case CmpTotal => (t.(completed := t.completed + 1), CmpPhase)
    case CmpPhase =>
      (if t.phase == Draining && t.active == 0 then t.(phase := Completed) else t, Unlock(Success, NoDeadline))
    case BegSpin => Acquire(t, me, pc, BegStart)
    case BegStart => (t.(startMs := now), BegPhase)
    case BegPhase =>
      (t.(phase := if t.active == 0 then Completed else Draining, begun := true), Unlock(Success, NoDeadline))
    case PollLoad(d) =>
      (match t.phase
       case Completed => (t, AfterPoll(Success, d))
       case TimedOut => (t, AfterPoll(Timeout, d))
       case Active => (t, AfterPoll(StillDraining, d))
       case Draining => (t, PollSpin(d)))
    case PollSpin(d) => Acquire(t, me, pc, PollCheck(d))
    case PollCheck(d) =>
      if t.active == 0 then (t.(phase := Completed), Unlock(Success, d))
      else if now >= t.startMs + t.timeoutMs then (t, PollExpire(d))
      else (t, Unlock(StillDraining, d))
    case PollExpire(d) => (t.(phase := TimedOut), PollAdd(d))
    case PollAdd(d) => (t.(timedOut := t.timedOut + t.active), Unlock(Timeout, d))
    case WaitStart(timeout) => (t, PollLoad(At(now + WaitLimit(t, timeout))))
    case WaitClock(ms) => if now >= ms then (t, WaitSpin) else (t, PollLoad(At(ms)))
    case WaitSpin => Acquire(t, me, pc, WaitStore)
    case WaitStore => (t.(phase := TimedOut), WaitAdd)
    case WaitAdd => (t.(timedOut := t.timedOut + t.active), Unlock(Timeout, NoDeadline))
    case Unlock(result, d) => (t.(lock := Free), AfterPoll(result, d))
  }

  datatype System = System(t: Tracker, pcs: seq<Pc>)

  /** Thread `who` takes a step, or starts a new call. */
  datatype Action = Run(who: nat, now: nat) | Call(who: nat, entry: Pc)

  ghost predicate Step(s: System, a: Action, s': System) {
    && a.who < |s.pcs|
    && match a
       case Run(who, now) =>
         var (t, pc) := Exec(s.t, who, s.pcs[who], now);
         s' == System(t, s.pcs[who := pc])
       case Call(who, entry) =>
         s.pcs[who].Outside? && Entry(entry) && s' == System(s.t, s.pcs[who := entry])
  }

  /** alrios_drain_tracker_init: a zero in the configuration stands for the default. */
  function InitialTracker(maxStreams: nat, timeoutMs: nat): Tracker {
    Tracker(Active, Free, seq(if maxStreams == 0 then MAX_STREAMS else maxStreams, _ => Stream(0, Blank)), 0, 0,
            if timeoutMs == 0 then DEFAULT_TIMEOUT_MS else timeoutMs, 0, 0, 0, false)
  }

  /** The tracker right after its initialisation, and threads that have not called anything yet. */
  ghost predicate Initial(s: System) {
    && (exists maxStreams, timeoutMs :: s.t == InitialTracker(maxStreams, timeoutMs))
    && (forall i :: 0 <= i < |s.pcs| ==> s.pcs[i].Outside?)
  }

  /** What the holder of the lock still owes to the counters. */
  function OpenOwed(pc: Pc): int {
    if pc.RegState? || pc.RegCount? then 1 else if pc.CmpId? || pc.CmpCount? then -1 else 0
  }

  /** The streams once the holder of the lock has made all stores to the one it works on. */
  function Streams(t: Tracker, pc: Pc): seq<Stream> {
    if pc.RegState? && pc.at < |t.streams| then t.streams[pc.at := Stream(pc.id, Open)]
    else if pc.CmpId? && pc.at < |t.streams| then t.streams[pc.at := Stream(0, Closed)]
    else t.streams
  }

  function TotalOwed(pc: Pc): int {
    if pc.RegTotal? then 1 else if pc.CmpTotal? then -1 else 0
  }

  /** The shared state while thread `pc` holds the lock; `Outside` stands for a free lock. */
  ghost predicate Consistent(t: Tracker, pc: Pc) {
    && OpenCount(Streams(t, pc)) == t.active + OpenOwed(pc)
    && t.accepted + TotalOwed(pc) == t.completed + t.active
    && DistinctOpen(Streams(t, pc))
    && (pc.RegState? ==> pc.at < |t.streams| && t.streams[pc.at].id == pc.id)
    && (pc.CmpId? ==> pc.at < |t.streams| && t.streams[pc.at].state == Closed)
    && (t.phase == Completed ==> t.active == 0)
    && (t.phase == Draining && !pc.CmpTotal? && !pc.CmpPhase? ==> t.active > 0)
    && (t.begun ==> t.phase != Active)
    && (pc.RegId? || pc.RegState? || pc.RegCount? || pc.RegTotal? ==> t.phase == Active)
    && ((pc.RegId? || pc.CmpState?) ==> pc.id != 0)
    && (pc.CmpId? || pc.CmpCount? ==> t.phase != Completed)
    && (pc.PollExpire? || pc.PollAdd? ==> t.active > 0)
  }

  ghost predicate Invariant(s: System) {
    && (forall i :: 0 <= i < |s.pcs| ==> (InLock(s.pcs[i]) <==> s.t.lock == Held(i)))
    && (s.t.lock.Held? ==> s.t.lock.owner < |s.pcs|)
    && Consistent(s.t, if s.t.lock.Held? then s.pcs[s.t.lock.owner] else Outside(Success))
    && (forall i :: 0 <= i < |s.pcs| && (s.pcs[i].RegPreCheck? || s.pcs[i].RegSpin? || s.pcs[i].RegCheck? || s.pcs[i].CmpSpin?) ==> s.pcs[i].id != 0)
  }

  /** Changing one stream changes the count by that stream alone. */
  lemma {:induction false} OpenCountUpdate(streams: seq<Stream>, i: nat, s: Stream)
    requires i < |streams|
    ensures OpenCount(streams[i := s]) + (if IsOpen(streams[i]) then 1 else 0) ==
            OpenCount(streams) + (if IsOpen(s) then 1 else 0)
  {
    var after := streams[i := s];
    if i == 0 {
      assert after[1..] == streams[1..];
    } else {
      assert after[1..] == streams[1..][i - 1 := s];
      OpenCountUpdate(streams[1..], i - 1, s);
    }
  }

  lemma {:induction false} NoneOpen(streams: seq<Stream>)
    requires forall i :: 0 <= i < |streams| ==> !IsOpen(streams[i])
    ensures OpenCount(streams) == 0
  {
    if streams != [] {
      NoneOpen(streams[1..]);
    }
  }

  lemma InitialInvariant(s: System)
    requires Initial(s)
    ensures Invariant(s)
  {
    NoneOpen(s.t.streams);
  }

  /** Opening a stream in a free slot, under an id no stream is open under. */
  lemma StreamOpened(streams: seq<Stream>, i: nat, id: nat)
    requires i < |streams| && !IsOpen(streams[i]) && FindOpen(streams, id) == |streams| && DistinctOpen(streams) && id != 0
    ensures OpenCount(streams[i := Stream(id, Open)]) == OpenCount(streams) + 1
    ensures DistinctOpen(streams[i := Stream(id, Open)])
  {
    OpenCountUpdate(streams, i, Stream(id, Open));
  }

  /** Closing an open stream. */
  lemma StreamClosed(streams: seq<Stream>, i: nat)
    requires i < |streams| && IsOpen(streams[i]) && DistinctOpen(streams)
    ensures OpenCount(streams[i := Stream(0, Closed)]) == OpenCount(streams) - 1 >= 0
    ensures DistinctOpen(streams[i := Stream(0, Closed)])
  {
    OpenCountUpdate(streams, i, Stream(0, Closed));
  }

  /** One step of the lock holder hands the invariant to its next program point. */
  lemma HolderStep(t: Tracker, me: nat, pc: Pc, now: nat)
    requires Consistent(t, pc) && InLock(pc) && t.lock == Held(me)
    requires pc.RegCheck? ==> pc.id != 0
    ensures var (t', pc') := Exec(t, me, pc, now);
            && (if InLock(pc') then t'.lock == Held(me) && Consistent(t', pc')
                else t'.lock == Free && Consistent(t', Outside(Success)))
            && (pc'.RegCheck? ==> pc'.id != 0)
  {
    if pc.RegCheck? || pc.RegId? || pc.RegState? || pc.RegCount? || pc.RegTotal? {
      RegisterStep(t, me, pc, now);
    } else if pc.CmpState? || pc.CmpId? || pc.CmpCount? || pc.CmpTotal? || pc.CmpPhase? {
      CompleteStep(t, me, pc, now);
    } else {
      hide OpenCount, DistinctOpen;
    }
  }

  lemma RegisterStep(t: Tracker, me: nat, pc: Pc, now: nat)
    requires Consistent(t, pc) && t.lock == Held(me)
    requires pc.RegCheck? || pc.RegId? || pc.RegState? || pc.RegCount? || pc.RegTotal?
    requires pc.RegCheck? ==> pc.id != 0
    ensures var (t', pc') := Exec(t, me, pc, now);
            InLock(pc') && !pc'.RegCheck? && t'.lock == Held(me) && Consistent(t', pc')
  {
    if pc.RegId? {
      ChooseStep(t, me, pc.id, now);
    } else {
      hide OpenCount, DistinctOpen, IsOpen, FindOpen, FindFree;
      assert pc.RegState? ==> SetState(t, pc.at, Open).streams == t.streams[pc.at := Stream(pc.id, Open)];
    }
  }

  /** The first store of a registration, once it has found a slot. */
  lemma ChooseStep(t: Tracker, me: nat, id: nat, now: nat)
    requires Consistent(t, RegId(id)) && t.lock == Held(me)
    ensures var (t', pc') := Exec(t, me, RegId(id), now);
            InLock(pc') && !pc'.RegCheck? && t'.lock == Held(me) && Consistent(t', pc')
  {
    hide OpenCount, DistinctOpen, IsOpen;
    var i := FindFree(t.streams);
    if FindOpen(t.streams, id) == |t.streams| && i < |t.streams| {
      StreamOpened(t.streams, i, id);
      assert t.streams[i := t.streams[i].(id := id)][i := Stream(id, Open)] == t.streams[i := Stream(id, Open)];
    }
  }

  lemma CompleteStep(t: Tracker, me: nat, pc: Pc, now: nat)
    requires Consistent(t, pc) && t.lock == Held(me)
    requires pc.CmpState? || pc.CmpId? || pc.CmpCount? || pc.CmpTotal? || pc.CmpPhase?
    ensures var (t', pc') := Exec(t, me, pc, now);
            InLock(pc') && !pc'.RegCheck? && t'.lock == Held(me) && Consistent(t', pc')
  {
    hide OpenCount, DistinctOpen;
    if pc.CmpState? {
      var i := FindOpen(t.streams, pc.id);
      if i < |t.streams| {
        StreamClosed(t.streams, i);
        assert t.streams[i := t.streams[i].(state := Closed)][i := Stream(0, Closed)] == t.streams[i := Stream(0, Closed)];
      }
    }
  }

  /** Every step of every thread keeps the invariant. */
  lemma StepInvariant(s: System, a: Action, s': System)
    requires Invariant(s) && Step(s, a, s')
    ensures Invariant(s') && |s'.pcs| == |s.pcs|
    ensures s.t.begun ==> s'.t.begun
    ensures s'.t.accepted > s.t.accepted ==> !s.t.begun && s.t.phase == Active
  {
    hide Consistent;
    if a.Run? && InLock(s.pcs[a.who]) {
      HolderStep(s.t, a.who, s.pcs[a.who], a.now);
      HolderIsActive(s.t, s.pcs[a.who]);
    } else if a.Run? {
      OutsiderStep(s.t, a.who, s.pcs[a.who], a.now);
    }
  }

  /** A registration that is past its check runs with the tracker active. */
  lemma HolderIsActive(t: Tracker, pc: Pc)
    requires Consistent(t, pc)
    ensures pc.RegTotal? ==> t.phase == Active && !t.begun
  {
  }

  /** A thread without the lock changes nothing but, when it is free, the lock. */
  lemma OutsiderStep(t: Tracker, me: nat, pc: Pc, now: nat)
    requires !InLock(pc)
    ensures var (t', pc') := Exec(t, me, pc, now);
            && (t' == t || (t.lock == Free && t' == t.(lock := Held(me))))
            && (InLock(pc') <==> t' != t)
            && (InLock(pc') && Consistent(t, Outside(Success)) && ((pc.CmpSpin? || pc.RegSpin?) ==> pc.id != 0) ==> Consistent(t', pc'))
            && (t' == t && t.lock == Free && Consistent(t, Outside(Success)) ==> Consistent(t', Outside(Success)))
            && ((pc.RegPreCheck? || pc.RegSpin? || pc.CmpSpin?) && pc.id != 0 && (pc'.RegSpin? || pc'.RegCheck? || pc'.CmpSpin? || pc'.RegPreCheck?) ==> pc'.id != 0)
  {
  }

  ghost predicate History(states: seq<System>, actions: seq<Action>) {
    && |states| == |actions| + 1 && Initial(states[0])
    && forall i :: 0 <= i < |actions| ==> Step(states[i], actions[i], states[i + 1])
  }

  lemma {:induction false} HistoryInvariant(states: seq<System>, actions: seq<Action>, n: nat)
    requires History(states, actions) && n < |states|
    ensures Invariant(states[n])
  {
    hide Step, Invariant, Initial;
    if n == 0 {
      InitialInvariant(states[0]);
    } else {
      HistoryInvariant(states, actions, n - 1);
      StepInvariant(states[n - 1], actions[n - 1], states[n]);
    }
  }

  /**
   In every interleaving, whenever the lock is free: the active count is the number of open
   streams, their ids are distinct, accepted = completed + active, DRAINING means some stream
   is open and COMPLETED means none is.
   */
  lemma FreeLockMeansConsistent(states: seq<System>, actions: seq<Action>, n: nat)
    requires History(states, actions) && n < |states| && states[n].t.lock == Free
    ensures var t := states[n].t;
            && t.active == OpenCount(t.streams) && DistinctOpen(t.streams)
            && t.accepted == t.completed + t.active
            && (t.phase == Draining ==> t.active > 0)
            && (t.phase == Completed ==> t.active == 0)
            && (t.begun ==> t.phase != Active)
  {
    HistoryInvariant(states, actions, n);
  }

  /** At most one thread is between a test-and-set that succeeded and its release. */
  lemma MutualExclusion(states: seq<System>, actions: seq<Action>, n: nat, i: nat, j: nat)
    requires History(states, actions) && n < |states|
    requires i < |states[n].pcs| && j < |states[n].pcs| && InLock(states[n].pcs[i]) && InLock(states[n].pcs[j])
    ensures i == j
  {
    hide Step;
    HistoryInvariant(states, actions, n);
  }

  /** Once some begin has stored its phase, no stream is ever accepted again. */
  lemma {:induction false} NothingAcceptedAfterBegin(states: seq<System>, actions: seq<Action>, m: nat, n: nat)
    requires History(states, actions) && m <= n < |states| && states[m].t.begun
    ensures states[n].t.begun && states[n].t.accepted <= states[m].t.accepted
    decreases n
  {
    hide Step, Invariant, Initial;
    if m < n {
      NothingAcceptedAfterBegin(states, actions, m, n - 1);
      HistoryInvariant(states, actions, n - 1);
      StepInvariant(states[n - 1], actions[n - 1], states[n]);
    }
  }

  /** A registration that reaches either of its checks after a begin is turned away. */
  lemma LateRegistrationRefused(states: seq<System>, actions: seq<Action>, n: nat)
    requires History(states, actions) && n < |actions| && states[n].t.begun
    requires actions[n].Run? && actions[n].who < |states[n].pcs| && (states[n].pcs[actions[n].who].RegPreCheck? || states[n].pcs[actions[n].who].RegCheck?)
    ensures |states[n + 1].pcs| == |states[n].pcs|
    ensures var pc := states[n + 1].pcs[actions[n].who];
            pc == Outside(BadState) || pc == Unlock(BadState, NoDeadline)
  {
    assert Step(states[n], actions[n], states[n + 1]);
    hide OpenCount, DistinctOpen;
    HistoryInvariant(states, actions, n);
  }

  /** Who has polled before the drain completed, and has yet to act on it. */
  predicate GoesOnWaiting(pc: Pc) {
    pc.WaitClock? || pc.WaitSpin? || pc.WaitStore? || (pc.Unlock? && AfterPoll(pc.result, pc.deadline).WaitClock?)
  }

  ghost predicate NoLateWaiter(s: System) {
    forall i :: 0 <= i < |s.pcs| ==> !GoesOnWaiting(s.pcs[i])
  }

  /** A completed drain changes its phase in exactly one way: a wait stores its timeout. */
  lemma CompletedLeftIff(states: seq<System>, actions: seq<Action>, n: nat)
    requires History(states, actions) && n < |actions| && states[n].t.phase == Completed
    ensures states[n + 1].t.phase != Completed <==>
            actions[n].Run? && actions[n].who < |states[n].pcs| && states[n].pcs[actions[n].who].WaitStore?
  {
    hide OpenCount, DistinctOpen, Initial;
    HistoryInvariant(states, actions, n);
    assert Step(states[n], actions[n], states[n + 1]);
  }

  /** A thread that is not past its poll neither changes the phase of a completed drain nor gets past one. */
  lemma ExecStaysCompleted(t: Tracker, me: nat, pc: Pc, now: nat)
    requires t.phase == Completed && !GoesOnWaiting(pc) && (InLock(pc) ==> Consistent(t, pc))
    ensures var (t', pc') := Exec(t, me, pc, now);
            t'.phase == Completed && !GoesOnWaiting(pc')
  {
    hide OpenCount, DistinctOpen;
  }

  /** Without a late waiter a step leaves a completed drain completed, and makes no late waiter. */
  lemma CompletedStays(s: System, a: Action, s': System)
    requires Invariant(s) && Step(s, a, s') && s.t.phase == Completed && NoLateWaiter(s)
    ensures Invariant(s') && s'.t.phase == Completed && NoLateWaiter(s')
  {
    StepInvariant(s, a, s');
    hide Exec, Consistent;
    if a.Run? {
      ExecStaysCompleted(s.t, a.who, s.pcs[a.who], a.now);
    }
  }

  /** What may happen from a state on, while the clock goes on from a reading. */
  ghost predicate Future(s: System, clock: nat, states: seq<System>, actions: seq<Action>) {
    && |states| == |actions| + 1 && states[0] == s
    && (forall i :: 0 <= i < |actions| ==> Step(states[i], actions[i], states[i + 1]))
    && (forall i :: 0 <= i < |actions| && actions[i].Run? ==> clock <= actions[i].now)
    && ClockRuns(actions)
  }

  ghost predicate ClockRuns(actions: seq<Action>) {
    forall i, j :: 0 <= i < j < |actions| && actions[i].Run? && actions[j].Run? ==> actions[i].now <= actions[j].now
  }

  lemma {:induction false} CompletedForGood(s: System, clock: nat, states: seq<System>, actions: seq<Action>, n: nat)
    requires Invariant(s) && s.t.phase == Completed && NoLateWaiter(s)
    requires Future(s, clock, states, actions) && n < |states|
    ensures Invariant(states[n]) && states[n].t.phase == Completed && NoLateWaiter(states[n])
  {
    hide Invariant, Step, NoLateWaiter;
    if n > 0 {
      CompletedForGood(s, clock, states, actions, n - 1);
      CompletedStays(states[n - 1], actions[n - 1], states[n]);
    }
  }

  /** How many steps the holder of the lock is from releasing it, at most. */
  function Rank(pc: Pc): nat {
    match pc
    case RegCheck(_) => 6
    case RegId(_) => 5
    case RegState(_, _) => 4
    case RegCount => 3
    case RegTotal => 2
    case CmpState(_) => 6
    case CmpId(_) => 5
    case CmpCount => 4
    case CmpTotal => 3
    case CmpPhase => 2
    case BegStart => 3
    case BegPhase => 2
    case PollCheck(_) => 4
    case PollExpire(_) => 3
    case PollAdd(_) => 2
    case WaitStore => 3
    case WaitAdd => 2
    case Unlock(_, _) => 1
    case _ => 0
  }

  /** Nobody waits in the lock: each step of the holder brings the release nearer. */
  lemma HolderGetsOut(t: Tracker, me: nat, pc: Pc, now: nat)
    requires InLock(pc)
    ensures var (t', pc') := Exec(t, me, pc, now);
            if InLock(pc') then t'.lock == t.lock && Rank(pc') < Rank(pc) else t'.lock == Free
  {
    hide FindOpen, FindFree;
  }

  function Stage(pc: Pc): nat {
    if pc.Unlock? then 4 else if pc.WaitClock? then 3 else if pc.WaitSpin? then 2 else 1
  }

  function HolderRank(s: System): nat {
    if s.t.lock.Held? && s.t.lock.owner < |s.pcs| then Rank(s.pcs[s.t.lock.owner]) else 0
  }

  predicate DueBy(pc: Pc, time: nat) {
    (pc.WaitClock? ==> pc.deadlineMs <= time) && (pc.Unlock? && pc.deadline.At? ==> pc.deadline.ms <= time)
  }

  /** Who runs next so that the late waiter gets its turn. */
  function Turn(s: System, k: nat): nat
    requires k < |s.pcs|
  {
    if s.pcs[k].WaitSpin? && s.t.lock.Held? then s.t.lock.owner else k
  }

  lemma TurnHelps(s: System, time: nat, k: nat)
    requires Invariant(s) && k < |s.pcs| && GoesOnWaiting(s.pcs[k]) && !s.pcs[k].WaitStore? && DueBy(s.pcs[k], time)
    ensures var who := Turn(s, k);
            && who < |s.pcs|
            && var (t, pc) := Exec(s.t, who, s.pcs[who], time);
               var s' := System(t, s.pcs[who := pc]);
               && GoesOnWaiting(s'.pcs[k]) && DueBy(s'.pcs[k], time)
               && (Stage(s'.pcs[k]) < Stage(s.pcs[k]) || (Stage(s'.pcs[k]) == Stage(s.pcs[k]) && HolderRank(s') < HolderRank(s)))
  {
    hide Consistent;
    var who := Turn(s, k);
    if who != k {
      HolderGetsOut(s.t, who, s.pcs[who], time);
    }
  }

  /** A late waiter can always go on to store its timeout, whatever phase it finds. */
  lemma {:induction false} LateWaiterStores(s: System, time: nat, k: nat) returns (states: seq<System>, actions: seq<Action>)
    requires Invariant(s) && k < |s.pcs| && GoesOnWaiting(s.pcs[k]) && DueBy(s.pcs[k], time)
    ensures Future(s, time, states, actions) && states[|actions|].t.phase == TimedOut
    decreases Stage(s.pcs[k]), HolderRank(s)
  {
    hide Invariant, GoesOnWaiting, DueBy;
    var who := Turn(s, k);
    TurnIsThere(s, k);
    var (t, pc) := Exec(s.t, who, s.pcs[who], time);
    var s' := System(t, s.pcs[who := pc]);
    assert Step(s, Run(who, time), s');
    if s.pcs[k].WaitStore? {
      states, actions := [s, s'], [Run(who, time)];
    } else {
      TurnHelps(s, time, k);
      StepInvariant(s, Run(who, time), s');
      states, actions := LateWaiterStores(s', time, k);
      FutureBefore(s, who, time, s', states, actions);
      states, actions := [s] + states, [Run(who, time)] + actions;
    }
  }

  lemma TurnIsThere(s: System, k: nat)
    requires Invariant(s) && k < |s.pcs|
    ensures Turn(s, k) < |s.pcs|
  {
  }

  lemma FutureBefore(s: System, who: nat, time: nat, s': System, states: seq<System>, actions: seq<Action>)
    requires Step(s, Run(who, time), s') && Future(s', time, states, actions)
    ensures Future(s, time, [s] + states, [Run(who, time)] + actions)
    ensures ([s] + states)[|actions| + 1] == states[|actions|]
  {
    hide Step;
    var all, more := [s] + states, [Run(who, time)] + actions;
    forall i | 0 <= i < |more|
      ensures Step(all[i], more[i], all[i + 1])
    {
      if i > 0 {
        assert all[i] == states[i - 1] && more[i] == actions[i - 1] && all[i + 1] == states[i];
      }
    }
  }

  lemma LaterIsFuture(s: System, clock: nat, time: nat, states: seq<System>, actions: seq<Action>)
    requires Future(s, time, states, actions) && clock <= time
    ensures Future(s, clock, states, actions)
  {
    hide Step;
  }

  /**
   When "COMPLETED is final" holds: a drain that is completed stays so whatever happens next
   exactly if no wait_complete has polled before and is still to look at the clock or to store
   its timeout.
   */
  lemma CompletedFinalIff(states: seq<System>, actions: seq<Action>, n: nat, clock: nat)
    requires History(states, actions) && n < |states| && states[n].t.phase == Completed
    ensures (forall later: seq<System>, more: seq<Action> :: Future(states[n], clock, later, more) ==> later[|more|].t.phase == Completed) <==>
            NoLateWaiter(states[n])
  {
    hide History, Step, Invariant, GoesOnWaiting, ClockRuns;
    var s := states[n];
    HistoryInvariant(states, actions, n);
    if NoLateWaiter(s) {
      forall later: seq<System>, more: seq<Action> | Future(s, clock, later, more)
        ensures later[|more|].t.phase == Completed
      {
        CompletedForGood(s, clock, later, more, |more|);
      }
    } else {
      var k :| 0 <= k < |s.pcs| && GoesOnWaiting(s.pcs[k]);
      var time := DueTime(s.pcs[k], clock);
      var later, more := LateWaiterStores(s, time, k);
      LaterIsFuture(s, clock, time, later, more);
    }
  }

  function DueTime(pc: Pc, clock: nat): (time: nat)
    ensures clock <= time && DueBy(pc, time)
  {
    var due := if pc.WaitClock? then pc.deadlineMs else if pc.Unlock? && pc.deadline.At? then pc.deadline.ms else 0;
    if clock < due then due else clock
  }

  lemma FirstRuns(t: Tracker, p: Pc, q: Pc, now: nat, t': Tracker, p': Pc)
    requires Exec(t, 0, p, now) == (t', p')
    ensures Step(System(t, [p, q]), Run(0, now), System(t', [p', q]))
  {
    assert [p, q][0 := p'] == [p', q];
  }

  lemma SecondRuns(t: Tracker, p: Pc, q: Pc, now: nat, t': Tracker, q': Pc)
    requires Exec(t, 1, q, now) == (t', q')
    ensures Step(System(t, [p, q]), Run(1, now), System(t', [p, q']))
  {
    assert [p, q][1 := q'] == [p, q'];
  }

  /**
   "COMPLETED is final" is false: a wait that has read the clock after its last poll stores
   TIMED_OUT over a drain that completed meanwhile. Here
   no stream was ever registered; the wait of one millisecond starts at clock 0 and finds its
   deadline at clock 1, and only then does the drain begin.
   */
  lemma CompletedCanBeOverwritten() returns (states: seq<System>, actions: seq<Action>)
    ensures History(states, actions) && ClockRuns(actions)
    ensures exists m, n :: 0 <= m < n < |states| && states[m].t.phase == Completed && states[m].t.lock == Free
                           && states[n].t.phase == TimedOut && states[n].t.active == 0
  {
    hide History, Step, InitialTracker;
    var out := Outside(Success);
    var t := InitialTracker(1, 1);
    TrackerBegins();
    var held := t.(lock := Held(1));
    var started := held.(startMs := 1);
    var done := t.(startMs := 1, phase := Completed, begun := true);
    var release := Unlock(Success, NoDeadline);
    states, actions := Start(System(t, [out, out]));
    CallStarts(t, out, WaitStart(1), WaitSpin, BegSpin);
    WaiterPolls(t, out);
    WaiterStores(done, out);
    BeginnerSteps(t);
    states, actions := Extend(states, actions, Call(0, WaitStart(1)), System(t, [WaitStart(1), out]));
    states, actions := Extend(states, actions, Run(0, 0), System(t, [PollLoad(At(1)), out]));
    states, actions := Extend(states, actions, Run(0, 0), System(t, [WaitClock(1), out]));
    states, actions := Extend(states, actions, Run(0, 1), System(t, [WaitSpin, out]));
    states, actions := Extend(states, actions, Call(1, BegSpin), System(t, [WaitSpin, BegSpin]));
    states, actions := Extend(states, actions, Run(1, 1), System(held, [WaitSpin, BegStart]));
    states, actions := Extend(states, actions, Run(1, 1), System(started, [WaitSpin, BegPhase]));
    states, actions := Extend(states, actions, Run(1, 1), System(done.(lock := Held(1)), [WaitSpin, release]));
    states, actions := Extend(states, actions, Run(1, 1), System(done, [WaitSpin, out]));
    var m := |states| - 1;
    states, actions := Extend(states, actions, Run(0, 1), System(done.(lock := Held(0)), [WaitStore, out]));
    states, actions := Extend(states, actions, Run(0, 1), System(done.(lock := Held(0), phase := TimedOut), [WaitAdd, out]));
    assert states[m].t == done;
  }

  lemma TrackerBegins()
    ensures var t := InitialTracker(1, 1);
            t.phase == Active && t.lock == Free && t.active == t.startMs == 0 && Initial(System(t, [Outside(Success), Outside(Success)]))
  {
  }

  /** The waiting thread, before the other one has begun the drain. */
  lemma WaiterPolls(t: Tracker, out: Pc)
    requires t.phase == Active && t.lock == Free
    ensures Step(System(t, [WaitStart(1), out]), Run(0, 0), System(t, [PollLoad(At(1)), out]))
    ensures Step(System(t, [PollLoad(At(1)), out]), Run(0, 0), System(t, [WaitClock(1), out]))
    ensures Step(System(t, [WaitClock(1), out]), Run(0, 1), System(t, [WaitSpin, out]))
  {
    hide Step;
    FirstRuns(t, WaitStart(1), out, 0, t, PollLoad(At(1)));
    FirstRuns(t, PollLoad(At(1)), out, 0, t, WaitClock(1));
    FirstRuns(t, WaitClock(1), out, 1, t, WaitSpin);
  }

  /** And after it has completed. */
  lemma WaiterStores(done: Tracker, out: Pc)
    requires done.lock == Free
    ensures Step(System(done, [WaitSpin, out]), Run(0, 1), System(done.(lock := Held(0)), [WaitStore, out]))
    ensures Step(System(done.(lock := Held(0)), [WaitStore, out]), Run(0, 1),
                 System(done.(lock := Held(0), phase := TimedOut), [WaitAdd, out]))
  {
    hide Step;
    FirstRuns(done, WaitSpin, out, 1, done.(lock := Held(0)), WaitStore);
    FirstRuns(done.(lock := Held(0)), WaitStore, out, 1, done.(lock := Held(0), phase := TimedOut), WaitAdd);
  }

  /** The beginning thread, from its spin to its return. */
  lemma BeginnerSteps(t: Tracker)
    requires t.lock == Free && t.active == 0
    ensures var held := t.(lock := Held(1));
            var started := held.(startMs := 1);
            var done := t.(startMs := 1, phase := Completed, begun := true);
            var release := Unlock(Success, NoDeadline);
            && Step(System(t, [WaitSpin, BegSpin]), Run(1, 1), System(held, [WaitSpin, BegStart]))
            && Step(System(held, [WaitSpin, BegStart]), Run(1, 1), System(started, [WaitSpin, BegPhase]))
            && Step(System(started, [WaitSpin, BegPhase]), Run(1, 1), System(done.(lock := Held(1)), [WaitSpin, release]))
            && Step(System(done.(lock := Held(1)), [WaitSpin, release]), Run(1, 1), System(done, [WaitSpin, Outside(Success)]))
  {
    hide Step, Exec;
    BeginnerLocks(t);
    BeginnerCompletes(t.(lock := Held(1), startMs := 1));
  }

  lemma BeginnerLocks(t: Tracker)
    requires t.lock == Free
    ensures var held := t.(lock := Held(1));
            && Step(System(t, [WaitSpin, BegSpin]), Run(1, 1), System(held, [WaitSpin, BegStart]))
            && Step(System(held, [WaitSpin, BegStart]), Run(1, 1), System(held.(startMs := 1), [WaitSpin, BegPhase]))
  {
    hide Step;
    var held := t.(lock := Held(1));
    SecondRuns(t, WaitSpin, BegSpin, 1, held, BegStart);
    SecondRuns(held, WaitSpin, BegStart, 1, held.(startMs := 1), BegPhase);
  }

  lemma BeginnerCompletes(t: Tracker)
    requires t.lock == Held(1) && t.active == 0
    ensures var done := t.(phase := Completed, begun := true);
            var release := Unlock(Success, NoDeadline);
            && Step(System(t, [WaitSpin, BegPhase]), Run(1, 1), System(done, [WaitSpin, release]))
            && Step(System(done, [WaitSpin, release]), Run(1, 1), System(done.(lock := Free), [WaitSpin, Outside(Success)]))
  {
    hide Step;
    var done := t.(phase := Completed, begun := true);
    var release := Unlock(Success, NoDeadline);
    SecondRuns(t, WaitSpin, BegPhase, 1, done, release);
    SecondRuns(done, WaitSpin, release, 1, done.(lock := Free), Outside(Success));
  }

  lemma Start(s: System) returns (states: seq<System>, actions: seq<Action>)
    requires Initial(s)
    ensures History(states, actions) && states == [s] && actions == []
  {
    states, actions := [s], [];
  }

  lemma Extend(states: seq<System>, actions: seq<Action>, a: Action, s: System)
    returns (longer: seq<System>, more: seq<Action>)
    requires History(states, actions) && states != [] && Step(states[|states| - 1], a, s)
    ensures History(longer, more) && states <= longer && |longer| == |states| + 1 && longer[|states|] == s
    ensures more == actions + [a]
  {
    hide Step;
    longer, more := states + [s], actions + [a];
  }

  lemma CallStarts(t: Tracker, out: Pc, first: Pc, p: Pc, second: Pc)
    requires out.Outside? && Entry(first) && Entry(second)
    ensures Step(System(t, [out, out]), Call(0, first), System(t, [first, out]))
    ensures Step(System(t, [p, out]), Call(1, second), System(t, [p, second]))
  {
    assert [out, out][0 := first] == [first, out] && [p, out][1 := second] == [p, second];
  }
}
