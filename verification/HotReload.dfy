/**
 Two-slot hot reload: a deploy stages, boots and probes the slot that is not serving, and
 only then switches over and drains the other one. Deploys run under the supervisor's mutex;
 `trace` records every intermediate state of an application, as others may observe it.
 */
module HotReload {

  const MAX_APPS: nat := 64
  /** What fits in app_name[64] beside the terminator. */
  const NAME_MAX: nat := 63

  datatype SlotState = Idle | Staging | Booting | Probing | Active | Draining | Terminated | Aborted

  datatype Slot = Slot(pid: int, state: SlotState)

  datatype Result = Deployed | PackageMissing | Rejected | TooManyApps
                  | BadPackage | BinaryMissing | StartFailed | ProbeFailed

  /**
   What a deploy finds outside the supervisor: whether the package is there, passes the policy,
   opens and holds the binary; the process number, and whether its group takes it; and at
   which probe it has exited.
   */
  datatype World = World(found: bool, allowed: bool, opens: bool, binary: bool, pid: int, grouped: bool, exitAt: nat)

  const PROBES: nat := 3

  /** How far the part of a deploy that works on one slot gets. */
  function Outcome(w: World): Result {
    if !w.opens then BadPackage
    else if !w.binary then BinaryMissing
    else if w.pid <= 0 || !w.grouped then StartFailed
    else if w.exitAt < PROBES then ProbeFailed
    else Deployed
  }

  datatype Snapshot = Snapshot(activeSlot: nat, slots: seq<Slot>)

  ghost predicate Serving(s: Snapshot) {
    s.activeSlot < |s.slots| && s.slots[s.activeSlot].state == Active
  }

  /** What holds whenever no deploy is under way. */
  ghost predicate Settled(s: Snapshot) {
    && |s.slots| == 2 && s.activeSlot < 2
    && (forall i :: 0 <= i < 2 ==> 0 <= s.slots[i].pid && (s.slots[i].pid > 0 <==> s.slots[i].state == Active))
    && (forall i :: 0 <= i < 2 && s.slots[i].state == Active ==> i == s.activeSlot)
  }

  function CutName(name: string): string {
    if |name| > NAME_MAX then name[..NAME_MAX] else name
  }

  /** Every state recorded since `before` kept the active slot, and left slot `other` as it was. */
  ghost predicate Undisturbed(before: seq<Snapshot>, after: seq<Snapshot>, activeSlot: nat, other: nat, kept: Slot) {
    && before <= after
    && forall k :: |before| <= k < |after| ==>
         && after[k].activeSlot == activeSlot && |after[k].slots| == 2 && other < 2
         && after[k].slots[other] == kept
  }

  class HotApp {
    const name: string
    var slots: seq<Slot>
    var activeSlot: nat
    ghost var trace: seq<Snapshot>

    ghost predicate WellFormed()
      reads this
    {
      |slots| == 2 && activeSlot < 2 && slots[0].pid >= 0 && slots[1].pid >= 0
    }

    ghost function Now(): Snapshot
      reads this
    {
      Snapshot(activeSlot, slots)
    }

    /** A fresh entry: the name is cut to its buffer, both slots are idle. */
    constructor (appName: string)
      ensures WellFormed() && name == CutName(appName)
      ensures Settled(Now()) && !Serving(Now()) && trace == []
    {
      name := CutName(appName);
      slots := [Slot(0, Idle), Slot(0, Idle)];
      activeSlot := 0;
      trace := [];
    }

    method SetState(i: nat, state: SlotState)
      requires WellFormed() && i < 2
      modifies this`trace, this`slots
      ensures slots == old(slots)[i := Slot(old(slots[i]).pid, state)]
      ensures trace == old(trace) + [Now()]
    {
      slots := slots[i := slots[i].(state := state)];
      trace := trace + [Now()];
    }

    method SetPid(i: nat, pid: int)
      requires WellFormed() && i < 2 && pid >= 0
      modifies this`trace, this`slots
      ensures slots == old(slots)[i := Slot(pid, old(slots[i]).state)]
      ensures trace == old(trace) + [Now()]
    {
      slots := slots[i := slots[i].(pid := pid)];
      trace := trace + [Now()];
    }

    /** Fills the slot that is not serving, up to a process that survives its probes. */
    method Prepare(candidate: nat, w: World) returns (result: Result)
      requires WellFormed() && candidate < 2
      modifies this`trace, this`slots
      ensures WellFormed() && slots[1 - candidate] == old(slots[1 - candidate])
      ensures result == Outcome(w)
      ensures result == Deployed ==> slots[candidate] == Slot(w.pid, Probing)
      ensures result != Deployed ==> slots[candidate] == Slot(0, Aborted)
      ensures Undisturbed(old(trace), trace, activeSlot, 1 - candidate, old(slots[1 - candidate]))
    {
      result := Unpack(candidate, w);
      if result == Deployed {
        result := Boot(candidate, w);
      }
      if result == Deployed {
        result := Probe(candidate, w);
      }
    }

    method Unpack(candidate: nat, w: World) returns (result: Result)
      requires WellFormed() && candidate < 2
      modifies this`trace, this`slots
      ensures WellFormed() && slots[1 - candidate] == old(slots[1 - candidate])
      ensures slots[candidate] == Slot(0, if result == Deployed then Booting else Aborted)
      ensures result == if !w.opens then BadPackage else if !w.binary then BinaryMissing else Deployed
      ensures Undisturbed(old(trace), trace, activeSlot, 1 - candidate, old(slots[1 - candidate]))
    {
      if slots[candidate].pid > 0 {
        // ar_process_kill on what an earlier deploy left behind
        SetPid(candidate, 0);
      }
      SetState(candidate, Staging);
      if !w.opens {
        SetState(candidate, Aborted);
        return BadPackage;
      }
      if !w.binary {
        SetState(candidate, Aborted);
        return BinaryMissing;
      }
      SetState(candidate, Booting);
      return Deployed;
    }

    method Boot(candidate: nat, w: World) returns (result: Result)
      requires WellFormed() && candidate < 2 && slots[candidate] == Slot(0, Booting)
      modifies this`trace, this`slots
      ensures WellFormed() && slots[1 - candidate] == old(slots[1 - candidate])
      ensures result == if w.pid > 0 && w.grouped then Deployed else StartFailed
      ensures slots[candidate] == if result == Deployed then Slot(w.pid, Probing) else Slot(0, Aborted)
      ensures Undisturbed(old(trace), trace, activeSlot, 1 - candidate, old(slots[1 - candidate]))
    {
      if w.pid <= 0 {
        SetState(candidate, Aborted);
        return StartFailed;
      }
      SetPid(candidate, w.pid);
      if !w.grouped {
        // the process group refused it: killed and reaped
        SetPid(candidate, 0);
        SetState(candidate, Aborted);
        return StartFailed;
      }
      SetState(candidate, Probing);
      return Deployed;
    }

    method Probe(candidate: nat, w: World) returns (result: Result)
      requires WellFormed() && candidate < 2 && slots[candidate].pid > 0 && slots[candidate].state == Probing
      modifies this`trace, this`slots
      ensures WellFormed() && slots[1 - candidate] == old(slots[1 - candidate])
      ensures result == Deployed ==> slots[candidate] == old(slots[candidate])
      ensures result != Deployed ==> slots[candidate] == Slot(0, Aborted)
      ensures result == if w.exitAt < PROBES then ProbeFailed else Deployed
      ensures Undisturbed(old(trace), trace, activeSlot, 1 - candidate, old(slots[1 - candidate]))
    {
      var probeOk := true;
      for p := 0 to PROBES
        invariant probeOk && p <= w.exitAt
      {
        if w.exitAt <= p {
          probeOk := false;
          break;
        }
      }
      if !probeOk {
        SetState(candidate, Aborted);
        SetPid(candidate, 0);
        return ProbeFailed;
      }
      return Deployed;
    }

    /** Points the application at the new slot, then drains and reaps the old one. */
    method SwitchTo(candidate: nat)
      requires WellFormed() && candidate < 2 && slots[candidate].pid > 0 && slots[candidate].state == Probing
      requires candidate != activeSlot ==> slots[activeSlot].state == Active
      modifies this
      ensures WellFormed() && activeSlot == candidate
      ensures slots[candidate] == Slot(old(slots[candidate]).pid, Active)
      ensures old(activeSlot) == candidate ==> slots[1 - candidate] == old(slots[1 - candidate])
      ensures old(activeSlot) != candidate && old(slots[activeSlot]).pid > 0 ==> slots[1 - candidate] == Slot(0, Terminated)
      ensures old(trace) <= trace
      ensures forall k :: |old(trace)| <= k < |trace| ==> Serving(trace[k])
    {
      var oldSlot := activeSlot;
      SetState(candidate, Active);
      activeSlot := candidate;
      trace := trace + [Now()];
      if oldSlot != candidate && slots[oldSlot].pid > 0 && slots[oldSlot].state == Active {
        SetState(oldSlot, Draining);
        // alrios_drain_process_await
        SetState(oldSlot, Terminated);
        SetPid(oldSlot, 0);
      }
    }

    /** The part of a deploy that works on one application. */
    method Deploy(w: World) returns (result: Result)
      requires WellFormed()
      modifies this
      ensures WellFormed()
      ensures old(Settled(Now())) ==> Settled(Now()) && DeployStep(old(Now()), result, Now())
      ensures result == Deployed ==> Serving(Now()) && slots[activeSlot].pid > 0
      ensures result == Deployed && old(Serving(Now())) ==> activeSlot == 1 - old(activeSlot)
      ensures result == Deployed && old(Settled(Now())) && old(Serving(Now())) ==> slots[old(activeSlot)] == Slot(0, Terminated)
      ensures old(Serving(Now())) ==> Serving(Now())
      ensures result != Deployed ==> activeSlot == old(activeSlot)
      ensures result != Deployed && old(Serving(Now())) ==> slots[activeSlot] == old(slots[activeSlot])
      ensures result == Outcome(w) && (result == Deployed ==> slots[activeSlot].pid == w.pid)
      ensures old(trace) <= trace
      ensures old(Serving(Now())) ==> forall k :: |old(trace)| <= k < |trace| ==> Serving(trace[k])
    {
      var candidate := if slots[activeSlot].state == Active then 1 - activeSlot else activeSlot;
      result := Prepare(candidate, w);
      if result != Deployed {
        return;
      }
      ghost var middle := trace;
      SwitchTo(candidate);
      assert middle <= trace;
      forall k | old(|trace|) <= k < |trace| && old(Serving(Now()))
        ensures Serving(trace[k])
      {
        if k < |middle| {
          assert trace[k] == middle[k];
        }
      }
    }
  }

  class Supervisor {
    var apps: seq<HotApp>

    ghost predicate Valid()
      reads this, apps
    {
      && |apps| <= MAX_APPS
      && (forall i :: 0 <= i < |apps| ==> apps[i].WellFormed() && Settled(apps[i].Now()) && |apps[i].name| <= NAME_MAX)
      && (forall i, j :: 0 <= i < j < |apps| ==> apps[i] != apps[j])
    }

    ghost predicate DistinctNames()
      reads this
    {
      forall i, j :: 0 <= i < j < |apps| ==> apps[i].name != apps[j].name
    }

    constructor ()
      ensures Valid() && apps == []
    {
      apps := [];
    }

    /** The place of the first entry with a name, or the number of entries. */
    ghost function Place(name: string): (at: nat)
      reads this, apps
      ensures at <= |apps| && (at < |apps| ==> apps[at].name == name)
      ensures forall j :: 0 <= j < at ==> apps[j].name != name
    {
      PlaceIn(apps, name)
    }

    /** find_or_create_hotapp. A name that does not fit its buffer is never found again. */
    method FindOrCreate(appName: string) returns (at: nat)
      requires Valid()
      modifies this
      ensures Valid()
      ensures at == old(Place(appName))
      ensures apps == old(apps) || (|apps| == |old(apps)| + 1 && old(apps) <= apps && fresh(apps[|old(apps)|]))
      ensures apps != old(apps) <==> at == |old(apps)| < MAX_APPS
      ensures apps != old(apps) ==> apps[at].name == CutName(appName) && !Serving(apps[at].Now()) && apps[at].trace == []
      ensures |appName| > NAME_MAX ==> at == |old(apps)|
      ensures |appName| <= NAME_MAX && old(DistinctNames()) ==> DistinctNames()
    {
      for i := 0 to |apps|
        invariant forall j :: 0 <= j < i ==> apps[j].name != appName
      {
        if apps[i].name == appName {
          return i;
        }
      }
      if |apps| >= MAX_APPS {
        return |apps|;
      }
      var app := new HotApp(appName);
      apps := apps + [app];
      return |apps| - 1;
    }

    /** ar_supervisor_hotreload_deploy, for valid pointers. */
    method Deploy(appName: string, w: World) returns (result: Result, at: nat)
      requires Valid()
      modifies this, set a | a in apps
      ensures Valid()
      ensures old(apps) <= apps && |apps| <= |old(apps)| + 1
      ensures forall a :: a in apps && a !in old(apps) ==> fresh(a)
      ensures forall i :: 0 <= i < |old(apps)| && i != at ==> old(apps)[i].Now() == old(apps[i].Now())
      ensures w.found && w.allowed ==> at == old(Place(appName)) && |apps| == if at == |old(apps)| < MAX_APPS then at + 1 else |old(apps)|
      ensures result == if !w.found then PackageMissing else if !w.allowed then Rejected
                        else if at == |old(apps)| == MAX_APPS then TooManyApps else Outcome(w)
      ensures result == Deployed ==> at < |apps| && apps[at].name == CutName(appName) && Serving(apps[at].Now())
      ensures at < |old(apps)| && result != Deployed && old(Serving(apps[at].Now())) ==>
                && apps[at].activeSlot == old(apps[at].activeSlot)
                && apps[at].slots[apps[at].activeSlot] == old(apps[at].slots[apps[at].activeSlot])
      ensures at < |old(apps)| && old(Serving(apps[at].Now())) ==>
                && Serving(apps[at].Now())
                && forall k :: |old(apps[at].trace)| <= k < |apps[at].trace| ==> Serving(apps[at].trace[k])
      ensures result == Deployed ==> apps[at].slots[apps[at].activeSlot].pid == w.pid
      ensures result == Deployed && at < |old(apps)| && old(Serving(apps[at].Now())) ==>
                && apps[at].activeSlot == 1 - old(apps[at].activeSlot)
                && apps[at].slots[old(apps[at].activeSlot)] == Slot(0, Terminated)
      ensures |appName| <= NAME_MAX && old(DistinctNames()) ==> DistinctNames()
      ensures result == Deployed && |appName| > NAME_MAX ==> at == |old(apps)|
    {
      hide Settled, Serving, Outcome;
      at := |apps|;
      if !w.found {
        return PackageMissing, at;
      }
      if !w.allowed {
        return Rejected, at;
      }
      at := FindOrCreate(appName);
      if at >= |apps| {
        return TooManyApps, at;
      }
      var app := apps[at];
      result := app.Deploy(w);
    }

    /**
     "An application has one entry, and an entry one application" holds exactly for names that
     fit. After a deploy of one name, a deploy of a second one that also succeeds ends in the
     same entry if and only if the second name is the first one cut to its buffer and, unless
     the two are the same, had no entry before.
     */
    method DeployBoth(oneName: string, otherName: string, w: World, v: World) returns (first: Result, i: nat, second: Result, j: nat)
      requires Valid()
      modifies this, set a | a in apps
      ensures Valid()
      ensures first == Deployed && second == Deployed ==>
                && i < |apps| && j < |apps| && apps[i].name == CutName(oneName) && apps[j].name == CutName(otherName)
                && Serving(apps[i].Now()) && Serving(apps[j].Now())
                && (i == j <==> otherName == CutName(oneName) && (oneName == otherName || old(Place(otherName)) == |old(apps)|))
    {
      hide Settled, Serving, Outcome;
      ghost var before := apps;
      first, i := Deploy(oneName, w);
      assert forall a :: a in apps ==> a in old(apps) || fresh(a);
      ghost var between := apps;
      assert before <= between;
      PlaceKept(before, between, otherName);
      second, j := Deploy(otherName, v);
    }

    /**
     Two deploys of one name that both succeed end in the same entry if and only if the name
     fits its buffer; otherwise two entries of one name serve.
     */
    method DeployTwice(appName: string, w: World, v: World) returns (first: Result, i: nat, second: Result, j: nat)
      requires Valid()
      modifies this, set a | a in apps
      ensures Valid()
      ensures first == Deployed && second == Deployed ==>
                && i < |apps| && j < |apps| && apps[i].name == apps[j].name
                && Serving(apps[i].Now()) && Serving(apps[j].Now())
                && (i == j <==> |appName| <= NAME_MAX)
    {
      hide Settled, Serving, Outcome;
      first, i, second, j := DeployBoth(appName, appName, w, v);
    }
  }

  /** The first entry of a name stays the first when entries are added behind. */
  lemma {:induction false} PlaceKept(apps: seq<HotApp>, longer: seq<HotApp>, name: string)
    requires apps <= longer
    ensures PlaceIn(apps, name) < |apps| ==> PlaceIn(longer, name) == PlaceIn(apps, name)
    ensures PlaceIn(apps, name) == |apps| ==> |apps| <= PlaceIn(longer, name)
  {
    if apps != [] {
      assert apps[0] == longer[0];
      PlaceKept(apps[1..], longer[1..], name);
    }
  }

  ghost function PlaceIn(apps: seq<HotApp>, name: string): (at: nat)
    ensures at <= |apps| && (at < |apps| ==> apps[at].name == name)
    ensures forall j :: 0 <= j < at ==> apps[j].name != name
  {
    if apps == [] then 0 else if apps[0].name == name then 0 else PlaceIn(apps[1..], name) + 1
  }

  /** A run in which both deploys of a name of 64 characters succeed: two entries of one name, both serving. */
  method LongNameTwice() returns (supervisor: Supervisor, first: Result, second: Result)
    ensures fresh(supervisor) && supervisor.Valid() && first == Deployed && second == Deployed
    ensures |supervisor.apps| == 2 && supervisor.apps[0].name == supervisor.apps[1].name
    ensures Serving(supervisor.apps[0].Now()) && Serving(supervisor.apps[1].Now())
  {
    hide Settled, Serving;
    var w := World(true, true, true, true, 7, true, PROBES);
    var appName := seq(NAME_MAX + 1, _ => 'a');
    var i, j;
    supervisor := new Supervisor();
    first, i := supervisor.Deploy(appName, w);
    second, j := supervisor.Deploy(appName, w);
  }

  /**
   A run in which another application takes an entry over: after a name of 64 characters its
   first 63 are deployed as a name of their own, and the process of the first is drained.
   */
  method ShortNameTakesOver() returns (supervisor: Supervisor, first: Result, second: Result)
    ensures fresh(supervisor) && supervisor.Valid() && first == Deployed && second == Deployed
    ensures |supervisor.apps| == 1 && Serving(supervisor.apps[0].Now())
    ensures var app := supervisor.apps[0];
            app.slots[app.activeSlot].pid == 8 && app.slots[1 - app.activeSlot] == Slot(0, Terminated)
  {
    hide Settled, Serving;
    var longName, shortName := seq(NAME_MAX + 1, _ => 'a'), seq(NAME_MAX, _ => 'a');
    assert CutName(longName) == shortName;
    var i, j;
    supervisor := new Supervisor();
    first, i := supervisor.Deploy(longName, World(true, true, true, true, 7, true, PROBES));
    second, j := supervisor.Deploy(shortName, World(true, true, true, true, 8, true, PROBES));
  }

  /** A run of deploys on one application, each taking the settled state to a settled one. */
  ghost predicate DeployStep(before: Snapshot, result: Result, after: Snapshot) {
    && Settled(after)
    && (result == Deployed ==> Serving(after) && (Serving(before) ==> after.activeSlot == 1 - before.activeSlot))
    && (result != Deployed ==>
          after.activeSlot == before.activeSlot
          && (Serving(before) ==> after.slots[after.activeSlot] == before.slots[before.activeSlot]))
  }

  ghost function Parity(results: seq<Result>): nat {
    if results == [] then 0
    else (Parity(results[..|results| - 1]) + if results[|results| - 1] == Deployed then 1 else 0) % 2
  }

  /**
   Once an application serves it serves for ever, and the slot it serves from is told by the
   parity of the deploys that succeeded since.
   */
  lemma {:induction false} ServesForEver(states: seq<Snapshot>, results: seq<Result>)
    requires |states| == |results| + 1 && Settled(states[0]) && Serving(states[0])
    requires forall i :: 0 <= i < |results| ==> DeployStep(states[i], results[i], states[i + 1])
    ensures Serving(states[|results|]) && Settled(states[|results|])
    ensures states[|results|].activeSlot == if Parity(results) == 0 then states[0].activeSlot else 1 - states[0].activeSlot
    decreases |results|
  {
    if results != [] {
      var n := |results| - 1;
      ServesForEver(states[..n + 1], results[..n]);
      assert DeployStep(states[n], results[n], states[n + 1]);
    }
  }
}
