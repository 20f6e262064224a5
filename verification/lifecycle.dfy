/**
 * The lifecycle entry points around the rescan: attach (bring children back
 * after a reset, stopping at the first failure), detach (suspend or delete
 * every child and block rescans), register and unregister (the first and
 * last rescan of a device), and the lightweight switch.
 */
module Lifecycle {
  import opened Adev
  import opened Rescan

  /** A call that returns nothing: the device it leaves and what it did. */
  datatype Step = Step(dev: Device, trace: seq<Event>)

  // ---------------------------------------------------------------- attach

  /** The status attach records when it visits slot `i` of `s`: for an empty
      slot that passes both gates, the creation's error (0 on success); for a
      present child whose bound driver has a resume hook, what that hook
      returns; otherwise 0. */
  function AttachStatus(s: Slots, o: Oracles, i: Index): int {
    if s[i].None? then
      (if Wanted(o, i) && o[i].create.CreateErr? then o[i].create.err else 0)
    else if o[i].driver.Some? && o[i].driver.value.resume.Some? then
      o[i].driver.value.resume.value
    else 0
  }

  /** The events attach emits when it visits slot `i` of `s`. */
  function AttachEvents(s: Slots, o: Oracles, i: Index): seq<Event> {
    if s[i].None? then (if Wanted(o, i) then [Attempt(o, i)] else [])
    else if o[i].driver.Some? && o[i].driver.value.resume.Some? then
      [Resumed(i, o[i].driver.value.resume.value)]
    else []
  }

  /** The first slot below `n` whose visit fails, or `n` when none does. */
  function FirstAttachFailure(s: Slots, o: Oracles, n: nat): (k: nat)
    requires n <= N
    ensures k <= n
    ensures forall j :: 0 <= j < k ==> AttachStatus(s, o, j) == 0
    ensures k < n ==> AttachStatus(s, o, k) != 0
    decreases n
  {
    if n == 0 then 0
    else
      var k := FirstAttachFailure(s, o, n - 1);
      if k < n - 1 then k
      else if AttachStatus(s, o, n - 1) != 0 then n - 1
      else n
  }

  /** The first failing slot of the whole table, or N when none fails. */
  function AttachFailure(s: Slots, o: Oracles): nat {
    FirstAttachFailure(s, o, |s|)
  }

  /** One iteration of the attach loop, on slot `i`. A failed creation
      leaves the slot empty; a failed resume leaves the child in place. */
  function AttachVisit(s: Slots, o: Oracles, adevIdx: int, i: Index): (v: Scan)
    ensures forall j {:trigger v.slots[j]} :: 0 <= j < N && j != i ==> v.slots[j] == s[j]
    ensures v.slots[i] == AfterCreate(s, o, adevIdx, i)
    ensures v.ret == AttachStatus(s, o, i)
    ensures v.trace == AttachEvents(s, o, i)
  {
    if s[i].None? then
      if !EnabledGate(o, i) then Scan(s, 0, [])
      else if !SupportedGate(o, i) then Scan(s, 0, [])
      else
        match o[i].create
        case CreateOk => Scan(s[i := Some(NewChild(i, adevIdx))], 0, [Created(i)])
        case CreateErr(e) => Scan(s, e, [CreateFailed(i, e)])
    else
      match o[i].driver
      case None => Scan(s, 0, [])
      case Some(drv) =>
        match drv.resume
        case None => Scan(s, 0, [])
        case Some(ret) => Scan(s, ret, [Resumed(i, ret)])
  }

  /** The attach loop over slots 0 up to `n - 1`, stopping at the first
      failure: every slot before it is brought up as a create pass would,
      the failing slot and every slot after it are left as they were, and
      the status is the failure's. */
  function AttachPhase(s: Slots, o: Oracles, adevIdx: int, n: nat): (r: Scan)
    requires n <= N
    ensures var k := FirstAttachFailure(s, o, n);
      && (forall j {:trigger r.slots[j]} :: 0 <= j < N ==>
            r.slots[j] == (if j < k then AfterCreate(s, o, adevIdx, j) else s[j]))
      && r.ret == (if k < n then AttachStatus(s, o, k) else 0)
    decreases n
  {
    if n == 0 then Scan(s, 0, [])
    else
      var done := AttachPhase(s, o, adevIdx, n - 1);
      if done.ret != 0 then done
      else
        assert done.slots[n - 1] == s[n - 1];
        var v := AttachVisit(done.slots, o, adevIdx, n - 1);
        Scan(v.slots, v.ret, done.trace + v.trace)
  }

  /** The last step of an attach loop over `n` slots: the loop over the
      first `n - 1`, then, if that did not fail, a visit of slot `n - 1`,
      which it left untouched. */
  lemma AttachPhaseUnfold(s: Slots, o: Oracles, adevIdx: int, n: nat)
    requires 0 < n <= N
    ensures var done := AttachPhase(s, o, adevIdx, n - 1);
      && done.slots[n - 1] == s[n - 1]
      && AttachPhase(s, o, adevIdx, n).trace ==
           if done.ret != 0 then done.trace
           else done.trace + AttachVisit(done.slots, o, adevIdx, n - 1).trace
  {
  }

  /** Every event of the attach loop over `n` slots comes from a slot below
      `n` no later than the first failure, and is what visiting it emits. */
  lemma {:induction false} AttachPhaseEvents(s: Slots, o: Oracles, adevIdx: int, n: nat)
    requires n <= N
    ensures forall e :: e in AttachPhase(s, o, adevIdx, n).trace ==>
      e.slot < n && e.slot <= FirstAttachFailure(s, o, n) && e in AttachEvents(s, o, e.slot)
    decreases n
  {
    if n > 0 {
      AttachPhaseUnfold(s, o, adevIdx, n);
      AttachPhaseEvents(s, o, adevIdx, n - 1);
    }
  }

  /** The attach loop over `n` slots emits events only for slots below `n`. */
  lemma AttachPhaseBelow(s: Slots, o: Oracles, adevIdx: int, n: nat)
    requires n <= N
    ensures forall e :: e in AttachPhase(s, o, adevIdx, n).trace ==> e.slot < n
  {
    AttachPhaseEvents(s, o, adevIdx, n);
  }

  /** The attach loop visits slots from the lowest up. */
  lemma {:induction false} AttachPhaseAscending(s: Slots, o: Oracles, adevIdx: int, n: nat)
    requires n <= N
    ensures Ascending(AttachPhase(s, o, adevIdx, n).trace)
    decreases n
  {
    if n > 0 {
      var i: Index := n - 1;
      var done := AttachPhase(s, o, adevIdx, i);
      AttachPhaseUnfold(s, o, adevIdx, n);
      AttachPhaseAscending(s, o, adevIdx, i);
      var ev := AttachVisit(done.slots, o, adevIdx, i).trace;
      if done.ret == 0 && ev != [] {
        AttachPhaseBelow(s, o, adevIdx, i);
        assert ev == [ev[0]] && ev[0].slot == i;
        AscendingSnoc(done.trace, ev[0]);
      }
    }
  }

  /** The attach loop over `n` slots emits the events of every slot up to
      and including the first failure. */
  lemma {:induction false} AttachPhaseComplete(s: Slots, o: Oracles, adevIdx: int, n: nat)
    requires n <= N
    ensures forall j, e :: 0 <= j < n && j <= FirstAttachFailure(s, o, n) && e in AttachEvents(s, o, j) ==>
      e in AttachPhase(s, o, adevIdx, n).trace
    decreases n
  {
    if n > 0 {
      var i: Index := n - 1;
      var done := AttachPhase(s, o, adevIdx, i);
      var t := AttachPhase(s, o, adevIdx, n).trace;
      AttachPhaseUnfold(s, o, adevIdx, n);
      AttachPhaseComplete(s, o, adevIdx, i);
      forall j, e | 0 <= j < n && j <= FirstAttachFailure(s, o, n) && e in AttachEvents(s, o, j)
        ensures e in t
      {
        if j == i {
          assert FirstAttachFailure(s, o, i) == i && done.ret == 0;
          assert t == done.trace + AttachEvents(s, o, i);
        }
      }
    }
  }

  /** Slots brought up to the first failure hold only the children creating
      them builds. */
  lemma AttachConsistent(d: Device, o: Oracles, k: nat, out: Slots)
    requires forall j {:trigger out[j]} :: 0 <= j < N ==>
      out[j] == (if j < k then AfterCreate(d.slots, o, d.adevIdx, j) else d.slots[j])
    ensures Consistent(d) ==> Consistent(d.(slots := out))
  {
    if Consistent(d) {
      forall j | 0 <= j < N && out[j].Some?
        ensures out[j].value == NewChild(j, d.adevIdx)
      {
        assert out[j] == (if j < k then AfterCreate(d.slots, o, d.adevIdx, j) else d.slots[j]);
      }
    }
  }

  /** `mlx5_attach_device`: clear DETACH and bring every slot back in table
      order, creating missing children and resuming present ones, stopping
      at the first failure. The lightweight flag is not consulted. */
  function AttachDevice(d: Device, o: Oracles): (r: Outcome)
    ensures r.dev.flags == d.flags - {Detach} && r.dev.adevIdx == d.adevIdx
    ensures var k := AttachFailure(d.slots, o);
      && (forall j {:trigger r.dev.slots[j]} :: 0 <= j < N ==>
            r.dev.slots[j] == (if j < k then AfterCreate(d.slots, o, d.adevIdx, j) else d.slots[j]))
      && (r.ret == 0 <==> k == N)
      && (r.ret != 0 ==> r.ret == AttachStatus(d.slots, o, k))
    ensures Consistent(d) ==> Consistent(r.dev)
  {
    var a := AttachPhase(d.slots, o, d.adevIdx, |d.slots|);
    AttachConsistent(d, o, AttachFailure(d.slots, o), a.slots);
    Outcome(Device(a.slots, d.flags - {Detach}, d.adevIdx), a.ret, a.trace)
  }

  /** Attach visits slots from the lowest up, emits the events of every slot
      up to and including the first failure, and nothing after it. */
  lemma AttachTrace(d: Device, o: Oracles)
    ensures var t := AttachDevice(d, o).trace; var k := AttachFailure(d.slots, o);
      && Ascending(t)
      && (forall e :: e in t ==> e.slot <= k && e in AttachEvents(d.slots, o, e.slot))
      && (forall j: Index, e :: j <= k && e in AttachEvents(d.slots, o, j) ==> e in t)
  {
    var s := d.slots;
    AttachPhaseEvents(s, o, d.adevIdx, |s|);
    AttachPhaseAscending(s, o, d.adevIdx, |s|);
    AttachPhaseComplete(s, o, d.adevIdx, |s|);
  }

  /** Attach does not depend on whether the device is lightweight. */
  lemma AttachIgnoresLightweight(d: Device, o: Oracles)
    ensures AttachDevice(d.(flags := d.flags + {DisableAll}), o).dev.slots == AttachDevice(d, o).dev.slots
    ensures AttachDevice(d.(flags := d.flags + {DisableAll}), o).ret == AttachDevice(d, o).ret
  {
  }

  /** Attach is fail-fast and rescan is best-effort: when creating an earlier
      slot fails, attach leaves a later wanted slot empty, while a rescan
      with the same oracles creates it. */
  lemma FailFastVersusBestEffort(d: Device, o: Oracles, i: Index, j: Index)
    requires Detach !in d.flags && DisableAll !in d.flags
    requires i < j && d.slots[j].None?
    requires CreateFails(d.slots, o, i)
    requires Wanted(o, j) && o[j].create.CreateOk?
    ensures AttachDevice(d, o).dev.slots[j].None?
    ensures RescanDrivers(d, o).dev.slots[j].Some?
  {
    var k := AttachFailure(d.slots, o);
    assert AttachStatus(d.slots, o, i) != 0;
    assert k <= i;
    assert AttachDevice(d, o).dev.slots[j] == d.slots[j];
    assert RescanDrivers(d, o).dev.slots[j] == Target(d.slots, o, d.adevIdx, j);
  }

  // ---------------------------------------------------------------- detach

  /** Detach keeps the child in slot `i` (suspended) only when suspending,
      the entry's enabled predicate holds, a driver is bound and it has a
      suspend hook. */
  predicate SurvivesDetach(o: Oracles, suspend: bool, i: Index) {
    suspend && EnabledGate(o, i) && o[i].driver.Some? && o[i].driver.value.hasSuspend
  }

  /** The event detach emits for a present child. */
  function DetachEvent(o: Oracles, suspend: bool, i: Index): Event {
    if SurvivesDetach(o, suspend, i) then Suspended(i) else Deleted(i)
  }

  /** One iteration of the detach loop, on slot `i`. */
  function DetachVisit(s: Slots, o: Oracles, suspend: bool, i: Index): (v: Pass)
    ensures forall j {:trigger v.slots[j]} :: 0 <= j < N && j != i ==> v.slots[j] == s[j]
    ensures v.slots[i] == (if SurvivesDetach(o, suspend, i) then s[i] else None)
    ensures v.trace == (if s[i].Some? then [DetachEvent(o, suspend, i)] else [])
  {
    if s[i].None? then Pass(s, [])
    else if !EnabledGate(o, i) then Pass(s[i := None], [Deleted(i)])
    else if o[i].driver.None? then Pass(s[i := None], [Deleted(i)])
    else if o[i].driver.value.hasSuspend && suspend then Pass(s, [Suspended(i)])
    else Pass(s[i := None], [Deleted(i)])
  }

  /** The detach loop over slots `n - 1` down to 0: it keeps exactly the
      children that survive and empties every other slot it visits. */
  function DetachPhase(s: Slots, o: Oracles, suspend: bool, n: nat): (r: Pass)
    requires n <= N
    ensures forall j {:trigger r.slots[j]} :: 0 <= j < N ==>
      r.slots[j] == (if j < n && !SurvivesDetach(o, suspend, j) then None else s[j])
    decreases n
  {
    if n == 0 then Pass(s, [])
    else
      var v := DetachVisit(s, o, suspend, n - 1);
      var rest := DetachPhase(v.slots, o, suspend, n - 1);
      Pass(rest.slots, v.trace + rest.trace)
  }

  /** The first step of a detach loop over `n` slots: a visit of slot
      `n - 1`, then the loop over the rest, which the visit left untouched. */
  lemma DetachPhaseUnfold(s: Slots, o: Oracles, suspend: bool, n: nat)
    requires 0 < n <= N
    ensures var v := DetachVisit(s, o, suspend, n - 1);
      && DetachPhase(s, o, suspend, n).trace == v.trace + DetachPhase(v.slots, o, suspend, n - 1).trace
      && forall j {:trigger v.slots[j]} :: 0 <= j < n - 1 ==> v.slots[j] == s[j]
  {
  }

  /** Every event of the detach loop over `n` slots is the suspension or the
      deletion of a present child below `n`, as the child's driver decides. */
  lemma {:induction false} DetachPhaseEvents(s: Slots, o: Oracles, suspend: bool, n: nat)
    requires n <= N
    ensures forall e :: e in DetachPhase(s, o, suspend, n).trace ==>
      e.slot < n && s[e.slot].Some? && e == DetachEvent(o, suspend, e.slot)
    decreases n
  {
    if n > 0 {
      var v := DetachVisit(s, o, suspend, n - 1);
      var rest := DetachPhase(v.slots, o, suspend, n - 1).trace;
      DetachPhaseUnfold(s, o, suspend, n);
      DetachPhaseEvents(v.slots, o, suspend, n - 1);
      forall e | e in v.trace + rest
        ensures e.slot < n && s[e.slot].Some? && e == DetachEvent(o, suspend, e.slot)
      {
        if e in rest {
          assert v.slots[e.slot] == s[e.slot];
        }
      }
    }
  }

  /** The detach loop over `n` slots emits events only for slots below `n`. */
  lemma DetachPhaseBelow(s: Slots, o: Oracles, suspend: bool, n: nat)
    requires n <= N
    ensures forall e :: e in DetachPhase(s, o, suspend, n).trace ==> e.slot < n
  {
    DetachPhaseEvents(s, o, suspend, n);
  }

  /** The detach loop visits slots from the highest down. */
  lemma {:induction false} DetachPhaseDescending(s: Slots, o: Oracles, suspend: bool, n: nat)
    requires n <= N
    ensures Descending(DetachPhase(s, o, suspend, n).trace)
    decreases n
  {
    if n > 0 {
      var v := DetachVisit(s, o, suspend, n - 1);
      var rest := DetachPhase(v.slots, o, suspend, n - 1).trace;
      DetachPhaseUnfold(s, o, suspend, n);
      DetachPhaseDescending(v.slots, o, suspend, n - 1);
      if v.trace != [] {
        var e := v.trace[0];
        assert e.slot == n - 1 && v.trace == [e];
        DetachPhaseBelow(v.slots, o, suspend, n - 1);
        DescendingCons(e, rest);
      }
    }
  }

  /** The detach loop over `n` slots emits one event for every present child
      below `n`. */
  lemma {:induction false} DetachPhaseComplete(s: Slots, o: Oracles, suspend: bool, n: nat)
    requires n <= N
    ensures forall j :: 0 <= j < n && s[j].Some? ==>
      DetachEvent(o, suspend, j) in DetachPhase(s, o, suspend, n).trace
    decreases n
  {
    if n > 0 {
      var v := DetachVisit(s, o, suspend, n - 1);
      DetachPhaseUnfold(s, o, suspend, n);
      DetachPhaseComplete(v.slots, o, suspend, n - 1);
    }
  }

  /** Slots a detach left hold only children the device already had. */
  lemma DetachConsistent(d: Device, o: Oracles, suspend: bool, out: Slots)
    requires forall j {:trigger out[j]} :: 0 <= j < N ==>
      out[j] == (if !SurvivesDetach(o, suspend, j) then None else d.slots[j])
    ensures Consistent(d) ==> Consistent(d.(slots := out))
  {
    if Consistent(d) {
      forall j | 0 <= j < N && out[j].Some?
        ensures out[j].value == NewChild(j, d.adevIdx)
      {
        assert out[j] == (if !SurvivesDetach(o, suspend, j) then None else d.slots[j]);
      }
    }
  }

  /** `mlx5_detach_device`: from the highest slot down, suspend the children
      that can be suspended and delete the rest, then set DETACH. */
  function DetachDevice(d: Device, o: Oracles, suspend: bool): (r: Step)
    ensures r.dev.flags == d.flags + {Detach} && r.dev.adevIdx == d.adevIdx
    ensures forall j {:trigger r.dev.slots[j]} :: 0 <= j < N ==>
      r.dev.slots[j] == (if SurvivesDetach(o, suspend, j) then d.slots[j] else None)
    ensures !suspend ==> AllEmpty(r.dev.slots)
    ensures Consistent(d) ==> Consistent(r.dev)
  {
    var p := DetachPhase(d.slots, o, suspend, |d.slots|);
    DetachConsistent(d, o, suspend, p.slots);
    Step(Device(p.slots, d.flags + {Detach}, d.adevIdx), p.trace)
  }

  /** Detach visits slots from the highest down and emits exactly one event
      per present child: a suspension if it survives, a deletion otherwise. */
  lemma DetachTrace(d: Device, o: Oracles, suspend: bool)
    ensures var t := DetachDevice(d, o, suspend).trace;
      && Descending(t)
      && (forall e :: e in t ==> d.slots[e.slot].Some? && e == DetachEvent(o, suspend, e.slot))
      && (forall j: Index :: d.slots[j].Some? ==> DetachEvent(o, suspend, j) in t)
  {
    var s := d.slots;
    DetachPhaseEvents(s, o, suspend, |s|);
    DetachPhaseDescending(s, o, suspend, |s|);
    DetachPhaseComplete(s, o, suspend, |s|);
  }

  /** A detached device ignores rescans until it is attached again. */
  lemma DetachThenRescanIsNoop(d: Device, o1: Oracles, suspend: bool, o2: Oracles)
    ensures var d1 := DetachDevice(d, o1, suspend).dev; RescanDrivers(d1, o2) == Outcome(d1, 0, [])
  {
  }

  /** What detach does depends on the enabled predicates and bound drivers,
      never on the supported predicates or on creation. */
  lemma {:induction false} DetachIgnoresSupported(s: Slots, o1: Oracles, o2: Oracles, suspend: bool, n: nat)
    requires n <= N
    requires forall i :: 0 <= i < N ==> o1[i].enabled == o2[i].enabled && o1[i].driver == o2[i].driver
    ensures DetachPhase(s, o1, suspend, n) == DetachPhase(s, o2, suspend, n)
    decreases n
  {
    if n > 0 {
      var i: Index := n - 1;
      var v := DetachVisit(s, o1, suspend, i);
      assert v == DetachVisit(s, o2, suspend, i);
      DetachIgnoresSupported(v.slots, o1, o2, suspend, i);
    }
  }

  /** An attach that reports success visited every slot without failure. */
  lemma AttachSucceeded(d: Device, o: Oracles)
    requires AttachDevice(d, o).ret == 0
    ensures forall j {:trigger AttachDevice(d, o).dev.slots[j]} :: 0 <= j < N ==>
      AttachDevice(d, o).dev.slots[j] == AfterCreate(d.slots, o, d.adevIdx, j)
    ensures forall j :: 0 <= j < N ==> AttachStatus(d.slots, o, j) == 0
  {
    assert AttachFailure(d.slots, o) == N;
  }

  /** What slot `i` holds after a suspending detach of slots `s` and an
      attach in which nothing failed: the child if it survived, otherwise a
      fresh child if the slot is wanted, otherwise nothing. */
  function Restored(s: Slots, o: Oracles, adevIdx: int, i: Index): Option<Child> {
    if s[i].Some? && SurvivesDetach(o, true, i) then s[i]
    else if Wanted(o, i) then Some(NewChild(i, adevIdx))
    else None
  }

  /** Slots that went through a suspending detach and then an attach in
      which nothing failed are restored. */
  lemma RoundTripSlots(s: Slots, o: Oracles, adevIdx: int, s1: Slots, s2: Slots)
    requires forall j {:trigger s1[j]} :: 0 <= j < N ==>
      s1[j] == (if SurvivesDetach(o, true, j) then s[j] else None)
    requires forall j {:trigger s2[j]} :: 0 <= j < N ==> s2[j] == AfterCreate(s1, o, adevIdx, j)
    requires forall j :: 0 <= j < N ==> AttachStatus(s1, o, j) == 0
    ensures forall j: Index :: s2[j] == Restored(s, o, adevIdx, j)
  {
    forall j: Index
      ensures s2[j] == Restored(s, o, adevIdx, j)
    {
      assert s1[j] == (if SurvivesDetach(o, true, j) then s[j] else None);
      assert s2[j] == AfterCreate(s1, o, adevIdx, j);
      assert AttachStatus(s1, o, j) == 0;
    }
  }

  /** Every creation succeeds and every resume hook returns 0. */
  predicate NothingFails(o: Oracles) {
    && AllCreatesSucceed(o)
    && forall j: Index :: o[j].driver.Some? && o[j].driver.value.resume.Some? ==>
         o[j].driver.value.resume.value == 0
  }

  /** When nothing can fail, attach visits every slot and returns 0. */
  lemma AttachCannotFail(d: Device, o: Oracles)
    requires NothingFails(o)
    ensures AttachDevice(d, o).ret == 0
  {
    forall j: Index
      ensures AttachStatus(d.slots, o, j) == 0
    {
    }
  }

  /** A suspending detach followed by an attach in which nothing fails
      brings the device back: every child that was suspended is kept and
      every other wanted slot holds a fresh child. */
  lemma DetachAttachRoundTrip(d: Device, o: Oracles)
    requires NothingFails(o)
    ensures forall j: Index ::
      AttachDevice(DetachDevice(d, o, true).dev, o).dev.slots[j] == Restored(d.slots, o, d.adevIdx, j)
  {
    var d1 := DetachDevice(d, o, true).dev;
    AttachCannotFail(d1, o);
    AttachSucceeded(d1, o);
    RoundTripSlots(d.slots, o, d.adevIdx, d1.slots, AttachDevice(d1, o).dev.slots);
  }

  // ------------------------------------------------ register / unregister

  /** Whether the device runs in lightweight mode (`mlx5_dev_is_lightweight`). */
  predicate IsLightweight(d: Device) {
    DisableAll in d.flags
  }

  /** `mlx5_dev_set_lightweight`: set DISABLE_ALL and nothing else; children
      go away at the next rescan. */
  function SetLightweight(d: Device): (r: Device)
    ensures IsLightweight(r)
    ensures r.slots == d.slots && r.adevIdx == d.adevIdx
    ensures r.flags - {DisableAll} == d.flags - {DisableAll}
  {
    d.(flags := d.flags + {DisableAll})
  }

  /** A rescan of a lightweight device that is not detached removes every
      child and creates none. */
  lemma LightweightRescanEmpties(d: Device, o: Oracles)
    requires Detach !in d.flags
    ensures var r := RescanDrivers(SetLightweight(d), o);
      AllEmpty(r.dev.slots) && r.ret == 0 && IsLightweight(r.dev)
  {
  }

  /** `mlx5_unregister_device`: replace the whole flag word by DISABLE_ALL
      (clearing DETACH and DISABLE_IB_ADEV) and rescan, which deletes every
      child. */
  function UnregisterDevice(d: Device, o: Oracles): (r: Step)
    ensures r.dev.flags == {DisableAll} && r.dev.adevIdx == d.adevIdx
    ensures AllEmpty(r.dev.slots)
    ensures Consistent(r.dev)
  {
    var res := RescanDrivers(d.(flags := {DisableAll}), o);
    Step(res.dev, res.trace)
  }

  /** Unregister deletes every present child, from the highest slot down,
      and does nothing else. */
  lemma UnregisterTrace(d: Device, o: Oracles)
    ensures var t := UnregisterDevice(d, o).trace;
      && Descending(t)
      && (forall e :: e in t ==> e == Deleted(e.slot) && d.slots[e.slot].Some?)
      && (forall j: Index :: d.slots[j].Some? ==> Deleted(j) in t)
  {
    var s := d.slots;
    DeletePhaseTrace(s, o, true, |s|);
  }

  /** `mlx5_register_device`: clear DISABLE_ALL and rescan; if the rescan
      reports an error, unregister. */
  function RegisterDevice(d: Device, o: Oracles): (r: Outcome)
    ensures r.dev.adevIdx == d.adevIdx
    ensures r.ret == 0 <==>
      Detach in d.flags || forall i :: 0 <= i < N ==> !CreateFails(d.slots, o, i)
    ensures r.ret == 0 ==> r.dev.flags == d.flags - {DisableAll}
    ensures r.ret != 0 ==> r.dev.flags == {DisableAll} && AllEmpty(r.dev.slots)
    ensures Consistent(d) ==> Consistent(r.dev)
  {
    var res := RescanDrivers(d.(flags := d.flags - {DisableAll}), o);
    if res.ret != 0 then
      var u := UnregisterDevice(res.dev, o);
      Outcome(u.dev, res.ret, res.trace + u.trace)
    else res
  }

  /** Register on a detached device only clears DISABLE_ALL; on a device
      that is not detached a success leaves every slot at its target, and a
      failure reports the error of the last slot whose creation failed. */
  lemma RegisterSlots(d: Device, o: Oracles)
    ensures Detach in d.flags ==>
      RegisterDevice(d, o) == Outcome(d.(flags := d.flags - {DisableAll}), 0, [])
    ensures Detach !in d.flags && RegisterDevice(d, o).ret == 0 ==>
      forall i: Index :: RegisterDevice(d, o).dev.slots[i] == Target(d.slots, o, d.adevIdx, i)
    ensures RegisterDevice(d, o).ret != 0 ==> IsLastCreateError(d.slots, o, N, RegisterDevice(d, o).ret)
  {
  }

  /** Of the flag word, register reads only DETACH: two devices with the
      same slots and index that agree on DETACH register alike. */
  lemma RegisterReadsOnlyDetach(d1: Device, d2: Device, o: Oracles)
    requires d1.slots == d2.slots && d1.adevIdx == d2.adevIdx
    requires (Detach in d1.flags) == (Detach in d2.flags)
    ensures RegisterDevice(d1, o).dev.slots == RegisterDevice(d2, o).dev.slots
    ensures RegisterDevice(d1, o).ret == RegisterDevice(d2, o).ret
  {
    var e1 := d1.(flags := d1.flags - {DisableAll});
    var e2 := d2.(flags := d2.flags - {DisableAll});
    assert RescanDrivers(e1, o).dev.slots == RescanDrivers(e2, o).dev.slots;
    assert RescanDrivers(e1, o).ret == RescanDrivers(e2, o).ret;
  }

  /** Register leaves an empty slot that should not hold a child empty. */
  lemma RegisterSkipsUnwanted(d: Device, o: Oracles, i: Index)
    requires d.slots[i].None? && !Wanted(o, i)
    ensures RegisterDevice(d, o).dev.slots[i].None?
  {
    RegisterSlots(d, o);
    if Detach !in d.flags && RegisterDevice(d, o).ret == 0 {
      assert RegisterDevice(d, o).dev.slots[i] == Target(d.slots, o, d.adevIdx, i);
    }
  }

  /** When every creation succeeds, register on a device that is not
      detached gives every wanted slot a child. */
  lemma RegisterFillsWanted(d: Device, o: Oracles, i: Index)
    requires Detach !in d.flags && Wanted(o, i) && AllCreatesSucceed(o)
    ensures RegisterDevice(d, o).dev.slots[i].Some?
  {
    assert forall j: Index :: !CreateFails(d.slots, o, j);
    RegisterSlots(d, o);
    assert RegisterDevice(d, o).dev.slots[i] == Target(d.slots, o, d.adevIdx, i);
  }

  /** A slot the first register leaves empty because it is unwanted, but
      that is wanted by the inputs of a register after unregister, is
      filled by that second register when every creation succeeds. */
  lemma ReRegisterFills(d: Device, o1: Oracles, ou: Oracles, o2: Oracles, i: Index)
    requires d.slots[i].None? && !Wanted(o1, i)
    requires Wanted(o2, i) && AllCreatesSucceed(o2)
    ensures RegisterDevice(d, o1).dev.slots[i].None?
    ensures RegisterDevice(UnregisterDevice(RegisterDevice(d, o1).dev, ou).dev, o2).dev.slots[i].Some?
  {
    RegisterSkipsUnwanted(d, o1, i);
    RegisterFillsWanted(UnregisterDevice(RegisterDevice(d, o1).dev, ou).dev, o2, i);
  }

  /** With the same inputs, registering a device that has no children and
      is not detached, unregistering it and registering it again ends with
      the children and status of the first register. */
  lemma RegisterAgain(d: Device, o: Oracles, ou: Oracles)
    requires Detach !in d.flags && AllEmpty(d.slots)
    ensures var u := UnregisterDevice(RegisterDevice(d, o).dev, ou).dev;
      && RegisterDevice(u, o).dev.slots == RegisterDevice(d, o).dev.slots
      && RegisterDevice(u, o).ret == RegisterDevice(d, o).ret
  {
    var u := UnregisterDevice(RegisterDevice(d, o).dev, ou).dev;
    AllEmptyUnique(u.slots, d.slots);
    RegisterReadsOnlyDetach(u, d, o);
  }

  /** Unregister followed by register forgets everything about the device
      but its index: the result depends on neither the slots it had, nor
      its flags, nor the oracles unregister saw. On success every wanted
      child is freshly created and the flag word is empty. */
  lemma RegisterAfterUnregister(d: Device, o1: Oracles, o2: Oracles)
    ensures var r := RegisterDevice(UnregisterDevice(d, o1).dev, o2);
      && (r.ret == 0 ==>
            && r.dev.flags == {}
            && forall j: Index :: r.dev.slots[j] ==
                 (if Wanted(o2, j) then Some(NewChild(j, d.adevIdx)) else None))
      && (r.ret != 0 ==> r.dev.flags == {DisableAll} && AllEmpty(r.dev.slots))
  {
    var u := UnregisterDevice(d, o1).dev;
    var r := RegisterDevice(u, o2);
    if r.ret == 0 {
      forall j: Index
        ensures r.dev.slots[j] == (if Wanted(o2, j) then Some(NewChild(j, d.adevIdx)) else None)
      {
        assert r.dev.slots[j] == Target(u.slots, o2, d.adevIdx, j);
        assert !CreateFails(u.slots, o2, j);
      }
    }
  }
}
