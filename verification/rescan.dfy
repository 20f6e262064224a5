/**
 * The reconciliation pass run whenever a device may have been reconfigured
 * (`mlx5_rescan_drivers_locked`): a delete phase from the highest slot down
 * (`delete_drivers`), then, unless the device is lightweight, a best-effort
 * create phase from the lowest slot up (`add_drivers`).
 *
 * Each loop is a recursion over the number of slots it has to visit; the
 * callers pass `|s|`, the table size.
 */
module Rescan {
  import opened Adev

  /** A pass that returns nothing: the slots it leaves and what it did. */
  datatype Pass = Pass(slots: Slots, trace: seq<Event>)

  /** A pass that returns a status, 0 or an error code. */
  datatype Scan = Scan(slots: Slots, ret: int, trace: seq<Event>)

  /** A whole call on a device. */
  datatype Outcome = Outcome(dev: Device, ret: int, trace: seq<Event>)

  /** The delete phase leaves present slot `i` alone. An entry whose enabled
      predicate fails is deleted; with `deleteAll` the supported predicate is
      not consulted and counts as false. */
  predicate KeptByDelete(o: Oracles, deleteAll: bool, i: Index) {
    EnabledGate(o, i) && !deleteAll && SupportedGate(o, i)
  }

  /** One iteration of the delete loop, on slot `i`. */
  function DeleteVisit(s: Slots, o: Oracles, deleteAll: bool, i: Index): (v: Pass)
    ensures forall j {:trigger v.slots[j]} :: 0 <= j < N && j != i ==> v.slots[j] == s[j]
    ensures v.slots[i] == (if KeptByDelete(o, deleteAll, i) then s[i] else None)
    ensures v.trace == (if s[i].Some? && !KeptByDelete(o, deleteAll, i) then [Deleted(i)] else [])
  {
    if s[i].None? then Pass(s, [])
    else if !EnabledGate(o, i) then Pass(s[i := None], [Deleted(i)])
    else if Table[i].hasSupported && !deleteAll && o[i].supported then Pass(s, [])
    else Pass(s[i := None], [Deleted(i)])
  }

  /** The delete phase over slots `n - 1` down to 0: it empties exactly the
      slots it visits and does not keep. */
  function DeletePhase(s: Slots, o: Oracles, deleteAll: bool, n: nat): (r: Pass)
    requires n <= N
    ensures forall j {:trigger r.slots[j]} :: 0 <= j < N ==>
      r.slots[j] == (if j < n && !KeptByDelete(o, deleteAll, j) then None else s[j])
    decreases n
  {
    if n == 0 then Pass(s, [])
    else
      var v := DeleteVisit(s, o, deleteAll, n - 1);
      var rest := DeletePhase(v.slots, o, deleteAll, n - 1);
      Pass(rest.slots, v.trace + rest.trace)
  }

  /** The first step of a delete phase over `n` slots: a visit of slot
      `n - 1`, then the phase over the rest, which the visit left untouched. */
  lemma DeletePhaseUnfold(s: Slots, o: Oracles, deleteAll: bool, n: nat)
    requires 0 < n <= N
    ensures var v := DeleteVisit(s, o, deleteAll, n - 1);
      && DeletePhase(s, o, deleteAll, n).trace == v.trace + DeletePhase(v.slots, o, deleteAll, n - 1).trace
      && forall j {:trigger v.slots[j]} :: 0 <= j < n - 1 ==> v.slots[j] == s[j]
  {
  }

  /** Every event of the delete phase over `n` slots is the deletion of a
      present slot below `n` that the phase does not keep. */
  lemma {:induction false} DeletePhaseEvents(s: Slots, o: Oracles, deleteAll: bool, n: nat)
    requires n <= N
    ensures forall e :: e in DeletePhase(s, o, deleteAll, n).trace ==>
      e == Deleted(e.slot) && e.slot < n && s[e.slot].Some? && !KeptByDelete(o, deleteAll, e.slot)
    decreases n
  {
    if n > 0 {
      var v := DeleteVisit(s, o, deleteAll, n - 1);
      DeletePhaseUnfold(s, o, deleteAll, n);
      DeletePhaseEvents(v.slots, o, deleteAll, n - 1);
    }
  }

  /** The delete phase over `n` slots emits events only for slots below `n`. */
  lemma DeletePhaseBelow(s: Slots, o: Oracles, deleteAll: bool, n: nat)
    requires n <= N
    ensures forall e :: e in DeletePhase(s, o, deleteAll, n).trace ==> e.slot < n
  {
    DeletePhaseEvents(s, o, deleteAll, n);
  }

  /** The delete phase visits slots from the highest down. */
  lemma {:induction false} DeletePhaseDescending(s: Slots, o: Oracles, deleteAll: bool, n: nat)
    requires n <= N
    ensures Descending(DeletePhase(s, o, deleteAll, n).trace)
    decreases n
  {
    if n > 0 {
      var i: Index := n - 1;
      var v := DeleteVisit(s, o, deleteAll, i);
      var rest := DeletePhase(v.slots, o, deleteAll, i).trace;
      DeletePhaseUnfold(s, o, deleteAll, n);
      DeletePhaseDescending(v.slots, o, deleteAll, i);
      if v.trace != [] {
        DeletePhaseBelow(v.slots, o, deleteAll, i);
        DescendingCons(Deleted(i), rest);
      }
    }
  }

  /** The delete phase over `n` slots deletes every present slot below `n`
      that it does not keep. */
  lemma {:induction false} DeletePhaseComplete(s: Slots, o: Oracles, deleteAll: bool, n: nat)
    requires n <= N
    ensures forall j :: 0 <= j < n && s[j].Some? && !KeptByDelete(o, deleteAll, j) ==>
      Deleted(j) in DeletePhase(s, o, deleteAll, n).trace
    decreases n
  {
    if n > 0 {
      var v := DeleteVisit(s, o, deleteAll, n - 1);
      DeletePhaseUnfold(s, o, deleteAll, n);
      DeletePhaseComplete(v.slots, o, deleteAll, n - 1);
    }
  }

  /** The delete phase deletes exactly the present slots below `n` that it
      does not keep, from the highest down. */
  lemma DeletePhaseTrace(s: Slots, o: Oracles, deleteAll: bool, n: nat)
    requires n <= N
    ensures var t := DeletePhase(s, o, deleteAll, n).trace;
      && Descending(t)
      && (forall e :: e in t ==>
            e == Deleted(e.slot) && e.slot < n && s[e.slot].Some? && !KeptByDelete(o, deleteAll, e.slot))
      && (forall j :: 0 <= j < n && s[j].Some? && !KeptByDelete(o, deleteAll, j) ==>
            Deleted(j) in t)
  {
    DeletePhaseEvents(s, o, deleteAll, n);
    DeletePhaseDescending(s, o, deleteAll, n);
    DeletePhaseComplete(s, o, deleteAll, n);
  }

  /** A delete phase that keeps every present slot does nothing. */
  lemma {:induction false} DeletePhaseQuiet(s: Slots, o: Oracles, deleteAll: bool, n: nat)
    requires n <= N
    requires forall j :: 0 <= j < n && s[j].Some? ==> KeptByDelete(o, deleteAll, j)
    ensures DeletePhase(s, o, deleteAll, n) == Pass(s, [])
    decreases n
  {
    if n > 0 {
      var v := DeleteVisit(s, o, deleteAll, n - 1);
      assert v == Pass(s, []);
      DeletePhaseQuiet(s, o, deleteAll, n - 1);
    }
  }

  /** One iteration of the create loop, on slot `i`: the slots after it, the
      error it records (0 for none) and its event. */
  function AddVisit(s: Slots, o: Oracles, adevIdx: int, i: Index): (v: Scan)
    ensures forall j {:trigger v.slots[j]} :: 0 <= j < N && j != i ==> v.slots[j] == s[j]
    ensures v.slots[i] == AfterCreate(s, o, adevIdx, i)
    ensures v.ret == (if CreateFails(s, o, i) then o[i].create.err else 0)
    ensures v.trace == (if s[i].None? && Wanted(o, i) then [Attempt(o, i)] else [])
  {
    if s[i].Some? then Scan(s, 0, [])
    else if !EnabledGate(o, i) then Scan(s, 0, [])
    else if !SupportedGate(o, i) then Scan(s, 0, [])
    else
      match o[i].create
      case CreateOk => Scan(s[i := Some(NewChild(i, adevIdx))], 0, [Created(i)])
      case CreateErr(e) => Scan(s, e, [CreateFailed(i, e)])
  }

  /** The create phase over slots 0 up to `n - 1`. A failed creation leaves
      its slot empty and does not stop the pass; the status is 0 when no
      creation failed and otherwise the error of the last failure. */
  function AddPhase(s: Slots, o: Oracles, adevIdx: int, n: nat): (r: Scan)
    requires n <= N
    ensures forall j {:trigger r.slots[j]} :: 0 <= j < N ==>
      r.slots[j] == (if j < n then AfterCreate(s, o, adevIdx, j) else s[j])
    ensures r.ret == 0 <==> forall j :: 0 <= j < n ==> !CreateFails(s, o, j)
    ensures r.ret != 0 ==> IsLastCreateError(s, o, n, r.ret)
    decreases n
  {
    if n == 0 then Scan(s, 0, [])
    else
      var done := AddPhase(s, o, adevIdx, n - 1);
      assert CreateFails(done.slots, o, n - 1) == CreateFails(s, o, n - 1);
      var v := AddVisit(done.slots, o, adevIdx, n - 1);
      var ret := if v.ret != 0 then v.ret else done.ret;
      LastCreateErrorExtend(s, o, n, done.ret, ret);
      Scan(v.slots, ret, done.trace + v.trace)
  }

  /** Extending the last-error status by one slot: a failure there replaces
      it, otherwise it carries over. */
  lemma LastCreateErrorExtend(s: Slots, o: Oracles, n: nat, prev: int, ret: int)
    requires 0 < n <= N
    requires ret == (if CreateFails(s, o, n - 1) then o[n - 1].create.err else prev)
    requires prev != 0 ==> IsLastCreateError(s, o, n - 1, prev)
    ensures ret != 0 ==> IsLastCreateError(s, o, n, ret)
  {
    if CreateFails(s, o, n - 1) {
      assert CreateFails(s, o, n - 1) && ret == o[n - 1].create.err;
    } else if ret != 0 {
      var j :| 0 <= j < n - 1 && CreateFails(s, o, j) && prev == o[j].create.err &&
        forall k :: j < k < n - 1 ==> !CreateFails(s, o, k);
      assert forall k :: j < k < n ==> !CreateFails(s, o, k);
    }
  }

  /** The last step of a create phase over `n` slots: the phase over the
      first `n - 1`, then a visit of slot `n - 1`, which that phase left
      untouched. */
  lemma AddPhaseUnfold(s: Slots, o: Oracles, adevIdx: int, n: nat)
    requires 0 < n <= N
    ensures var done := AddPhase(s, o, adevIdx, n - 1);
      && done.slots[n - 1] == s[n - 1]
      && AddPhase(s, o, adevIdx, n).trace == done.trace + AddVisit(done.slots, o, adevIdx, n - 1).trace
  {
  }

  /** Every event of a create phase over `n` slots is the attempt on an
      empty slot below `n` that passes both gates. */
  lemma {:induction false} AddPhaseEvents(s: Slots, o: Oracles, adevIdx: int, n: nat)
    requires n <= N
    ensures forall e :: e in AddPhase(s, o, adevIdx, n).trace ==>
      e.slot < n && s[e.slot].None? && Wanted(o, e.slot) && e == Attempt(o, e.slot)
    decreases n
  {
    if n > 0 {
      AddPhaseUnfold(s, o, adevIdx, n);
      AddPhaseEvents(s, o, adevIdx, n - 1);
    }
  }

  /** A create phase visits slots from the lowest up. */
  lemma {:induction false} AddPhaseAscending(s: Slots, o: Oracles, adevIdx: int, n: nat)
    requires n <= N
    ensures Ascending(AddPhase(s, o, adevIdx, n).trace)
    decreases n
  {
    if n > 0 {
      var i: Index := n - 1;
      var done := AddPhase(s, o, adevIdx, i);
      AddPhaseUnfold(s, o, adevIdx, n);
      AddPhaseAscending(s, o, adevIdx, i);
      if AddVisit(done.slots, o, adevIdx, i).trace != [] {
        AddPhaseEvents(s, o, adevIdx, i);
        AscendingSnoc(done.trace, Attempt(o, i));
      }
    }
  }

  /** A create phase over `n` slots attempts every empty slot below `n` that
      passes both gates. */
  lemma {:induction false} AddPhaseComplete(s: Slots, o: Oracles, adevIdx: int, n: nat)
    requires n <= N
    ensures forall j :: 0 <= j < n && s[j].None? && Wanted(o, j) ==>
      Attempt(o, j) in AddPhase(s, o, adevIdx, n).trace
    decreases n
  {
    if n > 0 {
      AddPhaseUnfold(s, o, adevIdx, n);
      AddPhaseComplete(s, o, adevIdx, n - 1);
    }
  }

  /** A create phase that finds no empty slot wanting a child does nothing. */
  lemma {:induction false} AddPhaseQuiet(s: Slots, o: Oracles, adevIdx: int, n: nat)
    requires n <= N
    requires forall j :: 0 <= j < n && s[j].None? ==> !Wanted(o, j)
    ensures AddPhase(s, o, adevIdx, n) == Scan(s, 0, [])
    decreases n
  {
    if n > 0 {
      AddPhaseQuiet(s, o, adevIdx, n - 1);
      var v := AddVisit(s, o, adevIdx, n - 1);
      assert v == Scan(s, 0, []);
    }
  }

  /** What a rescan with neither DETACH nor DISABLE_ALL set leaves in slot `i`:
      a wanted slot keeps its child, or gets a new one if creation succeeds;
      an unwanted slot is emptied. */
  function Target(s: Slots, o: Oracles, adevIdx: int, i: Index): Option<Child> {
    if !Wanted(o, i) then None
    else if s[i].Some? then s[i]
    else if o[i].create.CreateOk? then Some(NewChild(i, adevIdx))
    else None
  }

  /** Slots `mid` are what a delete phase over all slots of `s` leaves. */
  predicate DeletedFrom(s: Slots, o: Oracles, deleteAll: bool, mid: Slots) {
    forall j {:trigger mid[j]} :: 0 <= j < N ==>
      mid[j] == (if !KeptByDelete(o, deleteAll, j) then None else s[j])
  }

  /** Slots `out` are what a create phase over all slots of `mid` leaves. */
  predicate CreatedFrom(mid: Slots, o: Oracles, adevIdx: int, out: Slots) {
    forall j {:trigger out[j]} :: 0 <= j < N ==> out[j] == AfterCreate(mid, o, adevIdx, j)
  }

  /** Deleting then creating reaches the target, and fails exactly where
      creating on the original slots would. */
  lemma ComposePhases(s: Slots, mid: Slots, out: Slots, o: Oracles, adevIdx: int)
    requires DeletedFrom(s, o, false, mid) && CreatedFrom(mid, o, adevIdx, out)
    ensures forall j {:trigger out[j]} :: 0 <= j < N ==> out[j] == Target(s, o, adevIdx, j)
    ensures forall j :: 0 <= j < N ==> CreateFails(mid, o, j) == CreateFails(s, o, j)
  {
    forall j | 0 <= j < N
      ensures out[j] == Target(s, o, adevIdx, j)
      ensures CreateFails(mid, o, j) == CreateFails(s, o, j)
    {
      assert mid[j] == (if !KeptByDelete(o, false, j) then None else s[j]);
    }
  }

  /** Two slot arrays with the same failing creations have the same last
      failure. */
  lemma LastCreateErrorTransfer(s1: Slots, s2: Slots, o: Oracles, n: nat, ret: int)
    requires n <= N
    requires forall j :: 0 <= j < N ==> CreateFails(s1, o, j) == CreateFails(s2, o, j)
    ensures IsLastCreateError(s1, o, n, ret) ==> IsLastCreateError(s2, o, n, ret)
  {
    if IsLastCreateError(s1, o, n, ret) {
      var w :| 0 <= w < n && CreateFails(s1, o, w) && ret == o[w].create.err &&
        forall k :: w < k < n ==> !CreateFails(s1, o, k);
      assert CreateFails(s2, o, w);
    }
  }

  /** Slots at their target hold only the children creating them builds. */
  lemma TargetConsistent(d: Device, o: Oracles, out: Slots)
    requires forall j {:trigger out[j]} :: 0 <= j < N ==> out[j] == Target(d.slots, o, d.adevIdx, j)
    ensures Consistent(d) ==> Consistent(d.(slots := out))
  {
    if Consistent(d) {
      forall j | 0 <= j < N && out[j].Some?
        ensures out[j].value == NewChild(j, d.adevIdx)
      {
        assert out[j] == Target(d.slots, o, d.adevIdx, j);
      }
    }
  }

  /** `mlx5_rescan_drivers_locked`: a no-op while detached; otherwise delete,
      then (unless lightweight) create. */
  function RescanDrivers(d: Device, o: Oracles): (r: Outcome)
    ensures r.dev.flags == d.flags && r.dev.adevIdx == d.adevIdx
    ensures Detach in d.flags ==> r == Outcome(d, 0, [])
    ensures Detach !in d.flags && DisableAll in d.flags ==> AllEmpty(r.dev.slots) && r.ret == 0
    ensures Detach !in d.flags && DisableAll !in d.flags ==>
      && (forall i {:trigger r.dev.slots[i]} :: 0 <= i < N ==>
            r.dev.slots[i] == Target(d.slots, o, d.adevIdx, i))
      && (r.ret == 0 <==> forall i :: 0 <= i < N ==> !CreateFails(d.slots, o, i))
      && (r.ret != 0 ==> IsLastCreateError(d.slots, o, N, r.ret))
    ensures Consistent(d) ==> Consistent(r.dev)
  {
    if Detach in d.flags then Outcome(d, 0, [])
    else
      var del := DeletePhase(d.slots, o, DisableAll in d.flags, |d.slots|);
      if DisableAll in d.flags then
        Outcome(d.(slots := del.slots), 0, del.trace)
      else
        var add := AddPhase(del.slots, o, d.adevIdx, |del.slots|);
        ComposePhases(d.slots, del.slots, add.slots, o, d.adevIdx);
        LastCreateErrorTransfer(del.slots, d.slots, o, N, add.ret);
        TargetConsistent(d, o, add.slots);
        Outcome(d.(slots := add.slots), add.ret, del.trace + add.trace)
  }

  /** After a rescan with neither DETACH nor DISABLE_ALL set, every present
      slot passes its gates, and a wanted slot is empty only when creating
      its child failed. */
  lemma RescanGated(d: Device, o: Oracles)
    requires Detach !in d.flags && DisableAll !in d.flags
    ensures forall j: Index :: RescanDrivers(d, o).dev.slots[j].Some? ==> Wanted(o, j)
    ensures forall j: Index :: RescanDrivers(d, o).dev.slots[j].None? && Wanted(o, j) ==>
      CreateFails(d.slots, o, j)
  {
    var out := RescanDrivers(d, o).dev.slots;
    forall j: Index
      ensures out[j].Some? ==> Wanted(o, j)
      ensures out[j].None? && Wanted(o, j) ==> CreateFails(d.slots, o, j)
    {
      assert out[j] == Target(d.slots, o, d.adevIdx, j);
    }
  }

  /** What a rescan does, in order: deletions first, from the highest slot
      down, then creations from the lowest slot up; it deletes exactly the
      present slots the delete phase rejects and attempts exactly the empty
      slots that should hold a child, so nothing is created twice and nothing
      correct is deleted. */
  predicate RescanOrder(s: Slots, o: Oracles, detach: bool, deleteAll: bool, t: seq<Event>) {
    && DeletesThenCreates(t)
    && (forall e :: e in t ==> e == Deleted(e.slot) || e == Attempt(o, e.slot))
    && (forall j: Index :: Deleted(j) in t <==>
          !detach && s[j].Some? && !KeptByDelete(o, deleteAll, j))
    && (forall j: Index :: Attempt(o, j) in t <==>
          !detach && !deleteAll && s[j].None? && Wanted(o, j))
  }

  /** A delete phase's events followed by a create phase's events on the
      slots it left are in rescan order. */
  lemma ConcatOrder(s: Slots, mid: Slots, o: Oracles, deleteAll: bool, del: seq<Event>, add: seq<Event>)
    requires DeletedFrom(s, o, deleteAll, mid)
    requires Descending(del)
    requires forall e :: e in del ==>
      e == Deleted(e.slot) && s[e.slot].Some? && !KeptByDelete(o, deleteAll, e.slot)
    requires forall j: Index :: s[j].Some? && !KeptByDelete(o, deleteAll, j) ==> Deleted(j) in del
    requires Ascending(add)
    requires forall e :: e in add ==> mid[e.slot].None? && Wanted(o, e.slot) && e == Attempt(o, e.slot)
    requires forall j: Index :: !deleteAll && mid[j].None? && Wanted(o, j) ==> Attempt(o, j) in add
    requires deleteAll ==> add == []
    ensures RescanOrder(s, o, false, deleteAll, del + add)
  {
    DeletesThenCreatesConcat(del, add);
    forall j: Index
      ensures Attempt(o, j) in del + add <==> !deleteAll && s[j].None? && Wanted(o, j)
    {
      assert mid[j] == (if !KeptByDelete(o, deleteAll, j) then None else s[j]);
    }
  }

  /** A rescan's trace is in rescan order. */
  lemma RescanTrace(d: Device, o: Oracles)
    ensures RescanOrder(d.slots, o, Detach in d.flags, DisableAll in d.flags, RescanDrivers(d, o).trace)
  {
    if Detach !in d.flags {
      var s := d.slots;
      var deleteAll := DisableAll in d.flags;
      var del := DeletePhase(s, o, deleteAll, |s|);
      DeletePhaseTrace(s, o, deleteAll, |s|);
      if deleteAll {
        assert RescanDrivers(d, o).trace == del.trace + [];
        ConcatOrder(s, del.slots, o, deleteAll, del.trace, []);
      } else {
        var add := AddPhase(del.slots, o, d.adevIdx, |del.slots|);
        AddPhaseEvents(del.slots, o, d.adevIdx, |del.slots|);
        AddPhaseAscending(del.slots, o, d.adevIdx, |del.slots|);
        AddPhaseComplete(del.slots, o, d.adevIdx, |del.slots|);
        ConcatOrder(s, del.slots, o, deleteAll, del.trace, add.trace);
      }
    }
  }

  /** The status of a create phase names one failure: the highest one. */
  lemma LastCreateErrorUnique(s: Slots, o: Oracles, n: nat, a: int, b: int)
    requires n <= N
    requires IsLastCreateError(s, o, n, a) && IsLastCreateError(s, o, n, b)
    ensures a == b
  {
    var ja :| 0 <= ja < n && CreateFails(s, o, ja) && a == o[ja].create.err &&
      forall k :: ja < k < n ==> !CreateFails(s, o, k);
    var jb :| 0 <= jb < n && CreateFails(s, o, jb) && b == o[jb].create.err &&
      forall k :: jb < k < n ==> !CreateFails(s, o, k);
    assert ja == jb;
  }

  /** Reaching the target a second time changes nothing, and the slots at
      their target fail to create exactly where the original slots did. */
  lemma TargetStable(s: Slots, o: Oracles, adevIdx: int, s1: Slots, s2: Slots)
    requires forall j {:trigger s1[j]} :: 0 <= j < N ==> s1[j] == Target(s, o, adevIdx, j)
    requires forall j {:trigger s2[j]} :: 0 <= j < N ==> s2[j] == Target(s1, o, adevIdx, j)
    ensures s2 == s1
    ensures forall j :: 0 <= j < N ==> CreateFails(s1, o, j) == CreateFails(s, o, j)
  {
    forall j | 0 <= j < N
      ensures s2[j] == s1[j]
      ensures CreateFails(s1, o, j) == CreateFails(s, o, j)
    {
      assert s1[j] == Target(s, o, adevIdx, j);
      assert s2[j] == Target(s1, o, adevIdx, j);
    }
  }

  /** Rescan is idempotent: a second rescan with the same oracles leaves the
      device as the first left it and reports the same status. */
  lemma RescanIdempotent(d: Device, o: Oracles)
    ensures var r1 := RescanDrivers(d, o); var r2 := RescanDrivers(r1.dev, o);
      r2.dev == r1.dev && r2.ret == r1.ret
  {
    var r1 := RescanDrivers(d, o);
    var r2 := RescanDrivers(r1.dev, o);
    if Detach !in d.flags && DisableAll in d.flags {
      assert r2.dev.slots == r1.dev.slots;
    } else if Detach !in d.flags {
      TargetStable(d.slots, o, d.adevIdx, r1.dev.slots, r2.dev.slots);
      if r1.ret != 0 {
        LastCreateErrorTransfer(d.slots, r1.dev.slots, o, N, r1.ret);
        LastCreateErrorUnique(r1.dev.slots, o, N, r1.ret, r2.ret);
      }
    }
  }

  /** Slots that reached their target with no failed creation hold a child
      exactly where one is wanted. */
  lemma TargetSettled(s: Slots, o: Oracles, adevIdx: int, s1: Slots)
    requires forall j {:trigger s1[j]} :: 0 <= j < N ==> s1[j] == Target(s, o, adevIdx, j)
    requires forall j :: 0 <= j < N ==> !CreateFails(s, o, j)
    ensures forall j :: 0 <= j < N && s1[j].Some? ==> KeptByDelete(o, false, j)
    ensures forall j :: 0 <= j < N && s1[j].None? ==> !Wanted(o, j)
  {
    forall j | 0 <= j < N
      ensures s1[j].Some? ==> KeptByDelete(o, false, j)
      ensures s1[j].None? ==> !Wanted(o, j)
    {
      assert s1[j] == Target(s, o, adevIdx, j);
      assert !CreateFails(s, o, j);
    }
  }

  /** After a rescan that reported success, a second rescan with the same
      oracles neither deletes nor attempts to create anything. */
  lemma RescanSettled(d: Device, o: Oracles)
    requires RescanDrivers(d, o).ret == 0
    ensures RescanDrivers(RescanDrivers(d, o).dev, o).trace == []
  {
    var d1 := RescanDrivers(d, o).dev;
    if Detach !in d.flags {
      if DisableAll in d.flags {
        DeletePhaseQuiet(d1.slots, o, true, |d1.slots|);
      } else {
        TargetSettled(d.slots, o, d.adevIdx, d1.slots);
        DeletePhaseQuiet(d1.slots, o, false, |d1.slots|);
        AddPhaseQuiet(d1.slots, o, d1.adevIdx, |d1.slots|);
      }
    }
  }

  /** Whatever the first rescan reported, a second rescan with the same
      oracles deletes nothing, and it retries only slots whose creation
      failed the first time. */
  lemma RescanDeletesOnce(d: Device, o: Oracles)
    ensures forall j: Index :: Deleted(j) !in RescanDrivers(RescanDrivers(d, o).dev, o).trace
    ensures forall j: Index :: Attempt(o, j) in RescanDrivers(RescanDrivers(d, o).dev, o).trace ==>
      CreateFails(d.slots, o, j)
  {
    var d1 := RescanDrivers(d, o).dev;
    var t := RescanDrivers(d1, o).trace;
    RescanTrace(d1, o);
    if Detach !in d.flags && DisableAll !in d.flags {
      RescanGated(d, o);
      forall j: Index
        ensures Deleted(j) !in t
        ensures Attempt(o, j) in t ==> CreateFails(d.slots, o, j)
      {
        assert d1.slots[j].Some? ==> KeptByDelete(o, false, j);
      }
    }
  }

  /** With DISABLE_ALL set, what the delete phase does depends on neither
      predicate, nor on anything else the oracles report. */
  lemma {:induction false} DeleteAllIgnoresOracles(s: Slots, o1: Oracles, o2: Oracles, n: nat)
    requires n <= N
    ensures DeletePhase(s, o1, true, n) == DeletePhase(s, o2, true, n)
    decreases n
  {
    if n > 0 {
      var i: Index := n - 1;
      var v := DeleteVisit(s, o1, true, i);
      assert v == DeleteVisit(s, o2, true, i);
      DeleteAllIgnoresOracles(v.slots, o1, o2, i);
    }
  }

  /** A rescan of a lightweight device gives the same outcome whatever the
      oracles report. */
  lemma LightweightRescanIgnoresOracles(d: Device, o1: Oracles, o2: Oracles)
    requires DisableAll in d.flags
    ensures RescanDrivers(d, o1) == RescanDrivers(d, o2)
  {
    DeleteAllIgnoresOracles(d.slots, o1, o2, |d.slots|);
  }
}
