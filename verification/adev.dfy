/**
 * Vocabulary of the mlx5 child-personality ("auxiliary device") lifecycle:
 * the feature table in protocol-enum order, the per-device slot array and
 * flag word, the per-call oracles standing in for capability reads,
 * administrative switches, child creation and bound auxiliary drivers, and
 * the events a lifecycle call emits in visiting order.
 */
module Adev {

  datatype Option<+T> = None | Some(value: T)

  /** Number of personalities: the length of the feature table. */
  const N: nat := 8

  /** A slot index, that is, a position in the feature table. */
  type Index = i: nat | i < N

  // Slot indices, in the order of the protocol enum.
  const Eth: Index := 0
  const EthRep: Index := 1
  const Rdma: Index := 2
  const RdmaRep: Index := 3
  const Multiport: Index := 4
  const Vnet: Index := 5
  const Dpll: Index := 6
  const Fwctl: Index := 7

  /** One feature-table entry: the child's name suffix and which of the two
      predicates (`is_supported`, `is_enabled`) the entry provides. */
  datatype Descriptor = Descriptor(suffix: string, hasSupported: bool, hasEnabled: bool)

  /** The feature table. Every entry has a supported predicate; only eth,
      rdma and vnet also have an enabled predicate. */
  const Table: seq<Descriptor> := [
    Descriptor("eth", true, true),
    Descriptor("eth-rep", true, false),
    Descriptor("rdma", true, true),
    Descriptor("rdma-rep", true, false),
    Descriptor("multiport", true, false),
    Descriptor("vnet", true, true),
    Descriptor("dpll", true, false),
    Descriptor("fwctl", true, false)
  ]

  /** The per-device flag word. */
  datatype Flag = Detach | DisableAll | DisableIbAdev

  /** A live child: its slot, its name (the table suffix) and its id (the
      device's `adev_idx`, shared by all children of one device). */
  datatype Child = Child(slot: Index, name: string, id: int)

  /** The child that creating slot `i` of a device with index `adevIdx` builds. */
  function NewChild(i: Index, adevIdx: int): Child {
    Child(i, Table[i].suffix, adevIdx)
  }

  /** The slot array: one optional child per table entry. */
  type Slots = s: seq<Option<Child>> | |s| == N
    witness [None, None, None, None, None, None, None, None]

  predicate AllEmpty(s: Slots) {
    forall i :: 0 <= i < N ==> s[i].None?
  }

  /** There is only one slot array with every slot empty. */
  lemma AllEmptyUnique(s1: Slots, s2: Slots)
    requires AllEmpty(s1) && AllEmpty(s2)
    ensures s1 == s2
  {
    forall j | 0 <= j < N
      ensures s1[j] == s2[j]
    {
    }
  }

  /** A device: its slots, its flag word and its child-name index. */
  datatype Device = Device(slots: Slots, flags: set<Flag>, adevIdx: int)

  /** Every present slot holds exactly the child that creating it builds. */
  predicate Consistent(d: Device) {
    forall i :: 0 <= i < N && d.slots[i].Some? ==> d.slots[i].value == NewChild(i, d.adevIdx)
  }

  /** A kernel error code, in the range an ERR_PTR value can carry. */
  type Errno = e: int | -4095 <= e <= -1 witness -12

  /** The outcome of creating and registering one child. */
  datatype CreateOutcome = CreateOk | CreateErr(err: Errno)

  /** An auxiliary driver bound to a child: whether it has a suspend hook,
      and, if it has a resume hook, what that hook returns. */
  datatype Driver = Driver(hasSuspend: bool, resume: Option<int>)

  /** What a lifecycle call learns from outside about one slot, fixed for
      the call: the entry's two predicates, the outcome of creating its
      child, and the driver bound to its child (None when none is bound). */
  datatype Probe = Probe(
    enabled: bool,
    supported: bool,
    create: CreateOutcome,
    driver: Option<Driver>)

  /** One probe per table entry. */
  type Oracles = o: seq<Probe> | |o| == N
    witness seq(N, _ => Probe(false, false, CreateOk, None))

  /** Every creation succeeds. */
  predicate AllCreatesSucceed(o: Oracles) {
    forall i: Index :: o[i].create.CreateOk?
  }

  /** Passes the enabled gate: the entry has no enabled predicate, or it holds. */
  predicate EnabledGate(o: Oracles, i: Index) {
    !Table[i].hasEnabled || o[i].enabled
  }

  /** Passes the supported gate; an entry without a supported predicate fails it. */
  predicate SupportedGate(o: Oracles, i: Index) {
    Table[i].hasSupported && o[i].supported
  }

  /** Slot `i` should hold a child. */
  predicate Wanted(o: Oracles, i: Index) {
    EnabledGate(o, i) && SupportedGate(o, i)
  }

  /** Slot `i` is empty, passes both gates, and creating it fails. */
  predicate CreateFails(s: Slots, o: Oracles, i: Index) {
    s[i].None? && Wanted(o, i) && o[i].create.CreateErr?
  }

  /** Slot `i` once a create pass has visited it. */
  function AfterCreate(s: Slots, o: Oracles, adevIdx: int, i: Index): Option<Child> {
    if s[i].None? && Wanted(o, i) && o[i].create.CreateOk? then Some(NewChild(i, adevIdx)) else s[i]
  }

  /** `ret` is the error of the highest slot below `n` whose creation fails. */
  predicate IsLastCreateError(s: Slots, o: Oracles, n: nat, ret: int)
    requires n <= N
  {
    exists j :: 0 <= j < n && CreateFails(s, o, j) && ret == o[j].create.err &&
      forall k :: j < k < n ==> !CreateFails(s, o, k)
  }

  /** What a lifecycle call did to one slot, in the order it did it. */
  datatype Event =
    | Deleted(slot: Index)
    | Suspended(slot: Index)
    | Created(slot: Index)
    | CreateFailed(slot: Index, err: Errno)
    | Resumed(slot: Index, ret: int)

  /** The event a create attempt on slot `i` emits. */
  function Attempt(o: Oracles, i: Index): Event {
    match o[i].create
    case CreateOk => Created(i)
    case CreateErr(e) => CreateFailed(i, e)
  }

  predicate Ascending(t: seq<Event>) {
    forall a, b :: 0 <= a < b < |t| ==> t[a].slot < t[b].slot
  }

  predicate Descending(t: seq<Event>) {
    forall a, b :: 0 <= a < b < |t| ==> t[a].slot > t[b].slot
  }

  /** Putting an event in front of an ascending trace whose slots all lie above it. */
  lemma AscendingCons(e: Event, t: seq<Event>)
    requires Ascending(t)
    requires forall x :: x in t ==> e.slot < x.slot
    ensures Ascending([e] + t)
  {
    var u := [e] + t;
    forall a, b | 0 <= a < b < |u|
      ensures u[a].slot < u[b].slot
    {
      assert u[b] == t[b - 1];
      if a > 0 {
        assert u[a] == t[a - 1];
      } else {
        assert t[b - 1] in t;
      }
    }
  }

  /** Appending an event to an ascending trace whose slots all lie below it. */
  lemma AscendingSnoc(t: seq<Event>, e: Event)
    requires Ascending(t)
    requires forall x :: x in t ==> x.slot < e.slot
    ensures Ascending(t + [e])
  {
    var u := t + [e];
    forall a, b | 0 <= a < b < |u|
      ensures u[a].slot < u[b].slot
    {
      assert u[a] == t[a];
      if b < |t| {
        assert u[b] == t[b];
      } else {
        assert t[a] in t;
      }
    }
  }

  /** Putting an event in front of a descending trace whose slots all lie below it. */
  lemma DescendingCons(e: Event, t: seq<Event>)
    requires Descending(t)
    requires forall x :: x in t ==> x.slot < e.slot
    ensures Descending([e] + t)
  {
    var u := [e] + t;
    forall a, b | 0 <= a < b < |u|
      ensures u[a].slot > u[b].slot
    {
      assert u[b] == t[b - 1];
      if a > 0 {
        assert u[a] == t[a - 1];
      } else {
        assert t[b - 1] in t;
      }
    }
  }

  /** Every deletion precedes every other event; deletions go from the highest
      slot down, the other events from the lowest slot up. */
  predicate DeletesThenCreates(t: seq<Event>) {
    forall a, b :: 0 <= a < b < |t| ==>
      if t[b].Deleted? then t[a].Deleted? && t[a].slot > t[b].slot
      else t[a].Deleted? || t[a].slot < t[b].slot
  }

  /** A descending run of deletions followed by an ascending run of other
      events is in rescan order. */
  lemma DeletesThenCreatesConcat(del: seq<Event>, add: seq<Event>)
    requires Descending(del) && forall e :: e in del ==> e.Deleted?
    requires Ascending(add) && forall e :: e in add ==> !e.Deleted?
    ensures DeletesThenCreates(del + add)
  {
    var t := del + add;
    forall a, b | 0 <= a < b < |t|
      ensures if t[b].Deleted? then t[a].Deleted? && t[a].slot > t[b].slot
              else t[a].Deleted? || t[a].slot < t[b].slot
    {
      if b < |del| {
        assert t[a] == del[a] && t[b] == del[b];
      } else if a < |del| {
        assert t[a] == del[a] && del[a] in del;
        assert t[b] == add[b - |del|] && add[b - |del|] in add;
      } else {
        assert t[a] == add[a - |del|] && t[b] == add[b - |del|];
        assert add[b - |del|] in add;
      }
    }
  }
}
