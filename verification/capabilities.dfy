/**
 * The boolean structure of the feature table's predicates, over an abstract
 * record of the device's configuration options and capability bits. The
 * four InfiniBand-side predicates are coupled: at most one of rdma,
 * rdma-rep and multiport is supported, and rdma-rep needs eth-rep.
 */
module Capabilities {
  import opened Adev
  import opened Rescan
  import opened Lifecycle

  /** The configuration options and capability bits the predicates read. A
      numeric capability that is only tested for being nonzero is a bool. */
  datatype Caps = Caps(
    configEswitch: bool,        // CONFIG_MLX5_ESWITCH
    configCoreEn: bool,         // CONFIG_MLX5_CORE_EN
    configVdpaNet: bool,        // CONFIG_MLX5_VDPA_NET
    configInfiniband: bool,     // CONFIG_MLX5_INFINIBAND
    configDpll: bool,           // CONFIG_MLX5_DPLL
    eswitchManager: bool,
    switchdevMode: bool,
    portTypeEth: bool,          // port_type is the Ethernet port type
    ethNetOffloads: bool,
    nicFlowTable: bool,
    csumCap: bool,
    maxLsoCap: bool,
    vlanCap: bool,
    rssIndTblCap: bool,
    maxFtLevel: int,            // max_ft_level of the NIC receive flow table
    isPf: bool,
    virtioNetQueue: bool,       // general_obj_types has the virtio-net queue bit
    qpEventMode: bool,          // the vDPA event_mode has the QP mode bit
    ethFrameOffload: bool,
    mpEnabled: bool,            // multiport already enabled on the device
    mpSlave: bool,
    synceRegisters: bool,
    uctxCap: bool,
    isSf: bool)

  /** The result of reading a boolean devlink driver-init parameter: its
      value, or a failed read (a nonzero return; its errno is never used). */
  datatype ParamRead = ParamValue(value: bool) | ParamError

  /** A parameter that could not be read counts as off. */
  predicate ParamOn(p: ParamRead) {
    p.ParamValue? && p.value
  }

  /** The administrative switches behind the three enabled predicates. */
  datatype Admin = Admin(ethEnabled: bool, enableRdma: ParamRead, enableVnet: ParamRead)

  predicate EthRepSupported(c: Caps) {
    c.configEswitch && c.eswitchManager && c.switchdevMode
  }

  /** Eth needs every listed offload and a receive flow table at least three
      levels deep; the self-loopback and CQ-moderation checks only warn. */
  predicate EthSupported(c: Caps) {
    && c.configCoreEn && c.portTypeEth && c.ethNetOffloads && c.nicFlowTable
    && c.csumCap && c.maxLsoCap && c.vlanCap && c.rssIndTblCap
    && c.maxFtLevel >= 3
  }

  predicate VnetSupported(c: Caps) {
    c.configVdpaNet && !c.isPf && c.virtioNetQueue && c.qpEventMode && c.ethFrameOffload
  }

  predicate IbRepSupported(c: Caps, flags: set<Flag>) {
    c.configInfiniband && DisableIbAdev !in flags && EthRepSupported(c) && !c.mpEnabled
  }

  predicate MpSupported(c: Caps, flags: set<Flag>) {
    c.configInfiniband && DisableIbAdev !in flags && !IbRepSupported(c, flags)
    && c.portTypeEth && c.mpSlave
  }

  predicate RdmaSupported(c: Caps, flags: set<Flag>) {
    c.configInfiniband && DisableIbAdev !in flags && !IbRepSupported(c, flags)
    && !MpSupported(c, flags)
  }

  predicate DpllSupported(c: Caps) {
    c.configDpll && c.synceRegisters
  }

  /** fwctl is kept off sub-functions. */
  predicate FwctlSupported(c: Caps) {
    c.uctxCap && !c.isSf
  }

  /** The supported predicate of table entry `i`. */
  predicate Supported(c: Caps, flags: set<Flag>, i: Index) {
    if i == Eth then EthSupported(c)
    else if i == EthRep then EthRepSupported(c)
    else if i == Rdma then RdmaSupported(c, flags)
    else if i == RdmaRep then IbRepSupported(c, flags)
    else if i == Multiport then MpSupported(c, flags)
    else if i == Vnet then VnetSupported(c)
    else if i == Dpll then DpllSupported(c)
    else FwctlSupported(c)
  }

  /** The enabled predicate of table entry `i`; entries without one read as
      enabled, which the table's gate makes irrelevant. */
  predicate Enabled(a: Admin, i: Index) {
    if i == Eth then a.ethEnabled
    else if i == Rdma then ParamOn(a.enableRdma)
    else if i == Vnet then ParamOn(a.enableVnet)
    else true
  }

  /** The oracles of one call on a device with capabilities `c` and flag
      word `flags`: the two predicates computed, creation outcomes and bound
      drivers taken from `rest`. Whatever the capabilities, a call sees at
      most one InfiniBand personality supported, rdma-rep only together with
      eth-rep, and none of the three while DISABLE_IB_ADEV is set. */
  function Probes(c: Caps, flags: set<Flag>, a: Admin, rest: Oracles): (o: Oracles)
    ensures forall i: Index :: o[i].supported == Supported(c, flags, i)
    ensures forall i: Index :: o[i].enabled == Enabled(a, i)
    ensures forall i: Index :: o[i].create == rest[i].create && o[i].driver == rest[i].driver
    ensures !(o[Rdma].supported && o[RdmaRep].supported)
    ensures !(o[Rdma].supported && o[Multiport].supported)
    ensures !(o[RdmaRep].supported && o[Multiport].supported)
    ensures o[RdmaRep].supported ==> o[EthRep].supported
    ensures DisableIbAdev in flags ==>
      !o[Rdma].supported && !o[RdmaRep].supported && !o[Multiport].supported
  {
    seq(N, (i: int) requires 0 <= i < N =>
      Probe(Enabled(a, i), Supported(c, flags, i), rest[i].create, rest[i].driver))
  }

  /** At most one of rdma, rdma-rep and multiport is supported. */
  lemma IbPersonalitiesExclusive(c: Caps, flags: set<Flag>)
    ensures !(RdmaSupported(c, flags) && IbRepSupported(c, flags))
    ensures !(RdmaSupported(c, flags) && MpSupported(c, flags))
    ensures !(IbRepSupported(c, flags) && MpSupported(c, flags))
  {
  }

  /** One of the three InfiniBand personalities is supported exactly when
      InfiniBand is configured and not disabled on the device. */
  lemma IbPersonalityPresent(c: Caps, flags: set<Flag>)
    ensures RdmaSupported(c, flags) || IbRepSupported(c, flags) || MpSupported(c, flags)
      <==> c.configInfiniband && DisableIbAdev !in flags
  {
  }

  /** The rdma representor needs the Ethernet representor. */
  lemma IbRepNeedsEthRep(c: Caps, flags: set<Flag>)
    ensures IbRepSupported(c, flags) ==> EthRepSupported(c)
  {
  }

  /** DISABLE_IB_ADEV turns off the three InfiniBand personalities and no
      other supported predicate. */
  lemma DisableIbAdevHidesIb(c: Caps, flags: set<Flag>)
    requires DisableIbAdev in flags
    ensures forall i: Index :: Supported(c, flags, i) <==>
      i !in {Rdma, RdmaRep, Multiport} && Supported(c, flags - {DisableIbAdev}, i)
  {
  }

  /** After a rescan with neither DETACH nor DISABLE_ALL set, at most one
      InfiniBand child is present. */
  lemma RescanKeepsIbExclusive(d: Device, c: Caps, a: Admin, rest: Oracles)
    requires Detach !in d.flags && DisableAll !in d.flags
    ensures var s := RescanDrivers(d, Probes(c, d.flags, a, rest)).dev.slots;
      && !(s[Rdma].Some? && s[RdmaRep].Some?)
      && !(s[Rdma].Some? && s[Multiport].Some?)
      && !(s[RdmaRep].Some? && s[Multiport].Some?)
  {
    var o := Probes(c, d.flags, a, rest);
    var s := RescanDrivers(d, o).dev.slots;
    IbPersonalitiesExclusive(c, d.flags);
    assert s[Rdma] == Target(d.slots, o, d.adevIdx, Rdma);
    assert s[RdmaRep] == Target(d.slots, o, d.adevIdx, RdmaRep);
    assert s[Multiport] == Target(d.slots, o, d.adevIdx, Multiport);
  }

  /** Of the flag word, the oracles read only DISABLE_IB_ADEV. */
  lemma ProbesReadOnlyIbFlag(c: Caps, f1: set<Flag>, f2: set<Flag>, a: Admin, rest: Oracles)
    requires (DisableIbAdev in f1) == (DisableIbAdev in f2)
    ensures Probes(c, f1, a, rest) == Probes(c, f2, a, rest)
  {
    var o1 := Probes(c, f1, a, rest);
    var o2 := Probes(c, f2, a, rest);
    forall i: Index
      ensures o1[i] == o2[i]
    {
      assert o1[i].supported == o2[i].supported;
    }
  }

  /** Registering a freshly set up device, unregistering it and registering
      it again, each call reading the device's own capabilities, ends with
      the same children and status as the first register, provided the
      InfiniBand personalities were not disabled. */
  lemma RegisterUnregisterRegister(d: Device, c: Caps, a: Admin, rest: Oracles, ou: Oracles)
    requires Detach !in d.flags && DisableIbAdev !in d.flags && AllEmpty(d.slots)
    ensures var r1 := RegisterDevice(d, Probes(c, d.flags, a, rest));
      var u := UnregisterDevice(r1.dev, ou).dev;
      var r2 := RegisterDevice(u, Probes(c, u.flags, a, rest));
      r2.dev.slots == r1.dev.slots && r2.ret == r1.ret
  {
    ProbesReadOnlyIbFlag(c, {DisableAll}, d.flags, a, rest);
    RegisterAgain(d, Probes(c, d.flags, a, rest), ou);
  }

  /** InfiniBand is configured, neither representor nor multiport is
      possible, and rdma is enabled. */
  predicate PlainRdma(c: Caps, a: Admin) {
    c.configInfiniband && !EthRepSupported(c) && !c.mpSlave && ParamOn(a.enableRdma)
  }

  /** On such a device the rdma slot is unwanted while DISABLE_IB_ADEV is
      set, and wanted once the flag word is just DISABLE_ALL. */
  lemma PlainRdmaProbes(c: Caps, flags: set<Flag>, a: Admin, rest: Oracles)
    requires DisableIbAdev in flags && PlainRdma(c, a) && AllCreatesSucceed(rest)
    ensures !Wanted(Probes(c, flags, a, rest), Rdma)
    ensures Wanted(Probes(c, {DisableAll}, a, rest), Rdma)
    ensures AllCreatesSucceed(Probes(c, {DisableAll}, a, rest))
  {
    var o2 := Probes(c, {DisableAll}, a, rest);
    assert !IbRepSupported(c, {DisableAll}) && !MpSupported(c, {DisableAll});
    assert Supported(c, {DisableAll}, Rdma) && Enabled(a, Rdma);
    forall j: Index
      ensures o2[j].create.CreateOk?
    {
      assert o2[j].create == rest[j].create;
    }
  }

  /** Unregister forgets DISABLE_IB_ADEV. On a device where it is set, with
      InfiniBand configured, neither representor nor multiport possible,
      rdma enabled and every creation succeeding, the first register leaves
      rdma empty while a register after unregister creates it. */
  lemma UnregisterReenablesIb(d: Device, c: Caps, a: Admin, rest: Oracles)
    requires DisableIbAdev in d.flags && Detach !in d.flags && d.slots[Rdma].None?
    requires PlainRdma(c, a) && AllCreatesSucceed(rest)
    ensures var r1 := RegisterDevice(d, Probes(c, d.flags, a, rest));
      var u := UnregisterDevice(r1.dev, rest).dev;
      var r2 := RegisterDevice(u, Probes(c, u.flags, a, rest));
      r1.dev.slots[Rdma].None? && r2.dev.slots[Rdma].Some?
  {
    var o1 := Probes(c, d.flags, a, rest);
    PlainRdmaProbes(c, d.flags, a, rest);
    ReRegisterFills(d, o1, rest, Probes(c, {DisableAll}, a, rest), Rdma);
    assert UnregisterDevice(RegisterDevice(d, o1).dev, rest).dev.flags == {DisableAll};
  }
}
