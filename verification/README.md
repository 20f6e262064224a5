# mlx5 child-personality lifecycle, modelled in Dafny

An mlx5 core device exposes its functions to other kernel drivers as
auxiliary "child" devices, one per personality: eth, eth-rep, rdma,
rdma-rep, multiport, vnet, dpll and fwctl. `dev.c` keeps one slot per
personality and a flag word with three flags:

- DETACH: the device is between reset phases.
- DISABLE_ALL: the device is lightweight, or is being unregistered.
- DISABLE_IB_ADEV: the InfiniBand personalities are turned off.

It reconciles the slots with what the hardware and the administrator
currently allow:

- `mlx5_rescan_drivers_locked` deletes what is no longer wanted, from the
  highest slot down. Unless the device is lightweight, it then creates what
  is missing, from the lowest slot up, and keeps going after a failure.
- `mlx5_attach_device` clears DETACH and brings the children back after a
  reset. It creates missing children and resumes present ones, and stops at
  the first failure.
- `mlx5_detach_device` suspends the children whose driver can be suspended
  and deletes the rest, from the highest slot down. It then sets DETACH.
- `mlx5_register_device` and `mlx5_unregister_device` run the first and the
  last rescan of a device. `mlx5_dev_set_lightweight` and
  `mlx5_dev_is_lightweight` manage DISABLE_ALL.

The model is functional:

- A device is a length-8 sequence of optional children, a flag set and the
  device's child-name index.
- Everything a call learns from outside is an input fixed for the duration
  of the call, one `Probe` per slot:
  - the entry's enabled and supported predicates;
  - the outcome of creating its child, success or an errno;
  - the auxiliary driver bound to its child: whether it has a suspend hook,
    and what its resume hook returns, if it has one.
- Every loop is a recursion over the slot index.
- When attach fails, the failing slot is empty only if a creation failed.
  A resume hook that fails leaves its child in the slot, as the code does.
- Every call returns the trace of events it emitted (deleted, suspended,
  created, creation failed, resumed). Visiting order and completeness are
  therefore checkable postconditions.

Modules:

- `Adev` (adev.dfy): the feature table in enum order, slots, flags, probes,
  gates and events.
- `Rescan` (rescan.dfy): the delete phase, the create phase and the rescan.
- `Lifecycle` (lifecycle.dfy): attach, detach, register, unregister and the
  lightweight switch.
- `Capabilities` (capabilities.dfy): the boolean structure of the
  `*_supported` and `*_enabled` predicates, over an abstract record of
  configuration options and capability bits.

## Model

| member | source | states |
|---|---|---|
| Rescan.DeletePhase | drivers/net/ethernet/mellanox/mlx5/core/dev.c:515-547 | the delete loop empties exactly the slots whose enabled predicate fails, or whose supported predicate fails; with DISABLE_ALL it skips the supported predicate and treats it as false; every other slot is unchanged |
| Rescan.DeletePhaseTrace | drivers/net/ethernet/mellanox/mlx5/core/dev.c:523-546 | the delete loop deletes every present slot it does not keep, only those, and deletes them from the highest slot down |
| Rescan.DeleteAllIgnoresOracles | drivers/net/ethernet/mellanox/mlx5/core/dev.c:521-545 | with DISABLE_ALL the delete loop's outcome does not depend on the predicates or on any other input |
| Rescan.AddPhase | drivers/net/ethernet/mellanox/mlx5/core/dev.c:480-513 | the create loop fills every empty slot that passes both gates and whose creation succeeds; a failed slot stays empty and later slots are still attempted; it returns 0 iff no creation failed, otherwise the error of the highest failing slot |
| Rescan.AddPhaseAscending | drivers/net/ethernet/mellanox/mlx5/core/dev.c:485-512 | the create loop attempts slots from the lowest up |
| Rescan.AddPhaseComplete | drivers/net/ethernet/mellanox/mlx5/core/dev.c:485-512 | the create loop attempts every empty slot that passes both gates; a missing supported predicate counts as false |
| Rescan.RescanDrivers | drivers/net/ethernet/mellanox/mlx5/core/dev.c:551-563 | with DETACH it returns 0 and changes nothing; with DISABLE_ALL it empties every slot and returns 0; otherwise every slot ends at its target, and the status is 0 iff no creation failed, else the last failure's error; the flags never change and consistency is preserved |
| Rescan.RescanGated | drivers/net/ethernet/mellanox/mlx5/core/dev.c:485-499 | after a rescan with both flags clear, every present slot passes its gates, and a wanted slot is empty only if its creation failed |
| Rescan.RescanTrace | drivers/net/ethernet/mellanox/mlx5/core/dev.c:551-563 | every deletion comes before every creation; deletions run from the highest slot down and creations from the lowest up; a slot is deleted iff the delete loop rejects it, and attempted iff it is empty and wanted |
| Rescan.RescanIdempotent | drivers/net/ethernet/mellanox/mlx5/core/dev.c:551-563 | a second rescan with unchanged inputs leaves the device unchanged and reports the same status |
| Rescan.RescanSettled | drivers/net/ethernet/mellanox/mlx5/core/dev.c:485-499 | after a rescan that returned 0, a second rescan with unchanged inputs deletes nothing and attempts nothing |
| Rescan.RescanDeletesOnce | drivers/net/ethernet/mellanox/mlx5/core/dev.c:515-563 | whatever the first rescan reported, a second rescan with the same inputs deletes nothing, and it attempts only slots whose creation failed the first time |
| Rescan.LastCreateErrorUnique | drivers/net/ethernet/mellanox/mlx5/core/dev.c:505-510 | the status of a failed create loop is determined: only one error is the error of the last failing slot |
| Rescan.LightweightRescanIgnoresOracles | drivers/net/ethernet/mellanox/mlx5/core/dev.c:555-560 | the rescan of a lightweight device has the same outcome whatever the inputs report |
| Lifecycle.AttachPhase | drivers/net/ethernet/mellanox/mlx5/core/dev.c:367-409 | the attach loop brings up every slot before the first failure as a create pass would; it leaves the failing slot and every later slot as they were; it returns the failure's status |
| Lifecycle.FirstAttachFailure | drivers/net/ethernet/mellanox/mlx5/core/dev.c:403-408 | the position where attach stops: every earlier slot's visit succeeded and the slot at that position failed |
| Lifecycle.AttachDevice | drivers/net/ethernet/mellanox/mlx5/core/dev.c:357-412 | attach clears DETACH and nothing else; slots before the first failure are created (if empty and wanted) or kept; the rest are untouched; it returns 0 iff no visit failed, otherwise the failing create's errno or resume's return value; consistency is preserved |
| Lifecycle.AttachTrace | drivers/net/ethernet/mellanox/mlx5/core/dev.c:367-408 | attach visits slots from the lowest up; it emits the events of every slot up to and including the first failure, and nothing after it; a present slot without a bound driver or resume hook emits nothing |
| Lifecycle.AttachIgnoresLightweight | drivers/net/ethernet/mellanox/mlx5/core/dev.c:357-412 | attach's slots and status do not depend on DISABLE_ALL |
| Lifecycle.FailFastVersusBestEffort | drivers/net/ethernet/mellanox/mlx5/core/dev.c:403-408 | if an earlier creation fails, attach leaves a later wanted slot empty, while a rescan with the same inputs creates it |
| Lifecycle.DetachPhase | drivers/net/ethernet/mellanox/mlx5/core/dev.c:424-452 | the detach loop keeps a child iff suspending, its enabled predicate holds, a driver is bound and that driver has a suspend hook; otherwise it empties the slot |
| Lifecycle.DetachDevice | drivers/net/ethernet/mellanox/mlx5/core/dev.c:414-454 | detach sets DETACH and nothing else; each slot survives exactly under the suspend condition; without suspend every slot ends empty; consistency is preserved |
| Lifecycle.DetachTrace | drivers/net/ethernet/mellanox/mlx5/core/dev.c:424-452 | detach visits slots from the highest down and emits exactly one event per present child: suspended if it survives, deleted otherwise |
| Lifecycle.DetachIgnoresSupported | drivers/net/ethernet/mellanox/mlx5/core/dev.c:424-452 | detach depends only on the enabled predicates and the bound drivers, never on the supported predicates or on creation |
| Lifecycle.DetachThenRescanIsNoop | drivers/net/ethernet/mellanox/mlx5/core/dev.c:451-453 | after a detach, a rescan returns 0 and changes nothing |
| Lifecycle.AttachCannotFail | drivers/net/ethernet/mellanox/mlx5/core/dev.c:367-408 | when every creation succeeds and every resume hook returns 0, attach visits every slot and returns 0 |
| Lifecycle.DetachAttachRoundTrip | drivers/net/ethernet/mellanox/mlx5/core/dev.c:357-454 | when every creation succeeds and every resume hook returns 0, a suspending detach followed by an attach keeps every suspended child and gives every other wanted slot a fresh child |
| Lifecycle.SetLightweight | drivers/net/ethernet/mellanox/mlx5/core/dev.c:345-355 | setting lightweight makes the device lightweight and changes no other flag, slot or index |
| Lifecycle.LightweightRescanEmpties | drivers/net/ethernet/mellanox/mlx5/core/dev.c:345-355 | a rescan of a lightweight device that is not detached removes every child, returns 0, and the device stays lightweight |
| Lifecycle.UnregisterDevice | drivers/net/ethernet/mellanox/mlx5/core/dev.c:471-478 | unregister sets the flag word to exactly DISABLE_ALL, clearing DETACH and DISABLE_IB_ADEV, and every slot ends empty |
| Lifecycle.UnregisterTrace | drivers/net/ethernet/mellanox/mlx5/core/dev.c:471-478 | unregister deletes every present child and nothing else, from the highest slot down |
| Lifecycle.RegisterDevice | drivers/net/ethernet/mellanox/mlx5/core/dev.c:456-469 | register returns 0 iff the device is detached or no creation fails; on success it has cleared only DISABLE_ALL; on failure it has fallen back to unregister (flags exactly DISABLE_ALL, every slot empty) |
| Lifecycle.RegisterSlots | drivers/net/ethernet/mellanox/mlx5/core/dev.c:456-469 | register on a detached device only clears DISABLE_ALL; on success every slot is at its rescan target; a failure reports the last failing creation's error |
| Lifecycle.RegisterAfterUnregister | drivers/net/ethernet/mellanox/mlx5/core/dev.c:456-478 | unregister then register depends only on the device index and the second call's inputs; on success the flag word is empty and exactly the wanted slots hold fresh children |
| Lifecycle.RegisterSkipsUnwanted | drivers/net/ethernet/mellanox/mlx5/core/dev.c:456-469 | register leaves an empty slot that fails a gate empty, whatever the outcome |
| Lifecycle.RegisterFillsWanted | drivers/net/ethernet/mellanox/mlx5/core/dev.c:456-469 | on a device that is not detached, register fills every wanted slot when every creation succeeds |
| Lifecycle.RegisterReadsOnlyDetach | drivers/net/ethernet/mellanox/mlx5/core/dev.c:456-469 | register's slots and status depend on the flag word only through DETACH: DISABLE_ALL is cleared first, and DISABLE_IB_ADEV is read only by the supported predicates, which are inputs here |
| Lifecycle.RegisterAgain | drivers/net/ethernet/mellanox/mlx5/core/dev.c:456-478 | with the inputs unchanged, register, unregister, register on a device that has no children and is not detached ends with the same slots and status as the first register |
| Lifecycle.ReRegisterFills | drivers/net/ethernet/mellanox/mlx5/core/dev.c:456-478 | a slot the first register leaves empty because it is unwanted is filled by a register after unregister whose inputs want it, when every creation succeeds |
| Lifecycle.IsLightweight | drivers/net/ethernet/mellanox/mlx5/core/dev.c:352-355 | a device is lightweight exactly when DISABLE_ALL is in its flag word |
| Capabilities.Probes | drivers/net/ethernet/mellanox/mlx5/core/dev.c:240-264 | the per-slot inputs of a call hold each table entry's supported and enabled predicates evaluated on the device, with creation outcomes and drivers passed through; whatever the capabilities, at most one of rdma, rdma-rep and multiport is supported, rdma-rep only together with eth-rep, and none of the three while DISABLE_IB_ADEV is set |
| Capabilities.ParamOn | drivers/net/ethernet/mellanox/mlx5/core/dev.c:131-140 | a devlink driver-init parameter counts as on iff it was read without error and its value is true; a read error counts as off |
| Capabilities.Enabled | drivers/net/ethernet/mellanox/mlx5/core/dev.c:240-264 | the enabled predicate of each table entry: eth reads the eth-enabled switch, rdma the ENABLE_RDMA parameter, vnet the ENABLE_VNET parameter, and the entries without one read as enabled |
| Capabilities.EthRepSupported | drivers/net/ethernet/mellanox/mlx5/core/dev.c:43-55 | eth-rep is supported iff the eswitch is configured, the function is the eswitch manager and the eswitch is in switchdev mode |
| Capabilities.EthSupported | drivers/net/ethernet/mellanox/mlx5/core/dev.c:57-107 | eth is supported iff the Ethernet core is configured, the port type is Ethernet, every listed offload capability is present and the receive flow table is at least 3 levels deep; the self-loopback and CQ-moderation checks do not affect the result |
| Capabilities.VnetSupported | drivers/net/ethernet/mellanox/mlx5/core/dev.c:109-129 | vnet is supported iff vDPA net is configured, the function is not a PF, and the virtio-net queue object, the QP event mode and the frame offload type are all present |
| Capabilities.DpllSupported | drivers/net/ethernet/mellanox/mlx5/core/dev.c:207-218 | dpll is supported iff DPLL is configured and the SyncE registers are present |
| Capabilities.IbRepSupported | drivers/net/ethernet/mellanox/mlx5/core/dev.c:142-157 | rdma-rep is supported iff InfiniBand is configured, DISABLE_IB_ADEV is clear, eth-rep is supported and multiport is not already enabled |
| Capabilities.MpSupported | drivers/net/ethernet/mellanox/mlx5/core/dev.c:159-177 | multiport is supported iff InfiniBand is configured, DISABLE_IB_ADEV is clear, rdma-rep is not supported, the port type is Ethernet and the function is a multiport slave |
| Capabilities.RdmaSupported | drivers/net/ethernet/mellanox/mlx5/core/dev.c:179-194 | rdma is supported iff InfiniBand is configured, DISABLE_IB_ADEV is clear, and neither rdma-rep nor multiport is supported |
| Capabilities.Supported | drivers/net/ethernet/mellanox/mlx5/core/dev.c:240-264 | the supported predicate of each table entry, in enum order: eth, eth-rep, rdma, rdma-rep, multiport, vnet, dpll, fwctl |
| Capabilities.FwctlSupported | drivers/net/ethernet/mellanox/mlx5/core/dev.c:234-238 | fwctl is supported iff the user-context capability is present and the function is not a sub-function |
| Capabilities.ProbesReadOnlyIbFlag | drivers/net/ethernet/mellanox/mlx5/core/dev.c:142-194 | the inputs computed for a call depend on the flag word only through DISABLE_IB_ADEV |
| Capabilities.IbPersonalitiesExclusive | drivers/net/ethernet/mellanox/mlx5/core/dev.c:142-194 | at most one of rdma, rdma-rep and multiport is supported |
| Capabilities.IbPersonalityPresent | drivers/net/ethernet/mellanox/mlx5/core/dev.c:142-194 | one of the three InfiniBand personalities is supported iff InfiniBand is configured and DISABLE_IB_ADEV is clear |
| Capabilities.IbRepNeedsEthRep | drivers/net/ethernet/mellanox/mlx5/core/dev.c:142-157 | rdma-rep supported implies eth-rep supported |
| Capabilities.DisableIbAdevHidesIb | drivers/net/ethernet/mellanox/mlx5/core/dev.c:142-194 | DISABLE_IB_ADEV turns off exactly the rdma, rdma-rep and multiport predicates and no others |
| Capabilities.RescanKeepsIbExclusive | drivers/net/ethernet/mellanox/mlx5/core/dev.c:142-194 | after a rescan with both flags clear, at most one InfiniBand child is present |
| Capabilities.RegisterUnregisterRegister | drivers/net/ethernet/mellanox/mlx5/core/dev.c:456-478 | when DETACH and DISABLE_IB_ADEV are clear and the device has no children, register, unregister, register with unchanged capabilities and settings ends with the same slots and status as the first register |
| Capabilities.PlainRdmaProbes | drivers/net/ethernet/mellanox/mlx5/core/dev.c:179-194 | on a device where only plain rdma can be supported and rdma is enabled, rdma is unwanted while DISABLE_IB_ADEV is set and wanted once the flag word is just DISABLE_ALL |
| Capabilities.UnregisterReenablesIb | drivers/net/ethernet/mellanox/mlx5/core/dev.c:471-478 | unregister forgets DISABLE_IB_ADEV: on such a device a register leaves rdma empty, but a register after unregister creates it |

## Left out

- Locking (`mlx5_devcom_comp_lock`, `devl_assert_locked`): exclusive access is implicit in each call being a single function.
- Concrete configuration and capability reads: they are fields of an abstract `Caps` record, and a failed devlink parameter read yields false.
- `mlx5_core_is_eth_enabled`, the eth entry's enabled predicate, is defined elsewhere and is a boolean input.
- The internals of `add_adev`, `del_adev` and `adev_release` (allocation, auxiliary-bus init/add/delete/uninit, asynchronous release): creation is an input outcome and deletion empties the slot.
- `mlx5_adev_idx_alloc/free` and `mlx5_adev_init/cleanup`: thin wrappers over the IDA and the allocator.
- `mlx5_same_hw_devs`: its GUID query is external.
- The warning logs, including the two capability checks in `mlx5_eth_supported` that only warn: they do not affect any result.
- The predicates' values are fixed for one call. Re-reading a predicate at a later visit in the same loop cannot give a different answer.
- Lifecycle.DetachAttachRoundTrip: assumes no creation or resume fails anywhere, not only in the slots attach revisits; it states the slots only, and the flags follow from the AttachDevice and DetachDevice contracts.
- Unregister replaces the whole flag word with DISABLE_ALL and so also clears DISABLE_IB_ADEV. The rdma, rdma-rep and multiport predicates read that flag, so a register after unregister can create InfiniBand children that the first register left out (Capabilities.UnregisterReenablesIb). The slots come back only when DISABLE_IB_ADEV was clear (Capabilities.RegisterUnregisterRegister).
- Child identity: a child is a plain value, and every child created in slot i of a device equals `NewChild(i, adevIdx)`, while `add_adev` allocates a new object each time (dev.c:313). Slot equality therefore cannot tell a kept child from one deleted and created again. This affects Rescan.RescanIdempotent, the "keeps" of a rescan's target and Lifecycle.DetachAttachRoundTrip; only the event traces tell the two apart (Rescan.RescanTrace, Rescan.RescanSettled, Rescan.RescanDeletesOnce, Lifecycle.DetachTrace, Lifecycle.AttachTrace).
