# OpenBMC FRU service, M.2 device status and Minilake sensor decoding in Dafny

This project models three pieces of the Facebook OpenBMC tree and proves properties of them.

- **The D-Bus FRU service** (`fru_service.dfy`, over the object tree in `object_tree.dfy`).
  - `deleteSubtree` snapshots an object's child map, recursively deletes every child's subtree, then deletes the object itself through `FruObjectTree::deleteObjectByPath`.
  - `resetTree` empties the object a call is addressed to.
  - `removeFRU` deletes the subtree of one named child.
  - `addFRU` parses a JSON description and hands it to the FRU tree builder.
  - `methodCallBack` routes a method name to its handler.
- **The GPv2 M.2 device component of fw-util** (`m2_dev.dfy`).
  - A 12-entry power-status table is shared by all instances and written by a bounds-checked `save_info`.
  - The BIC power-status query is retried.
  - A dual-M.2 layout is detected and kept across calls.
  - Each entry's version line is classified; the table is printed single or dual after the last device.
  - The constructor prunes the component registry.
  - `_update` packs the slot and device ids.
- **The Minilake test-board sensor library** (`minilaketb_sensor.dfy`).
  - IPMI SDR M/B factor and exponent decoding.
  - INA230 register byte swaps.
  - The PCA9848 mux channel byte.
  - The hot-swap controller's READ_EIN_EXT energy counters, kept in function-static variables.
  - The discrete-sensor search.
  - The per-FRU `init_done` flags of the SDR initialisation.
  - The 12 V rail check.

**How the object tree is modelled.** An object is identified by its path.

- The tree is a map from path to node. Each node has its parent link (the parent's path and its own name there) and its child map (name to child path).
- `TreeOk` is the tree invariant:
  - every child entry points to an indexed object whose path is `parent + "/" + name` and whose back-link matches;
  - every parent link points to an object that lists the child.
- `Subtree(t, p)` is `p` with everything below it.
- `Removed(t, R)` is the tree with the objects in `R` deleted and every child-map entry pointing into `R` dropped.

**What is proved about the FRU service.**

- `deleteSubtree` leaves exactly `Removed(t, Subtree(t, p))`.
- Every `deleteObjectByPath` call it makes is on an object that has no children left. A ghost log of those calls is in post-order: each object comes after all of its descendants.
- The loop over the copied child map visits each original child exactly once.
- `resetTree` leaves `Removed(t, Subtree(t, p) - {p})`: the object stays, with an empty child map.
- `removeFRU` keeps the parent and every sibling subtree.
- Throughout, the tree stays acyclic: in a valid tree, following parent links from an object always lands on strictly shorter paths, so no chain of parent links returns to its start.
- No child link dangles: in a valid tree the index holds exactly the objects reachable from a root by following child maps.

## Model

| member | source | states |
|---|---|---|
| ObjectTree.FruObjectTree.GetObject | common/recipes-core/fru-svc/files/DBusFruServiceInterface.cpp:105 | getObject finds the object exactly when its path is indexed, and then returns that object's node. |
| ObjectTree.FruObjectTree.GetChildMap | common/recipes-core/fru-svc/files/DBusFruServiceInterface.cpp:92 | getChildMap returns a copy of the object's child map, so later deletions do not disturb the iteration. |
| ObjectTree.FruObjectTree.DeleteObjectByPath | common/recipes-core/fru-svc/files/DBusFruServiceInterface.cpp:97 | It succeeds exactly for an indexed object with no children. It then deletes the object and its parent's entry for it, as `Removed(t, {path})`, and keeps the tree invariant. Otherwise nothing changes. |
| ObjectTree.UnderShorter | common/recipes-core/fru-svc/files/DBusFruServiceInterface.cpp:91-98 | An ancestor's path is strictly shorter than a proper descendant's path, so deleteSubtree's recursion reaches leaves. |
| ObjectTree.ParentShorter | common/recipes-core/fru-svc/files/DBusFruServiceInterface.cpp:91-98 | In a valid tree a parent is indexed and its path is shorter than its child's. |
| ObjectTree.AncestorShorter | common/recipes-core/fru-svc/files/DBusFruServiceInterface.cpp:91-98 | In a valid tree, following one or more parent links (with no guard on path lengths) from an indexed object lands on an indexed object with a strictly shorter path, never on the object itself. So the parent links have no cycle, and deleteSubtree's recursion over child maps terminates. |
| ObjectTree.ParentCycleBreaksInvariant | common/recipes-core/fru-svc/files/DBusFruServiceInterface.cpp:91-98 | Two objects whose parent links point at each other form a 2-cycle, and such a tree breaks the invariant. So the invariant, not the definition of ancestry, is what rules cycles out. |
| ObjectTree.ChildUnder | common/recipes-core/fru-svc/files/DBusFruServiceInterface.cpp:92-95 | Each child in a child map is a distinct object, linked back to its parent under the same name, and lies below the parent. |
| ObjectTree.UnderClosed | common/recipes-core/fru-svc/files/DBusFruServiceInterface.cpp:91-98 | Anything below a member of a set that contains all children of its members is in that set. |
| ObjectTree.UnderTrans | common/recipes-core/fru-svc/files/DBusFruServiceInterface.cpp:91-98 | Being below is transitive. |
| ObjectTree.UnderLinear | common/recipes-core/fru-svc/files/DBusFruServiceInterface.cpp:91-98 | The ancestors of an object form a chain: two of them are always related. |
| ObjectTree.SiblingsDisjoint | common/recipes-core/fru-svc/files/DBusFruServiceInterface.cpp:93-95 | The subtrees of two different children of one object share no object, so deleting one child's subtree cannot touch another's. |
| ObjectTree.SubtreeDownClosed | common/recipes-core/fru-svc/files/DBusFruServiceInterface.cpp:91-98 | A subtree contains every child of each of its objects. |
| ObjectTree.TopChild | common/recipes-core/fru-svc/files/DBusFruServiceInterface.cpp:92-95 | Any object strictly below `p` is in the subtree of one of `p`'s children. |
| ObjectTree.SubtreeSplit | common/recipes-core/fru-svc/files/DBusFruServiceInterface.cpp:91-98 | A subtree is its root plus the subtrees of the root's children, which is the recursion deleteSubtree follows. |
| ObjectTree.RemovedOk | common/recipes-core/fru-svc/files/DBusFruServiceInterface.cpp:97 | Deleting a set that contains all children of its members keeps the tree invariant. |
| ObjectTree.RemovedNothing | common/recipes-core/fru-svc/files/DBusFruServiceInterface.cpp:106-109 | Deleting nothing leaves the tree unchanged. |
| ObjectTree.RemovedTwice | common/recipes-core/fru-svc/files/DBusFruServiceInterface.cpp:93-97 | Deleting one set and then another is the same as deleting their union. |
| ObjectTree.UnderAfterRemoval | common/recipes-core/fru-svc/files/DBusFruServiceInterface.cpp:93-95 | A deletion leaves ancestry among the surviving objects as it was. |
| ObjectTree.SubtreeAfterRemoval | common/recipes-core/fru-svc/files/DBusFruServiceInterface.cpp:93-95 | A subtree that avoids the deleted objects is the same subtree afterwards. |
| ObjectTree.PruneEffect | common/recipes-core/fru-svc/files/DBusFruServiceInterface.cpp:91-98 | After deleting `p`'s subtree, `p` is gone and an object survives exactly when it is not below `p`. A survivor keeps its parent link and its children, except that `p`'s parent loses only `p`'s entry. |
| ObjectTree.PruneCount | common/recipes-core/fru-svc/files/DBusFruServiceInterface.cpp:91-98 | Deleting a subtree removes exactly as many objects as the subtree has. |
| ObjectTree.ResetEffect | common/recipes-core/fru-svc/files/DBusFruServiceInterface.cpp:100-112 | Deleting everything strictly below `p` keeps `p` with an empty child map and leaves every object outside the subtree unchanged. |
| ObjectTree.WalkIndexed | common/recipes-core/fru-svc/files/DBusFruServiceInterface.cpp:105 | In a valid tree no child link dangles: following child names from an indexed object always lands on an indexed object. (The walk itself does not consult the index for the path it lands on.) |
| ObjectTree.DanglingLinkIsWalked | common/recipes-core/fru-svc/files/DBusFruServiceInterface.cpp:92-95 | A tree with a child entry whose object is not indexed breaks the invariant, and a walk then ends on an unindexed path. So the invariant, not the walk, is what keeps child links from dangling. |
| ObjectTree.WalkExtend | common/recipes-core/fru-svc/files/DBusFruServiceInterface.cpp:124 | Following one more child name extends a walk by that child. |
| ObjectTree.RouteFromRoot | common/recipes-core/fru-svc/files/DBusFruServiceInterface.cpp:105 | Every indexed object is reached from some root by a sequence of child names. |
| ObjectTree.IndexIsReachable | common/recipes-core/fru-svc/files/DBusFruServiceInterface.cpp:105 | In a valid tree, an object is indexed if and only if some root reaches it by following child maps. |
| FruService.PostOrderAppend | common/recipes-core/fru-svc/files/DBusFruServiceInterface.cpp:93-95 | Deletions made in the pruned tree, appended to earlier deletions, stay in post-order in the original tree. |
| FruService.DeleteChildSubtrees | common/recipes-core/fru-svc/files/DBusFruServiceInterface.cpp:92-95 | The loop over the copied child map visits each original child name exactly once. It leaves `Removed(t, Subtree(t, p) - {p})` and keeps the invariant. Its deletions are exactly the objects strictly below `p`, each once, in post-order. |
| FruService.BeforeChild | common/recipes-core/fru-svc/files/DBusFruServiceInterface.cpp:93-94 | Before the loop handles the next copied child, that child is still indexed and its subtree is unchanged. The subtree is strictly inside `p`'s, so the recursion terminates. |
| FruService.ChildSubtreeInside | common/recipes-core/fru-svc/files/DBusFruServiceInterface.cpp:93-94 | A child's subtree lies strictly inside its parent's subtree. |
| FruService.AfterChild | common/recipes-core/fru-svc/files/DBusFruServiceInterface.cpp:93-95 | After one child's subtree is deleted, the loop invariant holds with that child moved to the done set. |
| FruService.LoopDone | common/recipes-core/fru-svc/files/DBusFruServiceInterface.cpp:93-95 | Once every copied child is handled, the deleted set is exactly `p`'s subtree without `p`. |
| FruService.PostOrderLast | common/recipes-core/fru-svc/files/DBusFruServiceInterface.cpp:97 | Deleting `p` last, after its descendants, keeps post-order. |
| FruService.DeleteSubtree | common/recipes-core/fru-svc/files/DBusFruServiceInterface.cpp:91-98 | deleteSubtree leaves exactly `Removed(t, Subtree(t, p))` and keeps the invariant. Every object of the subtree is handed to deleteObjectByPath exactly once, after all its descendants, with `p` last, and every such call succeeds. |
| FruService.ResetTree | common/recipes-core/fru-svc/files/DBusFruServiceInterface.cpp:100-112 | resetTree deletes every subtree below the addressed object and keeps the object. It reports NotFound, with no change, when no object has that path. |
| FruService.RemoveFru | common/recipes-core/fru-svc/files/DBusFruServiceInterface.cpp:114-129 | removeFRU deletes exactly the subtree at `objectPath + "/" + fruName`. It reports NotFound, with no change, when that path has no object. |
| FruService.RemoveFruKeepsSiblings | common/recipes-core/fru-svc/files/DBusFruServiceInterface.cpp:114-129 | Removing a child FRU keeps the parent, drops only that child's entry from the parent, and keeps every object of every sibling subtree unchanged. |
| FruService.AddFru | common/recipes-core/fru-svc/files/DBusFruServiceInterface.cpp:66-86 | addFRU builds under `fruParentPath` only from a description that parses. A description that does not parse leaves the tree unchanged. The invariant is kept whenever the builder keeps it. |
| FruService.Route | common/recipes-core/fru-svc/files/DBusFruServiceInterface.cpp:144-152 | Each of "addFRU", "resetTree" and "removeFRU" selects its own handler, and every other name selects none. |
| FruService.MethodCallBack | common/recipes-core/fru-svc/files/DBusFruServiceInterface.cpp:131-153 | The callback runs exactly the selected handler and replies with its status. The tree then has that handler's effect: the build for addFRU, the cleared subtree for resetTree, the removed subtree for removeFRU. A NotFound or InvalidDescription reply leaves the tree unchanged. An unknown method name changes nothing and sends no reply. |
| M2Dev.Classify | meta-facebook/meta-fby2/recipes-fby2/fw-util/files/m2_dev.cpp:119-129 | Each entry gets exactly one class, in priority order: a failed query is NA, then not present, then NVMe not ready, then not an accelerator. Otherwise it is the entry's own major.minor version. |
| M2Dev.Decimal | meta-facebook/meta-fby2/recipes-fby2/fw-util/files/m2_dev.cpp:128 | `%d` prints a non-empty string of decimal digits with no leading zero, and those digits denote the number. |
| M2Dev.Text | meta-facebook/meta-fby2/recipes-fby2/fw-util/files/m2_dev.cpp:120-128 | The printed text starts with 'v' exactly for a version; every other class prints a text starting with "NA". |
| M2Dev.VersionTextReadsBack | meta-facebook/meta-fby2/recipes-fby2/fw-util/files/m2_dev.cpp:128 | A printed version `v<major>.<minor>` reads back: the digits before the dot denote the major version and those after it the minor version. |
| M2Dev.TextDistinguishesClasses | meta-facebook/meta-fby2/recipes-fby2/fw-util/files/m2_dev.cpp:118-129 | Two entries print the same text only if both are versions or both are the same NA class. |
| M2Dev.KeptAttempt | meta-facebook/meta-fby2/recipes-fby2/fw-util/files/m2_dev.cpp:69-75 | The kept attempt is the first one that succeeded, or the last of the ten attempts if none did. |
| M2Dev.PollPowerStatus | meta-facebook/meta-fby2/recipes-fby2/fw-util/files/m2_dev.cpp:62-75 | The retry loop makes one to MAX_READ_RETRY queries and stops at the first success. Every earlier query failed, and a failed result means all ten attempts were used. |
| M2Dev.SlotDevId | meta-facebook/meta-fby2/recipes-fby2/fw-util/files/m2_dev.cpp:178 | For a device id below 16, the high bits of slot_dev_id give back the slot id and the low nibble gives back the device id. |
| M2Dev.Unregister | meta-facebook/meta-fby2/recipes-fby2/fw-util/files/m2_dev.cpp:53-56 | After the erase, `comp` is no longer listed under `fru`, and `fru` is dropped once it has no component left. An absent `fru` stays absent. Every other FRU is unchanged. |
| M2Dev.ComponentRegistry.constructor | meta-facebook/meta-fby2/recipes-fby2/fw-util/files/m2_dev.cpp:53 | The registry holds the given FRU-to-components map. |
| M2Dev.M2Status.constructor | meta-facebook/meta-fby2/recipes-fby2/fw-util/files/m2_dev.cpp:99-101 | The statics start zeroed: the table is all zero, not dual, main slot even. |
| M2Dev.M2Status.SaveInfo | meta-facebook/meta-fby2/recipes-fby2/fw-util/files/m2_dev.cpp:103-114 | An id past the table changes nothing. Any other id overwrites exactly that one entry with the given values. |
| M2Dev.M2Status.PrintSingle | meta-facebook/meta-fby2/recipes-fby2/fw-util/files/m2_dev.cpp:116-131 | Twelve lines are printed; line `i` is the class of entry `i`. |
| M2Dev.M2Status.PrintDual | meta-facebook/meta-fby2/recipes-fby2/fw-util/files/m2_dev.cpp:133-148 | Six lines are printed; line `k` is the class of the pair's main device `2k + dev_main_slot`, which always lies inside the table. |
| M2Dev.M2DevComponent.constructor | meta-facebook/meta-fby2/recipes-fby2/fw-util/files/m2_dev.cpp:50-58 | On a slot that is not GPv2, the component takes itself out of the registry as Unregister says. On a GPv2 slot the registry is unchanged. |
| M2Dev.M2DevComponent.PrintVersion | meta-facebook/meta-fby2/recipes-fby2/fw-util/files/m2_dev.cpp:60-94 | A slot that is not GPv2 returns -1 with nothing changed. Otherwise the kept answer is saved under dev_id. The first dual-M.2 answer sets isDual, with the main slot set to that device's parity; later answers do not move the main slot. After device 11 the table is printed (dual or single) and isDual is false. |
| MinilakeSensor.Nibble | meta-facebook/meta-minilaketb/recipes-minilaketb/plat-libs/files/minilaketb_sensor/minilaketb_sensor.c:968 | An exponent in -8..7 is stored in a single 4-bit nibble. |
| MinilakeSensor.DecodeExp | meta-facebook/meta-minilaketb/recipes-minilaketb/plat-libs/files/minilaketb_sensor/minilaketb_sensor.c:969-973 | The complement-add-mask-negate decoding gives n for a nibble n up to 7 and n - 16 above, always within -8..7. |
| MinilakeSensor.ExpRoundTrip | meta-facebook/meta-minilaketb/recipes-minilaketb/plat-libs/files/minilaketb_sensor/minilaketb_sensor.c:968-978 | Decoding a stored exponent gives it back, and storing a decoded nibble gives the nibble back. |
| MinilakeSensor.RbExponents | meta-facebook/meta-minilaketb/recipes-minilaketb/plat-libs/files/minilaketb_sensor/minilaketb_sensor.c:968-978 | The B exponent is the signed low nibble of rb_exp and the R exponent the signed high nibble, both within -8..7. |
| MinilakeSensor.TenBit | meta-facebook/meta-minilaketb/recipes-minilaketb/plat-libs/files/minilaketb_sensor/minilaketb_sensor.c:960-966 | M and B are below 1024. Their low byte is the value byte and their two high bits are the top two bits of the tolerance or accuracy byte. |
| MinilakeSensor.ReadSensorWrapper | meta-facebook/meta-minilaketb/recipes-minilaketb/plat-libs/files/minilaketb_sensor/minilaketb_sensor.c:914-978 | A failed query returns its code. Then, in order: the not-available flag gives NA, a discrete sensor gives its status, a non-type-1 SDR gives the raw value. Otherwise the result is the linear factors: x, M and B as the 10-bit TenBit of the value byte and the tolerance or accuracy byte (below 1024), and the signed exponents. |
| MinilakeSensor.SwapBytes | meta-facebook/meta-minilaketb/recipes-minilaketb/plat-libs/files/minilaketb_sensor/minilaketb_sensor.c:883 | The power decoding exchanges the word's two bytes. |
| MinilakeSensor.SwapBytesInvolution | meta-facebook/meta-minilaketb/recipes-minilaketb/plat-libs/files/minilaketb_sensor/minilaketb_sensor.c:883 | Swapping twice gives the original word back. |
| MinilakeSensor.VoltRaw | meta-facebook/meta-minilaketb/recipes-minilaketb/plat-libs/files/minilaketb_sensor/minilaketb_sensor.c:879 | The voltage decoding is the byte swap with bit 15 cleared, so it is below 0x8000. |
| MinilakeSensor.VoltRawSwapped | meta-facebook/meta-minilaketb/recipes-minilaketb/plat-libs/files/minilaketb_sensor/minilaketb_sensor.c:879 | Swapping the voltage value back gives the register word with its bit 7 cleared; that bit is the one the swap moves to bit 15. |
| MinilakeSensor.InaRaw | meta-facebook/meta-minilaketb/recipes-minilaketb/plat-libs/files/minilaketb_sensor/minilaketb_sensor.c:870-886 | A failed word read is an error. Otherwise the voltage register decodes to the swapped word below 0x8000, and the power register to the swapped word. |
| MinilakeSensor.MuxRegister | meta-facebook/meta-minilaketb/recipes-minilaketb/plat-libs/files/minilaketb_sensor/minilaketb_sensor.c:595-598 | A channel below 6 gives a byte with exactly one bit set, the channel's bit. Any other channel closes all channels with 0. |
| MinilakeSensor.AssembleEin | meta-facebook/meta-minilaketb/recipes-minilaketb/plat-libs/files/minilaketb_sensor/minilaketb_sensor.c:795-797 | Energy and sample are 24-bit and rollover is 16-bit, each made of its little-endian bytes from the answer. |
| MinilakeSensor.EinDelta | meta-facebook/meta-minilaketb/recipes-minilaketb/plat-libs/files/minilaketb_sensor/minilaketb_sensor.c:804-818 | The sample difference is the 24-bit modular distance. The energy difference counts rollover steps modulo 2^16, adding a whole turn when the rollover count is equal and energy went down. There is no reading exactly when the energy difference is negative or the sample count did not move. |
| MinilakeSensor.EnergyNonNegativeWithoutRollover | meta-facebook/meta-minilaketb/recipes-minilaketb/plat-libs/files/minilaketb_sensor/minilaketb_sensor.c:804-818 | With equal rollover counts, non-decreasing energy and a new sample count, the result is the plain energy difference. |
| MinilakeSensor.EinCounter.constructor | meta-facebook/meta-minilaketb/recipes-minilaketb/plat-libs/files/minilaketb_sensor/minilaketb_sensor.c:776-777 | The static counters start at zero with no previous reading. |
| MinilakeSensor.EinCounter.ReadHscEin | meta-facebook/meta-minilaketb/recipes-minilaketb/plat-libs/files/minilaketb_sensor/minilaketb_sensor.c:768-822 | A failed transfer or a wrong length byte gives no reading and changes nothing. A good answer is always recorded as the last readings. The first good answer gives no reading; later ones give the difference from the previous answer. |
| MinilakeSensor.IsDiscrete | meta-facebook/meta-minilaketb/recipes-minilaketb/plat-libs/files/minilaketb_sensor/minilaketb_sensor.c:1481-1489 | The search reports discrete if and only if the sensor number occurs in the discrete list. |
| MinilakeSensor.SdrInitFlags.constructor | meta-facebook/meta-minilaketb/recipes-minilaketb/plat-libs/files/minilaketb_sensor/minilaketb_sensor.c:1130 | Every FRU's init_done flag starts cleared. |
| MinilakeSensor.SdrInitFlags.SdrInit | meta-facebook/meta-minilaketb/recipes-minilaketb/plat-libs/files/minilaketb_sensor/minilaketb_sensor.c:1127-1143 | Once a FRU's flag is set it answers ready and changes nothing, so the call is idempotent. Otherwise only a successful load sets that one flag. It answers ready exactly when the flag is set afterwards. |
| MinilakeSensor.SdrInitFlags.ReadServerSensor | meta-facebook/meta-minilaketb/recipes-minilaketb/plat-libs/files/minilaketb_sensor/minilaketb_sensor.c:1471-1491 | A server-slot read fails with not-ready exactly when the SDR was never loaded and loading fails now. Otherwise it is the wrapper's result, with the sensor counted as discrete exactly when it is in the list. |
| MinilakeSensor.Gpio12v | meta-facebook/meta-minilaketb/recipes-minilaketb/plat-libs/files/minilaketb_sensor/minilaketb_sensor.c:433 | The 12 V enable table has two entries, and slot 1's entry is its GPIO. |
| MinilakeSensor.Server12vOnAsWritten | meta-facebook/meta-minilaketb/recipes-minilaketb/plat-libs/files/minilaketb_sensor/minilaketb_sensor.c:549-572 | As written, a slot id outside 1..4 gives the failure result -1. The check reads past the table exactly for a slot that passes the 1..4 guard but has no table entry. |
| MinilakeSensor.Server12vGuardOverrun | meta-facebook/meta-minilaketb/recipes-minilaketb/plat-libs/files/minilaketb_sensor/minilaketb_sensor.c:555-559 | Slot 2 passes the guard and indexes past the two-entry gpio_12v table. |
| MinilakeSensor.Server12vOn | meta-facebook/meta-minilaketb/recipes-minilaketb/plat-libs/files/minilaketb_sensor/minilaketb_sensor.c:549-572 | Only slots with a table entry are read. A successful read gives status 0 (rail off, since the enable is active low) exactly when the GPIO reads 1, and status 1 (rail on) otherwise. |
| MinilakeSensor.Server12vAgrees | meta-facebook/meta-minilaketb/recipes-minilaketb/plat-libs/files/minilaketb_sensor/minilaketb_sensor.c:549-572 | Wherever the as-written check stays inside the table, the corrected check gives the same answer. |

## Left out

**FRU service**
- The D-Bus plumbing is not modelled: introspection XML, GVariant unpacking and method-invocation replies are foreign library calls. A handler's reply is modelled as its returned status.
- The FruObjectTree library (`getObject`, `getChildMap`, `deleteObjectByPath`) is not part of this model. Its behaviour is stated as the contracts of `ObjectTree.FruObjectTree`.
  - `deleteObjectByPath` is taken to refuse an object that still has children, or an unknown path.
  - `deleteSubtree` is proved never to hit either case.
- `getObject` returning nullptr is modelled as a NotFound status with no change; the source dereferences the null pointer.
- A JSON string that does not parse is modelled as an InvalidDescription status with no change; the source lets the parser's exception escape the callback.
- `nlohmann::json::parse` and `FruJsonParser::parseFRU` are not part of this model. They are the `parse` and `build` parameters of `FruService.AddFru`, and the builder is assumed to keep the tree invariant.
- FruService.AddFru: does not claim the builder attaches a description atomically, because nothing in the code promises it.
- FruService.DeleteChildSubtrees: the loop takes the copied child names in an unspecified order rather than the map's iteration order. The result does not depend on the order, and the post-order property holds for any order.
- Concurrency is not modelled: callbacks are serialised by the GLib main loop and the code has no locking.
- Logging is not modelled.

**M.2 device**
- The BIC query, `fby2_get_slot_type`, `msleep` and `printf` are I/O.
  - The query is the `bic` parameter: the answer to the k-th query.
  - The slot type is the `slotIsGpv2` parameter.
  - The printed lines are returned as classified values; `M2Dev.Text` gives their text.
- `MEFF_DUAL_M2` comes from a header that is not part of this model, so it is a parameter. `MAX_READ_RETRY` (10), `FFI_0_ACCELERATOR` (0x01) and `MAX_GPV2_DRIVE_NUM` (12) are defined in m2_dev.cpp and kept as constants.
- The base `Component` constructor's own registration is not part of this model. The constructor is modelled on whatever registry it finds.
- The registry maps a FRU to a map of component pointers; the model keeps only the component names.
- `_update`, `update` and `fupdate` are not modelled beyond the slot/device id packing: their firmware-update, power and sleep calls are all external.

**Sensor library**
- I/O is not modelled: file reads, `popen`, `open`/`ioctl`/SMBus transfers, `flock` retries, sleeps and the SDR file loader. Their outcomes are parameters (`rbuf`, `loaded`, `ret`/`sensor`, `readGpio`).
- The INA230 calibration write-and-retry loop is not modelled, for the same reason; neither is the mux write retry.
- Floating point is not modelled: the `pow`-based linear formula, thermal-margin and negative-reading adjustments, `PIN_COEF`/`r_sense` scaling, the /800 and /40 INA230 scaling, and the threshold tables. The model stops at the integers these consume.
- The sensor name and unit tables, and the Crane Flat (minilaketb_sensor.c:1492-1530), Glacier Point (minilaketb_sensor.c:1531-1579) and FRU_SPB (minilaketb_sensor.c:1585-1630) branches of `minilaketb_sensor_read`, are not modelled. They depend on enum values from headers that are not part of this model. Nor is the path at minilaketb_sensor.c:1631-1632 where control reaches the end of that function without a `return`.
- MinilakeSensor.TenBit: builds M and B as unsigned 10-bit values, as the code does. IPMI defines them as signed 10-bit, but the code never sign-extends.

## Findings

| source | as written | input that shows it | evidently intended | confidence | as-written member | corrected member |
|---|---|---|---|---|---|---|
| meta-facebook/meta-minilaketb/recipes-minilaketb/plat-libs/files/minilaketb_sensor/minilaketb_sensor.c:555-559 | The guard accepts slot ids 1..4, but `gpio_12v` (line 433) has only two entries. | slot_id = 2 passes the guard and reads `gpio_12v[2]`, past the end of the table. | Accept only slots that have an entry in `gpio_12v` (slot 1 on this board). | not executed | MinilakeSensor.Server12vOnAsWritten | MinilakeSensor.Server12vOn |
