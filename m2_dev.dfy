/**
 * The M.2 device component of the GPv2 firmware utility: a shared 12-entry power-status
 * table written by a bounds-checked save, the per-entry version classification printed
 * for single or dual M.2 layouts, the dual-M.2 detection kept across calls, the pruning of
 * the component registry for slots that are not GPv2, and the slot/device id packing.
 */
module M2Dev {
  import opened Wrappers

  const MAX_GPV2_DRIVE_NUM: nat := 12
  const MAX_READ_RETRY: nat := 10
  const FFI_0_ACCELERATOR: uint8 := 0x01

  /** One saved row of the status table. */
  datatype PowerInfo = PowerInfo(ret: int, status: uint8, nvmeReady: uint8, ffi: uint8,
                                 majorVer: uint8, minorVer: uint8)

  /** One answer of the BIC power-status query, with `meff` the form-factor code it reports. */
  datatype DevReading = DevReading(ret: int, nvmeReady: uint8, status: uint8, ffi: uint8, meff: uint8,
                                   vendorId: int, majorVer: uint8, minorVer: uint8)

  /** The version column printed for one table entry. */
  datatype VersionText = NA | NotPresent | NvmeNotReady | NotAccelerator | Version(major: uint8, minor: uint8)

  /**
   * The classification of print_single and print_dual, in priority order: a failed query,
   * then absence, then NVMe not ready, then a non-accelerator, else the version.
   */
  function Classify(p: PowerInfo): (v: VersionText)
    ensures v == NA <==> p.ret != 0
    ensures v == NotPresent <==> p.ret == 0 && p.status == 0
    ensures v == NvmeNotReady <==> p.ret == 0 && p.status != 0 && p.nvmeReady == 0
    ensures v == NotAccelerator <==> p.ret == 0 && p.status != 0 && p.nvmeReady != 0 && p.ffi != FFI_0_ACCELERATOR
    ensures v.Version? <==> p.ret == 0 && p.status != 0 && p.nvmeReady != 0 && p.ffi == FFI_0_ACCELERATOR
    ensures v.Version? ==> v.major == p.majorVer && v.minor == p.minorVer
  {
    if p.ret != 0 then NA
    else if p.status == 0 then NotPresent
    else if p.nvmeReady == 0 then NvmeNotReady
    else if p.ffi != FFI_0_ACCELERATOR then NotAccelerator
    else Version(p.majorVer, p.minorVer)
  }

  /** The number a string of decimal digits denotes. */
  function DigitsValue(s: string): nat
    requires forall i :: 0 <= i < |s| ==> '0' <= s[i] <= '9'
  {
    if s == [] then 0 else DigitsValue(s[..|s| - 1]) * 10 + (s[|s| - 1] as int - '0' as int)
  }

  /** The decimal digits of `n`, as printf's %d writes them: no leading zero, and they denote `n`. */
  function Decimal(n: nat): (s: string)
    ensures |s| >= 1
    ensures forall i :: 0 <= i < |s| ==> '0' <= s[i] <= '9'
    ensures |s| == 1 || s[0] != '0'
    ensures DigitsValue(s) == n
  {
    var digit := ['0', '1', '2', '3', '4', '5', '6', '7', '8', '9'][n % 10];
    if n < 10 then [digit]
    else
      var s := Decimal(n / 10) + [digit];
      assert s[..|s| - 1] == Decimal(n / 10);
      s
  }

  /** The text printed after "Version: " for a classified entry. */
  function Text(v: VersionText): (r: string)
    ensures |r| >= 2
    ensures r[0] == 'v' <==> v.Version?
    ensures !v.Version? ==> r[..2] == "NA"
  {
    match v
    case NA => "NA"
    case NotPresent => "NA(Not Present)"
    case NvmeNotReady => "NA(NVMe Not Ready)"
    case NotAccelerator => "NA(Not Accelerator)"
    case Version(major, minor) => "v" + Decimal(major) + "." + Decimal(minor)
  }

  /** A printed version reads back: the digits before and after the dot denote major and minor. */
  lemma VersionTextReadsBack(major: uint8, minor: uint8) returns (dot: nat)
    ensures var r := Text(Version(major, minor));
      && 1 < dot < |r| - 1 && r[dot] == '.'
      && (forall i :: 1 <= i < |r| && i != dot ==> '0' <= r[i] <= '9')
      && DigitsValue(r[1..dot]) == major && DigitsValue(r[dot + 1..]) == minor
  {
    var r := Text(Version(major, minor));
    dot := 1 + |Decimal(major)|;
    assert r[1..dot] == Decimal(major);
    assert r[dot + 1..] == Decimal(minor);
  }

  /** Each of the five classes prints a text that no other class prints. */
  lemma TextDistinguishesClasses(a: VersionText, b: VersionText)
    requires Text(a) == Text(b)
    ensures a.Version? == b.Version?
    ensures !a.Version? ==> a == b
  {
    if a.Version? || b.Version? {
      assert Text(a)[0] == Text(b)[0];
    }
  }

  /** The index of the attempt whose answer print_version keeps: the first success, or the last try. */
  function KeptAttempt(bic: nat -> DevReading, k: nat): (i: nat)
    requires k < MAX_READ_RETRY
    ensures k <= i < MAX_READ_RETRY
    ensures bic(i).ret == 0 || i == MAX_READ_RETRY - 1
    ensures forall j :: k <= j < i ==> bic(j).ret != 0
    decreases MAX_READ_RETRY - k
  {
    if bic(k).ret == 0 || k == MAX_READ_RETRY - 1 then k else KeptAttempt(bic, k + 1)
  }

  /**
   * The retry loop of print_version: query the BIC until it answers with ret == 0, at most
   * MAX_READ_RETRY times. `bic(k)` is the answer to the k-th query.
   */
  method PollPowerStatus(bic: nat -> DevReading) returns (r: DevReading, attempts: nat)
    ensures 1 <= attempts <= MAX_READ_RETRY
    ensures r == bic(attempts - 1)
    ensures forall k :: 0 <= k < attempts - 1 ==> bic(k).ret != 0
    ensures r.ret != 0 ==> attempts == MAX_READ_RETRY
    ensures attempts - 1 == KeptAttempt(bic, 0)
  {
    var retry := MAX_READ_RETRY;
    r := bic(0);
    attempts := 0;
    while retry > 0
      invariant 0 <= retry <= MAX_READ_RETRY && attempts == MAX_READ_RETRY - retry
      invariant forall k :: 0 <= k < attempts ==> bic(k).ret != 0
      invariant attempts > 0 ==> r == bic(attempts - 1)
    {
      r := bic(attempts);
      attempts := attempts + 1;
      if r.ret == 0 {
        break;
      }
      retry := retry - 1;
    }
  }

  /** slot_dev_id of _update: the slot id in the high bits, the device id in the low nibble. */
  function SlotDevId(slotId: bv8, devId: bv8): (r: bv16)
    ensures devId < 16 ==> r >> 4 == slotId as bv16 && r & 0xF == devId as bv16
  {
    ((slotId as bv16) << 4) | (devId as bv16)
  }

  /**
   * The registry update of the constructor for a slot that is not GPv2: `comp` is erased
   * from `fru`'s components (operator[] first creates an empty entry for a missing `fru`),
   * and `fru` is erased once it has no component left.
   */
  function Unregister(fruList: map<string, set<string>>, fru: string, comp: string): (r: map<string, set<string>>)
    ensures fru in r <==> fru in fruList && fruList[fru] - {comp} != {}
    ensures fru in r ==> r[fru] == fruList[fru] - {comp}
    ensures forall f :: f != fru ==> (f in r <==> f in fruList)
    ensures forall f :: f != fru && f in r ==> r[f] == fruList[f]
  {
    var comps := (if fru in fruList then fruList[fru] else {}) - {comp};
    if comps == {} then fruList - {fru} else fruList[fru := comps]
  }

  /** The global fru_list: FRU name to the names of its registered components. */
  class ComponentRegistry {
    var fruList: map<string, set<string>>

    constructor (fruList: map<string, set<string>>)
      ensures this.fruList == fruList
    {
      this.fruList := fruList;
    }
  }

  /** The static members shared by every M2_DevComponent. */
  class M2Status {
    var statusTable: array<PowerInfo>
    var isDual: bool
    var devMainSlot: nat

    ghost predicate Valid()
      reads this
    {
      statusTable.Length == MAX_GPV2_DRIVE_NUM && devMainSlot <= 1
    }

    /** The zero-initialised statics: an all-zero table, not dual, main slot ON_EVEN. */
    constructor ()
      ensures Valid() && fresh(statusTable) && !isDual && devMainSlot == 0
      ensures forall i :: 0 <= i < statusTable.Length ==> statusTable[i] == PowerInfo(0, 0, 0, 0, 0, 0)
    {
      statusTable := new PowerInfo[MAX_GPV2_DRIVE_NUM](_ => PowerInfo(0, 0, 0, 0, 0, 0));
      isDual := false;
      devMainSlot := 0;
    }

    /** save_info: ignores an id past the table, else overwrites exactly that entry. */
    method SaveInfo(id: uint8, ret: int, status: uint8, nvmeReady: uint8, ffi: uint8,
                    majorVer: uint8, minorVer: uint8)
      requires Valid()
      modifies statusTable
      ensures id >= MAX_GPV2_DRIVE_NUM ==> statusTable[..] == old(statusTable[..])
      ensures id < MAX_GPV2_DRIVE_NUM ==>
        statusTable[..] == old(statusTable[..])[id := PowerInfo(ret, status, nvmeReady, ffi, majorVer, minorVer)]
    {
      if id >= MAX_GPV2_DRIVE_NUM {
        return;
      }
      statusTable[id] := PowerInfo(ret, status, nvmeReady, ffi, majorVer, minorVer);
    }

    /** print_single: one classified line per device 0..11. */
    method PrintSingle() returns (lines: seq<VersionText>)
      requires Valid()
      ensures |lines| == MAX_GPV2_DRIVE_NUM
      ensures forall i :: 0 <= i < MAX_GPV2_DRIVE_NUM ==> lines[i] == Classify(statusTable[i])
    {
      lines := [];
      for i := 0 to MAX_GPV2_DRIVE_NUM
        invariant |lines| == i
        invariant forall j :: 0 <= j < i ==> lines[j] == Classify(statusTable[j])
      {
        lines := lines + [Classify(statusTable[i])];
      }
    }

    /**
     * print_dual: one line per device pair (i, i + 1) for even i, classified from the pair's
     * main device `i + dev_main_slot`, which always lies inside the table.
     */
    method PrintDual() returns (lines: seq<VersionText>)
      requires Valid()
      ensures |lines| == MAX_GPV2_DRIVE_NUM / 2
      ensures forall k :: 0 <= k < MAX_GPV2_DRIVE_NUM / 2 ==>
        2 * k + devMainSlot < MAX_GPV2_DRIVE_NUM && lines[k] == Classify(statusTable[2 * k + devMainSlot])
    {
      lines := [];
      var i := 0;
      while i < MAX_GPV2_DRIVE_NUM
        invariant 0 <= i <= MAX_GPV2_DRIVE_NUM && i % 2 == 0
        invariant |lines| == i / 2
        invariant forall k :: 0 <= k < i / 2 ==> lines[k] == Classify(statusTable[2 * k + devMainSlot])
      {
        lines := lines + [Classify(statusTable[i + devMainSlot])];
        i := i + 2;
      }
    }
  }

  /** One registered M.2 device: its slot, its device index 0..11 and the shared statics. */
  class M2DevComponent {
    const slotId: uint8
    const devId: uint8
    const shared: M2Status

    /**
     * The constructor: on a slot that is not GPv2 the component takes itself out of the
     * registry; on a GPv2 slot the registry is left as it is.
     */
    constructor (fru: string, comp: string, slotId: uint8, devId: uint8, slotIsGpv2: bool,
                 registry: ComponentRegistry, shared: M2Status)
      modifies registry
      ensures this.slotId == slotId && this.devId == devId && this.shared == shared
      ensures registry.fruList == if slotIsGpv2 then old(registry.fruList)
                                  else Unregister(old(registry.fruList), fru, comp)
    {
      this.slotId := slotId;
      this.devId := devId;
      this.shared := shared;
      if !slotIsGpv2 {
        registry.fruList := Unregister(registry.fruList, fru, comp);
      }
    }

    /**
     * print_version: polls the device, saves its row, tracks the dual-M.2 layout across
     * calls, and after the last device prints the table (dual or single) and clears isDual.
     * `meffDualM2` is the MEFF_DUAL_M2 code; `bic(k)` the answer to the k-th query.
     */
    method PrintVersion(slotIsGpv2: bool, bic: nat -> DevReading, meffDualM2: uint8)
      returns (ret: int, lines: seq<VersionText>)
      requires shared.Valid()
      modifies shared, shared.statusTable
      ensures shared.Valid() && shared.statusTable == old(shared.statusTable)
      ensures !slotIsGpv2 ==>
        && ret == -1 && lines == []
        && shared.statusTable[..] == old(shared.statusTable[..])
        && shared.isDual == old(shared.isDual) && shared.devMainSlot == old(shared.devMainSlot)
      ensures slotIsGpv2 ==>
        var r := bic(KeptAttempt(bic, 0));
        var dual := old(shared.isDual) || r.meff == meffDualM2;
        && ret == 0
        && shared.statusTable[..] == (if devId < MAX_GPV2_DRIVE_NUM
            then old(shared.statusTable[..])[devId := PowerInfo(r.ret, r.status, r.nvmeReady, r.ffi, r.majorVer, r.minorVer)]
            else old(shared.statusTable[..]))
        && shared.devMainSlot == (if !old(shared.isDual) && r.meff == meffDualM2 then devId % 2
                                  else old(shared.devMainSlot))
        && shared.isDual == (dual && devId + 1 != MAX_GPV2_DRIVE_NUM)
        && (devId + 1 != MAX_GPV2_DRIVE_NUM ==> lines == [])
        && (devId + 1 == MAX_GPV2_DRIVE_NUM && !dual ==>
              |lines| == MAX_GPV2_DRIVE_NUM
              && forall i :: 0 <= i < MAX_GPV2_DRIVE_NUM ==> lines[i] == Classify(shared.statusTable[i]))
        && (devId + 1 == MAX_GPV2_DRIVE_NUM && dual ==>
              |lines| == MAX_GPV2_DRIVE_NUM / 2
              && forall k :: 0 <= k < MAX_GPV2_DRIVE_NUM / 2 ==>
                   lines[k] == Classify(shared.statusTable[2 * k + shared.devMainSlot]))
    {
      lines := [];
      if !slotIsGpv2 {
        return -1, [];
      }
      var r, attempts := PollPowerStatus(bic);
      shared.SaveInfo(devId, r.ret, r.status, r.nvmeReady, r.ffi, r.majorVer, r.minorVer);
      if !shared.isDual && r.meff == meffDualM2 {
        shared.isDual := true;
        if devId % 2 == 0 {
          shared.devMainSlot := 0;
        } else {
          shared.devMainSlot := 1;
        }
      }
      if devId + 1 == MAX_GPV2_DRIVE_NUM {
        if shared.isDual {
          lines := shared.PrintDual();
        } else {
          lines := shared.PrintSingle();
        }
        shared.isDual := false;
      }
      ret := 0;
    }
  }
}
