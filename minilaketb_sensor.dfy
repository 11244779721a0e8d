/**
 * The integer side of the Minilake test-board sensor library: the IPMI SDR factor and
 * exponent decoding of the BIC sensor wrapper, the INA230 register byte swaps, the PCA9848
 * mux channel register, the hot-swap controller's EIN energy counters, the discrete-sensor
 * search, the per-FRU SDR initialisation flags and the 12 V status check.
 */
module MinilakeSensor {
  import opened Wrappers

  // ---------------------------------------------------------------------------------------
  // SDR exponents: two 4-bit two's complement numbers packed in one byte

  /** The value of a 4-bit two's complement nibble. */
  function Signed4(n: int): int
    requires 0 <= n < 16
  {
    if n <= 7 then n else n - 16
  }

  /** The nibble that stores `e` in 4-bit two's complement. */
  function Nibble(e: int): (n: bv8)
    requires -8 <= e <= 7
    ensures n < 16
  {
    ((e + 16) % 16) as bv8
  }

  /**
   * The exponent decoding of bic_read_sensor_wrapper: a nibble above 7 is negated by
   * complementing, adding one, masking to four bits and changing the sign.
   */
  function DecodeExp(n: bv8): (e: int)
    requires n < 16
    ensures -8 <= e <= 7
    ensures e == Signed4(n as int)
  {
    if n > 7 then -((((!n) + 1) & 0xF) as int) else n as int
  }

  /** Decoding undoes storing, and storing undoes decoding. */
  lemma ExpRoundTrip(e: int, n: bv8)
    requires -8 <= e <= 7 && n < 16
    ensures DecodeExp(Nibble(e)) == e
    ensures Nibble(DecodeExp(n)) == n
  {
  }

  /** The B exponent (low nibble) and R exponent (high nibble) of the SDR's rb_exp byte. */
  function RbExponents(rbExp: bv8): (r: (int, int))
    ensures r.0 == Signed4(rbExp as int % 16) && r.1 == Signed4(rbExp as int / 16)
    ensures -8 <= r.0 <= 7 && -8 <= r.1 <= 7
  {
    (DecodeExp(rbExp & 0xF), DecodeExp((rbExp >> 4) & 0xF))
  }

  /**
   * The 10-bit M or B factor: the two high bits of the tolerance or accuracy byte above
   * the eight bits of the value byte.
   */
  function TenBit(lsb: bv8, high: bv8): (v: bv16)
    ensures v < 1024
    ensures v & 0xFF == lsb as bv16
    ensures v >> 8 == (high >> 6) as bv16
  {
    (((high >> 6) as bv16) << 8) | (lsb as bv16)
  }

  // ---------------------------------------------------------------------------------------
  // The BIC sensor wrapper

  /** The flag a BIC reading carries when no value is available. */
  const BIC_SENSOR_READ_NA: bv8 := 0x20

  datatype SensorReading = SensorReading(value: bv8, flags: bv8, status: uint8)

  /** The SDR fields the wrapper uses. */
  datatype SdrFull = SdrFull(sdrType: uint8, mVal: bv8, mTolerance: bv8, bVal: bv8, bAccuracy: bv8, rbExp: bv8)

  /** What the wrapper reports, before the floating-point evaluation of y = (M x + B 10^b) 10^r. */
  datatype SensorOutcome =
    | ReadFailed(code: int)
    | ReadNotAvailable
    | DiscreteStatus(status: uint8)
    | RawValue(raw: bv8)
    | Linear(m: bv16, x: bv8, b: bv16, bExp: int, rExp: int)

  /**
   * bic_read_sensor_wrapper after the BIC query returned `ret` and `sensor`: a failed query,
   * an unavailable reading, a discrete status, a raw value for a non-type-1 SDR, or the
   * linear-formula factors of a type-1 SDR.
   */
  function ReadSensorWrapper(ret: int, sensor: SensorReading, discrete: bool, sdr: SdrFull): (o: SensorOutcome)
    ensures o.ReadFailed? <==> ret != 0
    ensures o.ReadFailed? ==> o.code == ret
    ensures o.ReadNotAvailable? <==> ret == 0 && sensor.flags & BIC_SENSOR_READ_NA != 0
    ensures o.DiscreteStatus? <==> ret == 0 && sensor.flags & BIC_SENSOR_READ_NA == 0 && discrete
    ensures o.DiscreteStatus? ==> o.status == sensor.status
    ensures o.RawValue? <==> ret == 0 && sensor.flags & BIC_SENSOR_READ_NA == 0 && !discrete && sdr.sdrType != 1
    ensures o.RawValue? ==> o.raw == sensor.value
    ensures o.Linear? ==>
      && o.x == sensor.value
      && o.m == TenBit(sdr.mVal, sdr.mTolerance) && o.m < 1024
      && o.b == TenBit(sdr.bVal, sdr.bAccuracy) && o.b < 1024
      && o.bExp == Signed4(sdr.rbExp as int % 16) && o.rExp == Signed4(sdr.rbExp as int / 16)
  {
    if ret != 0 then ReadFailed(ret)
    else if sensor.flags & BIC_SENSOR_READ_NA != 0 then ReadNotAvailable
    else if discrete then DiscreteStatus(sensor.status)
    else if sdr.sdrType != 1 then RawValue(sensor.value)
    else
      var exps := RbExponents(sdr.rbExp);
      Linear(TenBit(sdr.mVal, sdr.mTolerance), sensor.value, TenBit(sdr.bVal, sdr.bAccuracy), exps.0, exps.1)
  }

  // ---------------------------------------------------------------------------------------
  // INA230 registers

  /** The two registers read_ina230_value is asked for. */
  datatype InaRegister = InaVolt | InaPower

  /** The answer of an SMBus word read: an error, or the 16-bit word. */
  datatype SmbusWord = WordError | Word(w: bv16)

  /** Exchanges the two bytes of a word (the INA230 sends its registers big-endian). */
  function SwapBytes(w: bv16): (r: bv16)
    ensures r >> 8 == w & 0xFF && r & 0xFF == w >> 8
  {
    ((w & 0x00FF) << 8) | ((w & 0xFF00) >> 8)
  }

  lemma SwapBytesInvolution(w: bv16)
    ensures SwapBytes(SwapBytes(w)) == w
  {
  }

  /** The bus-voltage decoding: the swapped word with its sign bit cleared. */
  function VoltRaw(w: bv16): (r: bv16)
    ensures r < 0x8000
    ensures r == SwapBytes(w) & 0x7FFF
  {
    ((w & 0x007F) << 8) | ((w & 0xFF00) >> 8)
  }

  /** Swapping the voltage value back gives the register word with its sign bit cleared. */
  lemma VoltRawSwapped(w: bv16)
    ensures SwapBytes(VoltRaw(w)) == w & 0xFF7F
  {
  }

  /** The raw register value read_ina230_value scales, or None when the word read fails. */
  function InaRaw(reg: InaRegister, res: SmbusWord): (r: Option<bv16>)
    ensures r.None? <==> res.WordError?
    ensures r.Some? && reg == InaPower ==> r.value == SwapBytes(res.w)
    ensures r.Some? && reg == InaVolt ==> r.value < 0x8000 && r.value == SwapBytes(res.w) & 0x7FFF
  {
    match res
    case WordError => None
    case Word(w) => if reg == InaVolt then Some(VoltRaw(w)) else Some(SwapBytes(w))
  }

  // ---------------------------------------------------------------------------------------
  // PCA9848 mux

  /** The number of M.2 channels behind the mux. */
  const TOTAL_M2_CH_ON_GP: bv8 := 6

  /** The control byte of minilaketb_mux_control: only `channel` open, or every channel closed. */
  function MuxRegister(channel: bv8): (r: bv8)
    ensures channel < TOTAL_M2_CH_ON_GP ==> r & (r - 1) == 0 && r >> channel == 1
    ensures channel >= TOTAL_M2_CH_ON_GP ==> r == 0
  {
    if channel < TOTAL_M2_CH_ON_GP then 1 << channel else 0
  }

  // ---------------------------------------------------------------------------------------
  // Hot-swap controller energy counters (READ_EIN_EXT)

  const EIN_ROLLOVER_CNT: nat := 0x10000
  const EIN_SAMPLE_CNT: nat := 0x1000000
  const EIN_ENERGY_CNT: nat := 0x800000

  /** One READ_EIN_EXT answer: a 24-bit energy count, a 16-bit rollover count, a 24-bit sample count. */
  datatype EinSample = EinSample(energy: nat, rollover: nat, sample: nat)

  ghost predicate InRange(s: EinSample) {
    s.energy < 0x1000000 && s.rollover < EIN_ROLLOVER_CNT && s.sample < EIN_SAMPLE_CNT
  }

  /** The counters of a 9-byte answer whose byte 0 is the length; fields are little-endian. */
  function AssembleEin(rbuf: seq<uint8>): (s: EinSample)
    requires |rbuf| == 9
    ensures InRange(s)
    ensures s.energy % 256 == rbuf[1] && s.energy / 65536 == rbuf[3] && s.energy / 256 % 256 == rbuf[2]
    ensures s.rollover % 256 == rbuf[4] && s.rollover / 256 == rbuf[5]
    ensures s.sample % 256 == rbuf[6] && s.sample / 65536 == rbuf[8] && s.sample / 256 % 256 == rbuf[7]
  {
    // The bytes occupy disjoint bit ranges, so shifting and or-ing them is adding them.
    EinSample(rbuf[3] as int * 65536 + rbuf[2] as int * 256 + rbuf[1],
              rbuf[5] as int * 256 + rbuf[4],
              rbuf[8] as int * 65536 + rbuf[7] as int * 256 + rbuf[6])
  }

  /** What read_hsc_ein reports: nothing usable (-1), or the energy and sample differences. */
  datatype EinOutcome = EinNoReading | EinDiffs(energyDiff: int, sampleDiff: nat)

  /**
   * The number of rollover steps between two readings, counted modulo 2^16, and a whole turn
   * when the rollover count is equal but the energy count went down.
   */
  function RolloverSteps(pre: EinSample, cur: EinSample): int {
    (cur.rollover - pre.rollover) % EIN_ROLLOVER_CNT
      + (if cur.rollover == pre.rollover && pre.energy > cur.energy then EIN_ROLLOVER_CNT else 0)
  }

  /** The energy accumulated between two readings, in energy-count units. */
  function EnergyBetween(pre: EinSample, cur: EinSample): int {
    RolloverSteps(pre, cur) * EIN_ENERGY_CNT + cur.energy - pre.energy
  }

  /**
   * The difference computation of read_hsc_ein, written with the source's comparisons and
   * wrap-around corrections; the result is characterised by modular arithmetic.
   */
  function EinDelta(pre: EinSample, cur: EinSample): (r: EinOutcome)
    requires InRange(pre) && InRange(cur)
    ensures r.EinNoReading? <==> EnergyBetween(pre, cur) < 0 || cur.sample == pre.sample
    ensures r.EinDiffs? ==> r.energyDiff == EnergyBetween(pre, cur) && r.energyDiff >= 0
    ensures r.EinDiffs? ==> r.sampleDiff == (cur.sample - pre.sample) % EIN_SAMPLE_CNT && r.sampleDiff > 0
  {
    var rollover := if pre.rollover > cur.rollover || (pre.rollover == cur.rollover && pre.energy > cur.energy)
                    then cur.rollover + EIN_ROLLOVER_CNT else cur.rollover;
    var sample := if pre.sample > cur.sample then cur.sample + EIN_SAMPLE_CNT else cur.sample;
    var energyDiff := (rollover - pre.rollover) * EIN_ENERGY_CNT + cur.energy - pre.energy;
    if energyDiff < 0 then EinNoReading
    else
      var sampleDiff := sample - pre.sample;
      if sampleDiff == 0 then EinNoReading else EinDiffs(energyDiff, sampleDiff)
  }

  /** Equal rollover counts and a non-decreasing energy count give a non-negative difference. */
  lemma EnergyNonNegativeWithoutRollover(pre: EinSample, cur: EinSample)
    requires InRange(pre) && InRange(cur)
    requires cur.rollover == pre.rollover && pre.energy <= cur.energy && cur.sample != pre.sample
    ensures EinDelta(pre, cur) == EinDiffs(cur.energy - pre.energy, (cur.sample - pre.sample) % EIN_SAMPLE_CNT)
  {
  }

  /** The function-static counters of read_hsc_ein. */
  class EinCounter {
    var lastEnergy: nat
    var lastRollover: nat
    var lastSample: nat
    var preEin: bool

    ghost predicate Valid()
      reads this
    {
      InRange(EinSample(lastEnergy, lastRollover, lastSample))
    }

    /** The zero-initialised statics. */
    constructor ()
      ensures Valid() && !preEin
      ensures lastEnergy == 0 && lastRollover == 0 && lastSample == 0
    {
      lastEnergy, lastRollover, lastSample := 0, 0, 0;
      preEin := false;
    }

    /**
     * read_hsc_ein after the bus transfer: `rbuf` is the 9-byte answer, or None when the
     * device could not be opened or the transfer failed. A well-formed answer is always
     * recorded; the first one only primes the counters.
     */
    method ReadHscEin(rbuf: Option<seq<uint8>>) returns (r: EinOutcome)
      requires Valid()
      requires rbuf.Some? ==> |rbuf.value| == 9
      modifies this
      ensures Valid()
      ensures (rbuf.None? || rbuf.value[0] != 8) ==> r == EinNoReading && unchanged(this)
      ensures rbuf.Some? && rbuf.value[0] == 8 ==>
        var cur := AssembleEin(rbuf.value);
        && EinSample(lastEnergy, lastRollover, lastSample) == cur
        && preEin
        && r == (if !old(preEin) then EinNoReading
                 else EinDelta(EinSample(old(lastEnergy), old(lastRollover), old(lastSample)), cur))
    {
      if rbuf.None? || rbuf.value[0] != 8 {
        return EinNoReading;
      }
      var pre := EinSample(lastEnergy, lastRollover, lastSample);
      var cur := AssembleEin(rbuf.value);
      lastEnergy, lastRollover, lastSample := cur.energy, cur.rollover, cur.sample;
      if !preEin {
        preEin := true;
        return EinNoReading;
      }
      r := EinDelta(pre, cur);
    }
  }

  // ---------------------------------------------------------------------------------------
  // The server branch of minilaketb_sensor_read

  /** The search of minilaketb_sensor_read over bic_discrete_list. */
  method IsDiscrete(sensorNum: uint8, discreteList: seq<uint8>) returns (discrete: bool)
    ensures discrete <==> sensorNum in discreteList
  {
    discrete := false;
    var i := 0;
    while i < |discreteList|
      invariant 0 <= i <= |discreteList|
      invariant sensorNum !in discreteList[..i]
      invariant !discrete
    {
      var candidate := discreteList[i];
      i := i + 1;
      if sensorNum == candidate {
        discrete := true;
        break;
      }
    }
  }

  /** What minilaketb_sdr_init reports: 0, or ERR_NOT_READY. */
  datatype SdrInitStatus = SdrReady | ErrNotReady

  /** What the server branch of minilaketb_sensor_read reports. */
  datatype ServerRead = SdrNotReady | Read(outcome: SensorOutcome)

  /** The per-FRU init_done flags (function-static in minilaketb_sdr_init). */
  class SdrInitFlags {
    var initDone: array<bool>

    /** All flags start cleared; `maxNumFrus` is MAX_NUM_FRUS. */
    constructor (maxNumFrus: nat)
      ensures fresh(initDone) && initDone.Length == maxNumFrus
      ensures forall i :: 0 <= i < initDone.Length ==> !initDone[i]
    {
      initDone := new bool[maxNumFrus](_ => false);
    }

    /**
     * minilaketb_sdr_init: once the FRU's flag is set it answers ready and loads nothing;
     * otherwise `loaded` is whether minilaketb_sensor_sdr_init succeeded, and only success
     * sets the flag.
     */
    method SdrInit(fru: uint8, loaded: bool) returns (r: SdrInitStatus)
      requires 1 <= fru <= initDone.Length
      modifies initDone
      ensures old(initDone[fru - 1]) ==> r == SdrReady && initDone[..] == old(initDone[..])
      ensures !old(initDone[fru - 1]) && loaded ==> r == SdrReady && initDone[..] == old(initDone[..])[fru - 1 := true]
      ensures !old(initDone[fru - 1]) && !loaded ==> r == ErrNotReady && initDone[..] == old(initDone[..])
      ensures r == SdrReady <==> initDone[fru - 1]
    {
      if !initDone[fru - 1] {
        if !loaded {
          return ErrNotReady;
        }
        initDone[fru - 1] := true;
      }
      r := SdrReady;
    }

    /**
     * The server-slot branch of minilaketb_sensor_read: initialise the SDR, decide whether
     * the sensor is discrete, and read it through the wrapper. `ret` and `sensor` are the
     * BIC query's answer and `sdr` the FRU's SDR record for the sensor.
     */
    method ReadServerSensor(fru: uint8, sensorNum: uint8, discreteList: seq<uint8>, loaded: bool,
                            ret: int, sensor: SensorReading, sdr: SdrFull) returns (r: ServerRead)
      requires 1 <= fru <= initDone.Length
      modifies initDone
      ensures r.SdrNotReady? <==> !old(initDone[fru - 1]) && !loaded
      ensures r.Read? ==> r.outcome == ReadSensorWrapper(ret, sensor, sensorNum in discreteList, sdr)
      ensures initDone[..] == old(initDone[..])[fru - 1 := old(initDone[fru - 1]) || loaded]
    {
      var status := SdrInit(fru, loaded);
      if status == ErrNotReady {
        return SdrNotReady;
      }
      var discrete := IsDiscrete(sensorNum, discreteList);
      r := Read(ReadSensorWrapper(ret, sensor, discrete, sdr));
    }
  }

  // ---------------------------------------------------------------------------------------
  // 12 V status of a server slot

  /** gpio_12v: a placeholder for slot 0 and the 12 V enable GPIO of slot 1. */
  function Gpio12v(slot1EnableGpio: nat): (table: seq<nat>)
    ensures |table| == 2 && table[1] == slot1EnableGpio
  {
    [0, slot1EnableGpio]
  }

  /** minilaketb_is_server_12v_on as written, with the read past gpio_12v made explicit. */
  datatype Is12vAsWritten = Failure12v | Status12v(status: uint8) | ReadsPastTable(index: nat)

  /**
   * The source's guard accepts slots 1..4; `readGpio(g)` is the value of GPIO g, or None
   * when reading it fails. The enable is active low, so GPIO value 1 means the enable is
   * not asserted and 12 V is off.
   */
  function Server12vOnAsWritten(slotId: uint8, table: seq<nat>, readGpio: nat -> Option<int>): (r: Is12vAsWritten)
    ensures slotId < 1 || slotId > 4 ==> r == Failure12v
    ensures r.ReadsPastTable? <==> 1 <= slotId <= 4 && slotId >= |table|
  {
    if slotId < 1 || slotId > 4 then Failure12v
    else if slotId >= |table| then ReadsPastTable(slotId)
    else match readGpio(table[slotId])
      case None => Failure12v
      case Some(v) => Status12v(if v == 1 then 0 else 1)
  }

  /** Slot 2 passes the guard but indexes past the two-entry gpio_12v table. */
  lemma Server12vGuardOverrun(g: nat, readGpio: nat -> Option<int>)
    ensures Server12vOnAsWritten(2, Gpio12v(g), readGpio) == ReadsPastTable(2)
  {
  }

  /**
   * minilaketb_is_server_12v_on with the guard bounded by the table: only slots with a GPIO
   * entry are read. Status 0 means the 12 V rail is off, status 1 that it is on.
   */
  function Server12vOn(slotId: uint8, table: seq<nat>, readGpio: nat -> Option<int>): (r: Option<uint8>)
    ensures r.Some? <==> 1 <= slotId < |table| && readGpio(table[slotId]).Some?
    ensures r.Some? ==> r.value <= 1 && (r.value == 0 <==> readGpio(table[slotId]).value == 1)
  {
    if slotId < 1 || slotId >= |table| then None
    else match readGpio(table[slotId])
      case None => None
      case Some(v) => Some(if v == 1 then 0 else 1)
  }

  /** Wherever the code as written stays inside the table, the corrected check agrees with it. */
  lemma Server12vAgrees(slotId: uint8, table: seq<nat>, readGpio: nat -> Option<int>)
    requires slotId <= 4
    ensures !Server12vOnAsWritten(slotId, table, readGpio).ReadsPastTable? ==>
      Server12vOn(slotId, table, readGpio) ==
        match Server12vOnAsWritten(slotId, table, readGpio)
        case Status12v(s) => Some(s)
        case _ => None
  {
  }
}
