// The power management chip behind a lossy bus: voltage codes, configuration bytes, and
// what programming a whole configuration does to the registers under any pattern of
// failed transfers.
module PmicSpec {
  datatype Code = Ok | Inval | NoComm

  // What becomes of one transfer: it succeeds, it fails before reaching the register, or
  // it takes effect and is reported as failed all the same.
  datatype Outcome = Done | Lost | Unacknowledged

  // What a register holds; settings made of bits are put together as bit vectors.
  type Byte = n: nat | n < 256

  const BUCKS: nat := 5
  const REGULATORS: nat := 9
  const RETRIES: nat := 3

  // ---------------------------------------------------------------- voltages

  function Min(id: nat): nat { if id < BUCKS then 300 else 600 }

  function Max(id: nat): nat { if id < BUCKS then 3340 else 3300 }

  function Step(id: nat): nat { if id < BUCKS then 5 else 50 }

  predicate InRange(id: nat, mv: nat) { Min(id) <= mv <= Max(id) }

  // The register value is kept in eight bits.
  function VoltCode(id: nat, mv: nat): Byte
    requires InRange(id, mv)
  {
    (mv - Min(id)) / Step(id) % 256
  }

  function Millivolts(id: nat, code: Byte): nat
  {
    Min(id) + code * Step(id)
  }

  // What an LDO reads back is the request rounded down by less than one step.
  lemma LdoReadsBack(id: nat, mv: nat)
    requires BUCKS <= id && InRange(id, mv)
    ensures mv - 50 < Millivolts(id, VoltCode(id, mv)) <= mv
  {
  }

  // What a BUCK reads back lost 1280 mV for every wrap of its eight-bit code.
  lemma BuckReadsBack(id: nat, mv: nat)
    requires id < BUCKS && InRange(id, mv)
    ensures Millivolts(id, VoltCode(id, mv)) == mv - mv % 5 - 1280 * ((mv - 300) / 1280)
  {
    var c := (mv - 300) / 5;
    assert c / 256 == (mv - 300) / 1280;
    assert mv % 5 == (mv - 300) % 5;
  }

  // Reading back gives the request, rounded down by less than one step, exactly up to
  // 1579 mV on a BUCK and always on an LDO.
  lemma ReadsBackIff(id: nat, mv: nat)
    requires InRange(id, mv)
    ensures mv - Step(id) < Millivolts(id, VoltCode(id, mv)) <= mv <==> id >= BUCKS || mv <= 1579
  {
    if id < BUCKS { BuckReadsBack(id, mv); } else { LdoReadsBack(id, mv); }
  }

  // ---------------------------------------------------------------- configuration

  datatype Buck = Buck(mv: nat, enable: bool, fpwm: bool, freq: bv8, phase: bv8)

  datatype Ldo = Ldo(mv: nat, enable: bool, bypass: bool, lowNoise: bool)

  datatype Sleep = Sleep(enabled: bool, buckMask: bv8, ldoMask: bv8, retention: bool, wakePin: bv8, wakeEdge: bv8)

  datatype Config = Config(buck: seq<Buck>, ldo: seq<Ldo>, sleep: Sleep,
                           watchdog: bool, watchdogMs: nat, esmMode: bv8)

  predicate WellFormed(cfg: Config) { |cfg.buck| == BUCKS && |cfg.ldo| == REGULATORS - BUCKS }

  function BuckConf(b: Buck): bv8
  {
    (if b.enable then 0x80 else 0) | (if b.fpwm then 0x40 else 0) | (b.freq & 0x38) | (b.phase & 0x07)
  }

  // Only the last LDO has a low-noise mode.
  function LdoConf(l: Ldo, i: nat): bv8
  {
    (if l.enable then 0x80 else 0) | (if l.bypass then 0x40 else 0) | (if i == 3 && l.lowNoise then 0x20 else 0)
  }

  // What a settings byte means, field by field.
  function ReadBuck(mv: nat, conf: Byte): Buck
  {
    var c := conf as bv8;
    Buck(mv, c & 0x80 != 0, c & 0x40 != 0, c & 0x38, c & 0x07)
  }

  function ReadLdo(mv: nat, conf: Byte): Ldo
  {
    var c := conf as bv8;
    Ldo(mv, c & 0x80 != 0, c & 0x40 != 0, c & 0x20 != 0)
  }

  function ToByte(b: bv8): (n: Byte)
    ensures n as bv8 == b
  {
    b as int
  }

  // A BUCK's settings survive the register exactly when frequency and phase stay within
  // their own bits.
  lemma BuckConfRoundTripIff(b: Buck)
    ensures ReadBuck(b.mv, ToByte(BuckConf(b))) == b <==> b.freq & 0xC7 == 0 && b.phase & 0xF8 == 0
    ensures ReadBuck(b.mv, ToByte(BuckConf(b))) == b.(freq := b.freq & 0x38, phase := b.phase & 0x07)
  {
  }

  lemma LdoConfRoundTripIff(l: Ldo, i: nat)
    ensures ReadLdo(l.mv, ToByte(LdoConf(l, i))) == l <==> i == 3 || !l.lowNoise
    ensures ReadLdo(l.mv, ToByte(LdoConf(l, i))) == l.(lowNoise := i == 3 && l.lowNoise)
  {
  }

  function Requested(cfg: Config, id: nat): nat
    requires WellFormed(cfg) && id < REGULATORS
  {
    if id < BUCKS then cfg.buck[id].mv else cfg.ldo[id - BUCKS].mv
  }

  function ConfByte(cfg: Config, id: nat): Byte
    requires WellFormed(cfg) && id < REGULATORS
  {
    ToByte(if id < BUCKS then BuckConf(cfg.buck[id]) else LdoConf(cfg.ldo[id - BUCKS], id - BUCKS))
  }

  predicate AllInRange(cfg: Config)
    requires WellFormed(cfg)
  {
    forall id: nat | id < REGULATORS :: InRange(id, Requested(cfg, id))
  }

  // ---------------------------------------------------------------- registers

  function VoltReg(id: nat): nat
    requires id < REGULATORS
  {
    if id < BUCKS then 0x10 + id * 4 else 0x28 + (id - BUCKS) * 4
  }

  function ConfReg(id: nat): nat
    requires id < REGULATORS
  {
    if id < BUCKS then 0x11 + id * 4 else 0x29 + (id - BUCKS) * 4
  }

  predicate IsOf(r: nat, id: nat)
    requires id < REGULATORS
  {
    r == VoltReg(id) || r == ConfReg(id)
  }

  // No two registers of the regulators share an address.
  lemma RegistersApart(id: nat, other: nat)
    requires id < REGULATORS && other < REGULATORS
    ensures VoltReg(id) < 0x60 && ConfReg(id) < 0x60
    ensures VoltReg(id) != ConfReg(other)
    ensures id != other ==> VoltReg(id) != VoltReg(other) && ConfReg(id) != ConfReg(other)
  {
  }

  // The chip's registers, how many transfers have been attempted, and the driver's own
  // record of the voltages it has set.
  datatype Pmic = Pmic(regs: seq<Byte>, attempts: nat, ready: bool, record: seq<nat>)

  predicate Sized(s: Pmic) { |s.regs| == 256 && |s.record| == REGULATORS }

  // One attempt to write.
  function Attempt(s: Pmic, fate: nat -> Outcome, reg: nat, val: Byte): (t: Pmic)
    requires Sized(s) && reg < 256
    ensures Sized(t)
  {
    s.(regs := if fate(s.attempts) == Lost then s.regs else s.regs[reg := val], attempts := s.attempts + 1)
  }

  function Write(s: Pmic, fate: nat -> Outcome, reg: nat, val: Byte, tries: nat): (r: (Pmic, Code))
    requires Sized(s) && reg < 256
    ensures Sized(r.0)
    decreases tries
  {
    if tries == 0 then (s, NoComm)
    else
      var t := Attempt(s, fate, reg, val);
      if fate(s.attempts) == Done then (t, Ok) else Write(t, fate, reg, val, tries - 1)
  }

  function SetVoltage(s: Pmic, fate: nat -> Outcome, id: nat, mv: nat): (r: (Pmic, Code))
    requires Sized(s)
    ensures Sized(r.0)
  {
    if !s.ready || id >= REGULATORS || !InRange(id, mv) then (s, Inval)
    else
      var (t, c) := Write(s, fate, VoltReg(id), VoltCode(id, mv), RETRIES);
      if c == Ok then (t.(record := t.record[id := mv]), Ok) else (t, c)
  }

  function SetRegulator(s: Pmic, fate: nat -> Outcome, cfg: Config, id: nat): (r: (Pmic, Code))
    requires Sized(s) && WellFormed(cfg) && id < REGULATORS
    ensures Sized(r.0)
  {
    var (t, c) := SetVoltage(s, fate, id, Requested(cfg, id));
    if c != Ok then (t, c) else Write(t, fate, ConfReg(id), ConfByte(cfg, id), RETRIES)
  }

  // The first n regulators in order, stopping at the first failure.
  function SetRegulators(s: Pmic, fate: nat -> Outcome, cfg: Config, n: nat): (r: (Pmic, Code))
    requires Sized(s) && WellFormed(cfg) && n <= REGULATORS
    ensures Sized(r.0)
  {
    if n == 0 then (s, Ok)
    else
      var (t, c) := SetRegulators(s, fate, cfg, n - 1);
      if c != Ok then (t, c) else SetRegulator(t, fate, cfg, n - 1)
  }

  function SleepByte(z: Sleep): Byte
  {
    ToByte((if z.enabled then 0x01 else 0) | (if z.retention then 0x40 else 0) | (z.buckMask & 0x1F)
           | ((z.ldoMask & 0x0F) << 6))
  }

  function WakeByte(z: Sleep): Byte
  {
    ToByte((z.wakePin & 0x07) | ((z.wakeEdge & 0x03) << 4))
  }

  function EsmByte(mode: bv8): Byte
  {
    ToByte((mode & 0x03) | 0x80)
  }

  function SetSleep(s: Pmic, fate: nat -> Outcome, z: Sleep): (r: (Pmic, Code))
    requires Sized(s)
    ensures Sized(r.0)
  {
    if !s.ready then (s, Inval)
    else
      var (t, c) := Write(s, fate, 0xA0, SleepByte(z), RETRIES);
      if c != Ok then (t, c) else Write(t, fate, 0xA1, WakeByte(z), RETRIES)
  }

  function WatchdogByte(cfg: Config): Byte
  {
    if !cfg.watchdog then 0
    else (if cfg.watchdogMs > 32000 then 32000 else cfg.watchdogMs) / 256 % 128
  }

  // The watchdog and error monitor writes; what they return is not looked at.
  function SetMonitors(s: Pmic, fate: nat -> Outcome, cfg: Config): (t: Pmic)
    requires Sized(s)
    ensures Sized(t)
  {
    if !s.ready then s
    else
      var u := Write(s, fate, 0x61, WatchdogByte(cfg), RETRIES).0;
      if cfg.esmMode == 0 || cfg.esmMode > 2 then u
      else Write(u, fate, 0x70, EsmByte(cfg.esmMode), RETRIES).0
  }

  function SetConfig(s: Pmic, fate: nat -> Outcome, cfg: Config): (r: (Pmic, Code))
    requires Sized(s) && WellFormed(cfg)
    ensures Sized(r.0)
  {
    var (t, c) := SetRegulators(s, fate, cfg, REGULATORS);
    if c != Ok then (t, c)
    else
      var (u, d) := SetSleep(t, fate, cfg.sleep);
      if d != Ok then (u, d) else (SetMonitors(u, fate, cfg), Ok)
  }

  // A read is one transfer, with no retry.
  function Read(s: Pmic, fate: nat -> Outcome): (Pmic, Code)
  {
    (s.(attempts := s.attempts + 1), if fate(s.attempts) == Done then Ok else NoComm)
  }

  function Masked(cur: Byte, mask: bv8, val: bv8): Byte
  {
    ToByte((cur as bv8 & !mask) | (val & mask))
  }

  function Modify(s: Pmic, fate: nat -> Outcome, reg: nat, mask: bv8, val: bv8): (r: (Pmic, Code))
    requires Sized(s) && reg < 256
    ensures Sized(r.0)
  {
    var (t, c) := Read(s, fate);
    if c != Ok then (t, c) else Write(t, fate, reg, Masked(s.regs[reg], mask, val), RETRIES)
  }

  // Enabling or disabling one regulator.
  function Switch(s: Pmic, fate: nat -> Outcome, id: nat, on: bool): (r: (Pmic, Code))
    requires Sized(s)
    ensures Sized(r.0)
  {
    if !s.ready || id >= REGULATORS then (s, Inval)
    else Modify(s, fate, ConfReg(id), 0x80, if on then 0x80 else 0x00)
  }

  // ---------------------------------------------------------------- one write

  // Everything but register `reg` and the attempt count is as it was; the register holds
  // its old value or the new one.
  predicate OnlyMaybe(s: Pmic, t: Pmic, reg: nat, val: Byte)
  {
    t.(attempts := s.attempts) == s || (reg < |s.regs| && t.(attempts := s.attempts) == s.(regs := s.regs[reg := val]))
  }

  // A write succeeds exactly when one of the attempts it may make does, and then the
  // register holds the value; if not, the register may have taken it or not. Nothing
  // else changes either way.
  lemma {:induction false} WriteIff(s: Pmic, fate: nat -> Outcome, reg: nat, val: Byte, tries: nat)
    requires Sized(s) && reg < 256
    ensures var (t, c) := Write(s, fate, reg, val, tries);
            && (c == Ok <==> exists k: nat | s.attempts <= k < s.attempts + tries :: fate(k) == Done)
            && (c == Ok ==> t.(attempts := s.attempts) == s.(regs := s.regs[reg := val]))
            && (c != Ok ==> c == NoComm && OnlyMaybe(s, t, reg, val))
            && s.attempts <= t.attempts <= s.attempts + tries
    decreases tries
  {
    if tries > 0 {
      var t := Attempt(s, fate, reg, val);
      if fate(s.attempts) != Done {
        WriteIff(t, fate, reg, val, tries - 1);
        assert s.regs[reg := val][reg := val] == s.regs[reg := val];
      }
    }
  }

  // Switching a regulator changes its enable bit alone: its other settings, read as a
  // BUCK's or as an LDO's, and every other register stay.
  lemma SwitchKeepsSettings(s: Pmic, fate: nat -> Outcome, id: nat, on: bool, mv: nat)
    requires Sized(s) && id < REGULATORS && Switch(s, fate, id, on).1 == Ok
    ensures var t, reg := Switch(s, fate, id, on).0, ConfReg(id);
            && ReadBuck(mv, t.regs[reg]) == ReadBuck(mv, s.regs[reg]).(enable := on)
            && ReadLdo(mv, t.regs[reg]) == ReadLdo(mv, s.regs[reg]).(enable := on)
            && t.(attempts := s.attempts) == s.(regs := s.regs[reg := t.regs[reg]])
  {
    hide Write, ReadBuck, ReadLdo, Masked;
    var reg, bit := ConfReg(id), (if on then 0x80 else 0x00) as bv8;
    MaskedKeeps(s.regs[reg], on, mv);
    WriteIff(Read(s, fate).0, fate, reg, Masked(s.regs[reg], 0x80, bit), RETRIES);
  }

  lemma MaskedIs(cur: Byte, mask: bv8, val: bv8)
    ensures Masked(cur, mask, val) as bv8 == (cur as bv8 & !mask) | (val & mask)
  {
  }

  lemma EnableBitOnly(c: bv8, on: bool)
    ensures var d := (c & !0x80) | ((if on then 0x80 else 0x00) & 0x80);
            && (d & 0x80 != 0 <==> on)
            && d & 0x40 == c & 0x40 && d & 0x20 == c & 0x20 && d & 0x38 == c & 0x38 && d & 0x07 == c & 0x07
  {
  }

  lemma MaskedKeeps(cur: Byte, on: bool, mv: nat)
    ensures var next := Masked(cur, 0x80, if on then 0x80 else 0x00);
            && ReadBuck(mv, next) == ReadBuck(mv, cur).(enable := on)
            && ReadLdo(mv, next) == ReadLdo(mv, cur).(enable := on)
  {
    hide Masked, ToByte;
    MaskedIs(cur, 0x80, if on then 0x80 else 0x00);
    EnableBitOnly(cur as bv8, on);
  }

  // ---------------------------------------------------------------- the whole configuration

  // Both registers of the regulator hold what the configuration asks for, and so does
  // the driver's record.
  predicate Programmed(t: Pmic, cfg: Config, id: nat)
    requires Sized(t) && WellFormed(cfg) && id < REGULATORS
  {
    && InRange(id, Requested(cfg, id))
    && t.regs[VoltReg(id)] == VoltCode(id, Requested(cfg, id))
    && t.regs[ConfReg(id)] == ConfByte(cfg, id)
    && t.record[id] == Requested(cfg, id)
  }

  predicate Untouched(s: Pmic, t: Pmic, id: nat)
    requires Sized(s) && Sized(t) && id < REGULATORS
  {
    t.regs[VoltReg(id)] == s.regs[VoltReg(id)] && t.regs[ConfReg(id)] == s.regs[ConfReg(id)]
      && t.record[id] == s.record[id]
  }

  // Registers that belong to no regulator are as they were.
  ghost predicate OthersKept(s: Pmic, t: Pmic)
    requires Sized(s) && Sized(t)
  {
    forall r: nat | r < 256 && (forall id: nat | id < REGULATORS :: !IsOf(r, id)) :: t.regs[r] == s.regs[r]
  }

  // The first n regulators are programmed and the rest untouched.
  ghost predicate Through(s: Pmic, t: Pmic, cfg: Config, n: nat)
    requires Sized(s) && Sized(t) && WellFormed(cfg)
  {
    && (forall id: nat | id < n && id < REGULATORS :: Programmed(t, cfg, id))
    && (forall id: nat | n <= id < REGULATORS :: Untouched(s, t, id))
    && OthersKept(s, t)
    && t.ready == s.ready
  }

  // Each register of the regulator holds its old value or the configured one, and its
  // settings are only written once its voltage has been.
  predicate Partway(s: Pmic, t: Pmic, cfg: Config, id: nat)
    requires Sized(s) && Sized(t) && WellFormed(cfg) && id < REGULATORS
  {
    var volt, conf := VoltReg(id), ConfReg(id);
    && (t.regs[volt] != s.regs[volt]
        ==> InRange(id, Requested(cfg, id)) && t.regs[volt] == VoltCode(id, Requested(cfg, id)))
    && (t.regs[conf] != s.regs[conf]
        ==> t.regs[conf] == ConfByte(cfg, id) && InRange(id, Requested(cfg, id))
            && t.regs[volt] == VoltCode(id, Requested(cfg, id)))
    && (t.record[id] != s.record[id] ==> t.record[id] == Requested(cfg, id))
  }

  // The first k regulators are programmed, regulator k is in the middle of it, and the
  // rest are untouched.
  ghost predicate StuckAt(s: Pmic, t: Pmic, cfg: Config, k: nat)
    requires Sized(s) && Sized(t) && WellFormed(cfg)
  {
    && (forall id: nat | id < k && id < REGULATORS :: Programmed(t, cfg, id))
    && (k < REGULATORS ==> Partway(s, t, cfg, k))
    && (forall id: nat | k < id < REGULATORS :: Untouched(s, t, id))
    && OthersKept(s, t)
    && t.ready == s.ready
  }

  // One regulator: on success it is programmed; otherwise each of its registers keeps
  // its old value or has the new one. No other register changes.
  lemma RegulatorFacts(s: Pmic, fate: nat -> Outcome, cfg: Config, id: nat)
    requires Sized(s) && WellFormed(cfg) && id < REGULATORS
    ensures var (t, c) := SetRegulator(s, fate, cfg, id);
            && (c == Ok ==> Programmed(t, cfg, id))
            && (c == Inval <==> !s.ready || !InRange(id, Requested(cfg, id)))
            && (c == Inval ==> t == s)
            && Partway(s, t, cfg, id)
            && OnlyTouches(s, t, id)
            && s.attempts <= t.attempts <= s.attempts + 2 * RETRIES
  {
    hide Write, ConfByte, VoltCode, Min, Max;
    RegistersApart(id, id);
    var mv := Requested(cfg, id);
    if s.ready && InRange(id, mv) {
      WriteIff(s, fate, VoltReg(id), VoltCode(id, mv), RETRIES);
      var (t, c) := SetVoltage(s, fate, id, mv);
      if c == Ok { WriteIff(t, fate, ConfReg(id), ConfByte(cfg, id), RETRIES); }
    }
  }

  ghost predicate OnlyTouches(s: Pmic, t: Pmic, id: nat)
    requires Sized(s) && Sized(t) && id < REGULATORS
  {
    && t.ready == s.ready
    && (forall r: nat | r < 256 && !IsOf(r, id) :: t.regs[r] == s.regs[r])
    && (forall i: nat | i < REGULATORS && i != id :: t.record[i] == s.record[i])
  }

  lemma TouchesNoOther(s: Pmic, t: Pmic, id: nat, other: nat)
    requires Sized(s) && Sized(t) && id < REGULATORS && other < REGULATORS && id != other
    requires OnlyTouches(s, t, id)
    ensures Untouched(s, t, other)
  {
    RegistersApart(id, other);
    RegistersApart(other, id);
  }

  lemma Still(s: Pmic, cfg: Config)
    requires Sized(s) && WellFormed(cfg)
    ensures Through(s, s, cfg, 0)
  {
  }

  lemma OthersStillKept(s: Pmic, t: Pmic, u: Pmic, id: nat)
    requires Sized(s) && Sized(t) && Sized(u) && id < REGULATORS
    requires OthersKept(s, t) && OnlyTouches(t, u, id)
    ensures OthersKept(s, u)
  {
    hide IsOf;
  }

  lemma StillProgrammed(t: Pmic, u: Pmic, cfg: Config, id: nat)
    requires Sized(t) && Sized(u) && WellFormed(cfg) && id < REGULATORS
    requires Programmed(t, cfg, id) && Untouched(t, u, id)
    ensures Programmed(u, cfg, id)
  {
  }

  lemma StillUntouched(s: Pmic, t: Pmic, u: Pmic, id: nat)
    requires Sized(s) && Sized(t) && Sized(u) && id < REGULATORS
    requires Untouched(s, t, id) && Untouched(t, u, id)
    ensures Untouched(s, u, id)
  {
  }

  lemma PartwaySince(s: Pmic, t: Pmic, u: Pmic, cfg: Config, id: nat)
    requires Sized(s) && Sized(t) && Sized(u) && WellFormed(cfg) && id < REGULATORS
    requires Untouched(s, t, id) && Partway(t, u, cfg, id)
    ensures Partway(s, u, cfg, id)
  {
    hide Requested, ConfByte, VoltCode, InRange;
  }

  lemma OneMore(s: Pmic, t: Pmic, u: Pmic, cfg: Config, n: nat)
    requires Sized(s) && Sized(t) && Sized(u) && WellFormed(cfg) && n < REGULATORS
    requires Through(s, t, cfg, n) && Partway(t, u, cfg, n) && OnlyTouches(t, u, n)
    ensures StuckAt(s, u, cfg, n) && t.ready == s.ready
    ensures Programmed(u, cfg, n) ==> Through(s, u, cfg, n + 1)
  {
    assert t.ready == u.ready;
    hide Programmed, Untouched, OthersKept, Partway, OnlyTouches;
    OthersStillKept(s, t, u, n);
    PartwaySince(s, t, u, cfg, n);
    forall id: nat | id < REGULATORS && id != n ensures Untouched(t, u, id) {
      TouchesNoOther(t, u, n, id);
    }
    forall id: nat | id < n ensures Programmed(u, cfg, id) {
      StillProgrammed(t, u, cfg, id);
    }
    forall id: nat | n < id < REGULATORS ensures Untouched(s, u, id) {
      StillUntouched(s, t, u, id);
    }
  }

  lemma {:induction false} RegulatorsFacts(s: Pmic, fate: nat -> Outcome, cfg: Config, n: nat)
    requires Sized(s) && WellFormed(cfg) && n <= REGULATORS
    ensures var (t, c) := SetRegulators(s, fate, cfg, n);
            && (c == Ok ==> Through(s, t, cfg, n))
            && (c != Ok ==> exists k: nat | k < n ::
                  StuckAt(s, t, cfg, k) && (c == Inval <==> !s.ready || !InRange(k, Requested(cfg, k))))
            && s.attempts <= t.attempts <= s.attempts + n * 2 * RETRIES
  {
    hide Programmed, Untouched, OthersKept, Partway, OnlyTouches, Requested, InRange, SetRegulator, Through, StuckAt;
    if n > 0 {
      RegulatorsFacts(s, fate, cfg, n - 1);
      var (t, c) := SetRegulators(s, fate, cfg, n - 1);
      if c == Ok {
        RegulatorFacts(t, fate, cfg, n - 1);
        var (u, d) := SetRegulator(t, fate, cfg, n - 1);
        OneMore(s, t, u, cfg, n - 1);
        if d != Ok {
          var k := n - 1;
          assert StuckAt(s, u, cfg, k) && (d == Inval <==> !s.ready || !InRange(k, Requested(cfg, k)));
        }
      }
    } else {
      Still(s, cfg);
    }
  }

  const SLEEP_CONF: nat := 0xA0
  const WAKE_CONF: nat := 0xA1
  const WATCHDOG: nat := 0x61
  const ESM: nat := 0x70

  // All is as it was but the given registers.
  ghost predicate OnlyRegs(s: Pmic, t: Pmic, rs: set<nat>)
    requires Sized(s) && Sized(t)
  {
    t.record == s.record && t.ready == s.ready && forall r: nat | r < 256 && r !in rs :: t.regs[r] == s.regs[r]
  }

  lemma SleepFacts(s: Pmic, fate: nat -> Outcome, z: Sleep)
    requires Sized(s)
    ensures var (t, c) := SetSleep(s, fate, z);
            && (c == Ok ==> t.regs[SLEEP_CONF] == SleepByte(z) && t.regs[WAKE_CONF] == WakeByte(z))
            && (c == Inval <==> !s.ready)
            && OnlyRegs(s, t, {SLEEP_CONF, WAKE_CONF})
            && s.attempts <= t.attempts <= s.attempts + 2 * RETRIES
  {
    hide Write, SleepByte, WakeByte;
    if s.ready {
      WriteIff(s, fate, 0xA0, SleepByte(z), RETRIES);
      var (t, c) := Write(s, fate, 0xA0, SleepByte(z), RETRIES);
      if c == Ok { WriteIff(t, fate, 0xA1, WakeByte(z), RETRIES); }
    }
  }

  lemma MonitorsFacts(s: Pmic, fate: nat -> Outcome, cfg: Config)
    requires Sized(s)
    ensures var t := SetMonitors(s, fate, cfg);
            OnlyRegs(s, t, {WATCHDOG, ESM}) && s.attempts <= t.attempts <= s.attempts + 2 * RETRIES
  {
    hide Write, WatchdogByte, EsmByte;
    WriteIff(s, fate, 0x61, WatchdogByte(cfg), RETRIES);
    WriteIff(Write(s, fate, 0x61, WatchdogByte(cfg), RETRIES).0, fate, 0x70, EsmByte(cfg.esmMode), RETRIES);
  }

  lemma OthersSetAside(s: Pmic, t: Pmic, u: Pmic, cfg: Config, rs: set<nat>, n: nat)
    requires Sized(s) && Sized(t) && Sized(u) && WellFormed(cfg) && n <= REGULATORS
    requires Through(s, t, cfg, n) && OnlyRegs(t, u, rs) && forall r | r in rs :: 0x60 <= r < 256
    ensures forall id: nat | id < n :: Programmed(u, cfg, id)
    ensures forall r: nat | r < 256 && r !in rs && (forall id: nat | id < REGULATORS :: !IsOf(r, id)) ::
              u.regs[r] == s.regs[r]
    ensures u.ready == s.ready
  {
    hide IsOf, Requested, ConfByte, VoltCode, InRange;
    forall id: nat | id < n ensures Programmed(u, cfg, id) {
      assert Programmed(t, cfg, id);
      RegistersApart(id, id);
    }
  }

  // When the call returns OK, under whatever pattern of failed transfers, every regulator
  // is programmed, the sleep registers are written, and no register outside those, the
  // watchdog's and the error monitor's has changed.
  lemma ConfigOk(s: Pmic, fate: nat -> Outcome, cfg: Config)
    requires Sized(s) && WellFormed(cfg) && SetConfig(s, fate, cfg).1 == Ok
    ensures var t := SetConfig(s, fate, cfg).0;
            && (forall id: nat | id < REGULATORS :: Programmed(t, cfg, id))
            && t.regs[SLEEP_CONF] == SleepByte(cfg.sleep) && t.regs[WAKE_CONF] == WakeByte(cfg.sleep)
            && (forall r: nat | r < 256 && r !in {SLEEP_CONF, WAKE_CONF, WATCHDOG, ESM}
                  && (forall id: nat | id < REGULATORS :: !IsOf(r, id)) :: t.regs[r] == s.regs[r])
  {
    hide SetRegulators, SetSleep, SetMonitors, Programmed, Through, IsOf, SleepByte, WakeByte, StuckAt;
    var t := SetRegulators(s, fate, cfg, REGULATORS).0;
    var u := SetSleep(t, fate, cfg.sleep).0;
    var v := SetMonitors(u, fate, cfg);
    RegulatorsFacts(s, fate, cfg, REGULATORS);
    SleepFacts(t, fate, cfg.sleep);
    MonitorsFacts(u, fate, cfg);
    OthersSetAside(s, t, v, cfg, {SLEEP_CONF, WAKE_CONF, WATCHDOG, ESM}, REGULATORS);
  }

  lemma {:induction false} ReadyIfAny(s: Pmic, fate: nat -> Outcome, cfg: Config, n: nat)
    requires Sized(s) && WellFormed(cfg) && 0 < n <= REGULATORS && SetRegulators(s, fate, cfg, n).1 == Ok
    ensures s.ready
  {
    hide SetRegulator;
    if n == 1 {
      assert SetRegulators(s, fate, cfg, 0) == (s, Ok);
      RegulatorFacts(s, fate, cfg, 0);
    } else {
      ReadyIfAny(s, fate, cfg, n - 1);
    }
  }

  // So every settings byte decodes to the configuration, but for bits of frequency and
  // phase outside their fields and a low-noise request for other than the last LDO.
  lemma ConfigReadsBack(s: Pmic, fate: nat -> Outcome, cfg: Config, id: nat)
    requires Sized(s) && WellFormed(cfg) && id < REGULATORS && SetConfig(s, fate, cfg).1 == Ok
    ensures var t, mv := SetConfig(s, fate, cfg).0, Requested(cfg, id);
            if id < BUCKS then
              var b := cfg.buck[id];
              ReadBuck(mv, t.regs[ConfReg(id)]) == b.(freq := b.freq & 0x38, phase := b.phase & 0x07)
            else
              var l := cfg.ldo[id - BUCKS];
              ReadLdo(mv, t.regs[ConfReg(id)]) == l.(lowNoise := l.lowNoise && id == REGULATORS - 1)
  {
    hide SetConfig, BuckConf, LdoConf, ReadBuck, ReadLdo, VoltCode, ToByte;
    ConfigOk(s, fate, cfg);
    assert Programmed(SetConfig(s, fate, cfg).0, cfg, id);
    if id < BUCKS {
      BuckConfRoundTripIff(cfg.buck[id]);
    } else {
      LdoConfRoundTripIff(cfg.ldo[id - BUCKS], id - BUCKS);
    }
  }

  // Otherwise it stopped at one place: the regulators before it are programmed, those
  // after it untouched, and what was refused, if anything, is the voltage there.
  lemma ConfigStopsSomewhere(s: Pmic, fate: nat -> Outcome, cfg: Config)
    requires Sized(s) && WellFormed(cfg) && SetConfig(s, fate, cfg).1 != Ok
    ensures var (t, c) := SetConfig(s, fate, cfg);
            || (exists k: nat | k < REGULATORS ::
                  StuckAt(s, t, cfg, k) && (c == Inval <==> !s.ready || !InRange(k, Requested(cfg, k))))
            || (c == NoComm && forall id: nat | id < REGULATORS :: Programmed(t, cfg, id))
  {
    hide SetRegulators, SetSleep, SetMonitors, Programmed, Through, IsOf, StuckAt, Requested, InRange;
    var (t, c) := SetRegulators(s, fate, cfg, REGULATORS);
    RegulatorsFacts(s, fate, cfg, REGULATORS);
    if c == Ok {
      var u := SetSleep(t, fate, cfg.sleep).0;
      SleepFacts(t, fate, cfg.sleep);
      ReadyIfAny(s, fate, cfg, REGULATORS);
      OthersSetAside(s, t, u, cfg, {SLEEP_CONF, WAKE_CONF}, REGULATORS);
    }
  }

  ghost predicate OneSucceeds(fate: nat -> Outcome, n: nat)
  {
    exists k: nat | n <= k < n + RETRIES :: fate(k) == Done
  }

  // No three transfers in a row fail from the n-th on.
  ghost predicate RetriesSuffice(fate: nat -> Outcome, n: nat)
  {
    forall m: nat | n <= m :: OneSucceeds(fate, m)
  }

  lemma WriteSucceeds(s: Pmic, fate: nat -> Outcome, reg: nat, val: Byte)
    requires Sized(s) && reg < 256 && RetriesSuffice(fate, s.attempts)
    ensures var (t, c) := Write(s, fate, reg, val, RETRIES);
            c == Ok && RetriesSuffice(fate, t.attempts) && t.ready == s.ready
  {
    hide Write;
    WriteIff(s, fate, reg, val, RETRIES);
    assert OneSucceeds(fate, s.attempts);
  }

  lemma RegulatorSucceedsIff(s: Pmic, fate: nat -> Outcome, cfg: Config, id: nat)
    requires Sized(s) && WellFormed(cfg) && id < REGULATORS && s.ready && RetriesSuffice(fate, s.attempts)
    ensures var (t, c) := SetRegulator(s, fate, cfg, id);
            && (c == Ok <==> InRange(id, Requested(cfg, id)))
            && t.ready && RetriesSuffice(fate, t.attempts)
  {
    hide Write, InRange, VoltCode, ConfByte, RetriesSuffice;
    RegistersApart(id, id);
    var mv := Requested(cfg, id);
    if InRange(id, mv) {
      WriteSucceeds(s, fate, VoltReg(id), VoltCode(id, mv));
      WriteSucceeds(SetVoltage(s, fate, id, mv).0, fate, ConfReg(id), ConfByte(cfg, id));
    }
  }

  lemma {:induction false} RegulatorsSucceedIff(s: Pmic, fate: nat -> Outcome, cfg: Config, n: nat)
    requires Sized(s) && WellFormed(cfg) && n <= REGULATORS && s.ready && RetriesSuffice(fate, s.attempts)
    ensures var (t, c) := SetRegulators(s, fate, cfg, n);
            && (c == Ok <==> forall id: nat | id < n :: InRange(id, Requested(cfg, id)))
            && t.ready && RetriesSuffice(fate, t.attempts)
  {
    hide InRange, Requested, SetRegulator, RetriesSuffice;
    if n > 0 {
      RegulatorsSucceedIff(s, fate, cfg, n - 1);
      RegulatorSucceedsIff(SetRegulators(s, fate, cfg, n - 1).0, fate, cfg, n - 1);
    }
  }

  // As long as no three transfers in a row fail, the call returns OK exactly when every
  // requested voltage is in its regulator's range.
  lemma ConfigSucceedsIff(s: Pmic, fate: nat -> Outcome, cfg: Config)
    requires Sized(s) && WellFormed(cfg) && s.ready && RetriesSuffice(fate, s.attempts)
    ensures SetConfig(s, fate, cfg).1 == Ok <==> AllInRange(cfg)
  {
    hide InRange, Requested, SetRegulators, RetriesSuffice, Write, SleepByte, WakeByte, SetMonitors;
    RegulatorsSucceedIff(s, fate, cfg, REGULATORS);
    var (t, c) := SetRegulators(s, fate, cfg, REGULATORS);
    if c == Ok {
      WriteSucceeds(t, fate, 0xA0, SleepByte(cfg.sleep));
      WriteSucceeds(Write(t, fate, 0xA0, SleepByte(cfg.sleep), RETRIES).0, fate, 0xA1, WakeByte(cfg.sleep));
    }
  }

  // Two successful calls from the same registers agree on everything but the watchdog's
  // and the error monitor's register, however many transfers failed in either.
  lemma FailuresLeaveNoTrace(s: Pmic, fate: nat -> Outcome, other: nat -> Outcome, cfg: Config)
    requires Sized(s) && WellFormed(cfg)
    requires SetConfig(s, fate, cfg).1 == Ok && SetConfig(s, other, cfg).1 == Ok
    ensures var t, u := SetConfig(s, fate, cfg).0, SetConfig(s, other, cfg).0;
            t.record == u.record && forall r: nat | r < 256 && r !in {WATCHDOG, ESM} :: t.regs[r] == u.regs[r]
  {
    hide SetConfig, Programmed, IsOf;
    var t, u := SetConfig(s, fate, cfg).0, SetConfig(s, other, cfg).0;
    ConfigOk(s, fate, cfg);
    ConfigOk(s, other, cfg);
    forall id: nat | id < REGULATORS ensures t.record[id] == u.record[id] {
      BothProgrammed(t, u, cfg, id);
    }
    forall r: nat | r < 256 && r !in {WATCHDOG, ESM} ensures t.regs[r] == u.regs[r] {
      if id: nat :| id < REGULATORS && IsOf(r, id) {
        BothProgrammed(t, u, cfg, id);
      }
    }
  }

  lemma BothProgrammed(t: Pmic, u: Pmic, cfg: Config, id: nat)
    requires Sized(t) && Sized(u) && WellFormed(cfg) && id < REGULATORS
    requires Programmed(t, cfg, id) && Programmed(u, cfg, id)
    ensures t.record[id] == u.record[id] && forall r: nat | r < 256 && IsOf(r, id) :: t.regs[r] == u.regs[r]
  {
  }

  // ---------------------------------------------------------------- what OK does not mean

  // The transfers before the n-th succeed and the others are lost.
  function FirstSucceed(n: nat): nat -> Outcome
  {
    k => if k < n then Done else Lost
  }

  lemma WriteUsesOne(s: Pmic, n: nat, reg: nat, val: Byte)
    requires Sized(s) && reg < 256 && s.attempts < n
    ensures Write(s, FirstSucceed(n), reg, val, RETRIES)
         == (s.(regs := s.regs[reg := val], attempts := s.attempts + 1), Ok)
  {
  }

  lemma RegulatorUsesTwo(s: Pmic, n: nat, cfg: Config, id: nat)
    requires Sized(s) && WellFormed(cfg) && s.ready && id < REGULATORS && s.attempts + 2 <= n
    requires InRange(id, Requested(cfg, id))
    ensures var (t, c) := SetRegulator(s, FirstSucceed(n), cfg, id);
            c == Ok && t.attempts == s.attempts + 2 && t.ready
  {
    hide Write, InRange, VoltCode, ConfByte, FirstSucceed;
    RegistersApart(id, id);
    var mv := Requested(cfg, id);
    WriteUsesOne(s, n, VoltReg(id), VoltCode(id, mv));
    WriteUsesOne(SetVoltage(s, FirstSucceed(n), id, mv).0, n, ConfReg(id), ConfByte(cfg, id));
  }

  lemma {:induction false} RegulatorsUseTwoEach(s: Pmic, n: nat, cfg: Config, m: nat)
    requires Sized(s) && WellFormed(cfg) && s.ready && m <= REGULATORS && s.attempts + 2 * m <= n && AllInRange(cfg)
    ensures var (t, c) := SetRegulators(s, FirstSucceed(n), cfg, m);
            c == Ok && t.attempts == s.attempts + 2 * m && t.ready
  {
    hide InRange, Requested, SetRegulator, FirstSucceed;
    if m > 0 {
      RegulatorsUseTwoEach(s, n, cfg, m - 1);
      RegulatorUsesTwo(SetRegulators(s, FirstSucceed(n), cfg, m - 1).0, n, cfg, m - 1);
    }
  }

  lemma {:induction false} WriteLost(s: Pmic, n: nat, reg: nat, val: Byte, tries: nat)
    requires Sized(s) && reg < 256 && n <= s.attempts
    ensures Write(s, FirstSucceed(n), reg, val, tries).0 == s.(attempts := s.attempts + tries)
    decreases tries
  {
    if tries > 0 {
      WriteLost(s.(attempts := s.attempts + 1), n, reg, val, tries - 1);
    }
  }

  // For every configuration in range there are transfers that fail such that the call
  // returns OK and yet the watchdog's and the error monitor's register are as they were:
  // their errors are dropped.
  lemma OkWithoutWatchdog(s: Pmic, cfg: Config)
    requires Sized(s) && WellFormed(cfg) && s.ready && AllInRange(cfg)
    ensures var (t, c) := SetConfig(s, FirstSucceed(s.attempts + 20), cfg);
            c == Ok && t.regs[WATCHDOG] == s.regs[WATCHDOG] && t.regs[ESM] == s.regs[ESM]
  {
    hide InRange, Requested, SetRegulators, FirstSucceed, Write, SleepByte, WakeByte, WatchdogByte, EsmByte, IsOf;
    var n := s.attempts + 20;
    RegulatorsUseTwoEach(s, n, cfg, REGULATORS);
    var t := SetRegulators(s, FirstSucceed(n), cfg, REGULATORS).0;
    RegulatorsFacts(s, FirstSucceed(n), cfg, REGULATORS);
    NotOfRegulators(s, t, cfg);
    WriteUsesOne(t, n, 0xA0, SleepByte(cfg.sleep));
    var u := Write(t, FirstSucceed(n), 0xA0, SleepByte(cfg.sleep), RETRIES).0;
    WriteUsesOne(u, n, 0xA1, WakeByte(cfg.sleep));
    var v := Write(u, FirstSucceed(n), 0xA1, WakeByte(cfg.sleep), RETRIES).0;
    WriteLost(v, n, 0x61, WatchdogByte(cfg), RETRIES);
    var w := Write(v, FirstSucceed(n), 0x61, WatchdogByte(cfg), RETRIES).0;
    WriteLost(w, n, 0x70, EsmByte(cfg.esmMode), RETRIES);
  }

  lemma NotOfRegulators(s: Pmic, t: Pmic, cfg: Config)
    requires Sized(s) && Sized(t) && WellFormed(cfg) && Through(s, t, cfg, REGULATORS)
    ensures t.regs[WATCHDOG] == s.regs[WATCHDOG] && t.regs[ESM] == s.regs[ESM]
  {
    assert forall id: nat | id < REGULATORS :: !IsOf(WATCHDOG, id) && !IsOf(ESM, id);
  }

  // Every attempt a write that starts at the n-th transfer may make is lost.
  ghost predicate AllLost(fate: nat -> Outcome, n: nat, tries: nat)
  {
    forall k: nat | n <= k < n + tries :: fate(k) == Lost
  }

  // A write, reported as failed or not, leaves its value in the register exactly when it
  // was there before or one of the attempts it may make is not lost.
  lemma {:induction false} WriteLeavesIff(s: Pmic, fate: nat -> Outcome, reg: nat, val: Byte, tries: nat)
    requires Sized(s) && reg < 256
    ensures Write(s, fate, reg, val, tries).0.regs[reg] == val
       <==> s.regs[reg] == val || !AllLost(fate, s.attempts, tries)
    decreases tries
  {
    if tries > 0 {
      var t := Attempt(s, fate, reg, val);
      WriteLeavesIff(t, fate, reg, val, tries - 1);
      assert AllLost(fate, s.attempts, tries)
        <==> fate(s.attempts) == Lost && AllLost(fate, s.attempts + 1, tries - 1);
    }
  }

  // The state in which the watchdog's and then the monitor's register is written.
  function BeforeMonitors(s: Pmic, fate: nat -> Outcome, cfg: Config): (t: Pmic)
    requires Sized(s) && WellFormed(cfg)
    ensures Sized(t)
  {
    SetSleep(SetRegulators(s, fate, cfg, REGULATORS).0, fate, cfg.sleep).0
  }

  lemma BeforeMonitorsFacts(s: Pmic, fate: nat -> Outcome, cfg: Config)
    requires Sized(s) && WellFormed(cfg) && SetConfig(s, fate, cfg).1 == Ok
    ensures var u := BeforeMonitors(s, fate, cfg);
            && SetConfig(s, fate, cfg).0 == SetMonitors(u, fate, cfg) && u.ready
            && u.regs[WATCHDOG] == s.regs[WATCHDOG] && u.regs[ESM] == s.regs[ESM]
  {
    hide SetRegulators, SetSleep, SetMonitors, IsOf;
    var t := SetRegulators(s, fate, cfg, REGULATORS).0;
    RegulatorsFacts(s, fate, cfg, REGULATORS);
    NotOfRegulators(s, t, cfg);
    SleepFacts(t, fate, cfg.sleep);
  }

  // What OK says of the two monitors.  The watchdog is configured exactly when it already
  // was or not all three attempts to write it were lost; the error monitor likewise if a
  // mode of 1 or 2 is asked for, and for any other mode its register is as it was: mode 0
  // writes nothing and a mode above 2 is refused, which the call does not report.
  lemma MonitorsConfiguredIff(s: Pmic, fate: nat -> Outcome, cfg: Config)
    requires Sized(s) && WellFormed(cfg) && SetConfig(s, fate, cfg).1 == Ok
    ensures var t, u := SetConfig(s, fate, cfg).0, BeforeMonitors(s, fate, cfg);
            var v := Write(u, fate, WATCHDOG, WatchdogByte(cfg), RETRIES).0;
            && (t.regs[WATCHDOG] == WatchdogByte(cfg)
                <==> s.regs[WATCHDOG] == WatchdogByte(cfg) || !AllLost(fate, u.attempts, RETRIES))
            && (1 <= cfg.esmMode <= 2 ==>
                  (t.regs[ESM] == EsmByte(cfg.esmMode)
                   <==> s.regs[ESM] == EsmByte(cfg.esmMode) || !AllLost(fate, v.attempts, RETRIES)))
            && (!(1 <= cfg.esmMode <= 2) ==> t.regs[ESM] == s.regs[ESM])
  {
    hide Write, WatchdogByte, EsmByte, SetConfig, BeforeMonitors, AllLost;
    var u := BeforeMonitors(s, fate, cfg);
    var v := Write(u, fate, WATCHDOG, WatchdogByte(cfg), RETRIES).0;
    BeforeMonitorsFacts(s, fate, cfg);
    WriteIff(u, fate, WATCHDOG, WatchdogByte(cfg), RETRIES);
    WriteLeavesIff(u, fate, WATCHDOG, WatchdogByte(cfg), RETRIES);
    WriteIff(v, fate, ESM, EsmByte(cfg.esmMode), RETRIES);
    WriteLeavesIff(v, fate, ESM, EsmByte(cfg.esmMode), RETRIES);
  }

  // The monitor's register holds what the mode asks for: off for mode 0, the mode's own
  // byte for 1 and 2.  No byte answers to a mode the driver refuses.
  predicate MonitorAsAsked(mode: bv8, reg: Byte)
  {
    if mode == 0 then reg == 0 else mode <= 2 && reg == EsmByte(mode)
  }

  // As long as no three transfers in a row fail, OK does mean the watchdog's register is
  // written, and the monitor's for the modes 1 and 2.  For mode 0 the monitor is off
  // exactly when it already was: nothing turns it off.  A mode above 2 is refused and
  // changes nothing.  So the monitor is as asked exactly for the modes 1 and 2, and for
  // mode 0 when it was off.
  lemma MonitorsWithRetries(s: Pmic, fate: nat -> Outcome, cfg: Config)
    requires Sized(s) && WellFormed(cfg) && s.ready && AllInRange(cfg) && RetriesSuffice(fate, s.attempts)
    ensures var (t, c) := SetConfig(s, fate, cfg);
            && c == Ok && t.regs[WATCHDOG] == WatchdogByte(cfg)
            && (1 <= cfg.esmMode <= 2 ==> t.regs[ESM] == EsmByte(cfg.esmMode))
            && (cfg.esmMode == 0 ==> (t.regs[ESM] == 0 <==> s.regs[ESM] == 0))
            && (!(1 <= cfg.esmMode <= 2) ==> t.regs[ESM] == s.regs[ESM])
            && (MonitorAsAsked(cfg.esmMode, t.regs[ESM])
                <==> 1 <= cfg.esmMode <= 2 || (cfg.esmMode == 0 && s.regs[ESM] == 0))
  {
    hide SetConfig, Write, WatchdogByte, EsmByte, AllLost, RetriesSuffice, BeforeMonitors, AllInRange;
    ConfigSucceedsIff(s, fate, cfg);
    MonitorsConfiguredIff(s, fate, cfg);
    var u := BeforeMonitors(s, fate, cfg);
    BeforeMonitorsLater(s, fate, cfg);
    SomeNotLost(fate, s.attempts, u.attempts);
    WriteIff(u, fate, WATCHDOG, WatchdogByte(cfg), RETRIES);
    SomeNotLost(fate, s.attempts, Write(u, fate, WATCHDOG, WatchdogByte(cfg), RETRIES).0.attempts);
  }

  // The watchdog's register then stands for the timeout, cut at 32 s and rounded down to
  // 256 ms; and it holds what disabling writes exactly when the watchdog is not enabled
  // or its timeout is below 256 ms.
  lemma WatchdogLooksDisabledIff(s: Pmic, fate: nat -> Outcome, cfg: Config)
    requires Sized(s) && WellFormed(cfg) && s.ready && AllInRange(cfg) && RetriesSuffice(fate, s.attempts)
    ensures var reg := SetConfig(s, fate, cfg).0.regs[WATCHDOG];
            var ms := if cfg.watchdogMs > 32000 then 32000 else cfg.watchdogMs;
            && (cfg.watchdog ==> reg * 256 <= ms < (reg + 1) * 256)
            && (reg == 0 <==> !cfg.watchdog || cfg.watchdogMs < 256)
  {
    hide SetConfig, AllInRange, RetriesSuffice;
    MonitorsWithRetries(s, fate, cfg);
  }

  lemma BeforeMonitorsLater(s: Pmic, fate: nat -> Outcome, cfg: Config)
    requires Sized(s) && WellFormed(cfg)
    ensures s.attempts <= BeforeMonitors(s, fate, cfg).attempts
  {
    hide SetRegulators, SetSleep, StuckAt, Through;
    RegulatorsFacts(s, fate, cfg, REGULATORS);
    SleepFacts(SetRegulators(s, fate, cfg, REGULATORS).0, fate, cfg.sleep);
  }

  lemma SomeNotLost(fate: nat -> Outcome, n: nat, m: nat)
    requires RetriesSuffice(fate, n) && n <= m
    ensures !AllLost(fate, m, RETRIES)
  {
    assert OneSucceeds(fate, m);
    var k: nat :| m <= k < m + RETRIES && fate(k) == Done;
  }

  lemma AlwaysDone(fate: nat -> Outcome)
    requires forall k: nat :: fate(k) == Done
    ensures RetriesSuffice(fate, 0)
  {
    forall m: nat ensures OneSucceeds(fate, m) { assert fate(m) == Done; }
  }

  // A ready driver before any transfer, with the given byte in the monitor's register.
  function WithMonitor(reg: Byte): (s: Pmic)
    ensures Sized(s)
  {
    Pmic(seq(256, i => if i == ESM then reg else 0), 0, true, seq(REGULATORS, _ => 0))
  }

  // With mode 3 and every transfer succeeding, a monitor that was off stays off.
  lemma ModeThreeIsDropped()
    ensures var (t, c) := SetConfig(WithMonitor(0), _ => Done, DEFAULT.(esmMode := 3));
            c == Ok && t.regs[ESM] == 0 != EsmByte(3)
  {
    hide SetConfig;
    var fate: nat -> Outcome := _ => Done;
    AlwaysDone(fate);
    MonitorsWithRetries(WithMonitor(0), fate, DEFAULT.(esmMode := 3));
    assert EsmByte(3) as bv8 != 0;
  }

  // With mode 0, disabled, and every transfer succeeding, a monitor that was on in mode 1
  // stays on.
  lemma ModeZeroLeavesMonitorOn()
    ensures var (t, c) := SetConfig(WithMonitor(0x81), _ => Done, DEFAULT.(esmMode := 0));
            c == Ok && t.regs[ESM] == 0x81 == EsmByte(1)
  {
    hide SetConfig;
    var fate: nat -> Outcome := _ => Done;
    AlwaysDone(fate);
    MonitorsWithRetries(WithMonitor(0x81), fate, DEFAULT.(esmMode := 0));
    assert 0x81 == EsmByte(1);
  }

  // After OK the driver's record of a voltage is what the chip reads back exactly when
  // the request lies on a step and, on a BUCK, does not exceed 1579 mV.
  lemma RecordIsTrueIff(s: Pmic, fate: nat -> Outcome, cfg: Config, id: nat)
    requires Sized(s) && WellFormed(cfg) && id < REGULATORS && SetConfig(s, fate, cfg).1 == Ok
    ensures var t, mv := SetConfig(s, fate, cfg).0, Requested(cfg, id);
            && t.record[id] == mv
            && (Millivolts(id, t.regs[VoltReg(id)]) == mv
                <==> (mv - Min(id)) % Step(id) == 0 && (id >= BUCKS || mv <= 1579))
  {
    hide SetConfig, VoltCode, Millivolts;
    ConfigOk(s, fate, cfg);
    var mv := Requested(cfg, id);
    assert Programmed(SetConfig(s, fate, cfg).0, cfg, id);
    if id < BUCKS {
      BuckReadsBack(id, mv);
      assert mv % 5 == (mv - 300) % 5;
    } else {
      LdoReadsBack(id, mv);
      LdoOnStep(id, mv);
    }
  }

  // After OK what the chip reads back lies within one step below the request exactly on
  // an LDO, and on a BUCK up to 1579 mV.
  lemma ConfigRoundsIff(s: Pmic, fate: nat -> Outcome, cfg: Config, id: nat)
    requires Sized(s) && WellFormed(cfg) && id < REGULATORS && SetConfig(s, fate, cfg).1 == Ok
    ensures var t, mv := SetConfig(s, fate, cfg).0, Requested(cfg, id);
            mv - Step(id) < Millivolts(id, t.regs[VoltReg(id)]) <= mv <==> id >= BUCKS || mv <= 1579
  {
    hide SetConfig, VoltCode, Millivolts;
    ConfigOk(s, fate, cfg);
    assert Programmed(SetConfig(s, fate, cfg).0, cfg, id);
    ReadsBackIff(id, Requested(cfg, id));
  }

  lemma LdoOnStep(id: nat, mv: nat)
    requires BUCKS <= id && InRange(id, mv)
    ensures Millivolts(id, VoltCode(id, mv)) == mv <==> (mv - 600) % 50 == 0
  {
  }

  // The configuration the driver ships.
  const DEFAULT: Config := Config(
    [Buck(3300, true, false, 0x08, 0), Buck(1800, true, false, 0x08, 1), Buck(1200, true, true, 0x08, 2),
     Buck(1100, true, false, 0x08, 3), Buck(900, true, false, 0x08, 4)],
    [Ldo(1800, true, false, false), Ldo(1200, true, false, false), Ldo(3300, true, false, false),
     Ldo(1800, true, false, true)],
    Sleep(true, 0x04, 0x02, true, 1, 0), true, 30000, 1)

  // Programming it successfully leaves BUCK1 at 740 mV for 3300 and BUCK2 at 520 for
  // 1800; the other seven read back as requested.
  lemma DefaultConfigWraps(s: Pmic, fate: nat -> Outcome, id: nat)
    requires Sized(s) && id < REGULATORS && SetConfig(s, fate, DEFAULT).1 == Ok
    ensures var t := SetConfig(s, fate, DEFAULT).0;
            && t.record[id] == Requested(DEFAULT, id)
            && Millivolts(id, t.regs[VoltReg(id)])
               == (if id == 0 then 740 else if id == 1 then 520 else Requested(DEFAULT, id))
  {
    hide SetConfig, VoltCode, Millivolts;
    ConfigOk(s, fate, DEFAULT);
    RecordIsTrueIff(s, fate, DEFAULT, id);
    assert Programmed(SetConfig(s, fate, DEFAULT).0, DEFAULT, id);
    if id < BUCKS {
      BuckReadsBack(id, Requested(DEFAULT, id));
    }
  }
}
