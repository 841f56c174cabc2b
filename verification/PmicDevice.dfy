// The driver as it runs: registers written through a bus whose transfers may fail, with
// the retry, masking and configuration loops.
module PmicDevice {
  import opened PmicSpec
  import opened PmicAnswers

  class Device {
    // What becomes of the n-th transfer on the bus.
    const fate: nat -> Outcome
    const regs: array<Byte>
    // The voltage last set per regulator, as the driver remembers it.
    var voltageMv: seq<nat>
    var attempts: nat
    var initialized: bool

    ghost function State(): Pmic
      reads this, regs
    {
      Pmic(regs[..], attempts, initialized, voltageMv)
    }

    ghost predicate Valid()
      reads this
    {
      regs.Length == 256 && |voltageMv| == REGULATORS
    }

    constructor (fate: nat -> Outcome, regs: array<Byte>, initialized: bool)
      requires regs.Length == 256
      ensures Valid() && this.fate == fate && this.regs == regs
      ensures State() == Pmic(regs[..], 0, initialized, seq(REGULATORS, _ => 0))
    {
      this.fate, this.regs, this.initialized := fate, regs, initialized;
      attempts, voltageMv := 0, seq(REGULATORS, _ => 0);
    }

    // One write transfer on the bus.
    method Transfer(reg: nat, val: Byte) returns (c: Code)
      requires Valid() && reg < 256
      modifies this`attempts, regs
      ensures State() == Attempt(old(State()), fate, reg, val)
      ensures c == if fate(old(attempts)) == Done then Ok else NoComm
    {
      var outcome := fate(attempts);
      if outcome != Lost { regs[reg] := val; }
      attempts := attempts + 1;
      c := if outcome == Done then Ok else NoComm;
    }

    method I2cWrite(reg: nat, val: Byte) returns (c: Code)
      requires Valid() && reg < 256
      modifies this`attempts, regs
      ensures (State(), c) == Write(old(State()), fate, reg, val, RETRIES)
      ensures Wrote(fate, old(attempts), reg, val, old(regs[..]), regs[..], attempts, c)
    {
      hide Wrote;
      WriteAnswers(State(), fate, reg, val);
      var retry := 0;
      while retry < RETRIES
        invariant retry <= RETRIES && |voltageMv| == REGULATORS
        invariant Write(old(State()), fate, reg, val, RETRIES) == Write(State(), fate, reg, val, RETRIES - retry)
      {
        c := Transfer(reg, val);
        if c == Ok { return; }
        retry := retry + 1;
      }
      c := NoComm;
    }

    method I2cRead(reg: nat) returns (c: Code, val: Byte)
      requires Valid() && reg < 256
      modifies this`attempts
      ensures (State(), c) == Read(old(State()), fate)
      ensures c == if fate(old(attempts)) == Done then Ok else NoComm
      ensures attempts == old(attempts) + 1 && (c == Ok ==> val == regs[reg])
    {
      c := if fate(attempts) == Done then Ok else NoComm;
      val := if c == Ok then regs[reg] else 0;
      attempts := attempts + 1;
    }

    method RegModify(reg: nat, mask: bv8, val: bv8) returns (c: Code)
      requires Valid() && reg < 256
      modifies this`attempts, regs
      ensures (State(), c) == Modify(old(State()), fate, reg, mask, val)
      ensures Modified(fate, old(attempts), reg, mask, val, old(regs[..]), regs[..], attempts, c)
    {
      hide Write, ToByte, Modified, Wrote;
      ModifyAnswers(State(), fate, reg, mask, val);
      var cur: Byte;
      c, cur := I2cRead(reg);
      if c != Ok { return; }
      cur := ToByte((cur as bv8 & !mask) | (val & mask));
      c := I2cWrite(reg, cur);
    }

    method SetEnabled(id: nat, on: bool) returns (c: Code)
      requires Valid()
      modifies this`attempts, regs
      ensures (State(), c) == Switch(old(State()), fate, id, on)
      ensures Switched(fate, old(State()), id, on, State(), c)
    {
      hide Modify, Modified, Switched;
      SwitchAnswers(State(), fate, id, on);
      if !initialized || id >= REGULATORS { return Inval; }
      var addr := if id < BUCKS then 0x11 + id * 4 else 0x29 + (id - BUCKS) * 4;
      c := RegModify(addr, 0x80, if on then 0x80 else 0x00);
    }

    method RegulatorSetVoltage(id: nat, mv: nat) returns (c: Code)
      requires Valid()
      modifies this`attempts, this`voltageMv, regs
      ensures Valid() && (State(), c) == SetVoltage(old(State()), fate, id, mv)
      ensures VoltageSet(fate, old(State()), id, mv, State(), c)
    {
      hide Write, Wrote, VoltageSet;
      VoltageAnswers(State(), fate, id, mv);
      if !initialized || id >= REGULATORS { return Inval; }
      var min, max, step, addr;
      if id < BUCKS {
        min, max, step, addr := 300, 3340, 5, 0x10 + id * 4;
      } else {
        min, max, step, addr := 600, 3300, 50, 0x28 + (id - BUCKS) * 4;
      }
      if mv < min || mv > max { return Inval; }
      c := I2cWrite(addr, (mv - min) / step % 256);
      if c == Ok {
        voltageMv := voltageMv[id := mv];
      }
    }

    // On OK, the voltage its code stands for.
    method RegulatorGetVoltage(id: nat) returns (c: Code, mv: nat)
      requires Valid()
      modifies this`attempts
      ensures c == Inval <==> !initialized || id >= 9
      ensures c == Inval ==> attempts == old(attempts)
      ensures c != Inval ==> attempts == old(attempts) + 1
                             && c == if fate(old(attempts)) == Done then Ok else NoComm
      ensures c == Ok ==> var code: nat := regs[if id < 5 then 0x10 + 4 * id else 0x28 + 4 * (id - 5)];
                          mv == if id < 5 then 300 + 5 * code else 600 + 50 * code
      ensures c == Ok ==> mv == Millivolts(id, regs[VoltReg(id)])
    {
      mv := 0;
      if !initialized || id >= REGULATORS { c := Inval; return; }
      var min, step, addr;
      if id < BUCKS {
        min, step, addr := 300, 5, 0x10 + id * 4;
      } else {
        min, step, addr := 600, 50, 0x28 + (id - BUCKS) * 4;
      }
      var val: Byte;
      c, val := I2cRead(addr);
      if c != Ok { return; }
      mv := min + val * step;
    }

    method ConfigureSleep(z: Sleep) returns (c: Code)
      requires Valid()
      modifies this`attempts, regs
      ensures (State(), c) == SetSleep(old(State()), fate, z)
      ensures SleepSet(fate, old(State()), z, State(), c)
    {
      hide Write, SleepByte, WakeByte, Wrote, SleepSet;
      SleepAnswers(State(), fate, z);
      if !initialized { return Inval; }
      c := I2cWrite(0xA0, SleepByte(z));
      if c != Ok { return; }
      c := I2cWrite(0xA1, WakeByte(z));
    }

    method WatchdogEnable(ms: nat) returns (c: Code)
      requires Valid()
      modifies this`attempts, regs
      ensures (State(), c) == if !initialized then (old(State()), Inval)
                              else Write(old(State()), fate, 0x61,
                                         (if ms > 32000 then 32000 else ms) / 256 % 128, RETRIES)
      ensures initialized ==> Wrote(fate, old(attempts), 0x61, (if ms > 32000 then 32000 else ms) / 256,
                                    old(regs[..]), regs[..], attempts, c)
    {
      hide Write, Wrote;
      if !initialized { return Inval; }
      var timeout := if ms > 32000 then 32000 else ms;
      c := I2cWrite(0x61, timeout / 256 % 128);
    }

    method WatchdogDisable() returns (c: Code)
      requires Valid()
      modifies this`attempts, regs
      ensures (State(), c) == if !initialized then (old(State()), Inval)
                              else Write(old(State()), fate, 0x61, 0, RETRIES)
      ensures initialized ==> Wrote(fate, old(attempts), 0x61, 0, old(regs[..]), regs[..], attempts, c)
    {
      hide Write, Wrote;
      if !initialized { return Inval; }
      c := I2cWrite(0x61, 0);
    }

    method EsmEnable(mode: bv8) returns (c: Code)
      requires Valid()
      modifies this`attempts, regs
      ensures (State(), c) == if !initialized || mode > 2 then (old(State()), Inval)
                              else Write(old(State()), fate, 0x70, EsmByte(mode), RETRIES)
      ensures initialized && mode <= 2 ==>
                Wrote(fate, old(attempts), 0x70, if mode == 0 then 0x80 else if mode == 1 then 0x81 else 0x82,
                      old(regs[..]), regs[..], attempts, c)
    {
      hide Write, Wrote;
      MonitorBytes();
      if !initialized || mode > 2 { return Inval; }
      c := I2cWrite(0x70, EsmByte(mode));
    }

    // Programs the regulators in order, then sleep, watchdog and error monitor.
    method SetConfiguration(cfg: Config) returns (c: Code)
      requires Valid() && WellFormed(cfg)
      modifies this`attempts, this`voltageMv, regs
      ensures Valid() && (State(), c) == SetConfig(old(State()), fate, cfg)
    {
      hide Wrote, VoltageSet, SleepSet, SetVoltage, Write, BuckConf, LdoConf, SetSleep, EsmByte, ToByte, InRange;
      hide SetRegulators, SetConfig;
      ghost var s := State();
      NoneYet(s, fate, cfg);
      for i := 0 to BUCKS
        invariant Valid() && (State(), Ok) == SetRegulators(s, fate, cfg, i)
      {
        var b := cfg.buck[i];
        NextRegulator(s, fate, cfg, i);
        c := RegulatorSetVoltage(i, b.mv);
        if c != Ok { Stops(s, fate, cfg, i + 1); return; }
        c := I2cWrite(0x11 + i * 4, ToByte(BuckConf(b)));
        if c != Ok { Stops(s, fate, cfg, i + 1); return; }
      }
      for i := 0 to REGULATORS - BUCKS
        invariant Valid() && (State(), Ok) == SetRegulators(s, fate, cfg, BUCKS + i)
      {
        var l := cfg.ldo[i];
        NextRegulator(s, fate, cfg, BUCKS + i);
        c := RegulatorSetVoltage(BUCKS + i, l.mv);
        if c != Ok { Stops(s, fate, cfg, BUCKS + i + 1); return; }
        c := I2cWrite(0x29 + i * 4, ToByte(LdoConf(l, i)));
        if c != Ok { Stops(s, fate, cfg, BUCKS + i + 1); return; }
      }
      AfterRegulators(s, fate, cfg);
      c := ConfigureSleep(cfg.sleep);
      if c != Ok { return; }
      var ignored;
      if cfg.watchdog {
        ignored := WatchdogEnable(cfg.watchdogMs);
      } else {
        ignored := WatchdogDisable();
      }
      if cfg.esmMode > 0 {
        ignored := EsmEnable(cfg.esmMode);
      }
      c := Ok;
    }
  }

  lemma NoneYet(s: Pmic, fate: nat -> Outcome, cfg: Config)
    requires Sized(s) && WellFormed(cfg)
    ensures SetRegulators(s, fate, cfg, 0) == (s, Ok)
  {
  }

  lemma NextRegulator(s: Pmic, fate: nat -> Outcome, cfg: Config, n: nat)
    requires Sized(s) && WellFormed(cfg) && n < REGULATORS && SetRegulators(s, fate, cfg, n).1 == Ok
    ensures SetRegulators(s, fate, cfg, n + 1) == SetRegulator(SetRegulators(s, fate, cfg, n).0, fate, cfg, n)
  {
    hide SetRegulator;
  }

  lemma AfterRegulators(s: Pmic, fate: nat -> Outcome, cfg: Config)
    requires Sized(s) && WellFormed(cfg) && SetRegulators(s, fate, cfg, REGULATORS).1 == Ok
    ensures var (u, d) := SetSleep(SetRegulators(s, fate, cfg, REGULATORS).0, fate, cfg.sleep);
            && SetConfig(s, fate, cfg) == (if d == Ok then (SetMonitors(u, fate, cfg), Ok) else (u, d))
            && (d == Ok ==> u.ready)
  {
    hide SetRegulators, SetMonitors;
    SleepFacts(SetRegulators(s, fate, cfg, REGULATORS).0, fate, cfg.sleep);
  }

  // Once a regulator fails, the rest are not attempted.
  lemma {:induction false} Stops(s: Pmic, fate: nat -> Outcome, cfg: Config, n: nat)
    requires Sized(s) && WellFormed(cfg) && n <= REGULATORS && SetRegulators(s, fate, cfg, n).1 != Ok
    ensures SetConfig(s, fate, cfg) == SetRegulators(s, fate, cfg, n)
    decreases REGULATORS - n
  {
    hide SetRegulator;
    if n < REGULATORS {
      Stops(s, fate, cfg, n + 1);
    }
  }
}
