// What each call on the chip answers and which registers it changes, in the addresses,
// masks and limits of the register map and in the fate of the very transfers it makes.
module PmicAnswers {
  import opened PmicSpec

  // ---------------------------------------------------------------- transfers

  // The n-th transfer or one of the two after it succeeds.
  predicate OneOfThree(fate: nat -> Outcome, n: nat)
  {
    fate(n) == Done || fate(n + 1) == Done || fate(n + 2) == Done
  }

  predicate NoneOfThree(fate: nat -> Outcome, n: nat)
  {
    fate(n) == Lost && fate(n + 1) == Lost && fate(n + 2) == Lost
  }

  // How many of three attempts from the n-th on are made.
  function Used(fate: nat -> Outcome, n: nat): nat
  {
    if fate(n) == Done then 1 else if fate(n + 1) == Done then 2 else 3
  }

  // A write, attempted up to three times from the n-th transfer on: what it answers, how
  // many transfers it makes, and the registers it leaves.
  predicate Wrote(fate: nat -> Outcome, n: nat, reg: nat, val: Byte, before: seq<Byte>,
                  after: seq<Byte>, attempts: nat, c: Code)
  {
    && |before| == 256 == |after| && reg < 256
    && c == (if OneOfThree(fate, n) then Ok else NoComm)
    && attempts == n + Used(fate, n)
    && after[reg] == (if NoneOfThree(fate, n) then before[reg] else val)
    && (forall r | 0 <= r < 256 && r != reg :: after[r] == before[r])
  }

  lemma WriteAnswers(s: Pmic, fate: nat -> Outcome, reg: nat, val: Byte)
    requires Sized(s) && reg < 256
    ensures var (t, c) := Write(s, fate, reg, val, 3);
            && Wrote(fate, s.attempts, reg, val, s.regs, t.regs, t.attempts, c)
            && t.ready == s.ready && t.record == s.record
  {
    var t1 := Attempt(s, fate, reg, val);
    var t2 := Attempt(t1, fate, reg, val);
    var t3 := Attempt(t2, fate, reg, val);
    assert Write(t3, fate, reg, val, 0) == (t3, NoComm);
    assert Write(t2, fate, reg, val, 1) == (t3, if fate(s.attempts + 2) == Done then Ok else NoComm);
    assert Write(t1, fate, reg, val, 2)
        == if fate(s.attempts + 1) == Done then (t2, Ok) else Write(t2, fate, reg, val, 1);
  }

  // What the masked update writes agrees with `val` under the mask and with the old value
  // outside it.
  predicate Mixes(cur: Byte, mask: bv8, val: bv8, next: Byte)
  {
    next as bv8 & mask == val & mask && next as bv8 & !mask == cur as bv8 & !mask
  }

  lemma MaskedMixes(cur: Byte, mask: bv8, val: bv8)
    ensures Mixes(cur, mask, val, Masked(cur, mask, val))
  {
    hide Masked, ToByte;
    MaskedIs(cur, mask, val);
    MixedBits(cur as bv8, mask, val);
  }

  lemma MixedBits(cur: bv8, mask: bv8, val: bv8)
    ensures ((cur & !mask) | (val & mask)) & mask == val & mask
    ensures ((cur & !mask) | (val & mask)) & !mask == cur & !mask
  {
  }

  // A masked update: one read, and a write if that succeeds.
  predicate Modified(fate: nat -> Outcome, n: nat, reg: nat, mask: bv8, val: bv8, before: seq<Byte>,
                     after: seq<Byte>, attempts: nat, c: Code)
  {
    && |before| == 256 == |after| && reg < 256
    && c == (if fate(n) == Done && OneOfThree(fate, n + 1) then Ok else NoComm)
    && attempts == n + 1 + (if fate(n) == Done then Used(fate, n + 1) else 0)
    && (if fate(n) != Done || NoneOfThree(fate, n + 1) then after[reg] == before[reg]
        else Mixes(before[reg], mask, val, after[reg]))
    && (forall r | 0 <= r < 256 && r != reg :: after[r] == before[r])
  }

  lemma ModifyAnswers(s: Pmic, fate: nat -> Outcome, reg: nat, mask: bv8, val: bv8)
    requires Sized(s) && reg < 256
    ensures var (t, c) := Modify(s, fate, reg, mask, val);
            && Modified(fate, s.attempts, reg, mask, val, s.regs, t.regs, t.attempts, c)
            && t.ready == s.ready && t.record == s.record
  {
    hide Write, Masked, ToByte, Mixes;
    WriteAnswers(Read(s, fate).0, fate, reg, Masked(s.regs[reg], mask, val));
    MaskedMixes(s.regs[reg], mask, val);
  }

  // ---------------------------------------------------------------- one regulator

  // Switching regulator `id`: refused exactly for an uninitialised driver or an id of 9
  // or more, and otherwise bit 7 of its settings register is set or cleared.
  predicate Switched(fate: nat -> Outcome, s: Pmic, id: nat, on: bool, t: Pmic, c: Code)
  {
    if !s.ready || id >= 9 then c == Inval && t == s
    else
      && Modified(fate, s.attempts, if id < 5 then 0x11 + 4 * id else 0x29 + 4 * (id - 5), 0x80,
                  if on then 0x80 else 0, s.regs, t.regs, t.attempts, c)
      && t.ready && t.record == s.record
  }

  lemma SwitchAnswers(s: Pmic, fate: nat -> Outcome, id: nat, on: bool)
    requires Sized(s)
    ensures var (t, c) := Switch(s, fate, id, on); Switched(fate, s, id, on, t, c)
  {
    hide Modify, Modified;
    if s.ready && id < 9 {
      ModifyAnswers(s, fate, ConfReg(id), 0x80, if on then 0x80 else 0x00);
    }
  }

  // Setting a voltage: refused exactly for an uninitialised driver, an id of 9 or more,
  // or a voltage outside 300 to 3340 mV on a BUCK and 600 to 3300 mV on an LDO.
  predicate VoltageSet(fate: nat -> Outcome, s: Pmic, id: nat, mv: nat, t: Pmic, c: Code)
    requires |s.record| == 9
  {
    if !s.ready || id >= 9 || (if id < 5 then mv < 300 || mv > 3340 else mv < 600 || mv > 3300) then
      c == Inval && t == s
    else
      && Wrote(fate, s.attempts, if id < 5 then 0x10 + 4 * id else 0x28 + 4 * (id - 5),
               if id < 5 then (mv - 300) / 5 % 256 else (mv - 600) / 50, s.regs, t.regs, t.attempts, c)
      && t.ready && |t.record| == 9 && t.record[id] == (if c == Ok then mv else s.record[id])
      && (forall i | 0 <= i < 9 && i != id :: t.record[i] == s.record[i])
  }

  lemma VoltageAnswers(s: Pmic, fate: nat -> Outcome, id: nat, mv: nat)
    requires Sized(s)
    ensures var (t, c) := SetVoltage(s, fate, id, mv); VoltageSet(fate, s, id, mv, t, c)
  {
    hide Write, Wrote;
    if s.ready && id < 9 && InRange(id, mv) {
      WriteAnswers(s, fate, VoltReg(id), VoltCode(id, mv));
    }
  }

  // ---------------------------------------------------------------- what the bytes mean

  // Bit 7 enables, bit 6 forces PWM or bypasses, and bit 5 asks the last LDO for low noise.
  lemma SettingsBits(b: Buck, l: Ldo, i: nat)
    ensures var c, d := BuckConf(b), LdoConf(l, i);
            && (c & 0x80 == 0x80 <==> b.enable) && (c & 0x40 == 0x40 <==> b.fpwm)
            && c & 0x38 == b.freq & 0x38 && c & 0x07 == b.phase & 0x07
            && (d & 0x80 == 0x80 <==> l.enable) && (d & 0x40 == 0x40 <==> l.bypass)
            && (d & 0x20 == 0x20 <==> l.lowNoise && i == 3) && d & 0x1F == 0
  {
  }

  // The sleep registers, read field by field at the places their masks give.
  function ReadSleep(conf: Byte, wake: Byte): Sleep
  {
    var c, w := conf as bv8, wake as bv8;
    Sleep(c & 0x01 != 0, c & 0x1F, (c >> 6) & 0x0F, c & 0x40 != 0, w & 0x07, (w >> 4) & 0x03)
  }

  // The fields share bits, so what the chip is told is more than was asked: BUCK1 stays
  // on in sleep whenever sleep is enabled, and enabling it for BUCK1 enables sleep; LDO1
  // and retention are tied likewise; LDO3 and LDO4 are dropped.
  lemma SleepReadsBack(z: Sleep)
    ensures ReadSleep(SleepByte(z), WakeByte(z))
         == Sleep(z.enabled || z.buckMask & 0x01 != 0,
                  (z.buckMask & 0x1F) | (if z.enabled then 0x01 else 0),
                  (z.ldoMask & 0x03) | (if z.retention then 0x01 else 0),
                  z.retention || z.ldoMask & 0x01 != 0,
                  z.wakePin & 0x07, z.wakeEdge & 0x03)
  {
  }

  // The settings survive exactly when both pairs that share a bit agree and each field
  // fits the bits it is given.
  lemma SleepRoundTripIff(z: Sleep)
    ensures ReadSleep(SleepByte(z), WakeByte(z)) == z
       <==> && (z.enabled <==> z.buckMask & 0x01 != 0) && z.buckMask & 0xE0 == 0
            && (z.retention <==> z.ldoMask & 0x01 != 0) && z.ldoMask & 0xFC == 0
            && z.wakePin & 0xF8 == 0 && z.wakeEdge & 0xFC == 0
  {
    hide ReadSleep, SleepByte, WakeByte;
    SleepReadsBack(z);
  }

  // The shipped configuration asks for BUCK3 and LDO2 alone in sleep; after a successful
  // call BUCK1 and LDO1 stay on as well.
  lemma DefaultSleepKeepsMore(s: Pmic, fate: nat -> Outcome)
    requires Sized(s) && SetConfig(s, fate, DEFAULT).1 == Ok
    ensures var t := SetConfig(s, fate, DEFAULT).0;
            ReadSleep(t.regs[0xA0], t.regs[0xA1]) == DEFAULT.sleep.(buckMask := 0x05, ldoMask := 0x03)
    ensures DEFAULT.sleep.buckMask == 0x04 && DEFAULT.sleep.ldoMask == 0x02
  {
    hide SetConfig, ReadSleep, SleepByte, WakeByte, Programmed, IsOf;
    ConfigOk(s, fate, DEFAULT);
    SleepReadsBack(DEFAULT.sleep);
  }

  lemma MonitorBytes()
    ensures EsmByte(0) == 0x80 && EsmByte(1) == 0x81 && EsmByte(2) == 0x82
  {
    assert EsmByte(0) as bv8 == 0x80 && EsmByte(1) as bv8 == 0x81 && EsmByte(2) as bv8 == 0x82;
  }

  // The two sleep registers, the second attempted only after the first succeeded.
  predicate SleepSet(fate: nat -> Outcome, s: Pmic, z: Sleep, t: Pmic, c: Code)
    requires |s.regs| == 256
  {
    var n := s.attempts;
    var m := n + Used(fate, n);
    && |t.regs| == 256 && t.ready == s.ready && t.record == s.record
    && c == (if !s.ready then Inval else if OneOfThree(fate, n) && OneOfThree(fate, m) then Ok else NoComm)
    && (!s.ready || NoneOfThree(fate, n) ==> t.regs == s.regs)
    && (s.ready && !NoneOfThree(fate, n) ==> t.regs[0xA0] == SleepByte(z))
    && t.regs[0xA1] == (if s.ready && OneOfThree(fate, n) && !NoneOfThree(fate, m) then WakeByte(z) else s.regs[0xA1])
    && (forall r | 0 <= r < 256 && r != 0xA0 && r != 0xA1 :: t.regs[r] == s.regs[r])
  }

  lemma SleepAnswers(s: Pmic, fate: nat -> Outcome, z: Sleep)
    requires Sized(s)
    ensures var (t, c) := SetSleep(s, fate, z); SleepSet(fate, s, z, t, c)
  {
    hide Write, SleepByte, WakeByte;
    if s.ready {
      WriteAnswers(s, fate, 0xA0, SleepByte(z));
      var (t, c) := Write(s, fate, 0xA0, SleepByte(z), 3);
      if c == Ok { WriteAnswers(t, fate, 0xA1, WakeByte(z)); }
    }
  }
}
