// The PCIe endpoint driver as it runs: probe climbs the resource ladder and its error
// labels come back down, remove descends all the way, and the minor bitmap is an array.
module PcieDriver {
  import opened Common
  import opened PcieSpec
  import opened PcieRuns

  ghost function Then(log: seq<Action>, act: Action): seq<Action>
  {
    log + [act]
  }

  // Of the resources of rungs below i it has all mandatory ones, and BAR1 and the DMA
  // buffer just when it says so.
  ghost predicate HasBelow(held: set<Resource>, bar1: bool, dma: bool, i: nat)
  {
    (bar1 <==> Bar1 in held) && (dma <==> Dma in held) && forall r | r in MANDATORY && Up(r) < i :: r in held
  }

  // Probe has passed the rungs below i and logged what it took.
  ghost predicate GoingUp(a: Answers, minorFree: bool, log: seq<Action>, bar1: bool, dma: bool, i: nat)
  {
    exists taken :: Climbed(a, minorFree, log, bar1, dma, i, taken)
  }

  ghost predicate Climbed(a: Answers, minorFree: bool, log: seq<Action>, bar1: bool, dma: bool, i: nat,
                          taken: seq<Resource>)
  {
    ClimbedTo(a, minorFree, taken, i) && log == Acquires(taken) && HasBelow(Elements(taken), bar1, dma, i)
  }

  lemma Starts(a: Answers, minorFree: bool)
    ensures GoingUp(a, minorFree, [], false, false, 0)
  {
    AtTheBottom(a, minorFree);
    hide ClimbedTo;
    assert Acquires([]) == [];
    assert Climbed(a, minorFree, [], false, false, 0, []);
  }

  lemma HasOneMore(taken: seq<Resource>, bar1: bool, dma: bool, i: nat, r: Resource)
    requires HasBelow(Elements(taken), bar1, dma, i) && forall q | Up(q) == i :: q == r
    ensures HasBelow(Elements(taken + [r]), bar1 || r == Bar1, dma || r == Dma, i + 1)
  {
    hide Up;
    assert Elements(taken + [r]) == Elements(taken) + {r};
  }

  lemma Takes(a: Answers, minorFree: bool, log: seq<Action>, bar1: bool, dma: bool, i: nat, r: Resource)
    requires i < RUNGS && GoingUp(a, minorFree, log, bar1, dma, i)
    requires RungAt(a, minorFree, i).ok && RungAt(a, minorFree, i).r == Some(r)
    ensures GoingUp(a, minorFree, Then(log, Acquire(r)), bar1 || r == Bar1, dma || r == Dma, i + 1)
  {
    hide ClimbedTo, RungAt, Up, HasBelow, Acquires, Elements;
    RungPlace(a, minorFree, i);
    var taken :| Climbed(a, minorFree, log, bar1, dma, i, taken);
    RungTaken(a, minorFree, taken, i, r);
    AcquiresSnoc(taken, r);
    HasOneMore(taken, bar1, dma, i, r);
    assert Climbed(a, minorFree, log + [Acquire(r)], bar1 || r == Bar1, dma || r == Dma, i + 1, taken + [r]);
  }

  lemma Passes(a: Answers, minorFree: bool, log: seq<Action>, bar1: bool, dma: bool, i: nat)
    requires i < RUNGS && GoingUp(a, minorFree, log, bar1, dma, i)
    requires var rung := RungAt(a, minorFree, i); if rung.ok then rung.r.None? else rung.optional
    ensures GoingUp(a, minorFree, log, bar1, dma, i + 1)
  {
    hide ClimbedTo, RungAt, Up;
    RungPlace(a, minorFree, i);
    var taken :| Climbed(a, minorFree, log, bar1, dma, i, taken);
    RungPassed(a, minorFree, taken, i);
    assert Climbed(a, minorFree, log, bar1, dma, i + 1, taken);
  }

  // What a device holds that was probed to the top.
  ghost function AllHeld(bar1: bool, dma: bool): set<Resource>
  {
    MANDATORY + (if bar1 then {Bar1} else {}) + (if dma then {Dma} else {})
  }

  // At the top nothing is given back.
  lemma Arrives(a: Answers, minorFree: bool, log: seq<Action>, bar1: bool, dma: bool)
    requires GoingUp(a, minorFree, log, bar1, dma, RUNGS)
    ensures log == ProbeTrace(a, minorFree) && Succeeds(a, minorFree)
    ensures Elements(Taken(a, minorFree)) == AllHeld(bar1, dma)
  {
    hide Taken, Succeeds, Acquires, ClimbedTo;
    var taken :| Climbed(a, minorFree, log, bar1, dma, RUNGS, taken);
    AtTheTop(a, minorFree, taken);
    assert forall r :: r in MANDATORY || r == Bar1 || r == Dma;
    assert Elements(taken) == AllHeld(bar1, dma);
    assert Acquires(taken) + [] == Acquires(taken);
  }

  // Of the resources of labels from j on, it has all mandatory ones, and BAR1 and the DMA
  // buffer just when it says so.
  ghost predicate HasFrom(held: set<Resource>, bar1: bool, dma: bool, j: nat)
  {
    (bar1 <==> Bar1 in held) && (dma <==> Dma in held) && forall r | r in MANDATORY && j <= Down(r) :: r in held
  }

  // The way down from `held`, which began when the log was `up`, has passed the labels
  // before j.
  ghost predicate GoingDown(held: set<Resource>, up: seq<Action>, log: seq<Action>, bar1: bool, dma: bool, j: nat)
  {
    HasFrom(held, bar1, dma, j) && exists given :: Descended(held, up, log, j, given)
  }

  ghost predicate Descended(held: set<Resource>, up: seq<Action>, log: seq<Action>, j: nat, given: seq<Resource>)
  {
    DescendedTo(held, given, j) && log == up + Releases(given)
  }

  lemma StartsDown(held: set<Resource>, up: seq<Action>, bar1: bool, dma: bool, j: nat)
    requires j <= LABELS && (forall r | r in held :: j <= Down(r)) && HasFrom(held, bar1, dma, j)
    ensures GoingDown(held, up, up, bar1, dma, j)
  {
    hide DescendedTo;
    JumpTo(held, j);
    assert up + Releases([]) == up;
    assert Descended(held, up, up, j, []);
  }

  // The label to which the refusal of rung i sends probe.
  function Label(i: nat): nat
  {
    if i <= 3 then 10 - i else if i == 5 then 5 else if 7 <= i <= 10 then 11 - i else 0
  }

  lemma LabelFits(a: Answers, minorFree: bool, i: nat)
    requires i < RUNGS && !RungAt(a, minorFree, i).optional
    ensures Label(i) <= LABELS
    ensures forall r | Up(r) < i :: Label(i) <= Down(r)
    ensures forall r | r in MANDATORY && Label(i) <= Down(r) :: Up(r) < i
  {
  }

  // A refused request sends probe to the label below which is all that it holds.
  lemma Jumps(a: Answers, minorFree: bool, log: seq<Action>, bar1: bool, dma: bool, i: nat)
    requires i < RUNGS && GoingUp(a, minorFree, log, bar1, dma, i)
    requires !RungAt(a, minorFree, i).ok && !RungAt(a, minorFree, i).optional
    ensures GoingDown(Elements(Taken(a, minorFree)), Acquires(Taken(a, minorFree)), log, bar1, dma, Label(i))
    ensures !Succeeds(a, minorFree)
  {
    LabelFits(a, minorFree, i);
    var taken :| Climbed(a, minorFree, log, bar1, dma, i, taken);
    assert forall r | r in taken :: Up(r) < i;
    hide ClimbedTo, RungAt, Taken, Succeeds, Up, Down, Label, Acquires;
    RungRefused(a, minorFree, taken, i);
    StartsDown(Elements(taken), log, bar1, dma, Label(i));
  }

  lemma HasLess(held: set<Resource>, bar1: bool, dma: bool, j: nat)
    requires HasFrom(held, bar1, dma, j)
    ensures HasFrom(held, bar1, dma, j + 1)
  {
  }

  lemma HasIt(held: set<Resource>, bar1: bool, dma: bool, j: nat, r: Resource)
    requires j < LABELS && r == Descent(j) && HasFrom(held, bar1, dma, j)
    requires (r == Bar1 ==> bar1) && (r == Dma ==> dma)
    ensures r in held
  {
    hide Descent, Down;
    DescentPlace(j);
    assert r in MANDATORY || r == Bar1 || r == Dma;
  }

  // A label gives back what it is for, if it is held.
  lemma Gives(held: set<Resource>, up: seq<Action>, log: seq<Action>, bar1: bool, dma: bool, j: nat, r: Resource)
    requires j < LABELS && r == Descent(j) && GoingDown(held, up, log, bar1, dma, j)
    requires (r == Bar1 ==> bar1) && (r == Dma ==> dma)
    ensures GoingDown(held, up, Then(log, Release(r)), bar1, dma, j + 1)
  {
    hide DescendedTo, Descent, Down, HasFrom, Releases;
    HasLess(held, bar1, dma, j);
    HasIt(held, bar1, dma, j, r);
    var given :| Descended(held, up, log, j, given);
    NextLabel(held, given, j);
    ReleasesLast(up, given, r);
    assert Descended(held, up, log + [Release(r)], j + 1, given + [r]);
  }

  lemma Skips(held: set<Resource>, up: seq<Action>, log: seq<Action>, bar1: bool, dma: bool, j: nat)
    requires j < LABELS && GoingDown(held, up, log, bar1, dma, j)
    requires (Descent(j) == Bar1 && !bar1) || (Descent(j) == Dma && !dma)
    ensures GoingDown(held, up, log, bar1, dma, j + 1)
  {
    hide DescendedTo, Descent, Down;
    var given :| Descended(held, up, log, j, given);
    NextLabel(held, given, j);
    assert Descended(held, up, log, j + 1, given);
  }

  lemma Empties(held: set<Resource>, up: seq<Action>, log: seq<Action>, bar1: bool, dma: bool)
    requires GoingDown(held, up, log, bar1, dma, LABELS)
    ensures log == up + Releases(Unwind(held))
  {
    hide DescendedTo, Unwind;
    var given :| Descended(held, up, log, LABELS, given);
    AtTheEnd(held, given);
  }

  lemma Lands(a: Answers, minorFree: bool, log: seq<Action>, bar1: bool, dma: bool)
    requires GoingDown(Elements(Taken(a, minorFree)), Acquires(Taken(a, minorFree)), log, bar1, dma, LABELS)
    requires !Succeeds(a, minorFree)
    ensures log == ProbeTrace(a, minorFree)
  {
    hide Taken, Succeeds, Elements, Acquires, GoingDown;
    Empties(Elements(Taken(a, minorFree)), Acquires(Taken(a, minorFree)), log, bar1, dma);
  }

  // The ladder written out.
  lemma LadderIs(a: Answers, minorFree: bool)
    ensures RungAt(a, minorFree, 0) == Rung(Some(Memory), a.memory, false)
    ensures RungAt(a, minorFree, 1) == Rung(Some(Enabled), a.enable, false)
    ensures RungAt(a, minorFree, 2) == Rung(Some(Regions), a.regions, false)
    ensures RungAt(a, minorFree, 3) == Rung(Some(Bar0), a.bar0, false)
    ensures RungAt(a, minorFree, 4) == Rung(Some(Bar1), a.bar1Present && a.bar1, true)
    ensures RungAt(a, minorFree, 5) == Rung(None, a.dmaMask, false)
    ensures RungAt(a, minorFree, 6) == Rung(Some(Dma), a.dmaCoherent || a.dmaFallback, true)
    ensures RungAt(a, minorFree, 7) == Rung(Some(Irq), a.irq, false)
    ensures RungAt(a, minorFree, 8) == Rung(Some(Minor), minorFree, false)
    ensures RungAt(a, minorFree, 9) == Rung(Some(Cdev), a.cdev, false)
    ensures RungAt(a, minorFree, 10) == Rung(Some(Node), a.node, false)
    ensures Descent(0) == Node && Descent(1) == Cdev && Descent(2) == Minor && Descent(3) == Irq && Descent(4) == Dma
    ensures Descent(5) == Bar0 && Descent(6) == Bar1 && Descent(7) == Regions && Descent(8) == Enabled
    ensures Descent(9) == Memory
    ensures Label(0) == 10 && Label(1) == 9 && Label(2) == 8 && Label(3) == 7 && Label(5) == 5 && Label(7) == 4
    ensures Label(8) == 3 && Label(9) == 2 && Label(10) == 1
  {
  }

  // What setting and clearing a bit and recording a device do to the state.
  ghost function Plus(s: Driver, m: nat): Driver { s.(minors := s.minors + {m}) }

  ghost function Minus(s: Driver, m: nat): Driver { s.(minors := s.minors - {m}) }

  ghost function Recorded(s: Driver, p: nat, d: Device): Driver { s.(live := s.live[p := d]) }

  lemma MinusPlus(s: Driver, m: nat)
    requires m !in s.minors
    ensures Minus(Plus(s, m), m) == s
  {
    assert s.minors + {m} - {m} == s.minors;
  }

  // The two outcomes of the specification's step.
  lemma FailedStep(s: Driver, p: nat, a: Answers, max: nat)
    requires p !in s.live && !Succeeds(a, Lowest(s.minors, max) < max)
    ensures Step(s, PcieRuns.Probe(p, a), max) == s
  {
    hide Succeeds, Taken, Elements;
  }

  lemma SuccessStep(s: Driver, p: nat, a: Answers, max: nat)
    requires p !in s.live && Succeeds(a, Lowest(s.minors, max) < max) && PcieRuns.Valid(s, max)
    ensures var m := Lowest(s.minors, max);
            var t := Recorded(Plus(s, m), p, Device(m, Elements(Taken(a, m < max))));
            Step(s, PcieRuns.Probe(p, a), max) == t && PcieRuns.Valid(t, max)
  {
    hide Succeeds, Taken, Elements, PcieRuns.Valid;
    StepKeepsValid(s, PcieRuns.Probe(p, a), max);
  }

  lemma LowestIsFree(minors: set<nat>, max: nat)
    ensures Lowest(minors, max) < max ==> Lowest(minors, max) !in minors
  {
  }

  class EpDevice {
    var bar1: bool
    var dma: bool
    var minor: nat

    constructor (bar1: bool, dma: bool, minor: nat)
      ensures this.bar1 == bar1 && this.dma == dma && this.minor == minor
    {
      this.bar1, this.dma, this.minor := bar1, dma, minor;
    }

    ghost function Holds(): set<Resource>
      reads this
    {
      AllHeld(bar1, dma)
    }
  }

  function MinorSet(bits: seq<bool>): set<nat>
  {
    set i: nat | i < |bits| && bits[i]
  }

  lemma MinorSetUpdate(bits: seq<bool>, m: nat)
    requires m < |bits|
    ensures MinorSet(bits[m := true]) == MinorSet(bits) + {m}
    ensures MinorSet(bits[m := false]) == MinorSet(bits) - {m}
    ensures bits[m := true][m := bits[m]] == bits
  {
  }

  ghost function LiveOf(devices: map<nat, EpDevice>): map<nat, Device>
    reads devices.Values
  {
    map p | p in devices :: Device(devices[p].minor, devices[p].Holds())
  }

  lemma LiveOfUpdate(devices: map<nat, EpDevice>, p: nat, ep: EpDevice)
    ensures LiveOf(devices[p := ep]) == LiveOf(devices)[p := Device(ep.minor, ep.Holds())]
    ensures LiveOf(devices - {p}) == LiveOf(devices) - {p}
  {
    hide EpDevice.Holds;
  }

  class EpDriver {
    const maxDevices: nat
    const devMinor: array<bool>
    var drvdata: map<nat, EpDevice>

    ghost function Minors(): set<nat>
      reads devMinor
    {
      MinorSet(devMinor[..])
    }

    ghost function State(): Driver
      reads this, devMinor, drvdata.Values
    {
      Driver(Minors(), LiveOf(drvdata))
    }

    ghost predicate Valid()
      reads this, devMinor, drvdata.Values
    {
      devMinor.Length == 256 && PcieRuns.Valid(State(), maxDevices)
    }

    constructor (maxDevices: nat)
      ensures Valid() && fresh(devMinor) && this.maxDevices == maxDevices
      ensures State() == Driver({}, map[])
    {
      this.maxDevices := maxDevices;
      devMinor := new bool[256](_ => false);
      drvdata := map[];
      new;
      EmptyIsValid(maxDevices);
      assert State() == Driver({}, map[]);
    }

    // The scan stays inside the bitmap: it covers the limit or has a zero bit.
    ghost predicate ScanFits()
      reads devMinor
    {
      maxDevices <= devMinor.Length || Lowest(Minors(), devMinor.Length) < devMinor.Length
    }

    method FindFirstZeroBit() returns (m: nat)
      requires ScanFits()
      ensures m == Lowest(Minors(), maxDevices) && (m < maxDevices ==> m < devMinor.Length)
    {
      ghost var zero := Lowest(Minors(), devMinor.Length);
      m := 0;
      while m < maxDevices && devMinor[m]
        invariant m <= maxDevices && m <= zero
        invariant FirstZero(Minors(), maxDevices, m) == FirstZero(Minors(), maxDevices, 0)
      {
        m := m + 1;
      }
    }

    lemma MinorsInRange(p: nat)
      requires Valid() && p in drvdata
      ensures drvdata[p].minor < devMinor.Length == 256
    {
      assert State().live[p].minor in State().minors;
    }

    lemma StateOf(p: nat)
      ensures p in State().live <==> p in drvdata
      ensures p in drvdata ==> State().live[p] == Device(drvdata[p].minor, drvdata[p].Holds())
      ensures State().minors == Minors()
    {
    }

    lemma ValidIs()
      ensures Valid() <==> devMinor.Length == 256 && PcieRuns.Valid(State(), maxDevices)
      ensures State().minors == Minors() && State().live.Keys == drvdata.Keys
    {
      hide PcieRuns.Valid;
    }

    method SetBit(m: nat)
      requires m < devMinor.Length
      modifies devMinor
      ensures State() == Plus(old(State()), m)
    {
      hide LiveOf, MinorSet;
      ghost var bits := devMinor[..];
      MinorSetUpdate(bits, m);
      devMinor[m] := true;
      assert devMinor[..] == bits[m := true];
    }

    method ClearBit(m: nat)
      requires m < devMinor.Length
      modifies devMinor
      ensures State() == Minus(old(State()), m)
    {
      hide LiveOf, MinorSet;
      ghost var bits := devMinor[..];
      MinorSetUpdate(bits, m);
      devMinor[m] := false;
      assert devMinor[..] == bits[m := false];
    }

    method SetDrvdata(pdev: nat, bar1: bool, dma: bool, minor: nat)
      modifies this`drvdata
      ensures drvdata.Keys == old(drvdata.Keys) + {pdev}
      ensures State() == Recorded(old(State()), pdev, Device(minor, AllHeld(bar1, dma)))
    {
      hide LiveOf, MinorSet;
      var ep := new EpDevice(bar1, dma, minor);
      drvdata := drvdata[pdev := ep];
      LiveOfUpdate(old(drvdata), pdev, ep);
    }

    // With fewer live devices than the bitmap has bits, one of them is zero.
    lemma ZeroBit()
      requires Valid() && (maxDevices <= 256 || |drvdata| < 256)
      ensures ScanFits()
    {
      if maxDevices > 256 {
        assert PcieRuns.Valid(State(), 256) by {
          forall p | p in drvdata ensures State().live[p].minor < 256 { MinorsInRange(p); }
        }
        MinorCount(State(), 256);
        assert State().live.Keys == drvdata.Keys;
      }
    }

    // The last rungs of probe: a minor, the character device and its node.  The way back
    // ends at the label that frees the interrupt.
    method Register(pdev: nat, a: Answers, bar1: bool, dma: bool, ghost reached: seq<Action>, ghost before: Driver)
      returns (ok: bool, ghost log: seq<Action>)
      requires ScanFits() && State() == before && pdev !in drvdata
      requires GoingUp(a, Lowest(before.minors, maxDevices) < maxDevices, reached, bar1, dma, 8)
      modifies this`drvdata, devMinor
      ensures var m := Lowest(before.minors, maxDevices);
              var free := m < maxDevices;
              var held := Elements(Taken(a, free));
              if ok then
                && log == ProbeTrace(a, free) && Succeeds(a, free)
                && drvdata.Keys == old(drvdata).Keys + {pdev}
                && State() == Recorded(Plus(before, m), pdev, Device(m, held))
              else
                && !Succeeds(a, free) && drvdata == old(drvdata) && State() == before
                && GoingDown(held, Acquires(Taken(a, free)), log, bar1, dma, 3)
    {
      hide Then, GoingUp, GoingDown, Succeeds, Taken, Elements, ProbeTrace, Acquires, PcieRuns.Valid;
      hide Plus, Minus, Recorded, FirstZero, Valid, ScanFits, LiveOf, MinorSet, EpDevice.Holds, AllHeld, Lowest;
      hide State, Minors, RungAt, Descent, Label;
      ghost var free := Lowest(before.minors, maxDevices) < maxDevices;
      ghost var held, up := Elements(Taken(a, free)), Acquires(Taken(a, free));
      ok, log := false, reached;
      ValidIs();
      LadderIs(a, free);
      var minor := FindFirstZeroBit();
      assert State() == before;
      LowestIsFree(before.minors, maxDevices);
      if minor >= maxDevices {
        Jumps(a, free, log, bar1, dma, 8);
        return;
      }
      SetBit(minor);
      Takes(a, free, log, bar1, dma, 8, Minor);
      log := Then(log, Acquire(Minor));
      label errBit: {
        if !a.cdev { Jumps(a, free, log, bar1, dma, 9); break errBit; }
        Takes(a, free, log, bar1, dma, 9, Cdev);
        log := Then(log, Acquire(Cdev));
        if a.node {
          Takes(a, free, log, bar1, dma, 10, Node);
          log := Then(log, Acquire(Node));
          Arrives(a, free, log, bar1, dma);
          SetDrvdata(pdev, bar1, dma, minor);
          ok := true;
          return;
        }
        Jumps(a, free, log, bar1, dma, 10);
        // err_cdev
        Gives(held, up, log, bar1, dma, 1, Cdev);
        log := Then(log, Release(Cdev));
      }
      ClearBit(minor);
      MinusPlus(before, minor);
      Gives(held, up, log, bar1, dma, 2, Minor);
      log := Then(log, Release(Minor));
    }

    // The rungs in the middle of probe: the DMA mask and buffer and the interrupt, then
    // those above.  The way back ends at the label that unmaps the BARs.
    method Attach(pdev: nat, a: Answers, bar1: bool, ghost reached: seq<Action>, ghost before: Driver)
      returns (ok: bool, dma: bool, ghost log: seq<Action>)
      requires ScanFits() && State() == before && pdev !in drvdata
      requires GoingUp(a, Lowest(before.minors, maxDevices) < maxDevices, reached, bar1, false, 5)
      modifies this`drvdata, devMinor
      ensures var m := Lowest(before.minors, maxDevices);
              var free := m < maxDevices;
              var held := Elements(Taken(a, free));
              if ok then
                && log == ProbeTrace(a, free) && Succeeds(a, free)
                && drvdata.Keys == old(drvdata).Keys + {pdev}
                && State() == Recorded(Plus(before, m), pdev, Device(m, held))
              else
                && !Succeeds(a, free) && drvdata == old(drvdata) && State() == before
                && GoingDown(held, Acquires(Taken(a, free)), log, bar1, dma, 5)
    {
      hide Then, GoingUp, GoingDown, Succeeds, Taken, Elements, ProbeTrace, Acquires, PcieRuns.Valid;
      hide Plus, Minus, Recorded, FirstZero, Valid, ScanFits, LiveOf, MinorSet, Lowest, State, Minors;
      hide RungAt, Descent, Label;
      ghost var free := Lowest(before.minors, maxDevices) < maxDevices;
      ghost var held, up := Elements(Taken(a, free)), Acquires(Taken(a, free));
      ok, dma, log := false, false, reached;
      LadderIs(a, free);
      if !a.dmaMask {
        Jumps(a, free, log, bar1, dma, 5);
        return;
      }
      Passes(a, free, log, bar1, dma, 5);
      dma := a.dmaCoherent || a.dmaFallback;
      if dma {
        Takes(a, free, log, bar1, false, 6, Dma);
        log := Then(log, Acquire(Dma));
      } else {
        Passes(a, free, log, bar1, false, 6);
      }
      label errDma: {
        if !a.irq { Jumps(a, free, log, bar1, dma, 7); break errDma; }
        Takes(a, free, log, bar1, dma, 7, Irq);
        log := Then(log, Acquire(Irq));
        ok, log := Register(pdev, a, bar1, dma, log, before);
        if ok { return; }
        Gives(held, up, log, bar1, dma, 3, Irq);
        log := Then(log, Release(Irq));
      }
      if dma {
        Gives(held, up, log, bar1, dma, 4, Dma);
        log := Then(log, Release(Dma));
      } else {
        Skips(held, up, log, bar1, dma, 4);
      }
    }

    // Each refused request leaves the block of its label; the code after the block is
    // what the label does, and control falls through from there to the next one. The
    // fields of the device's record are locals until it is published.
    method Probe(pdev: nat, a: Answers) returns (ok: bool, ghost log: seq<Action>)
      requires Valid() && pdev !in drvdata && (maxDevices <= 256 || |drvdata| < 256)
      modifies this`drvdata, devMinor
      ensures Valid()
      ensures State() == Step(old(State()), PcieRuns.Probe(pdev, a), maxDevices)
      ensures ok <==> pdev in drvdata
      ensures log == ProbeTrace(a, Lowest(old(Minors()), maxDevices) < maxDevices)
    {
      hide Then, GoingUp, GoingDown, Succeeds, Taken, Elements, ProbeTrace, Acquires, Releases, Unwind, PcieRuns.Valid;
      hide Plus, Minus, Recorded, FirstZero, Valid, ScanFits, LiveOf, MinorSet, Step, EpDevice.Holds, AllHeld;
      hide Lowest, State, Minors, RungAt, Descent, Label;
      ghost var before := State();
      ghost var free := Lowest(Minors(), maxDevices) < maxDevices;
      ghost var held, up := Elements(Taken(a, free)), Acquires(Taken(a, free));
      ok, log := false, [];
      ValidIs();
      ZeroBit();
      LadderIs(a, free);
      Starts(a, free);
      if !a.memory {
        Jumps(a, free, log, false, false, 0);
        Lands(a, free, log, false, false);
        FailedStep(before, pdev, a, maxDevices);
        return;
      }
      var bar1, dma := false, false;
      Takes(a, free, log, bar1, dma, 0, Memory);
      log := Then(log, Acquire(Memory));
      label errFree: {
        if !a.enable { Jumps(a, free, log, bar1, dma, 1); break errFree; }
        Takes(a, free, log, bar1, dma, 1, Enabled);
        log := Then(log, Acquire(Enabled));
        label errDisable: {
          if !a.regions { Jumps(a, free, log, bar1, dma, 2); break errDisable; }
          Takes(a, free, log, bar1, dma, 2, Regions);
          log := Then(log, Acquire(Regions));
          label errRelease: {
            if !a.bar0 { Jumps(a, free, log, bar1, dma, 3); break errRelease; }
            Takes(a, free, log, bar1, dma, 3, Bar0);
            log := Then(log, Acquire(Bar0));
            bar1 := a.bar1Present && a.bar1;
            if bar1 {
              Takes(a, free, log, false, false, 4, Bar1);
              log := Then(log, Acquire(Bar1));
            } else {
              Passes(a, free, log, false, false, 4);
            }
            ok, dma, log := Attach(pdev, a, bar1, log, before);
            if ok {
              SuccessStep(before, pdev, a, maxDevices);
              ValidIs();
              return;
            }
            Gives(held, up, log, bar1, dma, 5, Bar0);
            log := Then(log, Release(Bar0));
            if bar1 {
              Gives(held, up, log, bar1, dma, 6, Bar1);
              log := Then(log, Release(Bar1));
            } else {
              Skips(held, up, log, bar1, dma, 6);
            }
          }
          Gives(held, up, log, bar1, dma, 7, Regions);
          log := Then(log, Release(Regions));
        }
        assert State() == before;
        Gives(held, up, log, bar1, dma, 8, Enabled);
        log := Then(log, Release(Enabled));
      }
      Gives(held, up, log, bar1, dma, 9, Memory);
      log := Then(log, Release(Memory));
      Lands(a, free, log, bar1, dma);
      FailedStep(before, pdev, a, maxDevices);
      ValidIs();
    }

    // Gives back everything the device holds, in the order the error labels do.
    method Remove(pdev: nat) returns (ghost log: seq<Action>)
      requires Valid() && pdev in drvdata
      modifies this, devMinor
      ensures Valid()
      ensures State() == Step(old(State()), PcieRuns.Remove(pdev), maxDevices)
      ensures log == Releases(Unwind(old(drvdata[pdev].Holds())))
    {
      hide Then, GoingDown, Releases, Unwind, PcieRuns.Valid, LiveOf, MinorSet;
      MinorsInRange(pdev);
      StateOf(pdev);
      var ep := drvdata[pdev];
      ghost var held := ep.Holds();
      log := [];
      StepKeepsValid(State(), PcieRuns.Remove(pdev), maxDevices);
      StartsDown(held, [], ep.bar1, ep.dma, 0);
      Gives(held, [], log, ep.bar1, ep.dma, 0, Node);
      log := Then(log, Release(Node));
      Gives(held, [], log, ep.bar1, ep.dma, 1, Cdev);
      log := Then(log, Release(Cdev));
      Gives(held, [], log, ep.bar1, ep.dma, 2, Minor);
      ClearBit(ep.minor);
      log := Then(log, Release(Minor));
      Gives(held, [], log, ep.bar1, ep.dma, 3, Irq);
      log := Then(log, Release(Irq));
      if ep.dma {
        Gives(held, [], log, ep.bar1, ep.dma, 4, Dma);
        log := Then(log, Release(Dma));
      } else {
        Skips(held, [], log, ep.bar1, ep.dma, 4);
      }
      Gives(held, [], log, ep.bar1, ep.dma, 5, Bar0);
      log := Then(log, Release(Bar0));
      if ep.bar1 {
        Gives(held, [], log, ep.bar1, ep.dma, 6, Bar1);
        log := Then(log, Release(Bar1));
      } else {
        Skips(held, [], log, ep.bar1, ep.dma, 6);
      }
      Gives(held, [], log, ep.bar1, ep.dma, 7, Regions);
      log := Then(log, Release(Regions));
      Gives(held, [], log, ep.bar1, ep.dma, 8, Enabled);
      log := Then(log, Release(Enabled));
      Gives(held, [], log, ep.bar1, ep.dma, 9, Memory);
      log := Then(log, Release(Memory));
      drvdata := drvdata - {pdev};
      Empties(held, [], log, ep.bar1, ep.dma);
      assert [] + Releases(Unwind(held)) == Releases(Unwind(held));
      LiveOfUpdate(old(drvdata), pdev, ep);
    }
  }
}
