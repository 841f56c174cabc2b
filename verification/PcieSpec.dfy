// The resource ladder of the PCIe endpoint driver: what probe acquires, in which order a
// failed probe and remove give it back, and which minors are taken, over every run.
module PcieSpec {
  import opened Common

  datatype Resource = Memory | Enabled | Regions | Bar0 | Bar1 | Dma | Irq | Minor | Cdev | Node

  datatype Action = Acquire(r: Resource) | Release(r: Resource)

  // How the kernel answers each request of one probe; true means it succeeds.
  datatype Answers = Answers(
    memory: bool, enable: bool, regions: bool, bar0: bool,
    bar1Present: bool, bar1: bool, dmaMask: bool, dmaCoherent: bool, dmaFallback: bool,
    irq: bool, cdev: bool, node: bool)

  // One rung: the resource it takes, if any, whether it succeeds, and whether probe can
  // go on without it.
  datatype Rung = Rung(r: Option<Resource>, ok: bool, optional: bool)

  const RUNGS: nat := 11

  function RungAt(a: Answers, minorFree: bool, i: nat): Rung
    requires i < RUNGS
  {
    if i == 0 then Rung(Some(Memory), a.memory, false)
    else if i == 1 then Rung(Some(Enabled), a.enable, false)
    else if i == 2 then Rung(Some(Regions), a.regions, false)
    else if i == 3 then Rung(Some(Bar0), a.bar0, false)
    else if i == 4 then Rung(Some(Bar1), a.bar1Present && a.bar1, true)
    else if i == 5 then Rung(None, a.dmaMask, false)
    else if i == 6 then Rung(Some(Dma), a.dmaCoherent || a.dmaFallback, true)
    else if i == 7 then Rung(Some(Irq), a.irq, false)
    else if i == 8 then Rung(Some(Minor), minorFree, false)
    else if i == 9 then Rung(Some(Cdev), a.cdev, false)
    else Rung(Some(Node), a.node, false)
  }

  // Resources taken from rung i on, and whether the top is reached.
  function Climb(a: Answers, minorFree: bool, i: nat): (seq<Resource>, bool)
    decreases RUNGS - i
  {
    if i >= RUNGS then ([], true)
    else
      var rung := RungAt(a, minorFree, i);
      if !rung.ok && !rung.optional then ([], false)
      else
        var (rest, top) := Climb(a, minorFree, i + 1);
        (if rung.ok && rung.r.Some? then [rung.r.value] + rest else rest, top)
  }

  // The order in which the error labels, and remove, give resources back.
  function Descent(j: nat): Resource
  {
    if j == 0 then Node else if j == 1 then Cdev else if j == 2 then Minor
    else if j == 3 then Irq else if j == 4 then Dma else if j == 5 then Bar0
    else if j == 6 then Bar1 else if j == 7 then Regions else if j == 8 then Enabled
    else Memory
  }

  const LABELS: nat := 10

  function Cleanup(held: set<Resource>, j: nat): seq<Resource>
    decreases LABELS - j
  {
    if j >= LABELS then []
    else (if Descent(j) in held then [Descent(j)] else []) + Cleanup(held, j + 1)
  }

  function Elements(rs: seq<Resource>): set<Resource>
  {
    set r | r in rs
  }

  // Resources held after a trace; None if it takes something twice or gives back
  // something it does not hold.
  function Held(trace: seq<Action>): Option<set<Resource>>
  {
    if trace == [] then Some({})
    else Next(Held(trace[..|trace| - 1]), trace[|trace| - 1])
  }

  function Next(held: Option<set<Resource>>, act: Action): Option<set<Resource>>
  {
    match held
    case None => None
    case Some(h) =>
      match act
      case Acquire(r) => if r in h then None else Some(h + {r})
      case Release(r) => if r in h then Some(h - {r}) else None
  }

  function Acquires(rs: seq<Resource>): (t: seq<Action>)
  {
    seq(|rs|, i requires 0 <= i < |rs| => Acquire(rs[i]))
  }

  function Releases(rs: seq<Resource>): (t: seq<Action>)
  {
    seq(|rs|, i requires 0 <= i < |rs| => Release(rs[i]))
  }

  // What one probe takes, whether it succeeds, and what the error labels give back.
  function Taken(a: Answers, minorFree: bool): seq<Resource> { Climb(a, minorFree, 0).0 }

  predicate Succeeds(a: Answers, minorFree: bool) { Climb(a, minorFree, 0).1 }

  function Unwind(held: set<Resource>): seq<Resource> { Cleanup(held, 0) }

  // Everything one probe does, in order.
  function ProbeTrace(a: Answers, minorFree: bool): seq<Action>
  {
    var taken := Taken(a, minorFree);
    Acquires(taken) + if Succeeds(a, minorFree) then [] else Releases(Unwind(Elements(taken)))
  }

  // ---------------------------------------------------------------- one probe

  // Positions on the way up and on the way down.
  function Up(r: Resource): nat
  {
    match r
    case Memory => 0 case Enabled => 1 case Regions => 2 case Bar0 => 3 case Bar1 => 4
    case Dma => 6 case Irq => 7 case Minor => 8 case Cdev => 9 case Node => 10
  }

  function Down(r: Resource): nat
  {
    match r
    case Node => 0 case Cdev => 1 case Minor => 2 case Irq => 3 case Dma => 4
    case Bar0 => 5 case Bar1 => 6 case Regions => 7 case Enabled => 8 case Memory => 9
  }

  ghost predicate Ascending(key: Resource -> nat, rs: seq<Resource>)
  {
    forall i, j | 0 <= i < j < |rs| :: key(rs[i]) < key(rs[j])
  }

  // Each rung has its own place, and all but two rungs are mandatory.
  lemma RungPlace(a: Answers, minorFree: bool, i: nat)
    requires i < RUNGS
    ensures var rung := RungAt(a, minorFree, i);
            && (rung.r.Some? ==> Up(rung.r.value) == i)
            && (rung.optional <==> rung.r == Some(Bar1) || rung.r == Some(Dma))
            && (forall r | Up(r) == i :: rung.r == Some(r))
  {
  }

  lemma {:induction false} ClimbAscends(a: Answers, minorFree: bool, i: nat)
    ensures var taken := Climb(a, minorFree, i).0;
            Ascending(Up, taken) && forall r | r in taken :: i <= Up(r)
    decreases RUNGS - i
  {
    hide Up, RungAt;
    if i < RUNGS {
      RungPlace(a, minorFree, i);
      ClimbAscends(a, minorFree, i + 1);
      PrependAscends(Up, RungAt(a, minorFree, i).r, Climb(a, minorFree, i + 1).0, i);
    }
  }

  lemma PrependAscends(key: Resource -> nat, r: Option<Resource>, rest: seq<Resource>, i: nat)
    requires Ascending(key, rest) && forall e | e in rest :: i + 1 <= key(e)
    ensures r.Some? && key(r.value) == i ==> Ascending(key, [r.value] + rest)
  {
    if r.Some? {
      var s := [r.value] + rest;
      forall k, j | 0 <= k < j < |s| && key(r.value) == i ensures key(s[k]) < key(s[j]) {
        assert s[j] == rest[j - 1] && s[j] in rest;
      }
    }
  }

  // BAR1 is only asked for once BAR0 is there.
  lemma {:induction false} ClimbBars(a: Answers, minorFree: bool, i: nat)
    ensures i <= 3 && Bar1 in Climb(a, minorFree, i).0 ==> Bar0 in Climb(a, minorFree, i).0
    decreases RUNGS - i
  {
    assert forall r :: Up(r) < RUNGS;
    assert Up(Bar0) == 3 && Up(Bar1) == 4;
    hide Up, RungAt;
    if i < RUNGS {
      RungPlace(a, minorFree, i);
      ClimbBars(a, minorFree, i + 1);
    }
  }

  lemma DescentPlace(j: nat)
    requires j < LABELS
    ensures forall r :: Down(r) == j <==> r == Descent(j)
  {
  }

  lemma {:induction false} CleanupFacts(held: set<Resource>, j: nat)
    ensures Ascending(Down, Cleanup(held, j))
    ensures forall r :: r in Cleanup(held, j) <==> r in held && j <= Down(r)
    decreases LABELS - j
  {
    hide Cleanup, Descent, Down, Ascending;
    DownBelow();
    if j < LABELS {
      DescentPlace(j);
      CleanupStep(held, j);
      CleanupFacts(held, j + 1);
      PrependAscends(Down, Some(Descent(j)), Cleanup(held, j + 1), j);
      assert forall r :: j <= Down(r) <==> r == Descent(j) || j + 1 <= Down(r);
    } else {
      CleanupEnd(held, j);
    }
  }

  lemma DownBelow()
    ensures forall r :: Down(r) < LABELS
  {
  }

  lemma CleanupEnd(held: set<Resource>, j: nat)
    requires LABELS <= j
    ensures Cleanup(held, j) == [] && Ascending(Down, [])
  {
  }

  ghost predicate NoRepeats(rs: seq<Resource>)
  {
    forall i, j | 0 <= i < j < |rs| :: rs[i] != rs[j]
  }

  lemma HeldSnoc(trace: seq<Action>, act: Action)
    ensures Held(trace + [act]) == Next(Held(trace), act)
  {
    assert (trace + [act])[..|trace|] == trace;
  }

  lemma LastIsNew(rs: seq<Resource>)
    requires NoRepeats(rs) && rs != []
    ensures var n := |rs| - 1;
            rs[n] !in Elements(rs[..n]) && Elements(rs) == Elements(rs[..n]) + {rs[n]} && NoRepeats(rs[..n])
  {
    assert rs == rs[..|rs| - 1] + [rs[|rs| - 1]];
  }

  lemma AcquiresSnoc(rs: seq<Resource>, r: Resource)
    ensures Acquires(rs + [r]) == Acquires(rs) + [Acquire(r)]
  {
  }

  lemma AcquiresLast(trace: seq<Action>, rs: seq<Resource>, r: Resource)
    ensures trace + Acquires(rs + [r]) == trace + Acquires(rs) + [Acquire(r)]
  {
    AcquiresSnoc(rs, r);
  }

  lemma ReleasesLast(trace: seq<Action>, rs: seq<Resource>, r: Resource)
    ensures trace + Releases(rs + [r]) == trace + Releases(rs) + [Release(r)]
  {
    assert Releases(rs + [r]) == Releases(rs) + [Release(r)];
  }

  lemma Nothing(trace: seq<Action>)
    ensures trace + Acquires([]) == trace && trace + Releases([]) == trace && Elements([]) == {}
  {
  }

  lemma {:induction false} HeldAfterAcquires(trace: seq<Action>, rs: seq<Resource>)
    requires Held(trace) == Some({}) && NoRepeats(rs)
    ensures Held(trace + Acquires(rs)) == Some(Elements(rs))
  {
    hide Held, NoRepeats, Elements, Acquires;
    if rs == [] {
      Nothing(trace);
    } else {
      var before, r := rs[..|rs| - 1], rs[|rs| - 1];
      LastIsNew(rs);
      HeldAfterAcquires(trace, before);
      HeldSnoc(trace + Acquires(before), Acquire(r));
      AcquiresLast(trace, before, r);
      assert rs == before + [r];
    }
  }

  lemma {:induction false} HeldAfterReleases(trace: seq<Action>, held: set<Resource>, rs: seq<Resource>)
    requires Held(trace) == Some(held) && NoRepeats(rs) && Elements(rs) <= held
    ensures Held(trace + Releases(rs)) == Some(held - Elements(rs))
  {
    hide Held, NoRepeats, Elements, Releases;
    if rs == [] {
      Nothing(trace);
      assert held - {} == held;
    } else {
      var before, r := rs[..|rs| - 1], rs[|rs| - 1];
      LastIsNew(rs);
      HeldAfterReleases(trace, held, before);
      HeldSnoc(trace + Releases(before), Release(r));
      ReleasesLast(trace, before, r);
      assert rs == before + [r];
      assert held - Elements(rs) == held - Elements(before) - {r};
    }
  }

  lemma AscendingNoRepeats(key: Resource -> nat, rs: seq<Resource>)
    requires Ascending(key, rs)
    ensures NoRepeats(rs)
  {
    forall i, j | 0 <= i < j < |rs| ensures rs[i] != rs[j] {
      assert key(rs[i]) < key(rs[j]);
    }
  }

  const MANDATORY: set<Resource> := {Memory, Enabled, Regions, Bar0, Irq, Minor, Cdev, Node}

  lemma TakenFacts(a: Answers, minorFree: bool)
    ensures var taken := Taken(a, minorFree);
            && Ascending(Up, taken)
            && NoRepeats(taken)
            && (Bar1 in taken ==> Bar0 in taken)
  {
    ClimbAscends(a, minorFree, 0);
    ClimbBars(a, minorFree, 0);
    hide Climb;
    AscendingNoRepeats(Up, Taken(a, minorFree));
  }

  lemma UnwindFacts(held: set<Resource>)
    ensures var rs := Unwind(held);
            Ascending(Down, rs) && NoRepeats(rs) && Elements(rs) == held
  {
    CleanupFacts(held, 0);
    hide Cleanup;
    AscendingNoRepeats(Down, Unwind(held));
  }

  // Whatever fails, and whenever: nothing is taken twice or given back unheld, and a
  // probe of a device that holds nothing ends holding what it took if it succeeds and
  // nothing if it does not.
  lemma ProbeBalances(past: seq<Action>, a: Answers, minorFree: bool)
    requires Held(past) == Some({})
    ensures Held(past + ProbeTrace(a, minorFree))
         == Some(if Succeeds(a, minorFree) then Elements(Taken(a, minorFree)) else {})
  {
    hide Taken, Succeeds, Unwind, Ascending, NoRepeats, Held, Elements, Acquires, Releases;
    var taken := Taken(a, minorFree);
    TakenFacts(a, minorFree);
    UnwindFacts(Elements(taken));
    HeldAfterAcquires(past, taken);
    if Succeeds(a, minorFree) {
      assert past + ProbeTrace(a, minorFree) == past + Acquires(taken);
    } else {
      HeldAfterReleases(past + Acquires(taken), Elements(taken), Unwind(Elements(taken)));
      assert Elements(taken) - Elements(taken) == {};
      var up, down := Acquires(taken), Releases(Unwind(Elements(taken)));
      assert past + (up + down) == past + up + down;
    }
  }

  // Remove gives back everything that is held.
  lemma RemoveBalances(past: seq<Action>, held: set<Resource>)
    requires Held(past) == Some(held)
    ensures Held(past + Releases(Unwind(held))) == Some({})
  {
    hide Unwind, Ascending, NoRepeats, Held, Elements, Releases;
    UnwindFacts(held);
    HeldAfterReleases(past, held, Unwind(held));
    assert held - held == {};
  }

  // Every request probe cannot go on without is granted.
  predicate AllGranted(a: Answers)
  {
    a.memory && a.enable && a.regions && a.bar0 && a.dmaMask && a.irq && a.cdev && a.node
  }

  predicate RungsPass(a: Answers, minorFree: bool, i: nat)
  {
    forall k | i <= k < RUNGS :: RungAt(a, minorFree, k).ok || RungAt(a, minorFree, k).optional
  }

  lemma {:induction false} ClimbTops(a: Answers, minorFree: bool, i: nat)
    ensures Climb(a, minorFree, i).1 <==> RungsPass(a, minorFree, i)
    decreases RUNGS - i
  {
    hide RungAt;
    if i < RUNGS {
      ClimbTops(a, minorFree, i + 1);
    }
  }

  lemma {:induction false} ClimbMembers(a: Answers, minorFree: bool, i: nat, r: Resource)
    requires Climb(a, minorFree, i).1
    ensures r in Climb(a, minorFree, i).0 <==> i <= Up(r) < RUNGS && RungAt(a, minorFree, Up(r)).ok
    decreases RUNGS - i
  {
    hide Climb, Up, RungAt;
    UpBelow(r);
    if i < RUNGS {
      ClimbMember(a, minorFree, i, r);
      RungPlace(a, minorFree, i);
      ClimbMembers(a, minorFree, i + 1, r);
    } else {
      ClimbEnd(a, minorFree, i);
    }
  }

  lemma UpBelow(r: Resource)
    ensures Up(r) < RUNGS
  {
  }

  lemma ClimbEnd(a: Answers, minorFree: bool, i: nat)
    requires RUNGS <= i
    ensures Climb(a, minorFree, i) == ([], true)
  {
  }

  lemma ClimbMember(a: Answers, minorFree: bool, i: nat, r: Resource)
    requires i < RUNGS && Climb(a, minorFree, i).1
    ensures Climb(a, minorFree, i + 1).1
    ensures var rung := RungAt(a, minorFree, i);
            r in Climb(a, minorFree, i).0 <==> r in Climb(a, minorFree, i + 1).0 || (rung.ok && rung.r == Some(r))
  {
    hide RungAt;
  }

  // Probe succeeds exactly when every mandatory request is granted and a minor is free,
  // and then holds exactly what was granted.
  lemma SucceedsIff(a: Answers, minorFree: bool)
    ensures Succeeds(a, minorFree) <==> AllGranted(a) && minorFree
    ensures Succeeds(a, minorFree) ==> Elements(Taken(a, minorFree)) == Granted(a)
  {
    hide Climb;
    ClimbTops(a, minorFree, 0);
    if AllGranted(a) && minorFree {
      assert RungsPass(a, minorFree, 0);
      forall r ensures r in Elements(Taken(a, minorFree)) <==> r in Granted(a) {
        ClimbMembers(a, minorFree, 0, r);
      }
    } else {
      var k := if !a.memory then 0 else if !a.enable then 1 else if !a.regions then 2
        else if !a.bar0 then 3 else if !a.dmaMask then 5 else if !a.irq then 7
        else if !minorFree then 8 else if !a.cdev then 9 else 10;
      assert !RungAt(a, minorFree, k).ok && !RungAt(a, minorFree, k).optional;
    }
  }

  function Granted(a: Answers): set<Resource>
  {
    MANDATORY + (if a.bar1Present && a.bar1 then {Bar1} else {})
      + (if a.dmaCoherent || a.dmaFallback then {Dma} else {})
  }

  lemma NoElements(s: seq<Resource>)
    ensures Elements(s) == {} <==> s == []
  {
    if s != [] {
      assert s[0] in Elements(s);
    }
  }

  // Two sequences ascending in the same key with the same members are equal.
  lemma {:induction false} SameOrder(key: Resource -> nat, s: seq<Resource>, t: seq<Resource>)
    requires Ascending(key, s) && Ascending(key, t) && Elements(s) == Elements(t)
    ensures s == t
  {
    if s == [] || t == [] {
      NoElements(s);
      NoElements(t);
    } else {
      assert s[0] in Elements(t);
      assert t[0] in Elements(s);
      FirstIsLeast(key, s, t[0]);
      FirstIsLeast(key, t, s[0]);
      RestOf(key, s);
      RestOf(key, t);
      SameOrder(key, s[1..], t[1..]);
      assert s == [s[0]] + s[1..] && t == [t[0]] + t[1..];
    }
  }

  lemma FirstIsLeast(key: Resource -> nat, s: seq<Resource>, r: Resource)
    requires Ascending(key, s) && r in s
    ensures s[0] == r || key(s[0]) < key(r)
  {
  }

  lemma RestOf(key: Resource -> nat, s: seq<Resource>)
    requires Ascending(key, s) && s != []
    ensures Ascending(key, s[1..]) && Elements(s[1..]) == Elements(s) - {s[0]}
  {
    assert s == [s[0]] + s[1..];
    AscendingNoRepeats(key, s);
  }

  // ---------------------------------------------------------------- partway

  // Probe has passed the rungs below i, having taken `taken`.
  ghost predicate ClimbedTo(a: Answers, minorFree: bool, taken: seq<Resource>, i: nat)
  {
    && Taken(a, minorFree) == taken + Climb(a, minorFree, i).0
    && (Succeeds(a, minorFree) <==> Climb(a, minorFree, i).1)
    && (forall r | r in taken :: Up(r) < i)
  }

  lemma AtTheBottom(a: Answers, minorFree: bool)
    ensures ClimbedTo(a, minorFree, [], 0)
  {
    assert [] + Taken(a, minorFree) == Taken(a, minorFree);
  }

  lemma ClimbStep(a: Answers, minorFree: bool, i: nat)
    requires i < RUNGS
    ensures var rung, rest := RungAt(a, minorFree, i), Climb(a, minorFree, i + 1);
            Climb(a, minorFree, i)
            == if !rung.ok && !rung.optional then ([], false)
               else if rung.ok && rung.r.Some? then ([rung.r.value] + rest.0, rest.1)
               else rest
  {
    hide RungAt;
  }

  lemma Regroup(s: seq<Resource>, r: Resource, t: seq<Resource>)
    ensures s + ([r] + t) == (s + [r]) + t
    ensures s + [] == s
  {
  }

  // What one more rung does: a granted request, a request not granted that probe can do
  // without, or the end of the climb.
  lemma RungTaken(a: Answers, minorFree: bool, taken: seq<Resource>, i: nat, r: Resource)
    requires i < RUNGS && ClimbedTo(a, minorFree, taken, i)
    requires RungAt(a, minorFree, i).ok && RungAt(a, minorFree, i).r == Some(r)
    ensures ClimbedTo(a, minorFree, taken + [r], i + 1)
  {
    hide RungAt, Up, Taken, Succeeds, Climb;
    RungPlace(a, minorFree, i);
    ClimbStep(a, minorFree, i);
    Regroup(taken, r, Climb(a, minorFree, i + 1).0);
  }

  lemma RungPassed(a: Answers, minorFree: bool, taken: seq<Resource>, i: nat)
    requires i < RUNGS && ClimbedTo(a, minorFree, taken, i)
    requires var rung := RungAt(a, minorFree, i); if rung.ok then rung.r.None? else rung.optional
    ensures ClimbedTo(a, minorFree, taken, i + 1)
  {
    hide RungAt, Up, Taken, Succeeds, Climb;
    ClimbStep(a, minorFree, i);
  }

  lemma RungRefused(a: Answers, minorFree: bool, taken: seq<Resource>, i: nat)
    requires i < RUNGS && ClimbedTo(a, minorFree, taken, i)
    requires !RungAt(a, minorFree, i).ok && !RungAt(a, minorFree, i).optional
    ensures taken == Taken(a, minorFree) && !Succeeds(a, minorFree)
  {
    hide RungAt, Up, Taken, Succeeds, Climb;
    ClimbStep(a, minorFree, i);
    assert taken + [] == taken;
  }

  lemma AtTheTop(a: Answers, minorFree: bool, taken: seq<Resource>)
    requires ClimbedTo(a, minorFree, taken, RUNGS)
    ensures taken == Taken(a, minorFree) && Succeeds(a, minorFree)
  {
    hide Taken, Succeeds;
    assert taken + [] == taken;
  }

  // The way down has passed the labels before j, having given back `given`.
  ghost predicate DescendedTo(held: set<Resource>, given: seq<Resource>, j: nat)
  {
    Unwind(held) == given + Cleanup(held, j)
  }

  // A jump to label j is the whole way down when nothing above it is held.
  lemma {:induction false} JumpTo(held: set<Resource>, j: nat)
    requires j <= LABELS && forall r | r in held :: j <= Down(r)
    ensures DescendedTo(held, [], j)
  {
    if j > 0 {
      JumpTo(held, j - 1);
      DescentPlace(j - 1);
    }
    assert [] + Cleanup(held, j) == Cleanup(held, j);
  }

  lemma CleanupStep(held: set<Resource>, j: nat)
    requires j < LABELS
    ensures Cleanup(held, j)
         == if Descent(j) in held then [Descent(j)] + Cleanup(held, j + 1) else Cleanup(held, j + 1)
  {
    hide Descent;
    assert [] + Cleanup(held, j + 1) == Cleanup(held, j + 1);
  }

  lemma NextLabel(held: set<Resource>, given: seq<Resource>, j: nat)
    requires j < LABELS && DescendedTo(held, given, j)
    ensures DescendedTo(held, if Descent(j) in held then given + [Descent(j)] else given, j + 1)
  {
    CleanupStep(held, j);
    hide Descent, Unwind, Cleanup;
    Regroup(given, Descent(j), Cleanup(held, j + 1));
  }

  lemma AtTheEnd(held: set<Resource>, given: seq<Resource>)
    requires DescendedTo(held, given, LABELS)
    ensures given == Unwind(held)
  {
    assert given + [] == given;
  }

  // ---------------------------------------------------------------- the order of release

  // The probe gets as far as BAR1, the device has one and it is mapped.
  predicate MapsBar1(a: Answers)
  {
    a.memory && a.enable && a.regions && a.bar0 && a.bar1Present && a.bar1
  }

  lemma TakesBar1(a: Answers, minorFree: bool)
    ensures Bar1 in Taken(a, minorFree) <==> MapsBar1(a)
  {
    hide Taken, Succeeds, Climb, ClimbedTo;
    AtTheBottom(a, minorFree);
    var four := [Memory, Enabled, Regions, Bar0];
    assert four[..0] == [];
    if !a.memory { RungRefused(a, minorFree, four[..0], 0); return; }
    RungTaken(a, minorFree, four[..0], 0, Memory);
    assert four[..0] + [Memory] == four[..1];
    if !a.enable { RungRefused(a, minorFree, four[..1], 1); return; }
    RungTaken(a, minorFree, four[..1], 1, Enabled);
    assert four[..1] + [Enabled] == four[..2];
    if !a.regions { RungRefused(a, minorFree, four[..2], 2); return; }
    RungTaken(a, minorFree, four[..2], 2, Regions);
    assert four[..2] + [Regions] == four[..3];
    if !a.bar0 { RungRefused(a, minorFree, four[..3], 3); return; }
    RungTaken(a, minorFree, four[..3], 3, Bar0);
    assert four[..3] + [Bar0] == four;
    if MapsBar1(a) {
      RungTaken(a, minorFree, four, 4, Bar1);
      AboveBar1(a, minorFree, four + [Bar1]);
    } else {
      RungPassed(a, minorFree, four, 4);
      AboveBar1(a, minorFree, four);
    }
  }

  lemma AboveBar1(a: Answers, minorFree: bool, taken: seq<Resource>)
    requires ClimbedTo(a, minorFree, taken, 5)
    ensures Bar1 in Taken(a, minorFree) <==> Bar1 in taken
  {
    hide Climb, Taken, Succeeds, Ascending;
    ClimbAscends(a, minorFree, 5);
  }

  // The resources come back in the exact reverse of the order they were taken precisely
  // when BAR1 was not mapped: both paths unmap BAR0 before BAR1.
  lemma ReverseOrderIff(a: Answers, minorFree: bool)
    ensures var taken := Taken(a, minorFree);
            Unwind(Elements(taken)) == Reverse(taken) <==> !MapsBar1(a)
  {
    var taken := Taken(a, minorFree);
    assert Bar1 in taken <==> MapsBar1(a) by { TakesBar1(a, minorFree); }
    hide Taken, Unwind, Ascending, NoRepeats, Succeeds, MapsBar1;
    var down := Unwind(Elements(taken));
    TakenFacts(a, minorFree);
    UnwindFacts(Elements(taken));
    if Bar1 in taken {
      BarsOutOfOrder(taken, down);
    } else {
      BackDescends(taken);
      ReverseMembers(taken);
      assert Elements(down) == Elements(Reverse(taken));
      SameOrder(Down, down, Reverse(taken));
    }
  }

  lemma BarsOutOfOrder(taken: seq<Resource>, down: seq<Resource>)
    requires Ascending(Up, taken) && Bar0 in taken && Bar1 in taken && Ascending(Down, down)
    ensures down != Reverse(taken)
  {
    var p :| 0 <= p < |taken| && taken[p] == Bar0;
    var q :| 0 <= q < |taken| && taken[q] == Bar1;
    var n := |taken| - 1;
    assert Reverse(taken)[n - q] == Bar1 && Reverse(taken)[n - p] == Bar0 && n - q < n - p;
    assert |down| == |taken| && down[n - q] == Bar1 ==> down[n - p] != Bar0;
  }

  lemma BackDescends(taken: seq<Resource>)
    requires Ascending(Up, taken) && Bar1 !in taken
    ensures Ascending(Down, Reverse(taken))
  {
    var back, n := Reverse(taken), |taken| - 1;
    forall i, j | 0 <= i < j < |back| ensures Down(back[i]) < Down(back[j]) {
      assert back[i] == taken[n - i] && back[j] == taken[n - j];
      assert Up(taken[n - j]) < Up(taken[n - i]);
      assert taken[n - i] in taken && taken[n - j] in taken;
    }
  }

  lemma ReverseMembers(s: seq<Resource>)
    ensures forall r :: r in Reverse(s) <==> r in s
  {
    forall r | r in s ensures r in Reverse(s) {
      var i :| 0 <= i < |s| && s[i] == r;
      assert Reverse(s)[|s| - 1 - i] == r;
    }
  }

}
