// The requests and releases of one probe and of remove, written out.
module PcieTraces {
  import opened Common
  import opened PcieSpec

  // The order of the requests, and the order in which labels and remove give back.
  const REQUESTED: seq<Resource> := [Memory, Enabled, Regions, Bar0, Bar1, Dma, Irq, Minor, Cdev, Node]
  const RETURNED: seq<Resource> := [Node, Cdev, Minor, Irq, Dma, Bar0, Bar1, Regions, Enabled, Memory]

  // What remains of a list when only the members of a set are kept.
  function Keep(rs: seq<Resource>, kept: set<Resource>): seq<Resource>
  {
    if rs == [] then [] else (if rs[0] in kept then [rs[0]] else []) + Keep(rs[1..], kept)
  }

  // The device is enabled, its regions are its own and BAR0 is mapped.
  predicate Mapped(a: Answers)
  {
    a.memory && a.enable && a.regions && a.bar0
  }

  // What a probe gets: a request is made only after all mandatory ones before it were
  // granted; the mask for DMA is mandatory but takes nothing.
  predicate Gets(a: Answers, minorFree: bool, r: Resource)
  {
    match r
    case Memory => a.memory
    case Enabled => a.memory && a.enable
    case Regions => a.memory && a.enable && a.regions
    case Bar0 => Mapped(a)
    case Bar1 => Mapped(a) && a.bar1Present && a.bar1
    case Dma => Mapped(a) && a.dmaMask && (a.dmaCoherent || a.dmaFallback)
    case Irq => Mapped(a) && a.dmaMask && a.irq
    case Minor => Mapped(a) && a.dmaMask && a.irq && minorFree
    case Cdev => Mapped(a) && a.dmaMask && a.irq && minorFree && a.cdev
    case Node => Mapped(a) && a.dmaMask && a.irq && minorFree && a.cdev && a.node
  }

  function AllResources(): (s: set<Resource>)
  {
    {Memory, Enabled, Regions, Bar0, Bar1, Dma, Irq, Minor, Cdev, Node}
  }

  lemma AllThere()
    ensures forall r: Resource :: r in AllResources()
  {
    forall r: Resource ensures r in AllResources() {
      match r case Memory => case Enabled => case Regions => case Bar0 => case Bar1 =>
        case Dma => case Irq => case Minor => case Cdev => case Node =>
    }
  }

  function Got(a: Answers, minorFree: bool): (s: set<Resource>)
    ensures forall r :: r in s <==> Gets(a, minorFree, r)
  {
    AllThere();
    set r | r in AllResources() && Gets(a, minorFree, r)
  }

  // Every rung from i up to, but not including, the n-th lets the probe go on.
  predicate PassTo(a: Answers, minorFree: bool, i: nat, n: nat)
  {
    forall k | i <= k < n && k < RUNGS :: RungAt(a, minorFree, k).ok || RungAt(a, minorFree, k).optional
  }

  lemma {:induction false} ClimbTakes(a: Answers, minorFree: bool, i: nat, r: Resource)
    requires Up(r) < RUNGS
    ensures r in Climb(a, minorFree, i).0
       <==> i <= Up(r) && RungAt(a, minorFree, Up(r)).ok && PassTo(a, minorFree, i, Up(r))
    decreases RUNGS - i
  {
    hide RungAt, Up, Climb;
    if i < RUNGS {
      ClimbStep(a, minorFree, i);
      RungPlace(a, minorFree, i);
      ClimbTakes(a, minorFree, i + 1, r);
    } else {
      ClimbEnd(a, minorFree, i);
    }
  }

  lemma TakenIff(a: Answers, minorFree: bool, r: Resource)
    ensures r in Taken(a, minorFree) <==> Gets(a, minorFree, r)
  {
    ClimbTakes(a, minorFree, 0, r);
    hide Climb;
    PassesIff(a, minorFree, Up(r));
  }

  // The answers below rung n, one by one.
  lemma PassesIff(a: Answers, minorFree: bool, n: nat)
    requires n < RUNGS
    ensures PassTo(a, minorFree, 0, n)
       <==> && (0 < n ==> a.memory) && (1 < n ==> a.enable) && (2 < n ==> a.regions) && (3 < n ==> a.bar0)
            && (5 < n ==> a.dmaMask) && (7 < n ==> a.irq) && (8 < n ==> minorFree) && (9 < n ==> a.cdev)
  {
    var least := if !a.memory then 0 else if !a.enable then 1 else if !a.regions then 2
      else if !a.bar0 then 3 else if !a.dmaMask then 5 else if !a.irq then 7
      else if !minorFree then 8 else if !a.cdev then 9 else 10;
    assert least < 10 ==> !RungAt(a, minorFree, least).ok && !RungAt(a, minorFree, least).optional;
  }

  lemma {:induction false} KeepAscends(key: Resource -> nat, rs: seq<Resource>, kept: set<Resource>)
    requires Ascending(key, rs)
    ensures Ascending(key, Keep(rs, kept))
    ensures forall r :: r in Keep(rs, kept) <==> r in rs && r in kept
  {
    if rs != [] {
      RestOf(key, rs);
      KeepAscends(key, rs[1..], kept);
      var rest := Keep(rs[1..], kept);
      assert forall r :: r in rs <==> r == rs[0] || r in rs[1..];
      forall e | e in rest ensures key(rs[0]) + 1 <= key(e) {
        FirstIsLeast(key, rs, e);
        AscendingNoRepeats(key, rs);
      }
      PrependAscends(key, Some(rs[0]), rest, key(rs[0]));
    }
  }

  lemma EveryResource(r: Resource)
    ensures r in REQUESTED && r in RETURNED
  {
    assert REQUESTED[0] == Memory && REQUESTED[1] == Enabled && REQUESTED[2] == Regions && REQUESTED[3] == Bar0;
    assert REQUESTED[4] == Bar1 && REQUESTED[5] == Dma && REQUESTED[6] == Irq && REQUESTED[7] == Minor;
    assert REQUESTED[8] == Cdev && REQUESTED[9] == Node;
    assert forall i | 0 <= i < 10 :: REQUESTED[i] in RETURNED;
  }

  lemma ListsAscend()
    ensures Ascending(Up, REQUESTED) && Ascending(Down, RETURNED)
  {
  }

  // A probe makes its requests in the listed order and takes exactly what it gets.
  lemma TakenInOrder(a: Answers, minorFree: bool)
    ensures Taken(a, minorFree) == Keep(REQUESTED, Got(a, minorFree))
  {
    hide Taken, Keep, Gets, Up, Ascending, NoRepeats;
    ListsAscend();
    KeepAscends(Up, REQUESTED, Got(a, minorFree));
    TakenFacts(a, minorFree);
    var taken, kept := Taken(a, minorFree), Keep(REQUESTED, Got(a, minorFree));
    forall r ensures r in taken <==> r in kept {
      TakenIff(a, minorFree, r);
      EveryResource(r);
    }
    assert Elements(taken) == Elements(kept);
    SameOrder(Up, taken, kept);
  }

  // What is held comes back in the listed order.
  lemma UnwindInOrder(held: set<Resource>)
    ensures Unwind(held) == Keep(RETURNED, held)
  {
    hide Unwind, Keep, Down, Ascending, NoRepeats;
    ListsAscend();
    KeepAscends(Down, RETURNED, held);
    UnwindFacts(held);
    var given, kept := Unwind(held), Keep(RETURNED, held);
    forall r ensures r in given <==> r in kept {
      EveryResource(r);
      assert r in given <==> r in Elements(given);
    }
    assert Elements(given) == Elements(kept);
    SameOrder(Down, given, kept);
  }

  // One whole probe: what it gets, in the listed order, and unless everything mandatory
  // was granted all of it back in the other.
  lemma ProbeInOrder(a: Answers, minorFree: bool)
    ensures var got := Got(a, minorFree);
            ProbeTrace(a, minorFree)
            == Acquires(Keep(REQUESTED, got))
               + if Node in got then [] else Releases(Keep(RETURNED, got))
  {
    hide Taken, Succeeds, Unwind, Keep, Acquires, Releases, Elements;
    var taken, got := Taken(a, minorFree), Got(a, minorFree);
    TakenInOrder(a, minorFree);
    assert Elements(taken) == got by {
      forall r ensures r in Elements(taken) <==> r in got {
        TakenIff(a, minorFree, r);
        InElements(taken, r);
      }
    }
    UnwindInOrder(got);
    SucceedsIff(a, minorFree);
  }

  lemma InElements(rs: seq<Resource>, r: Resource)
    ensures r in Elements(rs) <==> r in rs
  {
  }

  // With every request granted: ten resources up, and ten down when the device goes.
  lemma FullLadder(a: Answers)
    requires a == Answers(true, true, true, true, true, true, true, true, true, true, true, true)
    ensures ProbeTrace(a, true) == Acquires(REQUESTED)
    ensures Unwind(AllResources()) == RETURNED
  {
    hide ProbeTrace, Acquires, Unwind, Gets;
    ProbeInOrder(a, true);
    GetsAll(a);
    KeepAll(REQUESTED, Got(a, true));
    AllThere();
    KeepAll(RETURNED, AllResources());
    UnwindInOrder(AllResources());
    var none: seq<Action> := [];
    assert Acquires(REQUESTED) + none == Acquires(REQUESTED);
  }

  lemma GetsAll(a: Answers)
    requires a == Answers(true, true, true, true, true, true, true, true, true, true, true, true)
    ensures forall r :: r in Got(a, true)
  {
  }

  lemma {:induction false} KeepAll(rs: seq<Resource>, kept: set<Resource>)
    requires forall r | r in rs :: r in kept
    ensures Keep(rs, kept) == rs
  {
    if rs != [] { KeepAll(rs[1..], kept); }
  }
}
