// Any run of device probes and removals: which minors are taken, which devices are live,
// and what each of them holds.
module PcieRuns {
  import opened Common
  import opened PcieSpec

  datatype Device = Device(minor: nat, held: set<Resource>)

  datatype Driver = Driver(minors: set<nat>, live: map<nat, Device>)

  // Devices are named by number. The PCI core probes a device only while it is unbound
  // and removes it only while it is bound; any other event does nothing.
  datatype Event = Probe(pdev: nat, a: Answers) | Remove(pdev: nat)

  function FirstZero(minors: set<nat>, max: nat, i: nat): (m: nat)
    requires i <= max
    ensures i <= m <= max
    ensures m < max ==> m !in minors
    ensures forall k: nat | i <= k < m :: k in minors
    decreases max - i
  {
    if i == max || i !in minors then i else FirstZero(minors, max, i + 1)
  }

  // The minor the next probe would get, or max if there is none.
  function Lowest(minors: set<nat>, max: nat): (m: nat)
    ensures m <= max
    ensures m < max ==> m !in minors
    ensures forall k: nat | k < m :: k in minors
  {
    FirstZero(minors, max, 0)
  }

  function Step(s: Driver, e: Event, max: nat): Driver
  {
    match e
    case Probe(p, a) =>
      var m := Lowest(s.minors, max);
      if p in s.live || !Succeeds(a, m < max) then s
      else Driver(s.minors + {m}, s.live[p := Device(m, Elements(Taken(a, m < max)))])
    case Remove(p) =>
      if p !in s.live then s
      else Driver(s.minors - {s.live[p].minor}, s.live - {p})
  }

  // What an event acquires and releases on behalf of device p.
  function Done(s: Driver, e: Event, max: nat, p: nat): seq<Action>
  {
    if e.pdev != p then []
    else match e
      case Probe(_, a) =>
        if p in s.live then [] else ProbeTrace(a, Lowest(s.minors, max) < max)
      case Remove(_) =>
        if p !in s.live then [] else Releases(Unwind(s.live[p].held))
  }

  function Run(es: seq<Event>, max: nat): Driver
  {
    if es == [] then Driver({}, map[])
    else Step(Run(es[..|es| - 1], max), es[|es| - 1], max)
  }

  function Ledger(es: seq<Event>, max: nat, p: nat): seq<Action>
  {
    if es == [] then []
    else
      var before := es[..|es| - 1];
      Ledger(before, max, p) + Done(Run(before, max), es[|es| - 1], max, p)
  }

  function MinorsOf(live: map<nat, Device>): set<nat>
  {
    set p | p in live :: live[p].minor
  }

  ghost predicate Valid(s: Driver, max: nat)
  {
    && s.minors == MinorsOf(s.live)
    && (forall p | p in s.live :: s.live[p].minor < max && MANDATORY <= s.live[p].held)
    && (forall p, q | p in s.live && q in s.live && p != q :: s.live[p].minor != s.live[q].minor)
  }

  lemma StepKeepsValid(s: Driver, e: Event, max: nat)
    requires Valid(s, max)
    ensures Valid(Step(s, e, max), max)
  {
    hide Succeeds, Taken, Elements;
    var t := Step(s, e, max);
    match e
    case Probe(p, a) =>
      var m := Lowest(s.minors, max);
      SucceedsIff(a, m < max);
      if t != s {
        assert m !in MinorsOf(s.live);
        assert t.live == s.live[p := t.live[p]];
        forall k ensures k in MinorsOf(t.live) <==> k in s.minors + {m} {
          if k in s.minors {
            var q :| q in s.live && s.live[q].minor == k;
            assert t.live[q].minor == k;
          } else if k == m {
            assert t.live[p].minor == k;
          }
        }
      }
    case Remove(p) =>
      if p in s.live {
        forall k ensures k in MinorsOf(t.live) <==> k in s.minors - {s.live[p].minor} {
          if k in s.minors - {s.live[p].minor} {
            var q :| q in s.live && s.live[q].minor == k;
            assert t.live[q].minor == k;
          }
        }
      }
  }

  lemma EmptyIsValid(max: nat)
    ensures Valid(Driver({}, map[]), max)
  {
    assert MinorsOf(map[]) == {};
  }

  function Below(n: nat): (r: set<nat>)
    ensures |r| == n && forall k: nat :: k in r <==> k < n
  {
    if n == 0 then {} else Below(n - 1) + {n - 1}
  }

  lemma SubsetSize(s: set<nat>, t: set<nat>)
    requires s <= t
    ensures |s| <= |t| && (|s| == |t| ==> s == t)
  {
    assert t == s + (t - s);
  }

  // There are as many minors as devices, and a minor is free unless all are taken.
  lemma MinorCount(s: Driver, max: nat)
    requires Valid(s, max)
    ensures |s.minors| == |s.live| <= max
    ensures Lowest(s.minors, max) < max <==> |s.live| < max
  {
    var all := Below(max);
    SubsetSize(s.minors, all);
    DistinctCount(s.live);
    var m := Lowest(s.minors, max);
    if m == max {
      assert all <= s.minors;
      assert all == s.minors;
    } else {
      assert m in all && m !in s.minors;
    }
  }

  lemma {:induction false} DistinctCount(live: map<nat, Device>)
    requires forall p, q | p in live && q in live && p != q :: live[p].minor != live[q].minor
    ensures |MinorsOf(live)| == |live|
    decreases |live|
  {
    if live == map[] {
      assert MinorsOf(live) == {};
    } else {
      var p :| p in live;
      WithoutOne(live, p);
      DistinctCount(live - {p});
    }
  }

  lemma WithoutOne(live: map<nat, Device>, p: nat)
    requires p in live
    requires forall q | q in live && q != p :: live[q].minor != live[p].minor
    ensures var rest := live - {p};
            && |rest| == |live| - 1
            && live[p].minor !in MinorsOf(rest)
            && MinorsOf(live) == MinorsOf(rest) + {live[p].minor}
  {
    var rest := live - {p};
    assert live.Keys == rest.Keys + {p};
    forall k | k in MinorsOf(live) && k != live[p].minor ensures k in MinorsOf(rest) {
      var q :| q in live && live[q].minor == k;
      assert rest[q].minor == k;
    }
  }

  // In every run the minor bitmap is exactly the set of live devices' minors, these are
  // pairwise distinct and below the limit, and a live device holds every mandatory resource.
  lemma {:induction false} RunIsValid(es: seq<Event>, max: nat)
    ensures Valid(Run(es, max), max)
    ensures |Run(es, max).minors| == |Run(es, max).live| <= max
  {
    hide Valid, Step;
    if es == [] {
      EmptyIsValid(max);
    } else {
      RunIsValid(es[..|es| - 1], max);
      StepKeepsValid(Run(es[..|es| - 1], max), es[|es| - 1], max);
    }
    MinorCount(Run(es, max), max);
  }

  // In every run, replaying all that was acquired and released for a device, over any
  // number of failed probes, successful probes and removals, never takes a resource twice
  // or gives back one not held, and leaves exactly what the driver records for it:
  // nothing while the device is not live.
  lemma {:induction false} LedgerBalances(es: seq<Event>, max: nat, p: nat)
    ensures var s := Run(es, max);
            Held(Ledger(es, max, p)) == Some(if p in s.live then s.live[p].held else {})
  {
    hide Succeeds, Taken, Elements, Held, ProbeTrace, Releases, Unwind;
    if es == [] {
      HeldEmpty();
    } else {
      var before, e := es[..|es| - 1], es[|es| - 1];
      var s, past := Run(before, max), Ledger(before, max, p);
      LedgerBalances(before, max, p);
      assert Ledger(es, max, p) == past + Done(s, e, max, p);
      StepBalances(past, s, e, max, p);
    }
  }

  lemma HeldEmpty()
    ensures Held([]) == Some({})
  {
  }

  lemma StepBalances(past: seq<Action>, s: Driver, e: Event, max: nat, p: nat)
    requires Held(past) == Some(if p in s.live then s.live[p].held else {})
    ensures var t := Step(s, e, max);
            Held(past + Done(s, e, max, p)) == Some(if p in t.live then t.live[p].held else {})
  {
    hide Succeeds, Taken, Elements, Held, ProbeTrace, Releases, Unwind;
    if Done(s, e, max, p) == [] {
      assert past + [] == past;
    }
    if e.pdev == p {
      match e
      case Probe(_, a) =>
        if p !in s.live { ProbeBalances(past, a, Lowest(s.minors, max) < max); }
      case Remove(_) =>
        if p in s.live { RemoveBalances(past, s.live[p].held); }
    }
  }

  // A probe succeeds exactly when every mandatory request is granted and fewer devices
  // than the limit are live; the device then gets the least minor no live device has.
  lemma ProbeSucceedsIff(es: seq<Event>, max: nat, p: nat, a: Answers)
    requires p !in Run(es, max).live
    ensures var s := Run(es, max);
            var t := Step(s, Probe(p, a), max);
            && (p in t.live <==> AllGranted(a) && |s.live| < max)
            && (p !in t.live ==> t == s)
            && (p in t.live ==> t.live[p].minor !in s.minors)
            && (p in t.live ==> forall k: nat | k < t.live[p].minor :: k in s.minors)
  {
    hide Succeeds, Taken, Elements, Run;
    var s := Run(es, max);
    RunIsValid(es, max);
    MinorCount(s, max);
    SucceedsIff(a, Lowest(s.minors, max) < max);
  }

  // Removing a device right after probing it restores the driver state, whether or not
  // the probe succeeded.
  lemma ProbeThenRemove(s: Driver, max: nat, p: nat, a: Answers)
    requires p !in s.live
    ensures Step(Step(s, Probe(p, a), max), Remove(p), max) == s
  {
    hide Succeeds, Taken, Elements;
    var t := Step(s, Probe(p, a), max);
    if p in t.live {
      var m := Lowest(s.minors, max);
      assert t.live - {p} == s.live;
      assert m < max by { SucceedsIff(a, m < max); }
      assert s.minors + {m} - {m} == s.minors;
    }
  }
}
