// What a list of either kind is for its callers: a sequence with positional
// operations.  Statuses are the C return values.
module ListSpec {
  import opened Common

  // One malloc for the node and one for its data block; either may fail.
  datatype Alloc = Alloc(nodeOk: bool, dataOk: bool)
  {
    predicate Ok() { nodeOk && dataOk }
  }

  datatype Op<T> =
    | InsertAt(index: nat, x: T, alloc: Alloc)
    | Append(x: T, alloc: Alloc)
    | Prepend(x: T, alloc: Alloc)
    | RemoveAt(index: nat)
    | GetAt(index: nat)
    | Clear

  datatype Out<T> = Out(status: int, data: Option<T>)

  function Splice<T>(s: seq<T>, index: nat, x: T): seq<T>
    requires index <= |s|
  {
    s[..index] + [x] + s[index..]
  }

  function Without<T>(s: seq<T>, index: nat): seq<T>
    requires index < |s|
  {
    s[..index] + s[index + 1..]
  }

  function Apply<T>(s: seq<T>, op: Op<T>): (seq<T>, Out<T>)
  {
    match op
    case InsertAt(index, x, alloc) =>
      if index <= |s| && alloc.Ok() then (Splice(s, index, x), Out(0, None)) else (s, Out(-1, None))
    case Append(x, alloc) => if alloc.Ok() then (s + [x], Out(0, None)) else (s, Out(-1, None))
    case Prepend(x, alloc) => if alloc.Ok() then ([x] + s, Out(0, None)) else (s, Out(-1, None))
    case RemoveAt(index) =>
      if index < |s| then (Without(s, index), Out(0, Some(s[index]))) else (s, Out(-1, None))
    case GetAt(index) =>
      if index < |s| then (s, Out(0, Some(s[index]))) else (s, Out(-1, None))
    case Clear => ([], Out(0, None))
  }

  // Final contents and the answers given along the way.
  function Run<T>(s: seq<T>, ops: seq<Op<T>>): (r: (seq<T>, seq<Out<T>>))
    ensures |r.1| == |ops|
  {
    if ops == [] then (s, [])
    else
      var (before, outs) := Run(s, ops[..|ops| - 1]);
      var (after, last) := Apply(before, ops[|ops| - 1]);
      (after, outs + [last])
  }

  // ---------------------------------------------------------------- element by element

  // `after` is `before` with x put in at the index: what stood before it stays, what
  // stood from there on moves up by one.
  ghost predicate InsertedAt<T>(before: seq<T>, index: nat, x: T, after: seq<T>)
  {
    && index <= |before| && |after| == |before| + 1 && after[index] == x
    && (forall i | 0 <= i < index :: after[i] == before[i])
    && (forall i | index < i < |after| :: after[i] == before[i - 1])
  }

  // `after` is `before` with the element at the index taken out: what stood before it
  // stays, what stood behind it moves down by one.
  ghost predicate RemovedAt<T>(before: seq<T>, index: nat, after: seq<T>)
  {
    && index < |before| && |after| == |before| - 1
    && (forall i | 0 <= i < index :: after[i] == before[i])
    && (forall i | index <= i < |after| :: after[i] == before[i + 1])
  }

  // What each call answers and leaves behind, said of the elements.
  ghost predicate Does<T>(before: seq<T>, op: Op<T>, after: seq<T>, out: Out<T>)
  {
    match op
    case InsertAt(index, x, alloc) =>
      if index <= |before| && alloc.nodeOk && alloc.dataOk
      then out == Out(0, None) && InsertedAt(before, index, x, after)
      else out == Out(-1, None) && after == before
    case Append(x, alloc) =>
      if alloc.nodeOk && alloc.dataOk then out == Out(0, None) && InsertedAt(before, |before|, x, after)
      else out == Out(-1, None) && after == before
    case Prepend(x, alloc) =>
      if alloc.nodeOk && alloc.dataOk then out == Out(0, None) && InsertedAt(before, 0, x, after)
      else out == Out(-1, None) && after == before
    case RemoveAt(index) =>
      if index < |before| then out == Out(0, Some(before[index])) && RemovedAt(before, index, after)
      else out == Out(-1, None) && after == before
    case GetAt(index) =>
      after == before && out == if index < |before| then Out(0, Some(before[index])) else Out(-1, None)
    case Clear => after == [] && out == Out(0, None)
  }

  // That says all there is to say of a call.
  lemma DoesIff<T>(before: seq<T>, op: Op<T>, after: seq<T>, out: Out<T>)
    ensures Does(before, op, after, out) <==> (after, out) == Apply(before, op)
  {
    if Does(before, op, after, out) {
      assert after == Apply(before, op).0;
    }
  }

  // Round trips over every list: what is inserted at an index is found there and comes
  // out from there, leaving the list as it was; and what is taken out can be put back.
  lemma RoundTrips<T>(s: seq<T>, index: nat, x: T, t: seq<T>, u: seq<T>)
    ensures InsertedAt(s, index, x, t) && RemovedAt(t, index, u) ==> t[index] == x && u == s
    ensures RemovedAt(s, index, t) && InsertedAt(t, index, s[index], u) ==> u == s
  {
    if RemovedAt(s, index, t) && InsertedAt(t, index, s[index], u) {
      forall i | 0 <= i < |s| ensures u[i] == s[i] {
        if i > index { assert t[i - 1] == s[i]; }
      }
    }
    if InsertedAt(s, index, x, t) && RemovedAt(t, index, u) {
      forall i | 0 <= i < |s| ensures u[i] == s[i] {
        if i >= index { assert t[i + 1] == s[i]; }
      }
    }
  }

  // A run leaves a trail of contents, one call apart.
  ghost predicate Follows<T>(trail: seq<seq<T>>, ops: seq<Op<T>>, outs: seq<Out<T>>)
  {
    && |trail| == |ops| + 1 && |outs| == |ops|
    && forall k | 0 <= k < |ops| :: Does(trail[k], ops[k], trail[k + 1], outs[k])
  }

  lemma {:induction false} RunFollows<T>(s: seq<T>, ops: seq<Op<T>>) returns (trail: seq<seq<T>>)
    ensures Follows(trail, ops, Run(s, ops).1) && trail[0] == s && trail[|ops|] == Run(s, ops).0
  {
    if ops == [] {
      trail := [s];
    } else {
      var before := RunFollows(s, ops[..|ops| - 1]);
      var (after, last) := Apply(Run(s, ops[..|ops| - 1]).0, ops[|ops| - 1]);
      DoesIff(before[|ops| - 1], ops[|ops| - 1], after, last);
      trail := before + [after];
      forall k | 0 <= k < |ops| ensures Does(trail[k], ops[k], trail[k + 1], Run(s, ops).1[k]) {
        if k < |ops| - 1 {
          assert Does(before[k], ops[..|ops| - 1][k], before[k + 1], Run(s, ops[..|ops| - 1]).1[k]);
        }
      }
    }
  }

  ghost predicate Distinct<T>(s: seq<T>)
  {
    forall i, j | 0 <= i < j < |s| :: s[i] != s[j]
  }

  lemma DistinctAt<T>(s: seq<T>, k: nat)
    requires Distinct(s) && k < |s|
    ensures forall i | 0 <= i < |s| && i != k :: s[i] != s[k]
  {
  }

  lemma DistinctPrepend<T>(x: T, s: seq<T>)
    requires Distinct(s) && x !in s
    ensures Distinct([x] + s)
  {
  }

  lemma SpliceItems<T>(s: seq<T>, index: nat, x: T)
    requires index <= |s|
    ensures var t := Splice(s, index, x);
            && |t| == |s| + 1 && t[index] == x
            && (forall i | 0 <= i < index :: t[i] == s[i])
            && (forall i | index < i < |t| :: t[i] == s[i - 1])
            && (forall y :: y in t ==> y in s || y == x)
            && (Distinct(s) && x !in s ==> Distinct(t))
  {
  }

  lemma WithoutItems<T>(s: seq<T>, index: nat)
    requires index < |s|
    ensures var t := Without(s, index);
            && |t| == |s| - 1
            && (forall i | 0 <= i < index :: t[i] == s[i])
            && (forall i | index <= i < |t| :: t[i] == s[i + 1])
            && (forall y :: y in t ==> y in s)
            && (Distinct(s) ==> Distinct(t))
  {
  }
}
