// The growable circular queue.  QueueSpec says what each call does to the queue as a
// caller sees it; Queue is the buffer with its four indices, updated in place.
module QueueSpec {
  import opened Common

  // Which test `grow` uses to pick between the straight copy and the split copy:
  // the shipped `front <= rear`, or one that asks whether the contents wrap.
  datatype Guard = Shipped | Wrapping

  // Live elements in order, plus the indices a caller can infer.  `copied` counts the
  // elements moved by all growths, `accepted` and `removed` keep the history.
  datatype State<T> = State(
    contents: seq<T>, front: nat, capacity: nat, initial: nat,
    copied: nat, accepted: seq<T>, removed: seq<T>)
  {
    predicate Valid()
    {
      0 < initial <= capacity && front < capacity && |contents| <= capacity
    }
  }

  // Contents after a straight copy of `length` elements starting at front: what lies
  // past the end of the old buffer takes the place of the wrapped part.
  function StraightCopy<T>(q: State<T>, past: seq<T>): (s: seq<T>)
    requires q.Valid() && |q.contents| == q.capacity <= |past|
    ensures |s| == |q.contents|
  {
    q.contents[..q.capacity - q.front] + past[..q.front]
  }

  function Grow<T>(guard: Guard, q: State<T>, past: seq<T>): (q': State<T>)
    requires q.Valid() && |q.contents| == q.capacity <= |past|
    ensures q'.Valid()
  {
    State(if guard == Shipped then StraightCopy(q, past) else q.contents,
          0, 2 * q.capacity, q.initial, q.copied + |q.contents|, q.accepted, q.removed)
  }

  datatype Op<T> =
    | Enqueue(x: T, memoryOk: bool, past: seq<T>)
    | Dequeue
    | Peek

  datatype Out<T> = Out(status: int, data: Option<T>)

  function Push<T>(q: State<T>, x: T): State<T>
  {
    q.(contents := q.contents + [x], accepted := q.accepted + [x])
  }

  function Apply<T>(guard: Guard, q: State<T>, op: Op<T>): (r: (State<T>, Out<T>))
    requires q.Valid() && (op.Enqueue? ==> q.capacity <= |op.past|)
    ensures r.0.Valid()
  {
    match op
    case Enqueue(x, memoryOk, past) =>
      if |q.contents| < q.capacity then (Push(q, x), Out(0, None))
      else if memoryOk then (Push(Grow(guard, q, past), x), Out(0, None))
      else (q, Out(-1, None))
    case Dequeue =>
      if q.contents == [] then (q, Out(-1, None))
      else (q.(contents := q.contents[1..],
               front := if q.front + 1 == q.capacity then 0 else q.front + 1,
               removed := q.removed + [q.contents[0]]),
            Out(0, Some(q.contents[0])))
    case Peek =>
      if q.contents == [] then (q, Out(-1, None)) else (q, Out(0, Some(q.contents[0])))
  }

  function New<T>(capacity: nat): (q: State<T>)
    ensures q.Valid()
  {
    var c := if capacity == 0 then 16 else capacity;
    State([], 0, c, c, 0, [], [])
  }

  // A run in which every call is given enough of the memory past the buffer to describe
  // what a straight copy might read.
  ghost predicate Described<T>(guard: Guard, q: State<T>, ops: seq<Op<T>>)
    requires q.Valid()
    decreases |ops|
  {
    ops == [] ||
    ((ops[0].Enqueue? ==> q.capacity <= |ops[0].past|) && Described(guard, Apply(guard, q, ops[0]).0, ops[1..]))
  }

  ghost function Run<T>(guard: Guard, q: State<T>, ops: seq<Op<T>>): (q': State<T>)
    requires q.Valid() && Described(guard, q, ops)
    ensures q'.Valid()
    decreases |ops|
  {
    if ops == [] then q else Run(guard, Apply(guard, q, ops[0]).0, ops[1..])
  }

  // What the calls of a run answer.
  ghost function Answers<T>(guard: Guard, q: State<T>, ops: seq<Op<T>>): seq<Out<T>>
    requires q.Valid() && Described(guard, q, ops)
    decreases |ops|
  {
    if ops == [] then []
    else
      var (q', out) := Apply(guard, q, ops[0]);
      [out] + Answers(guard, q', ops[1..])
  }

  // ---------------------------------------------------------------- unbounded FIFO

  // Everything accepted comes out in the order it went in; the rest is still queued.
  ghost predicate Fifo<T>(q: State<T>)
  {
    q.accepted == q.removed + q.contents
  }

  // Growth happens only while the contents start at the beginning of the buffer.
  ghost predicate GrowsAtZero<T>(guard: Guard, q: State<T>, ops: seq<Op<T>>)
    requires q.Valid() && Described(guard, q, ops)
    decreases |ops|
  {
    ops == [] ||
    ((ops[0].Enqueue? && |q.contents| == q.capacity && ops[0].memoryOk ==> q.front == 0)
     && GrowsAtZero(guard, Apply(guard, q, ops[0]).0, ops[1..]))
  }

  lemma ApplyFifo<T>(guard: Guard, q: State<T>, op: Op<T>)
    requires q.Valid() && (op.Enqueue? ==> q.capacity <= |op.past|) && Fifo(q)
    requires guard == Shipped && op.Enqueue? && |q.contents| == q.capacity && op.memoryOk ==> q.front == 0
    ensures Fifo(Apply(guard, q, op).0)
  {
    if op.Enqueue? && |q.contents| == q.capacity && guard == Shipped && q.front == 0 {
      assert StraightCopy(q, op.past) == q.contents;
    }
    if op.Dequeue? && q.contents != [] {
      assert q.contents == [q.contents[0]] + q.contents[1..];
    }
  }

  // With a guard that asks whether the contents wrap, the queue is an unbounded FIFO over
  // every run; with the shipped guard it is one over the runs that grow only at front 0.
  lemma {:induction false} RunFifo<T>(guard: Guard, q: State<T>, ops: seq<Op<T>>)
    requires q.Valid() && Described(guard, q, ops) && Fifo(q)
    requires guard == Shipped ==> GrowsAtZero(guard, q, ops)
    ensures Fifo(Run(guard, q, ops))
    decreases |ops|
  {
    if ops != [] {
      ApplyFifo(guard, q, ops[0]);
      RunFifo(guard, Apply(guard, q, ops[0]).0, ops[1..]);
    }
  }

  // ---------------------------------------------------------------- answers

  // What was enqueued with status 0, in order.
  function In<T>(ops: seq<Op<T>>, outs: seq<Out<T>>): seq<T>
    requires |ops| == |outs|
  {
    if ops == [] then []
    else
      var n := |ops| - 1;
      In(ops[..n], outs[..n]) + if ops[n].Enqueue? && outs[n].status == 0 then [ops[n].x] else []
  }

  // What successful dequeues handed out, in order.
  function FromQueue<T>(ops: seq<Op<T>>, outs: seq<Out<T>>): seq<T>
    requires |ops| == |outs|
  {
    if ops == [] then []
    else
      var n := |ops| - 1;
      FromQueue(ops[..n], outs[..n])
      + if ops[n].Dequeue? && outs[n].status == 0 && outs[n].data.Some? then [outs[n].data.value] else []
  }

  // How many elements the buffer holds: twice as many after each accepted enqueue into a
  // full one.
  function Room<T>(initial: nat, ops: seq<Op<T>>, outs: seq<Out<T>>): nat
    requires |ops| == |outs|
  {
    if ops == [] then initial
    else
      var n := |ops| - 1;
      var room := Room(initial, ops[..n], outs[..n]);
      var waiting := |In(ops[..n], outs[..n])| - |FromQueue(ops[..n], outs[..n])|;
      if ops[n].Enqueue? && outs[n].status == 0 && waiting == room then 2 * room else room
  }

  // The k-th answer is the one a first-in first-out queue gives, in terms of the calls
  // and answers before it.
  ghost predicate AnswersRight<T>(initial: nat, ops: seq<Op<T>>, outs: seq<Out<T>>, k: nat)
    requires |ops| == |outs| && k < |ops|
  {
    var a, b := In(ops[..k], outs[..k]), FromQueue(ops[..k], outs[..k]);
    b <= a &&
    match ops[k]
    case Enqueue(_, memoryOk, _) =>
      outs[k] == Out(if |a| - |b| == Room(initial, ops[..k], outs[..k]) && !memoryOk then -1 else 0, None)
    case Dequeue => outs[k] == if |a| == |b| then Out(-1, None) else Out(0, Some(a[|b|]))
    case Peek => outs[k] == if |a| == |b| then Out(-1, None) else Out(0, Some(a[|b|]))
  }

  // A run answers like a first-in first-out queue throughout: in particular what it hands
  // out is at every point a prefix of what it accepted.
  ghost predicate FirstInFirstOut<T>(initial: nat, ops: seq<Op<T>>, outs: seq<Out<T>>)
  {
    && |ops| == |outs|
    && (forall k | 0 <= k < |ops| :: AnswersRight(initial, ops, outs, k))
    && FromQueue(ops, outs) <= In(ops, outs)
  }

  // The ghost history of the state is that of the calls and answers.
  ghost predicate Told<T>(q: State<T>, ops: seq<Op<T>>, outs: seq<Out<T>>, initial: nat)
  {
    && |ops| == |outs| && q.accepted == In(ops, outs) && q.removed == FromQueue(ops, outs)
    && q.capacity == Room(initial, ops, outs)
  }

  lemma InSnoc<T>(initial: nat, ops: seq<Op<T>>, outs: seq<Out<T>>, op: Op<T>, out: Out<T>)
    requires |ops| == |outs|
    ensures In(ops + [op], outs + [out]) == In(ops, outs) + if op.Enqueue? && out.status == 0 then [op.x] else []
    ensures FromQueue(ops + [op], outs + [out])
         == FromQueue(ops, outs) + if op.Dequeue? && out.status == 0 && out.data.Some? then [out.data.value] else []
    ensures Room(initial, ops + [op], outs + [out])
         == if op.Enqueue? && out.status == 0 && |In(ops, outs)| - |FromQueue(ops, outs)| == Room(initial, ops, outs)
            then 2 * Room(initial, ops, outs) else Room(initial, ops, outs)
  {
    assert (ops + [op])[..|ops|] == ops && (outs + [out])[..|outs|] == outs;
  }

  lemma ToldStep<T>(guard: Guard, q: State<T>, op: Op<T>, ops: seq<Op<T>>, outs: seq<Out<T>>, initial: nat)
    requires q.Valid() && (op.Enqueue? ==> q.capacity <= |op.past|) && Fifo(q) && Told(q, ops, outs, initial)
    ensures var (r, out) := Apply(guard, q, op);
            Told(r, ops + [op], outs + [out], initial) && AnswersRight(initial, ops + [op], outs + [out], |ops|)
  {
    hide In, FromQueue, Room;
    var out := Apply(guard, q, op).1;
    InSnoc(initial, ops, outs, op, out);
    assert (ops + [op])[..|ops|] == ops && (outs + [out])[..|outs|] == outs;
  }

  lemma AnswersRightPrefix<T>(initial: nat, ops: seq<Op<T>>, outs: seq<Out<T>>,
                              more: seq<Op<T>>, extra: seq<Out<T>>, k: nat)
    requires |ops| == |outs| && |more| == |extra| && k < |ops| && AnswersRight(initial, ops, outs, k)
    ensures AnswersRight(initial, ops + more, outs + extra, k)
  {
    hide In, FromQueue, Room;
    assert (ops + more)[..k] == ops[..k] && (outs + extra)[..k] == outs[..k];
  }

  lemma {:induction false} RunAnswers<T>(guard: Guard, q: State<T>, ops: seq<Op<T>>,
                                         past: seq<Op<T>>, told: seq<Out<T>>, initial: nat)
    requires q.Valid() && Described(guard, q, ops) && Fifo(q) && Told(q, past, told, initial)
    requires guard == Shipped ==> GrowsAtZero(guard, q, ops)
    requires forall k | 0 <= k < |past| :: AnswersRight(initial, past, told, k)
    ensures var outs := Answers(guard, q, ops);
            FirstInFirstOut(initial, past + ops, told + outs)
            && Told(Run(guard, q, ops), past + ops, told + outs, initial)
    decreases |ops|
  {
    hide In, FromQueue, Room, AnswersRight, Apply;
    if ops == [] {
      assert past + ops == past && told + [] == told;
    } else {
      var (r, out) := Apply(guard, q, ops[0]);
      ToldStep(guard, q, ops[0], past, told, initial);
      ApplyFifo(guard, q, ops[0]);
      forall k | 0 <= k < |past| ensures AnswersRight(initial, past + [ops[0]], told + [out], k) {
        AnswersRightPrefix(initial, past, told, [ops[0]], [out], k);
      }
      RunAnswers(guard, r, ops[1..], past + [ops[0]], told + [out], initial);
      var rest := Answers(guard, r, ops[1..]);
      assert past + [ops[0]] + ops[1..] == past + ops;
      assert told + [out] + rest == told + ([out] + rest);
    }
  }

  // From a new queue, every run that keeps the order answers like a first-in first-out
  // queue: dequeues hand out a prefix of what was accepted, in order; a dequeue or peek
  // fails exactly when everything accepted has been handed out, and a peek gives the next
  // element otherwise; an enqueue fails exactly when the buffer is full and no memory is
  // to be had.
  lemma NewQueueAnswers<T>(guard: Guard, capacity: nat, ops: seq<Op<T>>)
    requires Described(guard, New(capacity), ops)
    requires guard == Shipped ==> GrowsAtZero(guard, New(capacity), ops)
    ensures FirstInFirstOut(if capacity == 0 then 16 else capacity, ops, Answers(guard, New(capacity), ops))
  {
    var initial := if capacity == 0 then 16 else capacity;
    RunAnswers(guard, New(capacity), ops, [], [], initial);
    assert [] + ops == ops && [] + Answers(guard, New(capacity), ops) == Answers(guard, New(capacity), ops);
  }

  // The shipped test at the only moment it is evaluated: front and rear coincide on a full
  // buffer, so the split copy is never reached.
  lemma ShippedGuardAlwaysTrue<T>(q: State<T>, rear: nat)
    requires q.Valid() && |q.contents| == q.capacity && rear == (q.front + |q.contents|) % q.capacity
    ensures q.front == rear
  {
    assert (q.front + q.capacity) % q.capacity == q.front;
  }

  // The shipped growth keeps the contents, whatever lies past the buffer, exactly when
  // front is 0, which is also exactly when it reads nothing past the buffer.
  lemma ShippedGrowthRightIff<T>(q: State<T>, a: T, b: T)
    requires q.Valid() && |q.contents| == q.capacity && a != b
    ensures (forall past: seq<T> | q.capacity <= |past| :: Grow(Shipped, q, past).contents == q.contents)
            <==> q.front == 0
    ensures q.front + |q.contents| <= q.capacity <==> q.front == 0
  {
    if q.front == 0 {
      forall past: seq<T> | q.capacity <= |past| ensures Grow(Shipped, q, past).contents == q.contents {
        assert StraightCopy(q, past) == q.contents;
      }
    } else {
      var k := q.capacity - q.front;
      var past := seq(q.capacity, i => if q.contents[k] == a then b else a);
      assert StraightCopy(q, past)[k] == past[0] != q.contents[k];
      assert Grow(Shipped, q, past).contents != q.contents;
    }
  }

  // The same calls, whatever lies past the buffer during each.
  ghost predicate SameShape<T>(ops: seq<Op<T>>, others: seq<Op<T>>)
  {
    |ops| == |others| && forall i | 0 <= i < |ops| :: SameCall(ops[i], others[i])
  }

  predicate SameCall<T(==)>(op: Op<T>, other: Op<T>)
  {
    match op
    case Enqueue(x, memoryOk, _) => other.Enqueue? && other.x == x && other.memoryOk == memoryOk
    case Dequeue => other.Dequeue?
    case Peek => other.Peek?
  }

  // Equal as far as growth goes.
  predicate Alike<T>(q: State<T>, r: State<T>)
  {
    q.Valid() && r.Valid() && |q.contents| == |r.contents| && q.front == r.front && q.capacity == r.capacity
  }

  lemma {:induction false} GrowsAlike<T>(q: State<T>, r: State<T>, ops: seq<Op<T>>, others: seq<Op<T>>)
    requires Alike(q, r) && SameShape(ops, others) && Described(Shipped, q, ops) && Described(Shipped, r, others)
    ensures GrowsAtZero(Shipped, q, ops) <==> GrowsAtZero(Shipped, r, others)
    decreases |ops|
  {
    if ops != [] {
      assert SameCall(ops[0], others[0]);
      GrowsAlike(Apply(Shipped, q, ops[0]).0, Apply(Shipped, r, others[0]).0, ops[1..], others[1..]);
    }
  }

  // The calls with nothing but v past the buffer.
  function Filled<T>(ops: seq<Op<T>>, v: T): (others: seq<Op<T>>)
    ensures |others| == |ops|
  {
    seq(|ops|, i requires 0 <= i < |ops| =>
      if ops[i].Enqueue? then ops[i].(past := seq(|ops[i].past|, _ => v)) else ops[i])
  }

  lemma {:induction false} FilledDescribed<T>(q: State<T>, r: State<T>, ops: seq<Op<T>>, v: T)
    requires Alike(q, r) && Described(Shipped, q, ops)
    ensures SameShape(ops, Filled(ops, v)) && Described(Shipped, r, Filled(ops, v))
    decreases |ops|
  {
    if ops != [] {
      FilledDescribed(Apply(Shipped, q, ops[0]).0, Apply(Shipped, r, Filled(ops, v)[0]).0, ops[1..], v);
      assert Filled(ops, v)[1..] == Filled(ops[1..], v);
    }
  }

  // The j-th element accepted has been replaced by v.
  ghost predicate Wrong<T>(q: State<T>, j: nat, v: T)
  {
    |q.accepted| == |q.removed + q.contents| && j < |q.accepted| && (q.removed + q.contents)[j] == v != q.accepted[j]
  }

  lemma StaysWrongStep<T>(q: State<T>, op: Op<T>, j: nat, v: T)
    requires q.Valid() && Wrong(q, j, v)
    requires op.Enqueue? ==> q.capacity <= |op.past| && forall i | 0 <= i < |op.past| :: op.past[i] == v
    ensures Wrong(Apply(Shipped, q, op).0, j, v)
  {
  }

  lemma {:induction false} StaysWrong<T>(q: State<T>, ops: seq<Op<T>>, j: nat, v: T)
    requires q.Valid() && Described(Shipped, q, Filled(ops, v)) && Wrong(q, j, v)
    ensures Wrong(Run(Shipped, q, Filled(ops, v)), j, v)
    decreases |ops|
  {
    hide Apply, Wrong;
    if ops != [] {
      StaysWrongStep(q, Filled(ops, v)[0], j, v);
      assert Filled(ops, v)[1..] == Filled(ops[1..], v);
      StaysWrong(Apply(Shipped, q, Filled(ops, v)[0]).0, ops[1..], j, v);
    }
  }

  // A growth away from front 0 goes wrong at the first wrapped element.
  lemma GrowthGoesWrong<T>(q: State<T>, op: Op<T>, v: T)
    requires q.Valid() && Fifo(q) && op.Enqueue? && op.memoryOk && |q.contents| == q.capacity <= |op.past|
    requires 0 < q.front && v != q.contents[q.capacity - q.front] && op.past[0] == v
    ensures Wrong(Apply(Shipped, q, op).0, |q.removed| + q.capacity - q.front, v)
  {
    var k, q' := q.capacity - q.front, Apply(Shipped, q, op).0;
    assert StraightCopy(q, op.past)[k] == op.past[0];
    assert (q'.removed + q'.contents)[|q.removed| + k] == q'.contents[k];
    assert q'.accepted[|q.removed| + k] == (q.removed + q.contents)[|q.removed| + k] == q.contents[k];
  }

  lemma {:induction false} GoesWrong<T>(q: State<T>, ops: seq<Op<T>>, a: T, b: T) returns (others: seq<Op<T>>)
    requires q.Valid() && Described(Shipped, q, ops) && Fifo(q) && a != b && !GrowsAtZero(Shipped, q, ops)
    ensures SameShape(ops, others) && Described(Shipped, q, others) && !Fifo(Run(Shipped, q, others))
    decreases |ops|
  {
    var op := ops[0];
    if op.Enqueue? && |q.contents| == q.capacity && op.memoryOk && q.front != 0 {
      var k := q.capacity - q.front;
      var v := if q.contents[k] == a then b else a;
      others := Filled(ops, v);
      FilledDescribed(q, q, ops, v);
      GrowthGoesWrong(q, others[0], v);
      assert others[1..] == Filled(ops[1..], v);
      StaysWrong(Apply(Shipped, q, others[0]).0, ops[1..], |q.removed| + k, v);
    } else {
      ApplyFifo(Shipped, q, op);
      var rest := GoesWrong(Apply(Shipped, q, op).0, ops[1..], a, b);
      others := [op] + rest;
      assert others[1..] == rest;
      SameAfter(ops, op, rest);
    }
  }

  lemma SameAfter<T>(ops: seq<Op<T>>, op: Op<T>, rest: seq<Op<T>>)
    requires ops != [] && op == ops[0] && SameShape(ops[1..], rest)
    ensures SameShape(ops, [op] + rest)
  {
    forall i | 0 <= i < |ops| ensures SameCall(ops[i], ([op] + rest)[i]) {
      if i > 0 { assert SameCall(ops[1..][i - 1], rest[i - 1]); }
    }
  }

  // With the shipped guard, the calls of a run make an unbounded first-in first-out queue
  // whatever lies past the buffer exactly when growth happens only at front 0.
  lemma ShippedFifoIff<T>(q: State<T>, ops: seq<Op<T>>, a: T, b: T)
    requires q.Valid() && Described(Shipped, q, ops) && Fifo(q) && a != b
    ensures (forall others: seq<Op<T>> | SameShape(ops, others) && Described(Shipped, q, others) ::
               Fifo(Run(Shipped, q, others)))
            <==> GrowsAtZero(Shipped, q, ops)
  {
    if GrowsAtZero(Shipped, q, ops) {
      forall others: seq<Op<T>> | SameShape(ops, others) && Described(Shipped, q, others)
        ensures Fifo(Run(Shipped, q, others))
      {
        GrowsAlike(q, q, ops, others);
        RunFifo(Shipped, q, others);
      }
    } else {
      var others := GoesWrong(q, ops, a, b);
    }
  }

  // The shortest failure: capacity 2, one removal before the buffer fills again.  The 3
  // is lost and replaced by whatever followed the old buffer.
  lemma ShippedLosesAnElement(junk: int)
    ensures var past := [junk, junk, junk, junk];
            var q1 := Apply(Shipped, New(2), Enqueue(1, true, past)).0;
            var q2 := Apply(Shipped, q1, Enqueue(2, true, past)).0;
            var q3 := Apply(Shipped, q2, Dequeue).0;
            var q4 := Apply(Shipped, q3, Enqueue(3, true, past)).0;
            var q5 := Apply(Shipped, q4, Enqueue(4, true, past)).0;
            && q4.contents == [2, 3]
            && q5.contents == [2, junk, 4]
            && q5.accepted == [1, 2, 3, 4] && q5.removed == [1]
  {
  }

  // ---------------------------------------------------------------- amortised cost

  ghost predicate Amortised<T>(q: State<T>)
  {
    && q.copied == q.capacity - q.initial
    && |q.contents| <= |q.accepted|
    && (q.initial < q.capacity ==> q.capacity < 2 * |q.accepted|)
  }

  lemma ApplyAmortised<T>(guard: Guard, q: State<T>, op: Op<T>)
    requires q.Valid() && (op.Enqueue? ==> q.capacity <= |op.past|) && Amortised(q)
    ensures Amortised(Apply(guard, q, op).0)
  {
  }

  // Over every interleaving, all growths together copy capacity minus initial capacity
  // elements, fewer than two per element ever accepted.
  lemma {:induction false} RunAmortised<T>(guard: Guard, q: State<T>, ops: seq<Op<T>>)
    requires q.Valid() && Described(guard, q, ops) && Amortised(q)
    ensures var q' := Run(guard, q, ops);
            && Amortised(q')
            && q'.copied == q'.capacity - q'.initial
            && (q'.copied == 0 || q'.copied < 2 * |q'.accepted|)
    decreases |ops|
  {
    if ops != [] {
      ApplyAmortised(guard, q, ops[0]);
      RunAmortised(guard, Apply(guard, q, ops[0]).0, ops[1..]);
    }
  }
}

module RingQueue {
  import opened Arithmetic
  import opened Common
  import Spec = QueueSpec

  // x mod capacity for the sums that occur here.
  function Wrap(x: nat, capacity: nat): nat
    requires x < 2 * capacity
  {
    if x < capacity then x else x - capacity
  }

  lemma WrapIsMod(x: nat, capacity: nat)
    requires x < 2 * capacity
    ensures Wrap(x, capacity) == x % capacity
  {
    DivUnique(x, capacity, if x < capacity then 0 else 1, Wrap(x, capacity));
  }

  class Queue<T(0)> {
    var data: array<T>
    var capacity: nat
    var front: nat
    var rear: nat
    var length: nat
    const guard: Spec.Guard
    ghost var abs: Spec.State<T>

    ghost predicate Valid()
      reads this, data
    {
      && abs.Valid()
      && data.Length == capacity == abs.capacity
      && front == abs.front && length == |abs.contents|
      && rear == Wrap(front + length, capacity)
      && forall i {:trigger abs.contents[i]} | 0 <= i < length ::
           abs.contents[i] == data[Wrap(front + i, capacity)]
    }

    constructor (initialCapacity: nat, guard: Spec.Guard)
      ensures Valid() && fresh(data) && this.guard == guard && abs == Spec.New(initialCapacity)
    {
      var c := if initialCapacity == 0 then 16 else initialCapacity;
      this.guard := guard;
      data := new T[c];
      capacity, front, rear, length := c, 0, 0, 0;
      abs := Spec.New(initialCapacity);
    }

    // `past` stands for the memory behind the buffer, read only by a straight copy
    // that runs over its end.
    method Grow(memoryOk: bool, past: seq<T>) returns (status: int)
      requires Valid() && length == capacity <= |past|
      modifies this
      ensures Valid() && (data == old(data) || fresh(data))
      ensures status == if memoryOk then 0 else -1
      ensures abs == if memoryOk then Spec.Grow(guard, old(abs), past) else old(abs)
    {
      if !memoryOk { return -1; }
      var newData := Copied(past);
      abs := Spec.Grow(guard, abs, past);
      assert forall i | 0 <= i < length :: newData[..length][i] == newData[i];
      data := newData;
      front := 0;
      rear := length;
      capacity := newData.Length;
      status := 0;
    }

    // The doubled buffer: a straight copy or a copy in two parts, as the guard says.
    method Copied(past: seq<T>) returns (newData: array<T>)
      requires Valid() && length == capacity <= |past|
      ensures fresh(newData) && newData.Length == 2 * capacity
      ensures newData[..length] == Spec.Grow(guard, abs, past).contents
    {
      newData := new T[capacity * 2];
      var straight := match guard case Shipped => front <= rear case Wrapping => front + length <= capacity;
      if straight {
        forall i | 0 <= i < length {
          newData[i] := if front + i < capacity then data[front + i] else past[front + i - capacity];
        }
      } else {
        var firstPart := capacity - front;
        forall i | 0 <= i < firstPart {
          newData[i] := data[front + i];
        }
        forall i | 0 <= i < rear {
          newData[firstPart + i] := data[i];
        }
      }
      ghost var grown := Spec.Grow(guard, abs, past).contents;
      assert forall i | 0 <= i < length :: newData[i] == grown[i];
    }

    method Enqueue(x: T, memoryOk: bool, past: seq<T>) returns (status: int)
      requires Valid() && capacity <= |past|
      modifies this, data
      ensures Valid() && (data == old(data) || fresh(data))
      ensures (abs, Spec.Out(status, None)) == Spec.Apply(guard, old(abs), Spec.Enqueue(x, memoryOk, past))
      ensures status == if old(length) == old(capacity) && !memoryOk then -1 else 0
      ensures old(length) < old(capacity) ==> abs.contents == old(abs.contents) + [x] && data == old(data)
    {
      if length >= capacity {
        var grown := Grow(memoryOk, past);
        if grown != 0 { return -1; }
      }
      Put(x);
      status := 0;
    }

    method Put(x: T)
      requires Valid() && length < capacity
      modifies this`rear, this`length, this`abs, data
      ensures Valid() && abs == Spec.Push(old(abs), x)
    {
      WrapIsMod(rear + 1, capacity);
      data[rear] := x;
      rear := (rear + 1) % capacity;
      length := length + 1;
      abs := Spec.Push(abs, x);
    }

    method Dequeue() returns (out: Spec.Out<T>)
      requires Valid()
      modifies this
      ensures Valid() && data == old(data)
      ensures (abs, out) == Spec.Apply(guard, old(abs), Spec.Dequeue)
      ensures old(abs.contents) == [] ==> out == Spec.Out(-1, None) && abs == old(abs)
      ensures old(abs.contents) != [] ==>
                out == Spec.Out(0, Some(old(data[front]))) && [old(data[front])] + abs.contents == old(abs.contents)
    {
      if length == 0 {
        return Spec.Out(-1, None);
      }
      out := Spec.Out(0, Some(data[front]));
      assert data[front] == abs.contents[0];
      abs := Spec.Apply(guard, abs, Spec.Dequeue).0;
      WrapIsMod(front + 1, capacity);
      front := (front + 1) % capacity;
      length := length - 1;
    }

    method Peek() returns (out: Spec.Out<T>)
      requires Valid()
      ensures (abs, out) == Spec.Apply(guard, abs, Spec.Peek)
      ensures out == if abs.contents == [] then Spec.Out(-1, None) else Spec.Out(0, Some(abs.contents[0]))
    {
      if length == 0 {
        return Spec.Out(-1, None);
      }
      out := Spec.Out(0, Some(data[front]));
      assert data[front] == abs.contents[0];
    }
  }

  // The index formula, in the source's terms, in every reachable state.
  lemma RearIsMod<T(0)>(q: Queue<T>)
    requires q.Valid()
    ensures q.rear == (q.front + q.length) % q.capacity
  {
    WrapIsMod(q.front + q.length, q.capacity);
  }
}
