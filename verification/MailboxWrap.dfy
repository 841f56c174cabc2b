// The mailbox keeps free-running 32-bit head and tail indices and maps an
// index to a slot with `idx % depth` (mbox_kern.c, mbox_get_entry).  This module
// settles when that mapping keeps a window of live indices in distinct slots.
module MailboxWrap {
  import opened Arithmetic

  const WORD: nat := 0x1_0000_0000

  // The slot of logical index x: the index is stored in 32 bits, then reduced.
  function Slot(x: nat, depth: nat): (s: nat)
    requires 0 < depth
    ensures s < depth
  {
    (x % WORD) % depth
  }

  // The window starting at logical index t with n entries stays on one side of
  // the 32-bit wrap, or the wrap cannot make two of its slots coincide.
  predicate WindowSafe(t: nat, n: nat, depth: nat)
    requires 0 < depth
  {
    WORD % depth == 0 || n <= WORD % depth || t % WORD + n <= WORD
  }

  ghost predicate SlotsDistinct(t: nat, n: nat, depth: nat)
    requires 0 < depth
  {
    forall x, y :: t <= x < y < t + n ==> Slot(x, depth) != Slot(y, depth)
  }

  lemma NearbyModDiffer(x: nat, y: nat, d: nat)
    requires x < y < x + d
    ensures x % d != y % d
  {
    if x % d == y % d {
      DivUnique(y - x, d, y / d - x / d, 0);
      DivUnique(y - x, d, 0, y - x);
    }
  }

  // Reducing to 32 bits first is harmless when depth divides 2^32.
  lemma ReduceTwice(x: nat, d: nat)
    requires 0 < d && WORD % d == 0
    ensures Slot(x, d) == x % d
  {
    var q, a, b := WORD / d, x / WORD, x % WORD;
    assert WORD == d * q;
    calc {
      x;
      WORD * a + b;
      d * q * a + b;
      { assert d * q * a == d * (q * a); }
      d * (q * a) + (d * (b / d) + b % d);
      d * (q * a + b / d) + b % d;
    }
    DivUnique(x, d, q * a + b / d, b % d);
  }

  // The slot of an index is what an unbounded index would give, for every index,
  // exactly when depth divides 2^32.
  lemma SlotIsUnboundedIff(depth: nat)
    requires 0 < depth
    ensures (forall x: nat :: Slot(x, depth) == x % depth) <==> WORD % depth == 0
  {
    if WORD % depth == 0 {
      forall x: nat ensures Slot(x, depth) == x % depth { ReduceTwice(x, depth); }
    } else {
      assert Slot(WORD, depth) == 0 % depth == 0;
      assert Slot(WORD, depth) != WORD % depth;
    }
  }

  // Index x of a window that starts at t, for windows shorter than 2^32.
  lemma Reduce(t: nat, x: nat)
    requires t <= x < t + WORD
    ensures t % WORD + (x - t) < WORD ==> x % WORD == t % WORD + (x - t)
    ensures t % WORD + (x - t) >= WORD ==> x % WORD == t % WORD + (x - t) - WORD
  {
    if t % WORD + (x - t) < WORD {
      DivUnique(x, WORD, t / WORD, t % WORD + (x - t));
    } else {
      DivUnique(x, WORD, t / WORD + 1, t % WORD + (x - t) - WORD);
    }
  }

  // The index k + 1 before the wrap sits in slot r - 1 - k, where r = 2^32 mod depth.
  lemma SlotBeforeWrap(k: nat, depth: nat)
    requires 0 < depth && k < WORD % depth
    ensures (WORD - 1 - k) % depth == WORD % depth - 1 - k
  {
    DivUnique(WORD - 1 - k, depth, WORD / depth, WORD % depth - 1 - k);
  }

  lemma SafePairDiffers(t: nat, n: nat, depth: nat, x: nat, y: nat)
    requires 0 < depth <= WORD && n <= depth && WindowSafe(t, n, depth)
    requires t <= x < y < t + n
    ensures Slot(x, depth) != Slot(y, depth)
  {
    var r := WORD % depth;
    if r == 0 {
      ReduceTwice(x, depth);
      ReduceTwice(y, depth);
      NearbyModDiffer(x, y, depth);
      return;
    }
    Reduce(t, x);
    Reduce(t, y);
    var x', y' := x % WORD, y % WORD;
    if x' < y' {
      NearbyModDiffer(x', y', depth);
    } else {
      SlotBeforeWrap(WORD - 1 - x', depth);
      DivUnique(y', depth, 0, y');
    }
  }

  lemma UnsafeWindowCollides(t: nat, n: nat, depth: nat) returns (x: nat, y: nat)
    requires 0 < depth <= WORD && n <= depth && !WindowSafe(t, n, depth)
    ensures t <= x < y < t + n && Slot(x, depth) == Slot(y, depth)
  {
    var r, p := WORD % depth, WORD - t % WORD;
    // x lies k + 1 before the wrap, y lies m after it, and m + k == r - 1
    var m := if n - p <= r then n - p - 1 else r - 1;
    var k := r - 1 - m;
    x, y := t + (p - 1 - k), t + (p + m);
    Reduce(t, x);
    Reduce(t, y);
    SlotBeforeWrap(k, depth);
    DivUnique(m, depth, 0, m);
  }

  // A window of at most depth live indices occupies pairwise distinct slots
  // exactly when it is safe in the sense above.
  lemma WindowDistinctIff(t: nat, n: nat, depth: nat)
    requires 0 < depth <= WORD && n <= depth
    ensures SlotsDistinct(t, n, depth) <==> WindowSafe(t, n, depth)
  {
    if WindowSafe(t, n, depth) {
      forall x, y | t <= x < y < t + n ensures Slot(x, depth) != Slot(y, depth) {
        SafePairDiffers(t, n, depth, x, y);
      }
    } else {
      var x, y := UnsafeWindowCollides(t, n, depth);
    }
  }
}
