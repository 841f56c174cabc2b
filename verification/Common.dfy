// Small shared vocabulary.
module Common {

  datatype Option<+T> = None | Some(value: T)

  function Reverse<T>(s: seq<T>): (r: seq<T>)
    ensures |r| == |s|
    ensures forall i :: 0 <= i < |s| ==> r[i] == s[|s| - 1 - i]
  {
    if s == [] then [] else Reverse(s[1..]) + [s[0]]
  }
}

// The few facts about division and multiplication that several modules need.
module Arithmetic {

  lemma DivUnique(x: int, d: int, q: int, r: int)
    requires 0 <= r < d && x == d * q + r
    ensures x % d == r
  {
    var q', r' := x / d, x % d;
    assert d * (q - q') == r' - r;
    MulLe(d, q - q', -1);
    MulLe(d, 1, q - q');
  }

  lemma MulLe(d: int, a: int, b: int)
    requires 0 <= d
    ensures a <= b ==> d * a <= d * b
  {
    if a <= b {
      assert 0 <= d * (b - a);
    }
  }

  type u32 = x: int | 0 <= x < 0x1_0000_0000
  type u64 = x: int | 0 <= x < 0x1_0000_0000_0000_0000

  // Unsigned machine arithmetic: results are taken modulo the word size.
  function Add32(x: u32, y: u32): u32
  {
    if x + y >= 0x1_0000_0000 then x + y - 0x1_0000_0000 else x + y
  }

  function Sub32(x: u32, y: u32): u32
  {
    if x < y then x - y + 0x1_0000_0000 else x - y
  }

  function Add64(x: u64, y: u64): u64
  {
    if x + y >= 0x1_0000_0000_0000_0000 then x + y - 0x1_0000_0000_0000_0000 else x + y
  }

  lemma Add32Reduces(a: int, y: u32)
    ensures Add32(a % 0x1_0000_0000, y) == (a + y) % 0x1_0000_0000
  {
    var m := 0x1_0000_0000;
    var s := a % m + y;
    DivUnique(a + y, m, a / m + (if s >= m then 1 else 0), if s >= m then s - m else s);
  }

  lemma Sub32Reduces(a: int, b: int)
    ensures Sub32(a % 0x1_0000_0000, b % 0x1_0000_0000) == (a - b) % 0x1_0000_0000
  {
    var m := 0x1_0000_0000;
    var s := a % m - b % m;
    DivUnique(a - b, m, a / m - b / m - (if s < 0 then 1 else 0), if s < 0 then s + m else s);
  }

  // The exact total a as a 64-bit counter shows it.
  function Low64(a: int): u64
  {
    a % 0x1_0000_0000_0000_0000
  }

  lemma Add64Reduces(a: int, y: u64)
    ensures Add64(Low64(a), y) == Low64(a + y)
  {
    var m := 0x1_0000_0000_0000_0000;
    var s := a % m + y;
    DivUnique(a + y, m, a / m + (if s >= m then 1 else 0), if s >= m then s - m else s);
  }
}
