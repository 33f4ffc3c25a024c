/** Wrap-around indices and power-of-two masks. */
module Modular {
  import opened Words

  function Pow2(k: nat): (p: nat)
    ensures p > 0
  {
    if k == 0 then 1 else 2 * Pow2(k - 1)
  }

  // Bitwise and.
  function And(a: nat, b: nat): nat {
    if a == 0 || b == 0 then 0 else a % 2 * (b % 2) + 2 * And(a / 2, b / 2)
  }

  lemma MulGrows(m: int, d: int)
    requires m > 0
    ensures d >= 1 ==> m * d >= m
    ensures d <= -1 ==> m * d <= -m
  {
    if d >= 1 {
      assert m * d == m + m * (d - 1);
      assert m * (d - 1) >= 0;
    } else if d <= -1 {
      assert m * d == -m + m * (d + 1);
      assert m * (-(d + 1)) >= 0;
    }
  }

  // A remainder is determined by its size.
  lemma ModUnique(x: int, m: int, q: int, r: int)
    requires m > 0 && 0 <= r < m && x == m * q + r
    ensures x % m == r && x / m == q
  {
    var d := x / m - q;
    assert x == m * (x / m) + x % m;
    assert m * d == m * (x / m) - m * q;
    MulGrows(m, d);
  }

  lemma {:induction false} Pow2Sum(a: nat, b: nat)
    ensures Pow2(a + b) == Pow2(a) * Pow2(b)
  {
    if a > 0 {
      Pow2Sum(a - 1, b);
      assert Pow2(a + b) == 2 * Pow2(a - 1 + b);
      assert 2 * (Pow2(a - 1) * Pow2(b)) == (2 * Pow2(a - 1)) * Pow2(b);
    }
  }

  lemma Pow2Of32()
    ensures Pow2(32) == TWO_32
  {
    assert Pow2(4) == 16;
    assert Pow2(8) == 256;
    Pow2Sum(8, 8);
    Pow2Sum(16, 16);
  }

  lemma Distribute(m: int, c: int, t: int, u: int)
    ensures m * (c * t + u) == (m * c) * t + m * u
  {
    assert m * (c * t) == (m * c) * t;
    assert m * (c * t + u) == m * (c * t) + m * u;
  }

  lemma NestedMod(n: nat, m: nat, c: nat)
    requires m > 0 && c > 0
    ensures m * c > 0 && n % (m * c) % m == n % m
  {
    MulGrows(m, c);
    var whole := m * c;
    var t, w := n / whole, n % whole;
    assert n == whole * t + w;
    var u, r := w / m, w % m;
    assert w == m * u + r;
    Distribute(m, c, t, u);
    ModUnique(n, m, c * t + u, r);
  }

  lemma DoubleMod(x: nat, m: nat)
    requires m > 0
    ensures x % (2 * m) == x % 2 + 2 * (x / 2 % m)
  {
    var h, b := x / 2, x % 2;
    var q, r := h / m, h % m;
    assert h == m * q + r;
    Distribute(2, m, q, r);
    ModUnique(x, 2 * m, q, 2 * r + b);
  }

  lemma AndOdd(x: nat, m: nat)
    requires m > 0
    ensures And(x, 2 * m - 1) == x % 2 + 2 * And(x / 2, m - 1)
  {
    assert (2 * m - 1) % 2 == 1 && (2 * m - 1) / 2 == m - 1;
    if x > 0 {
      assert And(x, 2 * m - 1) == x % 2 * ((2 * m - 1) % 2) + 2 * And(x / 2, (2 * m - 1) / 2);
    }
  }

  // Masking with size - 1 is the remainder.
  lemma {:induction false} MaskIsRemainder(x: nat, k: nat)
    ensures And(x, Pow2(k) - 1) == x % Pow2(k)
    decreases k
  {
    if k > 0 {
      AndOdd(x, Pow2(k - 1));
      MaskIsRemainder(x / 2, k - 1);
      DoubleMod(x, Pow2(k - 1));
    }
  }

  function Wrap(n: nat): u32 {
    n % TWO_32
  }

  // Unsigned 32-bit subtraction.
  function Minus32(a: u32, b: u32): u32 {
    (a - b) % TWO_32
  }

  function Plus32(a: u32, b: u32): u32 {
    (a + b) % TWO_32
  }

  lemma WrapDifference(a: nat, b: nat)
    requires b <= a < b + TWO_32
    ensures Minus32(Wrap(a), Wrap(b)) == a - b
  {
  }

  lemma WrapSum(a: nat, b: u32)
    ensures Plus32(Wrap(a), b) == Wrap(a + b)
  {
  }

  lemma WrapMinus(a: nat, b: u32)
    requires a >= b
    ensures Minus32(Wrap(a), b) == Wrap(a - b)
  {
  }

  // A wrapped index lands in the same slot as the index itself.
  lemma WrapKeepsSlot(n: nat, k: nat)
    requires k <= 32
    ensures Wrap(n) % Pow2(k) == n % Pow2(k)
  {
    Pow2Of32();
    Pow2Sum(k, 32 - k);
    NestedMod(n, Pow2(k), Pow2(32 - k));
  }

  // Fewer than m apart and not the same: not the same slot.
  lemma SlotsDiffer(a: nat, b: nat, m: nat)
    requires a < b < a + m
    ensures a % m != b % m
  {
    if a % m == b % m {
      var d := b / m - a / m;
      assert b == m * (b / m) + b % m && a == m * (a / m) + a % m;
      assert b - a == m * (b / m) - m * (a / m) == m * d;
      MulGrows(m, d);
    }
  }
}
