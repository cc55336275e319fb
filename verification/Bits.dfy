/** Masking by a power of two. */
module Bits {

  /** Bitwise and, on numbers. */
  function And(a: nat, b: nat): nat {
    if a == 0 || b == 0 then 0 else (a % 2) * (b % 2) + 2 * And(a / 2, b / 2)
  }

  predicate IsPow2(n: nat) {
    n == 1 || (n > 1 && n % 2 == 0 && IsPow2(n / 2))
  }

  /** Masking with one less than a power of two takes the remainder. */
  lemma {:induction false} MaskIsMod(h: nat, n: nat)
    requires IsPow2(n)
    ensures And(h, n - 1) == h % n
    decreases n
  {
    if n == 1 {
      assert And(h, 0) == 0;
    } else {
      var m := n / 2;
      assert n == 2 * m;
      MaskIsMod(h / 2, m);
      MaskStep(h, m);
    }
  }

  lemma MaskStep(h: nat, m: nat)
    requires m > 0 && And(h / 2, m - 1) == (h / 2) % m
    ensures And(h, 2 * m - 1) == h % (2 * m)
  {
    hide And;
    AndOdd(h, m - 1);
    assert 2 * (m - 1) + 1 == 2 * m - 1;
    assert And(h, 2 * m - 1) == h % 2 + 2 * ((h / 2) % m);
    ModHalves(h, m);
  }

  lemma AndOdd(a: nat, b: nat)
    ensures And(a, 2 * b + 1) == a % 2 + 2 * And(a / 2, b)
  {
    assert (2 * b + 1) % 2 == 1 && (2 * b + 1) / 2 == b;
  }

  lemma ModHalves(h: nat, m: nat)
    requires m > 0
    ensures h % (2 * m) == h % 2 + 2 * ((h / 2) % m)
  {
    var q, r := (h / 2) / m, (h / 2) % m;
    assert h == 2 * (q * m + r) + h % 2;
    assert h == q * (2 * m) + (h % 2 + 2 * r);
    DivUnique(h, 2 * m, q, h % 2 + 2 * r);
  }

  lemma DivUnique(h: nat, m: nat, q: nat, r: nat)
    requires h == q * m + r && r < m
    ensures h % m == r
  {
    var d := h / m - q;
    assert h == (h / m) * m + h % m;
    assert d * m == r - h % m;
    assert d >= 1 ==> d * m >= m;
    assert d <= -1 ==> d * m <= (-1) * m;
  }
}
