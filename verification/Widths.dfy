/** Machine integers. */
module Widths {

  const TWO_32: nat := 0x1_0000_0000
  const TWO_64: nat := 0x1_0000_0000_0000_0000

  /** The unsigned number with the same bits. */
  function Unsigned(n: int, size: nat): nat
    requires size > 0
  {
    n % size
  }

  function Signed(n: nat, size: nat): int {
    if n >= size / 2 then n - size else n
  }

  predicate IsSigned(n: int, size: nat) {
    -(size / 2) <= n < size / 2
  }

  /** The signed number with the same low bits. */
  function Wrapped(n: int, size: nat): int
    requires size > 0
  {
    Signed(Unsigned(n, size), size)
  }

  lemma SignedInverts(n: int, size: nat)
    requires size > 0 && size % 2 == 0 && IsSigned(n, size)
    ensures Unsigned(n, size) < size && Wrapped(n, size) == n
  {
    if n < 0 {
      ModIs(n, size, -1, n + size);
    } else {
      ModIs(n, size, 0, n);
    }
  }

  lemma WrappedIsSigned(n: int, size: nat)
    requires size > 0 && size % 2 == 0
    ensures IsSigned(Wrapped(n, size), size)
  {
  }

  lemma ModIs(n: int, m: nat, q: int, r: nat)
    requires r < m && n == q * m + r && -1 <= q <= 0
    ensures n % m == r
  {
  }
}
