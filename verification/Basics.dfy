/** Numbers that several of the models share. */
module Basics {
  /** The number of values of a 32-bit unsigned integer. */
  const U32: nat := 0x1_0000_0000

  /** A condition as a number to count with. */
  function One(b: bool): nat {
    if b then 1 else 0
  }

  function PowerOfTwo(bits: nat): (r: nat)
    ensures r > 0
  {
    if bits == 0 then 1 else 2 * PowerOfTwo(bits - 1)
  }

  // ----- quotients and remainders ----------------------------------------------------------------

  lemma SplitOff(x: int, m: nat)
    requires m > 0
    ensures x == m * (x / m) + x % m
  {
  }

  lemma ModSkip(a: int, k: int, m: nat)
    requires m > 0
    ensures (m * k + a) % m == a % m
  {
    assert a == m * (a / m) + a % m;
    assert m * k + a == m * (k + a / m) + a % m;
    ModUnique(m * k + a, k + a / m, a % m, m);
  }

  lemma ModUnique(x: int, q: int, r: int, m: nat)
    requires m > 0 && x == m * q + r && 0 <= r < m
    ensures x % m == r
  {
    assert x == m * (x / m) + x % m;
    Cancel(m, x / m, q);
    Cancel(m, q, x / m);
  }

  lemma Monotone(m: nat, a: int, b: int)
    requires a <= b
    ensures m * a <= m * b
  {
  }

  lemma Cancel(m: nat, a: int, b: int)
    requires m > 0 && m * a < m * b + m
    ensures a <= b
  {
    if a > b {
      Monotone(m, b + 1, a);
    }
  }

  lemma DivUnique(x: int, q: int, r: int, m: nat)
    requires m > 0 && x == m * q + r && 0 <= r < m
    ensures x % m == r && x / m == q
  {
    ModUnique(x, q, r, m);
    assert x == m * (x / m) + r;
    Cancel(m, x / m, q);
    Cancel(m, q, x / m);
  }

  lemma Divided(q: nat, f: nat, low: nat)
    requires f > 0
    ensures (f * q + low) / f == q + low / f
  {
    SplitOff(low, f);
    assert f * q + low == f * (q + low / f) + low % f;
    DivUnique(f * q + low, q + low / f, low % f, f);
  }
}
