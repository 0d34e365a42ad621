/** Congruence modulo a positive modulus, with Dafny's (Euclidean) `%`,
    which for a positive modulus agrees with Python's floor `%`. */
module ModArith {

  predicate Cong(x: int, y: int, q: int)
    requires q > 0
  {
    x % q == y % q
  }

  lemma MulAtLeast(q: int, k: int)
    requires q > 0 && k >= 1
    ensures q * k >= q
  {
  }

  /** Quotient and remainder are unique. */
  lemma ModUnique(y: int, q: int, d: int, r: int)
    requires q > 0 && 0 <= r < q && y == q * d + r
    ensures y % q == r && y / q == d
  {
    var d' := y / q;
    var r' := y % q;
    assert y == q * d' + r';
    if d < d' {
      assert q * d' - q * d == q * (d' - d);
      MulAtLeast(q, d' - d);
      assert false;
    } else if d' < d {
      assert q * d - q * d' == q * (d - d');
      MulAtLeast(q, d - d');
      assert false;
    }
  }

  /** Adding a multiple of the modulus does not change the residue. */
  lemma ModShift(x: int, k: int, q: int)
    requires q > 0
    ensures (x + q * k) % q == x % q
  {
    assert x == q * (x / q) + x % q;
    assert x + q * k == q * (x / q + k) + x % q;
    ModUnique(x + q * k, q, x / q + k, x % q);
  }

  lemma CongMod(x: int, q: int)
    requires q > 0
    ensures Cong(x % q, x, q)
  {
    ModUnique(x % q, q, 0, x % q);
  }

  /** A residue in `[0, q)` congruent to `y` is `y % q`. */
  lemma CongInRange(x: int, y: int, q: int)
    requires q > 0 && 0 <= x < q && Cong(x, y, q)
    ensures x == y % q
  {
    ModUnique(x, q, 0, x);
  }

  lemma CongAdd(a: int, a': int, b: int, b': int, q: int)
    requires q > 0 && Cong(a, a', q) && Cong(b, b', q)
    ensures Cong(a + b, a' + b', q)
  {
    var t := (a / q - a' / q) + (b / q - b' / q);
    assert a == q * (a / q) + a % q && a' == q * (a' / q) + a' % q;
    assert b == q * (b / q) + b % q && b' == q * (b' / q) + b' % q;
    assert a + b == (a' + b') + q * t;
    ModShift(a' + b', t, q);
  }

  lemma CongSub(a: int, a': int, b: int, b': int, q: int)
    requires q > 0 && Cong(a, a', q) && Cong(b, b', q)
    ensures Cong(a - b, a' - b', q)
  {
    var t := (a / q - a' / q) - (b / q - b' / q);
    assert a == q * (a / q) + a % q && a' == q * (a' / q) + a' % q;
    assert b == q * (b / q) + b % q && b' == q * (b' / q) + b' % q;
    assert a - b == (a' - b') + q * t;
    ModShift(a' - b', t, q);
  }
}
