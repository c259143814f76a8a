/** Facts about remainders. */
module Modular {

  lemma AtLeast(k: int, m: int)
    requires k >= 1 && m > 0
    ensures k * m >= m
  {
    assert k * m == (k - 1) * m + m;
  }

  lemma SmallMultiple(k: int, m: int)
    requires m > 0 && -m < k * m < m
    ensures k == 0
  {
    if k >= 1 { AtLeast(k, m); }
    if k <= -1 {
      assert (-k) * m == -(k * m);
      AtLeast(-k, m);
    }
  }

  // The quotient and the remainder are the only ones.
  lemma ModIs(x: int, q: int, r: int, m: int)
    requires m > 0 && x == q * m + r && 0 <= r < m
    ensures x % m == r && x / m == q
  {
    var q', r' := x / m, x % m;
    assert x == q' * m + r';
    assert (q - q') * m == q * m - q' * m;
    SmallMultiple(q - q', m);
  }

  lemma ModShift(x: int, k: int, m: int)
    requires m > 0
    ensures (x + k * m) % m == x % m
  {
    assert x + k * m == (x / m + k) * m + x % m;
    ModIs(x + k * m, x / m + k, x % m, m);
  }

  lemma ModSmall(x: int, m: int)
    requires 0 <= x < m
    ensures x % m == x
  {
    ModIs(x, 0, x, m);
  }

  // Equal remainders mean a multiple in between.
  lemma ModEqual(x: int, y: int, m: int) returns (k: int)
    requires m > 0 && x % m == y % m
    ensures x == y + k * m
  {
    k := x / m - y / m;
    assert x == (x / m) * m + x % m && y == (y / m) * m + y % m;
    assert k * m == (x / m) * m - (y / m) * m;
  }

  lemma ModClose(x: int, y: int, m: int)
    requires m > 0 && x % m == y % m && -m < x - y < m
    ensures x == y
  {
    var k := ModEqual(x, y, m);
    SmallMultiple(k, m);
  }

  lemma ModAdd(x: int, y: int, m: int)
    requires m > 0
    ensures (x % m + y) % m == (x + y) % m
  {
    ModShift(x % m + y, x / m, m);
    assert x == (x / m) * m + x % m;
  }

  lemma ModMul(x: int, y: int, m: int)
    requires m > 0
    ensures ((x % m) * y) % m == (x * y) % m
  {
    var q, r := x / m, x % m;
    assert x * y == r * y + (q * y) * m by { assert x == q * m + r; }
    ModShift(r * y, q * y, m);
  }

  // Masking commutes with wrapping if the mask divides the word.
  lemma ModMod(x: int, a: int, b: int)
    requires a > 0 && b > 0
    ensures a * b > 0 && (x % (a * b)) % a == x % a
  {
    var m := a * b;
    assert m > 0;
    var q := x / m;
    assert x == x % m + (b * q) * a by { assert x == q * m + x % m; }
    ModShift(x % m, b * q, a);
  }

  function Power(b: nat, n: nat): (p: nat)
    ensures b > 0 ==> p > 0
  {
    if n == 0 then 1 else Power(b, n - 1) * b
  }

  lemma MulAssociates(p: int, q: int, b: int)
    ensures (p * q) * b == p * (q * b)
  {
  }

  lemma PowerStep(b: nat, n: nat)
    ensures Power(b, n + 1) == Power(b, n) * b && Power(b, 0) == 1
  {
  }

  lemma {:induction false} PowerAdd(b: nat, m: nat, n: nat)
    ensures Power(b, m + n) == Power(b, m) * Power(b, n)
  {
    hide Power;
    PowerStep(b, 0);
    if n > 0 {
      PowerAdd(b, m, n - 1);
      PowerStep(b, m + n - 1);
      PowerStep(b, n - 1);
      MulAssociates(Power(b, m), Power(b, n - 1), b);
    }
  }
}
