/** The test that decides which random bytes may pass for a key (check_tls.cpp, lines 26-42 and 68-93): Euler's
    criterion, for any odd prime modulus. */
module QuadraticResidue {
  import opened Modular

  ghost predicate IsPrime(m: nat) {
    m >= 2 && forall d | 1 < d < m :: m % d != 0
  }

  function Rem(x: int, m: nat): (r: nat)
    requires m > 0
    ensures r < m
  {
    x % m
  }

  // BigNum::mod_mul
  function MulMod(x: nat, y: nat, m: nat): (r: nat)
    requires m > 0
    ensures r < m
  {
    (x * y) % m
  }

  // BigNum::mod_exp
  function PowMod(a: nat, e: nat, m: nat): (r: nat)
    requires m > 1
    ensures r < m
  {
    if e == 0 then 1 else MulMod(a, PowMod(a, e - 1, m), m)
  }

  // mod_exp, then mod_add of one: the number whose decimal form is compared with "0", "1" and "2"
  function TestValue(a: nat, m: nat): nat
    requires m > 1
  {
    (PowMod(a, (m - 1) / 2, m) + 1) % m
  }

  ghost predicate IsSquare(a: nat, m: nat)
    requires m > 0
  {
    exists b :: Root(b, a, m)
  }

  ghost predicate Root(b: nat, a: nat, m: nat)
    requires m > 0
  {
    0 < b < m && MulMod(b, b, m) == Rem(a, m)
  }

  // ---------- congruences ----------

  lemma Distribute(y: int, k: int, m: int, c: int)
    ensures (y + k * m) * c == y * c + (k * c) * m
  {
    var p := k * m;
    assert (y + p) * c == y * c + p * c;
    assert p * c == k * (m * c) == k * (c * m) == (k * c) * m;
  }

  lemma Times(x: int, y: int, c: int, m: int)
    requires m > 0 && x % m == y % m
    ensures (x * c) % m == (y * c) % m
  {
    var k := ModEqual(x, y, m);
    Distribute(y, k, m, c);
    ModShift(y * c, k * c, m);
  }

  lemma Plus(x: int, y: int, c: int, m: int)
    requires m > 0 && x % m == y % m
    ensures (x + c) % m == (y + c) % m
  {
    var k := ModEqual(x, y, m);
    ModShift(y + c, k, m);
  }

  lemma MulCommutes(x: nat, y: nat, m: nat)
    requires m > 0
    ensures MulMod(x, y, m) == MulMod(y, x, m)
  {
    assert x * y == y * x;
  }

  lemma MulAssociates(x: nat, y: nat, z: nat, m: nat)
    requires m > 0
    ensures MulMod(x, MulMod(y, z, m), m) == MulMod(MulMod(x, y, m), z, m)
  {
    ModMul(y * z, x, m);
    ModMul(x * y, z, m);
    assert x * ((y * z) % m) == ((y * z) % m) * x && (y * z) * x == (x * y) * z;
  }

  lemma MulSwaps(x: nat, y: nat, z: nat, m: nat)
    requires m > 0
    ensures MulMod(x, MulMod(y, z, m), m) == MulMod(y, MulMod(x, z, m), m)
  {
    hide MulMod;
    MulAssociates(x, y, z, m);
    MulAssociates(y, x, z, m);
    MulCommutes(x, y, m);
  }

  lemma MulReduces(x: nat, y: nat, m: nat)
    requires m > 0
    ensures MulMod(Rem(x, m), y, m) == MulMod(x, y, m)
  {
    ModMul(x, y, m);
  }

  // ---------- inverses ----------

  lemma {:induction false} Inverse(x: nat, m: nat) returns (u: nat)
    requires IsPrime(m) && 0 < x < m
    ensures 0 < u < m && (x * u) % m == 1
    decreases x
  {
    if x == 1 {
      u := 1;
      ModSmall(1, m);
    } else {
      var q, r := m / x, m % x;
      var v := Inverse(r, m);
      u := (-q * v) % m;
      assert x * (-q * v) == r * v + (-v) * m by { assert m == q * x + r; }
      ModShift(r * v, -v, m);
      ModMul(-q * v, x, m);
      assert u * x == x * u;
      assert (-q * v) * x == x * (-q * v);
      if u == 0 {
        ModSmall(0, m);
      }
    }
  }

  // A prime divides a product only if it divides a factor.
  lemma NoZeroDivisors(x: nat, y: int, m: nat)
    requires IsPrime(m) && 0 < x < m && (x * y) % m == 0
    ensures y % m == 0
  {
    var u := Inverse(x, m);
    ModSmall(1, m);
    ModSmall(0, m);
    Times(x * u, 1, y, m);
    Times(x * y, 0, u, m);
    assert (x * u) * y == (x * y) * u;
  }

  lemma Cancel(x: nat, y: nat, z: nat, m: nat)
    requires IsPrime(m) && 0 < x < m && y < m && z < m && MulMod(x, y, m) == MulMod(x, z, m)
    ensures y == z
  {
    var k := ModEqual(x * y, x * z, m);
    assert x * (y - z) == 0 + k * m;
    ModShift(0, k, m);
    ModSmall(0, m);
    NoZeroDivisors(x, y - z, m);
    Plus(y - z, 0, z, m);
    ModSmall(y, m);
    ModSmall(z, m);
  }

  // ---------- partners ----------

  // Every x has one partner y with x * y = a.
  lemma Partner(x: nat, a: nat, m: nat) returns (y: nat)
    requires IsPrime(m) && 0 < x < m && Rem(a, m) != 0
    ensures 0 < y < m && MulMod(x, y, m) == Rem(a, m)
  {
    var u := Inverse(x, m);
    assert MulMod(x, u, m) == 1;
    y := MulMod(u, a, m);
    MulAssociates(x, u, a, m);
    assert MulMod(1, a, m) == Rem(a, m);
    if y == 0 { ModSmall(0, m); }
  }

  predicate IsUnit(x: nat, m: nat) {
    0 < x < m
  }

  ghost function Units(m: nat): set<nat> {
    set x: nat | x < m && IsUnit(x, m)
  }

  lemma {:induction false} UnitsCount(m: nat)
    requires m >= 1
    ensures |Units(m)| == m - 1
  {
    if m == 1 {
      assert Units(1) == {};
    } else {
      UnitsCount(m - 1);
      assert Units(m) == Units(m - 1) + {m - 1};
    }
  }

  // ---------- products ----------

  ghost function Product(s: set<nat>, m: nat): (r: nat)
    requires m > 1
    ensures r < m
  {
    if s == {} then 1 else var x :| x in s; MulMod(x, Product(s - {x}, m), m)
  }

  lemma {:induction false} ProductTake(s: set<nat>, x: nat, m: nat)
    requires m > 1 && x in s
    ensures Product(s, m) == MulMod(x, Product(s - {x}, m), m)
    decreases s
  {
    hide MulMod;
    var y :| y in s && Product(s, m) == MulMod(y, Product(s - {y}, m), m);
    if x != y {
      assert s - {y} - {x} == s - {x} - {y};
      ProductTake(s - {y}, x, m);
      ProductTake(s - {x}, y, m);
      MulSwaps(x, y, Product(s - {x} - {y}, m), m);
    }
  }

  // A set of units that contains the partner of each of its elements, none being its own partner.
  ghost predicate Paired(s: set<nat>, a: nat, m: nat)
    requires m > 0
  {
    && s <= Units(m)
    && (forall x, y | x in s && IsUnit(y, m) && MulMod(x, y, m) == Rem(a, m) :: y in s && y != x)
  }

  // Its product is a power of a, with one factor for each pair.
  lemma {:induction false} PairedProduct(s: set<nat>, a: nat, m: nat)
    requires IsPrime(m) && Rem(a, m) != 0 && Paired(s, a, m)
    ensures |s| % 2 == 0 && Product(s, m) == PowMod(a, |s| / 2, m)
    decreases s
  {
    hide MulMod, Product, PowMod, Paired, IsPrime, Rem;
    EmptyProduct(a, m);
    if s != {} {
      var x, y := SomePair(s, a, m);
      var rest := s - {x} - {y};
      assert |s| == |rest| + 2;
      RestIsPaired(s, x, y, a, m);
      PairedProduct(rest, a, m);
      PairTimes(s, x, y, a, m);
      PowStep(a, |rest| / 2, m);
      assert |s| / 2 == |rest| / 2 + 1;
    }
  }

  lemma PowStep(a: nat, e: nat, m: nat)
    requires m > 1
    ensures PowMod(a, e + 1, m) == MulMod(a, PowMod(a, e, m), m)
  {
  }

  lemma SomePair(s: set<nat>, a: nat, m: nat) returns (x: nat, y: nat)
    requires IsPrime(m) && Rem(a, m) != 0 && Paired(s, a, m) && s != {}
    ensures x in s && y in s && x != y && MulMod(x, y, m) == Rem(a, m)
  {
    hide MulMod;
    x :| x in s;
    y := Partner(x, a, m);
    assert IsUnit(y, m);
  }

  lemma PairTimes(s: set<nat>, x: nat, y: nat, a: nat, m: nat)
    requires m > 1 && x in s && y in s && x != y && MulMod(x, y, m) == Rem(a, m)
    ensures Product(s, m) == MulMod(a, Product(s - {x} - {y}, m), m)
  {
    hide MulMod, Product;
    var p := Product(s - {x} - {y}, m);
    ProductTake(s, x, m);
    ProductTake(s - {x}, y, m);
    MulAssociates(x, y, p, m);
    MulReduces(a, p, m);
  }

  lemma EmptyProduct(a: nat, m: nat)
    requires IsPrime(m)
    ensures m > 1 && Product({}, m) == 1 == PowMod(a, 0, m)
  {
  }

  lemma RestIsPaired(s: set<nat>, x: nat, y: nat, a: nat, m: nat)
    requires IsPrime(m) && Paired(s, a, m) && x in s && y in s && MulMod(x, y, m) == Rem(a, m)
    ensures Paired(s - {x} - {y}, a, m)
  {
    hide MulMod;
    var rest := s - {x} - {y};
    forall z, w | z in rest && IsUnit(w, m) && MulMod(z, w, m) == Rem(a, m) ensures w in rest && w != z {
      assert w in s && w != z;
      MulCommutes(z, w, m);
      MulCommutes(x, y, m);
      if w == x { Cancel(x, z, y, m); }
      if w == y { Cancel(y, z, x, m); }
    }
  }

  // ---------- Euler's criterion ----------

  lemma NotOwnPartner(x: nat, a: nat, m: nat)
    requires IsUnit(x, m) && !IsSquare(a, m)
    ensures MulMod(x, x, m) != Rem(a, m)
  {
    assert !Root(x, a, m);
  }

  // Without a square root of a, all units pair up.
  lemma NonSquarePower(a: nat, m: nat)
    requires IsPrime(m) && Rem(a, m) != 0 && !IsSquare(a, m)
    ensures m % 2 == 1 && PowMod(a, (m - 1) / 2, m) == Product(Units(m), m)
  {
    hide MulMod, Product;
    forall x, y | x in Units(m) && IsUnit(y, m) && MulMod(x, y, m) == Rem(a, m) ensures y in Units(m) && y != x {
      NotOwnPartner(x, a, m);
    }
    UnitsCount(m);
    PairedProduct(Units(m), a, m);
  }

  // The negative of a root is the other root.
  lemma Negative(b: nat, m: nat)
    requires 0 < b < m
    ensures MulMod(m - b, m - b, m) == MulMod(b, b, m)
    ensures MulMod(b, m - b, m) == (-(b * b)) % m
  {
    assert (m - b) * (m - b) == b * b + (m - 2 * b) * m;
    ModShift(b * b, m - 2 * b, m);
    assert b * (m - b) == -(b * b) + b * m;
    ModShift(-(b * b), b, m);
  }

  lemma OnlyTwoRoots(x: nat, b: nat, m: nat)
    requires IsPrime(m) && 0 < x < m && 0 < b < m && MulMod(x, x, m) == MulMod(b, b, m)
    ensures x == b || x == m - b
  {
    if x > b {
      RootsApart(x, b, m);
    } else if x < b {
      RootsApart(b, x, m);
    }
  }

  lemma RootsApart(x: nat, b: nat, m: nat)
    requires IsPrime(m) && 0 < b < x < m && MulMod(x, x, m) == MulMod(b, b, m)
    ensures x + b == m
  {
    var k := ModEqual(x * x, b * b, m);
    assert (x - b) * (x + b) == 0 + k * m;
    ModShift(0, k, m);
    ModSmall(0, m);
    NoZeroDivisors(x - b, x + b, m);
    ModSmall(0, m);
    var q := ModEqual(x + b, m, m) by { ModIs(m, 1, 0, m); }
    SmallMultiple(q, m);
  }

  // With a square root b of a, all units but b and -b pair up.
  lemma RestOfRootsIsPaired(a: nat, b: nat, m: nat)
    requires IsPrime(m) && Root(b, a, m)
    ensures Paired(Units(m) - {b} - {m - b}, a, m)
  {
    hide MulMod;
    Negative(b, m);
    var s := Units(m) - {b} - {m - b};
    forall x, y | x in s && IsUnit(y, m) && MulMod(x, y, m) == Rem(a, m) ensures y in s && y != x {
      MulCommutes(x, y, m);
      if y == b { Cancel(b, x, b, m); }
      if y == m - b { Cancel(m - b, x, m - b, m); }
      if y == x { OnlyTwoRoots(x, b, m); }
    }
  }

  lemma SquarePower(a: nat, b: nat, m: nat)
    requires m > 1 && IsPrime(m) && m % 2 == 1 && Rem(a, m) != 0 && Root(b, a, m)
    ensures Rem(Product(Units(m), m) + PowMod(a, (m - 1) / 2, m), m) == 0
  {
    hide MulMod, Product, PowMod, Paired, IsPrime, Units, Rem, Root;
    var rest := Units(m) - {b} - {m - b};
    RestOfRootsIsPaired(a, b, m);
    RootIsUnit(a, b, m);
    RestOfRootsCount(b, m);
    PairedProduct(rest, a, m);
    var q := Product(rest, m);
    ProductTake(Units(m), b, m);
    ProductTake(Units(m) - {b}, m - b, m);
    MulAssociates(b, m - b, q, m);
    PowStep(a, |rest| / 2, m);
    OppositeRoots(a, b, m);
    Opposites(MulMod(b, m - b, m), a, q, m);
  }

  lemma RootIsUnit(a: nat, b: nat, m: nat)
    requires m > 0 && Root(b, a, m)
    ensures 0 < b < m
  {
  }

  lemma RestOfRootsCount(b: nat, m: nat)
    requires m % 2 == 1 && 0 < b < m
    ensures b in Units(m) && m - b in Units(m) - {b}
    ensures (m - 1) / 2 == |Units(m) - {b} - {m - b}| / 2 + 1
  {
    UnitsCount(m);
    assert IsUnit(b, m) && IsUnit(m - b, m);
    assert |Units(m)| == |Units(m) - {b} - {m - b}| + 2;
  }

  lemma OppositeRoots(a: nat, b: nat, m: nat)
    requires m > 0 && Root(b, a, m)
    ensures Rem(MulMod(b, m - b, m) + a, m) == 0
  {
    Negative(b, m);
    ModAdd(-(b * b), a, m);
    Plus(a, b * b, -(b * b), m);
    ModSmall(0, m);
    assert a + -(b * b) == -(b * b) + a;
  }

  lemma Opposites(c: nat, a: nat, q: nat, m: nat)
    requires m > 0 && Rem(c + a, m) == 0
    ensures Rem(MulMod(c, q, m) + MulMod(a, q, m), m) == 0
  {
    var x, y := c * q, a * q;
    ModAdd(x, y % m, m);
    ModAdd(y, x, m);
    assert x + y % m == y % m + x && y + x == (c + a) * q;
    ModSmall(0, m);
    Times(c + a, 0, q, m);
  }

  lemma {:induction false} OnePower(e: nat, m: nat)
    requires m > 1
    ensures PowMod(1, e, m) == 1
  {
    if e > 0 {
      OnePower(e - 1, m);
      ModSmall(1, m);
    }
  }

  // The product of all units is -1.
  lemma Wilson(m: nat)
    requires IsPrime(m) && m % 2 == 1
    ensures Product(Units(m), m) == m - 1
  {
    hide Product, PowMod;
    ModSmall(1, m);
    assert Root(1, 1, m);
    SquarePower(1, 1, m);
    OnePower((m - 1) / 2, m);
    Complement(Product(Units(m), m), 1, m);
  }

  lemma Complement(x: nat, y: nat, m: nat)
    requires x < m && 0 < y < m && Rem(x + y, m) == 0
    ensures x + y == m
  {
    var q := (x + y) / m;
    assert x + y == q * m == (q - 1) * m + m;
    if q >= 2 { AtLeast(q - 1, m); }
  }

  lemma {:induction false} ZeroPower(a: nat, e: nat, m: nat)
    requires m > 1 && Rem(a, m) == 0 && e > 0
    ensures PowMod(a, e, m) == 0
  {
    ModSmall(0, m);
    Times(a, 0, PowMod(a, e - 1, m), m);
  }

  // For an odd prime the number tested is always 0, 1 or 2, and it is 2 exactly for the non-zero squares.
  lemma EulerCriterion(a: nat, m: nat)
    requires IsPrime(m) && m % 2 == 1
    ensures TestValue(a, m) == if Rem(a, m) == 0 then 1 else if IsSquare(a, m) then 2 else 0
  {
    hide Product, PowMod, MulMod;
    var e := (m - 1) / 2;
    var p := PowMod(a, e, m);
    if Rem(a, m) == 0 {
      ZeroPower(a, e, m);
      ModSmall(1, m);
    } else {
      Wilson(m);
      if IsSquare(a, m) {
        var b :| Root(b, a, m);
        SquarePower(a, b, m);
        PositiveComplement(m - 1, p, m);
        ModSmall(2, m);
      } else {
        NonSquarePower(a, m);
        ModIs(m, 1, 0, m);
      }
    }
  }

  lemma PositiveComplement(x: nat, y: nat, m: nat)
    requires 0 < x < m && y < m && Rem(x + y, m) == 0
    ensures x + y == m
  {
    if y == 0 { ModSmall(x, m); }
    Complement(y, x, m);
  }

  // Acceptance is closed under products.
  lemma ProductAccepted(a: nat, b: nat, m: nat)
    requires IsPrime(m) && m % 2 == 1 && TestValue(a, m) == 2 && TestValue(b, m) == 2
    ensures TestValue(a * b, m) == 2
  {
    hide PowMod, MulMod, TestValue, Rem;
    EulerCriterion(a, m);
    EulerCriterion(b, m);
    var x :| Root(x, a, m);
    var y :| Root(y, b, m);
    ProductRoot(x, a, y, b, m);
    EulerCriterion(a * b, m);
  }

  lemma ProductRoot(x: nat, a: nat, y: nat, b: nat, m: nat)
    requires IsPrime(m) && Root(x, a, m) && Root(y, b, m) && Rem(a, m) != 0 && Rem(b, m) != 0
    ensures Root(MulMod(x, y, m), a * b, m) && Rem(a * b, m) != 0
  {
    hide MulMod, Rem, IsPrime;
    MulSquares(x, y, m);
    MulReduces(a, Rem(b, m), m);
    MulCommutes(a, Rem(b, m), m);
    MulReduces(b, a, m);
    MulCommutes(b, a, m);
    NotZero(x, y, m);
    NotZero(a, b, m);
  }

  lemma NotZero(a: nat, b: nat, m: nat)
    requires m > 0 && IsPrime(m) && (0 < a < m || Rem(a, m) != 0) && (0 < b < m || Rem(b, m) != 0)
    ensures MulMod(a, b, m) == Rem(a * b, m) != 0
  {
    if 0 < a < m { ModSmall(a, m); }
    if 0 < b < m { ModSmall(b, m); }
    if MulMod(a, b, m) == 0 { NoZeroProduct(a, b, m); }
  }

  lemma NoZeroProduct(a: nat, b: nat, m: nat)
    requires IsPrime(m) && Rem(a, m) != 0 && (a * b) % m == 0
    ensures Rem(b, m) == 0
  {
    ModMul(a, b, m);
    NoZeroDivisors(a % m, b, m);
  }

  lemma MulSquares(x: nat, y: nat, m: nat)
    requires m > 0
    ensures var z := MulMod(x, y, m); MulMod(z, z, m) == MulMod(MulMod(x, x, m), MulMod(y, y, m), m)
  {
    hide MulMod;
    MulAssociates(x, y, MulMod(x, y, m), m);
    MulSwaps(y, x, y, m);
    MulAssociates(x, x, MulMod(y, y, m), m);
  }
}
