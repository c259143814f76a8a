/** Random bytes that look like a key of a real client (check_tls.cpp, lines 26-42 and 68-93): x is accepted if it
    is the coordinate of a point of the curve of section 4.1 of RFC 7748 and a square itself. */
module KeyGeneration {
  import opened Basics
  import opened Modular
  import opened QuadraticResidue

  // The modulus and the exponent as written in the source
  const MODULUS: nat := 0x7fffffffffffffffffffffffffffffffffffffffffffffffffffffffffffffed
  const EXPONENT: nat := 0x3ffffffffffffffffffffffffffffffffffffffffffffffffffffffffffffff6

  lemma ExponentIsHalf()
    ensures MODULUS % 2 == 1 && EXPONENT == (MODULUS - 1) / 2
  {
  }

  // BigNum::from_le_binary
  function LittleEndian(key: seq<Byte>): nat {
    if key == [] then 0 else key[0] + 256 * LittleEndian(key[1..])
  }

  // Adding a digit on top
  lemma {:induction false} LittleEndianTop(key: seq<Byte>)
    requires key != []
    ensures LittleEndian(key) == LittleEndian(key[..|key| - 1]) + key[|key| - 1] * Power(256, |key| - 1)
  {
    if |key| > 1 {
      var n, p := |key| - 1, Power(256, |key| - 2);
      LittleEndianTop(key[1..]);
      assert key[1..][..n - 1] == key[..n][1..];
      assert 256 * (key[n] * p) == key[n] * (p * 256);
    }
  }

  // The number is below 256^|key| and byte i is its i-th digit to base 256.
  lemma {:induction false} DigitsAre(key: seq<Byte>, i: nat)
    requires i < |key|
    ensures LittleEndian(key) < Power(256, |key|)
    ensures (LittleEndian(key) / Power(256, i)) % 256 == key[i]
  {
    Below(key);
    if i == 0 {
      ModIs(LittleEndian(key), LittleEndian(key[1..]), key[0], 256);
    } else {
      var rest, p := LittleEndian(key[1..]), Power(256, i - 1);
      DigitsAre(key[1..], i - 1);
      DivideTwice(key[0], rest, p);
    }
  }

  lemma {:induction false} Below(key: seq<Byte>)
    ensures LittleEndian(key) < Power(256, |key|)
  {
    if key != [] { Below(key[1..]); }
  }

  lemma DivideTwice(low: nat, high: nat, p: nat)
    requires low < 256 && p > 0
    ensures (low + 256 * high) / (p * 256) == high / p
  {
    var q, r := high / p, high % p;
    assert high == q * p + r;
    assert 256 * high == q * (p * 256) + 256 * r by { assert 256 * (q * p) == q * (p * 256); }
    ModIs(low + 256 * high, q, low + 256 * r, p * 256);
  }

  // The mod_add and mod_mul steps that lead from x to y
  function CurveSteps(x: nat, m: nat): nat
    requires m > 0
  {
    MulMod((MulMod((x + 486662) % m, x, m) + 1) % m, x, m)
  }

  lemma CurveValue(x: nat, m: nat)
    requires m > 0
    ensures CurveSteps(x, m) == (x * x * x + 486662 * x * x + x) % m
  {
    var s := (x + 486662) * x;
    ModMul(x + 486662, x, m);
    ModAdd(s, 1, m);
    ModMul(s + 1, x, m);
    assert (s + 1) * x == x * x * x + 486662 * x * x + x;
  }

  ghost predicate NonZeroSquare(a: nat, m: nat)
    requires m > 0
  {
    a % m != 0 && IsSquare(a, m)
  }

  ghost predicate Acceptable(key: seq<Byte>, m: nat)
    requires m > 0
  {
    var x := LittleEndian(key);
    NonZeroSquare(x, m) && NonZeroSquare(x * x * x + 486662 * x * x + x, m)
  }

  // The top bit of the last byte is cleared.
  function Masked(draw: seq<Byte>): seq<Byte>
    requires |draw| == 32
  {
    draw[31 := draw[31] % 128]
  }

  lemma TopBit()
    ensures Power(2, 255) == 128 * Power(256, 31)
  {
    PowerOfBytes(31);
    PowerAdd(2, 248, 7);
    SmallPowers();
  }

  lemma SmallPowers()
    ensures Power(2, 7) == 128 && Power(2, 8) == 256
  {
    assert Power(2, 1) == 2;
    assert Power(2, 3) == 8;
    assert Power(2, 5) == 32;
  }

  lemma {:induction false} PowerOfBytes(n: nat)
    ensures Power(256, n) == Power(2, 8 * n)
  {
    if n > 0 {
      PowerOfBytes(n - 1);
      PowerAdd(2, 8 * n - 8, 8);
      SmallPowers();
    }
  }

  // Masking keeps the number modulo 2^255.
  lemma MaskedIs(draw: seq<Byte>)
    requires |draw| == 32
    ensures LittleEndian(Masked(draw)) == LittleEndian(draw) % Power(2, 255)
  {
    hide LittleEndian, Power;
    var masked, p := Masked(draw), Power(256, 31);
    LittleEndianTop(draw);
    LittleEndianTop(masked);
    assert masked[..31] == draw[..31];
    Below(draw[..31]);
    TopBit();
    var low, top := LittleEndian(draw[..31]), draw[31];
    TopDigit(low, top, p);
  }

  lemma SplitTop(q: nat, r: nat, p: nat)
    requires r < 128
    ensures (q * 128 + r) * p == q * (128 * p) + r * p && r * p <= 127 * p
  {
    var t := q * 128;
    assert (t + r) * p == t * p + r * p;
    assert t * p == q * (128 * p);
  }

  lemma TopDigit(low: nat, top: nat, p: nat)
    requires low < p
    ensures (low + top * p) % (128 * p) == low + (top % 128) * p
  {
    var q, r := top / 128, top % 128;
    SplitTop(q, r, p);
    var m := 128 * p;
    assert low + top * p == q * m + (low + r * p);
    ModIs(low + top * p, q, low + r * p, m);
  }

  lemma AcceptedMeans(key: seq<Byte>, m: nat)
    requires IsPrime(m) && m % 2 == 1
    ensures var x := LittleEndian(key);
            Acceptable(key, m) <==> TestValue(x, m) == 2 && TestValue(CurveSteps(x, m), m) == 2
  {
    var x := LittleEndian(key);
    var y := x * x * x + 486662 * x * x + x;
    CurveValue(x, m);
    EulerCriterion(x, m);
    EulerCriterion(CurveSteps(x, m), m);
    SquareReduces(y, m);
  }

  lemma SquareReduces(y: nat, m: nat)
    requires m > 0
    ensures NonZeroSquare(y, m) <==> NonZeroSquare(y % m, m)
  {
    hide MulMod;
    ModSmall(y % m, m);
    if IsSquare(y, m) {
      var b :| Root(b, y, m);
      assert Root(b, y % m, m);
    }
    if IsSquare(y % m, m) {
      var b :| Root(b, y % m, m);
      assert Root(b, y, m);
    }
  }

  datatype Key = NoKey | Key(bytes: seq<Byte>, drawn: nat)

  // add_key, with the random draws as an argument: the key is the first draw that is acceptable.
  method AddKey(draws: seq<seq<Byte>>, m: nat) returns (key: Key)
    requires IsPrime(m) && m % 2 == 1 && forall i | 0 <= i < |draws| :: |draws[i]| == 32
    ensures key.NoKey? ==> forall i | 0 <= i < |draws| :: !Acceptable(Masked(draws[i]), m)
    ensures key.Key? ==>
              && key.drawn < |draws| && key.bytes == Masked(draws[key.drawn]) && Acceptable(key.bytes, m)
              && (forall i | 0 <= i < key.drawn :: !Acceptable(Masked(draws[i]), m))
  {
    hide Acceptable, TestValue, CurveSteps, LittleEndian, Masked;
    for i := 0 to |draws|
      invariant forall j | 0 <= j < i :: !Acceptable(Masked(draws[j]), m)
    {
      var bytes := Masked(draws[i]);
      var x := LittleEndian(bytes);
      AcceptedMeans(bytes, m);
      if TestValue(x, m) == 2 {
        var y := CurveSteps(x, m);
        if TestValue(y, m) == 2 {
          return Key(bytes, i);
        }
      }
    }
    key := NoKey;
  }
}
