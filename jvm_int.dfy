/**
 * Kotlin's Int and Long: two's-complement wrap-around of + - * and unary
 * minus, division and remainder that truncate toward zero, and
 * String.toInt / String.toLong (which reject text outside the range).
 */
module JvmInt {
  import opened Outcomes
  import Text

  const IntModulus: int := 0x1_0000_0000
  const MinInt: int := -0x8000_0000
  const MaxInt: int := 0x7fff_ffff
  const LongModulus: int := 0x1_0000_0000_0000_0000
  const MinLong: int := -0x8000_0000_0000_0000
  const MaxLong: int := 0x7fff_ffff_ffff_ffff

  predicate IsInt(n: int)
  {
    MinInt <= n <= MaxInt
  }

  predicate IsLong(n: int)
  {
    MinLong <= n <= MaxLong
  }

  /** The Int that the JVM keeps of the exact result `n`. */
  function WrapInt(n: int): (r: int)
    ensures IsInt(r) && (r - n) % IntModulus == 0
    ensures IsInt(n) ==> r == n
  {
    (n - MinInt) % IntModulus + MinInt
  }

  /** The Long that the JVM keeps of the exact result `n`. */
  function WrapLong(n: int): (r: int)
    ensures IsLong(r) && (r - n) % LongModulus == 0
    ensures IsLong(n) ==> r == n
  {
    (n - MinLong) % LongModulus + MinLong
  }

  function Abs(n: int): nat
  {
    if n < 0 then -n else n
  }

  /** The exact quotient rounded toward zero (before any wrap-around). */
  function TruncDiv(a: int, b: int): int
    requires b != 0
  {
    if (a < 0) == (b < 0) then Abs(a) / Abs(b) else -(Abs(a) / Abs(b))
  }

  /** The remainder of truncating division: the sign of `a`, the size |a| % |b|. */
  function TruncRem(a: int, b: int): int
    requires b != 0
  {
    if a < 0 then -(Abs(a) % Abs(b)) else Abs(a) % Abs(b)
  }

  /**
   * JVM division and remainder fit together: `a == b * q + r` with the
   * truncated quotient `q` and a remainder `r` smaller than the divisor that
   * takes the sign of the dividend.
   */
  lemma TruncDivision(a: int, b: int)
    requires b != 0
    ensures a == b * TruncDiv(a, b) + TruncRem(a, b)
    ensures Abs(TruncRem(a, b)) < Abs(b)
    ensures TruncRem(a, b) == 0 || (TruncRem(a, b) < 0 <==> a < 0)
  {
    TruncIdentity(a, b);
    var m: int := Abs(a) % Abs(b);
    NatDivMod(Abs(a), Abs(b));
    assert TruncRem(a, b) == if a < 0 then -m else m;
  }

  lemma TruncIdentity(a: int, b: int)
    requires b != 0
    ensures a == b * TruncDiv(a, b) + TruncRem(a, b)
  {
    var A, B := Abs(a), Abs(b);
    var q: int, m: int := A / B, A % B;
    NatDivMod(A, B);
    var t := TruncDiv(a, b);
    var p := B * q;
    assert A == p + m;
    if a >= 0 && b > 0 {
      assert b * t == p;
    } else if a >= 0 {
      assert t == -q && b == -B;
      MulSigns(B, q);
      assert b * t == p;
    } else if b > 0 {
      assert t == -q && b == B;
      MulSigns(B, q);
      assert b * t == -p;
    } else {
      assert t == q && b == -B;
      MulSigns(B, q);
      assert b * t == -p;
    }
  }

  lemma NatDivMod(x: nat, y: nat)
    requires y > 0
    ensures x == y * (x / y) + x % y && 0 <= x % y < y
  {
  }

  lemma MulSigns(x: int, y: int)
    ensures (-x) * (-y) == x * y && (-x) * y == -(x * y) && x * (-y) == -(x * y)
  {
  }

  /** Adding one to a Long: exact below Long.MAX_VALUE, Long.MIN_VALUE from it. */
  lemma LongSuccessor(m: int)
    requires IsLong(m)
    ensures WrapLong(m + 1) == if m == MaxLong then MinLong else m + 1
  {
    if m == MaxLong {
      assert m + 1 - MinLong == LongModulus;
    }
  }

  /** Kotlin `a + b`, `a - b`, `a * b` and `-a` on Int. */
  function IntAdd(a: int, b: int): int { WrapInt(a + b) }
  function IntSub(a: int, b: int): int { WrapInt(a - b) }
  function IntMul(a: int, b: int): int { WrapInt(a * b) }
  function IntNeg(a: int): int { WrapInt(-a) }

  /** Kotlin `a / b` on Int: truncating; only MinInt / -1 wraps (to MinInt). */
  function IntDiv(a: int, b: int): int
    requires b != 0
  {
    WrapInt(TruncDiv(a, b))
  }

  /** Kotlin `a % b` on Int: the remainder of truncating division. */
  function IntRem(a: int, b: int): (r: int)
    requires b != 0
  {
    TruncRem(a, b)
  }

  /** Kotlin's `%` on Int values never leaves the Int range. */
  lemma IntRemInRange(a: int, b: int)
    requires IsInt(a) && IsInt(b) && b != 0
    ensures IsInt(IntRem(a, b))
  {
    TruncDivision(a, b);
  }

  lemma WrapIntShift(n: int, k: int)
    ensures WrapInt(n + k * IntModulus) == WrapInt(n)
  {
  }

  /** Shifting a factor by a multiple of 2^32 leaves the wrapped product unchanged. */
  lemma WrapIntProduct(x: int, b: int, r: int)
    ensures WrapInt(WrapInt(x) * b + r) == WrapInt(x * b + r)
  {
    var k := (WrapInt(x) - x) / IntModulus;
    assert WrapInt(x) == x + k * IntModulus;
    assert WrapInt(x) * b + r == x * b + r + (k * b) * IntModulus;
    WrapIntShift(x * b + r, k * b);
  }

  /**
   * Kotlin's Int division and remainder fit together on every Int input:
   * `(a / b) * b + a % b == a`, wrap-around included (MinInt / -1 too).
   */
  lemma IntDivRemIdentity(a: int, b: int)
    requires IsInt(a) && IsInt(b) && b != 0
    ensures IntAdd(IntMul(IntDiv(a, b), b), IntRem(a, b)) == a
  {
    var q := TruncDiv(a, b);
    TruncDivision(a, b);
    IntRemInRange(a, b);
    var p := WrapInt(WrapInt(q) * b);
    assert (p - WrapInt(q) * b) % IntModulus == 0;
    var k := (p - WrapInt(q) * b) / IntModulus;
    assert p == WrapInt(q) * b + k * IntModulus;
    assert IntAdd(p, IntRem(a, b)) == WrapInt(WrapInt(q) * b + IntRem(a, b) + k * IntModulus);
    WrapIntShift(WrapInt(q) * b + IntRem(a, b), k);
    WrapIntProduct(q, b, IntRem(a, b));
  }

  /** Kotlin's `s.toInt()`, None where it throws NumberFormatException. */
  function ParseInt(s: string): (r: Option<int>)
    ensures r.Some? ==> IsInt(r.value)
  {
    match Text.ParseDecimal(s)
    case Some(n) => if IsInt(n) then Some(n) else None
    case None => None
  }

  /** Kotlin's `s.toLong()`, None where it throws NumberFormatException. */
  function ParseLong(s: string): (r: Option<int>)
    ensures r.Some? ==> IsLong(r.value)
  {
    match Text.ParseDecimal(s)
    case Some(n) => if IsLong(n) then Some(n) else None
    case None => None
  }

  /** `n.toString().toInt()` gives back every Int. */
  lemma ParseIntShowInt(n: int)
    requires IsInt(n)
    ensures ParseInt(Text.ShowInt(n)) == Some(n)
  {
    Text.ParseShowInt(n);
  }

  /** `n.toString().toLong()` gives back every Long. */
  lemma ParseLongShowInt(n: int)
    requires IsLong(n)
    ensures ParseLong(Text.ShowInt(n)) == Some(n)
  {
    Text.ParseShowInt(n);
  }
}
