/** Comparison of list-view DECIMAL values: 96-bit mantissas with a decimal scale and a sign.

    The code compares without division or big integers. It repeatedly multiplies the operand of smaller
    scale by a power of ten, in three 32-bit limbs, until the scales meet, the mantissas settle the matter, or
    the product leaves 96 bits. The specification is the order of the rational numbers themselves. */
module DecimalCompare {
  import opened Common

  const TWO64: nat := 0x1_0000_0000_0000_0000
  const TWO96: nat := 0x1_0000_0000_0000_0000_0000_0000
  const DECIMAL_NEG: nat := 0x80

  /** A DECIMAL: `Lo64` of the original is the pair (mid, lo). */
  datatype Decimal = Decimal(hi: uint32, mid: uint32, lo: uint32, scale: uint8, sign: uint8) {
    function Lo64(): nat { mid * TWO32 + lo }

    function Mantissa(): nat { hi * TWO64 + mid * TWO32 + lo }

    predicate Negative() { (sign / DECIMAL_NEG) % 2 == 1 }

    function Signed(): int { if Negative() then 0 - Mantissa() else Mantissa() }

    /** The number the DECIMAL stands for. */
    ghost function Value(): real { Signed() as real / Pow10(scale) as real }
  }

  function Pow10(n: nat): (p: nat)
    ensures p >= 1
  {
    if n == 0 then 1 else 10 * Pow10(n - 1)
  }

  lemma {:induction false} Pow10Sum(a: nat, b: nat)
    ensures Pow10(a + b) == Pow10(a) * Pow10(b)
  {
    if a != 0 { Pow10Sum(a - 1, b); }
  }

  /** -1, 0 or 1 as `a` is below, equal to or above `b`. */
  ghost function Sign3(a: real, b: real): int {
    if a < b then -1 else if a > b then 1 else 0
  }

  /** The order of two DECIMALs: the order of the numbers they stand for. */
  ghost function Order(l: Decimal, r: Decimal): int { Sign3(l.Value(), r.Value()) }

  /** The callback's order is a total preorder; equal numbers of different scale compare as equal. */
  lemma OrderIsTotalPreorder(a: Decimal, b: Decimal, c: Decimal)
    ensures Order(a, a) == 0 && Order(a, b) == -Order(b, a)
    ensures Order(a, b) <= 0 && Order(b, c) <= 0 ==> Order(a, c) <= 0
    ensures Order(a, b) == 0 <==> a.Value() == b.Value()
  {
  }

  // ---------- rational order by cross-multiplication ----------

  lemma RatioOrder(a: int, x: nat, b: int, y: nat)
    requires x > 0 && y > 0
    ensures a as real / x as real < b as real / y as real <==> a * y < b * x
    ensures a as real / x as real > b as real / y as real <==> a * y > b * x
  {
    var p, q, xr, yr := a as real / x as real, b as real / y as real, x as real, y as real;
    assert p * xr == a as real && q * yr == b as real;
    var m := xr * yr;
    assert m > 0.0;
    assert p * m == (a * y) as real by {
      assert p * m == (p * xr) * yr;
      assert (a * y) as real == a as real * yr;
    }
    assert q * m == (b * x) as real by {
      assert q * m == (q * yr) * xr;
      assert (b * x) as real == b as real * xr;
    }
    if p < q {
      assert (q - p) * m > 0.0;
      assert q * m - p * m == (q - p) * m;
    } else if p > q {
      assert (p - q) * m > 0.0;
      assert p * m - q * m == (p - q) * m;
    }
  }

  /** The order of two DECIMALs is the order of the cross products. */
  lemma OrderByCrossProduct(l: Decimal, r: Decimal)
    ensures var a, b := l.Signed() * Pow10(r.scale), r.Signed() * Pow10(l.scale);
            Order(l, r) == (if a < b then -1 else if a > b then 1 else 0)
  {
    RatioOrder(l.Signed(), Pow10(l.scale), r.Signed(), Pow10(r.scale));
  }

  /** The same from the bytes: the highest bit of the sign byte makes a number negative, and the order of two
      magnitudes is that of their cross products. */
  lemma OrderFromBytes(l: Decimal, r: Decimal)
    ensures AsBytesSay(l, r, Order(l, r))
  {
    OrderByCrossProduct(l, r);
    SignOfCrossProduct(l.Mantissa(), Pow10(r.scale));
    SignOfCrossProduct(r.Mantissa(), Pow10(l.scale));
  }

  ghost predicate AsBytesSay(l: Decimal, r: Decimal, order: int) {
    var a := (l.hi * TWO64 + l.mid * TWO32 + l.lo) * Pow10(r.scale);
    var b := (r.hi * TWO64 + r.mid * TWO32 + r.lo) * Pow10(l.scale);
    && (l.sign < 0x80 && r.sign < 0x80 ==> order == if a < b then -1 else if a > b then 1 else 0)
    && (l.sign >= 0x80 && r.sign >= 0x80 ==> order == if a < b then 1 else if a > b then -1 else 0)
    && (l.sign < 0x80 <= r.sign ==> order == if a == 0 && b == 0 then 0 else 1)
    && (r.sign < 0x80 <= l.sign ==> order == if a == 0 && b == 0 then 0 else -1)
  }

  // ---------- the code ----------

  const VARCMP_LT: int := 0
  const VARCMP_EQ: int := 1
  const VARCMP_GT: int := 2
  const VARCMP_NULL: int := 3

  const POWERS_OF_TEN: seq<nat> := [10, 100, 1000, 10000, 100000, 1000000, 10000000, 100000000, 1000000000]

  lemma PowerTable(digits: nat)
    requires 1 <= digits <= |POWERS_OF_TEN|
    ensures POWERS_OF_TEN[digits - 1] == Pow10(digits) <= 1000000000
  {
    assert Pow10(3) == 1000;
    assert Pow10(6) == 1000000;
  }

  function CompareMantissas(l: Decimal, r: Decimal): (c: int)
    ensures c == (if l.Mantissa() < r.Mantissa() then -1 else if l.Mantissa() > r.Mantissa() then 1 else 0)
  {
    if l.hi < r.hi then -1
    else if l.hi > r.hi then 1
    else if l.Lo64() < r.Lo64() then -1
    else if l.Lo64() > r.Lo64() then 1
    else 0
  }

  /** Limb-wise multiplication: the carries assemble the exact product. */
  lemma LimbProduct(hi: nat, mid: nat, lo: nat, power: nat, p0: nat, p1: nat, p2: nat)
    requires p0 == lo * power
    requires p1 == mid * power + p0 / TWO32
    requires p2 == hi * power + p1 / TWO32
    ensures (hi * TWO64 + mid * TWO32 + lo) * power == p2 * TWO64 + (p1 % TWO32) * TWO32 + p0 % TWO32
  {
    assert p0 == (p0 / TWO32) * TWO32 + p0 % TWO32;
    assert p1 == (p1 / TWO32) * TWO32 + p1 % TWO32;
    var h, m, l := hi * power, mid * power, lo * power;
    assert (hi * TWO64 + mid * TWO32 + lo) * power == h * TWO64 + m * TWO32 + l;
  }

  /** A number with at most the scale of another and the larger mantissa, or a strictly smaller scale and a
      mantissa at least as large, is the larger one. */
  lemma SettledByMantissa(m: nat, ms: nat, n: nat, ns: nat)
    requires ms <= ns && m > 0 && m >= n && (m > n || ms < ns)
    ensures m * Pow10(ns) > n * Pow10(ms)
  {
    var p, q := Pow10(ms), Pow10(ns - ms);
    Pow10Sum(ms, ns - ms);
    Assoc(m, p, q);
    if m > n { MulMono(1, q, m); } else { MulMono(10, q, m); }
    CancelOrder(m * q, n, p);
  }

  /** A limb times a table entry plus a carry fits the 64-bit product. */
  lemma ProductFits(limb: uint32, power: nat, carry: nat)
    requires power <= 1000000000 && carry < TWO32
    ensures limb * power + carry < TWO64
    ensures limb * power + carry >= 0
  {
    ProductBound(limb, power, TWO32, 1000000000);
  }

  lemma ProductBound(x: nat, y: nat, maxX: nat, maxY: nat)
    requires x <= maxX && y <= maxY
    ensures 0 <= x * y <= maxX * maxY
  {
    MulMono(x, maxX, y);
    MulMono(y, maxY, maxX);
  }

  lemma Assoc(a: int, b: int, c: int)
    ensures a * (b * c) == (a * b) * c == (a * c) * b
  {
  }

  /** Scaling by 10^k multiplies both cross products by 10^k, so it keeps their order. */
  lemma OrderAfterScaling(m: nat, s: nat, k: nat, n: nat, ns: nat)
    ensures var a, b := m * Pow10(ns), n * Pow10(s);
            var c, d := (m * Pow10(k)) * Pow10(ns), n * Pow10(s + k);
            (a < b <==> c < d) && (a > b <==> c > d)
  {
    Pow10Sum(s, k);
    Assoc(m, Pow10(k), Pow10(ns));
    Assoc(n, Pow10(s), Pow10(k));
    CancelOrder(m * Pow10(ns), n * Pow10(s), Pow10(k));
  }

  lemma CancelOrder(a: nat, b: nat, c: nat)
    requires c >= 1
    ensures a < b <==> a * c < b * c
    ensures a > b <==> a * c > b * c
  {
    if a < b { MulMono(a + 1, b, c); } else if a > b { MulMono(b + 1, a, c); }
  }

  /** A product beyond 96 bits settles the comparison: the other mantissa cannot reach it. */
  lemma SettledByOverflow(m: nat, s: nat, k: nat, n: nat, ns: nat)
    requires m * Pow10(k) >= TWO96 > n && s + k <= ns
    ensures m * Pow10(ns) > n * Pow10(s)
  {
    var big := m * Pow10(k);
    SettledByMantissa(big, s + k, n, ns);
    OrderAfterScaling(m, s, k, n, ns);
  }

  method VarDecCmp(left: Option<Decimal>, right: Option<Decimal>) returns (hr: int)
    ensures hr == (if left.None? || right.None? then VARCMP_NULL else VARCMP_EQ + Order(left.value, right.value))
    ensures left.Some? && right.Some? ==> AsBytesSay(left.value, right.value, hr - 1)
  {
    if left.None? || right.None? {
      return VARCMP_NULL;
    }
    var l, r := left.value, right.value;
    OrderByCrossProduct(l, r);
    OrderFromBytes(l, r);
    ghost var pl, pr := Pow10(l.scale), Pow10(r.scale);

    // Degenerate case: a zero of any sign and scale.
    var leftZero := l.Lo64() == 0 && l.hi == 0;
    var rightZero := r.Lo64() == 0 && r.hi == 0;
    assert leftZero <==> l.Mantissa() == 0;
    assert rightZero <==> r.Mantissa() == 0;
    SignOfCrossProduct(l.Mantissa(), pr);
    SignOfCrossProduct(r.Mantissa(), pl);
    if leftZero && rightZero {
      return VARCMP_EQ;
    }
    var leftNeg, rightNeg := l.Negative(), r.Negative();
    if leftZero {
      return if rightNeg then VARCMP_GT else VARCMP_LT;
    }
    if rightZero || leftNeg != rightNeg {
      return if leftNeg then VARCMP_LT else VARCMP_GT;
    }

    // Same sign: `temp` is the operand of smaller or equal scale, `other` the one it is compared with.
    var temp, other: Decimal;
    var invert := leftNeg;
    if l.scale < r.scale {
      temp, other := l, r;
    } else {
      temp, other := r, l;
      invert := !invert;
    }
    var comp := CompareMagnitudes(temp, other);
    if invert {
      comp := -comp;
    }
    return if comp > 0 then VARCMP_GT else if comp < 0 then VARCMP_LT else VARCMP_EQ;
  }

  lemma SignOfCrossProduct(m: nat, p: nat)
    requires p >= 1
    ensures m > 0 ==> m * p > 0
    ensures (0 - m) * p == 0 - m * p
  {
  }

  /** One scaling pass: multiplies the limbs of `temp` by 10^digits. On overflow the low limbs are already
      overwritten, but the scale is not. */
  method ScaleUp(temp: Decimal, digits: nat) returns (next: Decimal, overflow: bool)
    requires 1 <= digits <= |POWERS_OF_TEN| && temp.scale + digits < 0x100
    ensures overflow <==> temp.Mantissa() * Pow10(digits) >= TWO96
    ensures next.scale == if overflow then temp.scale else temp.scale + digits
    ensures !overflow ==> next.Mantissa() == temp.Mantissa() * Pow10(digits)
  {
    var power := POWERS_OF_TEN[digits - 1];
    PowerTable(digits);
    next := temp;
    ProductFits(next.lo, power, 0);
    var p0: nat := next.lo * power;
    var carry := p0 / TWO32;
    next := next.(lo := p0 % TWO32);
    ProductFits(next.mid, power, carry);
    var p1: nat := next.mid * power + carry;
    carry := p1 / TWO32;
    next := next.(mid := p1 % TWO32);
    ProductFits(next.hi, power, carry);
    var p2: nat := next.hi * power + carry;
    LimbProduct(temp.hi, temp.mid, temp.lo, power, p0, p1, p2);
    overflow := p2 / TWO32 != 0;
    if !overflow {
      next := next.(hi := p2, scale := next.scale + digits);
    }
  }

  /** The scaling loop of VarDecCmp on two non-zero mantissas. */
  method CompareMagnitudes(small: Decimal, other: Decimal) returns (comp: int)
    requires small.scale <= other.scale && small.Mantissa() > 0 && other.Mantissa() > 0
    ensures var a, b := small.Mantissa() * Pow10(other.scale), other.Mantissa() * Pow10(small.scale);
            comp == (if a < b then -1 else if a > b then 1 else 0)
  {
    var temp := small;
    ghost var m, n, k: nat := small.Mantissa(), other.Mantissa(), 0;  // k digits appended so far
    ghost var overflowed := false;
    comp := CompareMantissas(temp, other);
    while comp < 0 && temp.scale < other.scale
      invariant !overflowed && temp.scale == small.scale + k && temp.scale <= other.scale
      invariant temp.Mantissa() == m * Pow10(k)
      invariant comp == CompareMantissas(temp, other)
      decreases other.scale - temp.scale
    {
      var digits: int := other.scale - temp.scale;
      if digits > |POWERS_OF_TEN| {
        digits := |POWERS_OF_TEN|;  // keep the multiplier in 32 bits
      }
      Pow10Sum(k, digits);
      Assoc(m, Pow10(k), Pow10(digits));
      var overflow;
      temp, overflow := ScaleUp(temp, digits);
      if overflow {
        SettledByOverflow(m, small.scale, k + digits, n, other.scale);
        overflowed := true;
        break;
      }
      k := k + digits;
      comp := CompareMantissas(temp, other);
    }
    OrderAfterScaling(m, small.scale, k, n, other.scale);
    if temp.scale < other.scale {
      if !overflowed { SettledByMantissa(temp.Mantissa(), temp.scale, n, other.scale); }
      comp := 1;
    } else {
      CancelOrder(temp.Mantissa(), n, Pow10(other.scale));
    }
  }

  /** The list-view comparison callback. */
  method LVCompareDecimal(l: Decimal, r: Decimal, descending: bool) returns (ret: int)
    ensures ret == if descending then -Order(l, r) else Order(l, r)
    ensures AsBytesSay(l, r, if descending then -ret else ret)
  {
    var hr := VarDecCmp(Some(l), Some(r));
    ret := hr - 1;
    if descending {
      ret := -ret;
    }
  }
}
