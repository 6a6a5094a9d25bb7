/** Print preview: the largest centred rectangle with the page's proportions inside the given one. */
module PageFit {
  import opened Common

  const INT_MAX: int := 0x7FFF_FFFF

  /** `a * b / c`, rounded to the nearest integer. */
  function Nearest(a: nat, b: nat, c: nat): nat
    requires c > 0
  {
    (a * b + c / 2) / c
  }

  /** MulDiv of the desktop for operands that are not negative: -1 when the result does not fit. */
  function MulDiv(a: nat, b: nat, c: nat): int {
    if c == 0 || Nearest(a, b, c) > INT_MAX then -1 else Nearest(a, b, c)
  }

  lemma DivBounds(n: nat, d: nat)
    requires d > 0
    ensures n / d * d <= n < (n / d + 1) * d
  {
    var q := n / d;
    assert n == q * d + n % d;
    assert (q + 1) * d == q * d + d;
  }

  /** The rounded quotient is within half a unit of the exact one. */
  lemma WithinHalf(a: nat, b: nat, c: nat)
    requires c > 0
    ensures -(c as int) <= 2 * (Nearest(a, b, c) * c - a * b) <= c
  {
    var n := a * b + c / 2;
    DivBounds(n, c);
    var r := Nearest(a, b, c);
    assert (r + 1) * c == r * c + c;
  }

  lemma QuotientAtMost(n: nat, d: nat, q: nat)
    requires d > 0 && n < (q + 1) * d
    ensures n / d <= q
  {
    DivBounds(n, d);
    if n / d > q { MulMono(q + 1, n / d, d); }
  }

  /** The assertion in the code: when the width for the full height does not fit, the height for the full width does. */
  lemma OneSideFits(x1: nat, y1: nat, x2: nat, y2: nat)
    requires x2 > 0 && y2 > 0 && Nearest(y1, x2, y2) > x1
    ensures Nearest(x1, y2, x2) <= y1
  {
    var r := Nearest(y1, x2, y2);
    DivBounds(y1 * x2 + y2 / 2, y2);
    MulMono(x1 + 1, r, y2);
    assert (x1 + 1) * y2 == x1 * y2 + y2;
    assert x1 * y2 <= y1 * x2;
    assert (y1 + 1) * x2 == y1 * x2 + x2;
    QuotientAtMost(x1 * y2 + x2 / 2, x2, y1);
  }

  class Rect {
    var left: int
    var top: int
    var right: int
    var bottom: int
  }

  /** `r` lies in the given bounds, fills one dimension, and is centred in the other to within one pixel. */
  predicate FitsCentred(left: int, top: int, right: int, bottom: int, rl: int, rt: int, rr: int, rb: int) {
    && left <= rl <= rr <= right && top <= rt <= rb <= bottom
    && -1 <= (rl - left) - (right - rr) <= 1 && -1 <= (rt - top) - (bottom - rb) <= 1
    && ((rt == top && rb == bottom) || (rl == left && rr == right))
  }

  /** The proportions are the page's, the scaled side being within half a unit of the exact value. */
  predicate HasProportions(w: int, h: int, x2: nat, y2: nat, heightGiven: bool) {
    if heightGiven then -(y2 as int) <= 2 * (w * y2 - h * x2) <= y2 else -(x2 as int) <= 2 * (h * x2 - w * y2) <= x2
  }

  /** GetPageRect; `x2` and `y2` are the device sizes of the metafile. The rectangle is right exactly when the width
      for the full height fits an int; otherwise MulDiv's -1 passes for a width and the rectangle is inside out. */
  method GetPageRect(rc: Rect, prc: Rect, x2: nat, y2: nat)
    requires x2 > 0 && y2 > 0
    requires rc.right - rc.left <= INT_MAX && rc.bottom - rc.top <= INT_MAX  // the differences are ints
    modifies prc
    ensures var x1, y1 := old(rc.right - rc.left), old(rc.bottom - rc.top);
            if x1 < 0 || y1 < 0 then
              prc.left == old(prc.left) && prc.top == old(prc.top) && prc.right == old(prc.right) && prc.bottom == old(prc.bottom)
            else
              var heightGiven := Nearest(y1, x2, y2) <= x1;  // the full height can be used
              && (FitsCentred(old(rc.left), old(rc.top), old(rc.right), old(rc.bottom), prc.left, prc.top, prc.right, prc.bottom)
                  && HasProportions(prc.right - prc.left, prc.bottom - prc.top, x2, y2, heightGiven)
                  <==> Nearest(y1, x2, y2) <= INT_MAX)
              && (Nearest(y1, x2, y2) <= INT_MAX ==>
                    if heightGiven then prc.top == old(rc.top) && prc.bottom == old(rc.bottom)
                    else prc.left == old(rc.left) && prc.right == old(rc.right))
              && (Nearest(y1, x2, y2) > INT_MAX ==>
                    prc.left == old(rc.left) + (x1 + 1) / 2 && prc.right == prc.left - 1
                    && prc.top == old(rc.top) && prc.bottom == old(rc.bottom))
  {
    var x1 := rc.right - rc.left;
    var y1 := rc.bottom - rc.top;
    if x1 < 0 || y1 < 0 {
      return;
    }
    // the height that goes with the full width, and the width that goes with the full height
    var y1p := MulDiv(x1, y2, x2);
    var x1p := MulDiv(y1, x2, y2);
    if Nearest(y1, x2, y2) > x1 { OneSideFits(x1, y1, x2, y2); }
    WithinHalf(y1, x2, y2);
    WithinHalf(x1, y2, x2);
    if x1p <= x1 {
      prc.left := rc.left + (x1 - x1p) / 2;
      prc.right := prc.left + x1p;
      prc.top := rc.top;
      prc.bottom := rc.bottom;
    } else {
      prc.left := rc.left;
      prc.right := rc.right;
      prc.top := rc.top + (y1 - y1p) / 2;
      prc.bottom := prc.top + y1p;
    }
  }

  /** It happens: on a device as wide as an int allows and one unit high, a rectangle 100 wide and 2 high. */
  method InsideOut() returns (rc: Rect, prc: Rect)
    ensures rc.left == 0 && rc.top == 0 && rc.right == 100 && rc.bottom == 2
    ensures prc.left == 50 && prc.right == 49 && prc.top == 0 && prc.bottom == 2
  {
    rc := new Rect;
    prc := new Rect;
    rc.left, rc.top, rc.right, rc.bottom := 0, 0, 100, 2;
    GetPageRect(rc, prc, INT_MAX, 1);
  }
}
