/** SWLIBS_Inlines.h: fractional division by guessing two base-2^16 digits and correcting them. */
module FixedPoint {
  import opened Words

  const TWO_15 := 0x8000
  const TWO_16 := 0x1_0000
  const TWO_31 := 0x8000_0000
  const TWO_32 := 0x1_0000_0000

  predicate InInt32(x: int) {
    -0x8000_0000 <= x < 0x8000_0000
  }

  predicate InInt16(x: int) {
    -0x8000 <= x < 0x8000
  }

  /** What a 32-bit unsigned register keeps of a result. */
  function U32(x: int): (r: int)
    ensures 0 <= r < TWO_32 && (0 <= x < TWO_32 ==> r == x)
  {
    x % TWO_32
  }

  function Pow2(n: nat): (p: nat)
    ensures p >= 1
  {
    if n == 0 then 1 else 2 * Pow2(n - 1)
  }

  lemma {:induction false} Pow2Add(m: nat, n: nat)
    ensures Pow2(m + n) == Pow2(m) * Pow2(n)
  {
    if m > 0 {
      Pow2Add(m - 1, n);
    }
  }

  lemma Pow2Values()
    ensures Pow2(30) == TWO_31 / 2 && Pow2(31) == TWO_31
  {
    assert Pow2(5) == 32;
    Pow2Add(5, 5);
    Pow2Add(10, 5);
    Pow2Add(15, 15);
    Pow2Add(30, 1);
  }

  // ---- F32DivNorm ----

  /** The highest set bit of x lies strictly less than w places away from m. */
  ghost predicate Brackets(x: int, m: int, w: nat) {
    0 <= m && (m >= w ==> Pow2(m - w) <= x) && x < Pow2(m + w)
  }

  /** One comparison of the binary search for the highest set bit. */
  method Probe(x: int, m: int, w: nat) returns (m': int)
    requires w == 16 || w == 8 || w == 4 || w == 2
    requires 0 <= m - (w - 1) && m + (w - 1) <= 30 && x < TWO_31 && x >= 1
    requires Brackets(x, m, w)
    ensures 0 <= m' - (w / 2 - 1) && m' + (w / 2 - 1) <= 30
    ensures Brackets(x, m', w / 2)
  {
    m' := m + if x >= Pow2(m) then w / 2 else -(w / 2);
  }

  lemma NormScales(x: int, k: nat, m: nat)
    requires Pow2(k) <= x < 2 * Pow2(k) && k + m == 30
    ensures TWO_31 / 2 <= x * Pow2(m) < TWO_31
  {
    Pow2Values();
    Pow2Add(k, m);
    ScaleWindow(Pow2(k), x, Pow2(m));
  }

  lemma ScaleWindow(a: int, x: int, p: nat)
    requires a <= x < 2 * a && p > 0
    ensures a * p <= x * p < 2 * (a * p)
  {
    Scale(a, x, 2 * a, p);
    assert 2 * a * p == 2 * (a * p);
  }

  lemma Scale(a: int, b: int, c: int, p: nat)
    requires a <= b < c && p > 0
    ensures a * p <= b * p < c * p
  {}

  /** The left shift that brings x to [2^30, 2^31). */
  method F32DivNorm(x: int) returns (m: nat)
    requires 1 <= x < TWO_31
    ensures m <= 30
    ensures TWO_31 / 2 <= x * Pow2(m) < TWO_31
  {
    Pow2Values();
    var k := 15;
    k := Probe(x, k, 16);
    k := Probe(x, k, 8);
    k := Probe(x, k, 4);
    k := Probe(x, k, 2);
    assert Brackets(x, k, 1);
    k := k + if x >= Pow2(k) then 0 else -1;
    m := 30 - k;
    NormScales(x, k, m);
  }

  // ---- Quotient digits ----

  lemma DivAtLeast(q: int, a: int, b: int)
    requires b > 0 && q * b <= a
    ensures q <= a / b
  {
    if q > a / b {
      assert q * b >= (a / b + 1) * b by { Scale(a / b + 1, q, q + 1, b); }
    }
  }

  lemma DivIs(q: int, a: int, b: int)
    requires b > 0 && 0 <= a - q * b < b
    ensures q == a / b
  {
    DivAtLeast(q, a, b);
    if q < a / b {
      assert (a / b) * b >= (q + 1) * b by { Scale(q + 1, a / b, a / b + 1, b); }
    }
  }

  lemma DivPart(a: int, b: int)
    requires b > 0
    ensures (a / b) * b <= a < (a / b + 1) * b
  {}

  /** t * (dh * 2^16 + dl) spelled out. */
  lemma Spread(t: int, dh: int, dl: int)
    ensures t * (dh * TWO_16 + dl) == (t * dh) * TWO_16 + t * dl
  {}

  lemma ProductBound(a: int, b: int, m: int, n: int)
    requires 0 <= a <= m && 0 <= b <= n
    ensures 0 <= a * b <= m * n
  {
    Scale(0, a, m + 1, n + 1);
    assert a * b <= a * n <= m * n;
  }

  /** The divisor is normalised and split into halves. */
  ghost predicate Halves(d: int, dh: int, dl: int) {
    0 <= dl <= 0xFFFF && d == dh * TWO_16 + dl && TWO_31 / 2 <= d < TWO_31
  }

  function Cap(g: int): int {
    if g > 0xFFFF then 0xFFFF else g
  }

  lemma GuessNotTooSmall(n: int, d: int, dh: int, dl: int, t: int, a: int)
    requires Halves(d, dh, dl) && 0 <= t && t * d <= a <= n * TWO_16
    ensures t <= n / dh
  {
    Spread(t, dh, dl);
    ProductBound(t, dl, t, 0xFFFF);
    DivAtLeast(t, n, dh);
  }

  lemma GuessNotTooBig(n: int, d: int, dh: int, dl: int, g: int, c: int)
    requires Halves(d, dh, dl) && 0 <= g <= 0xFFFF && g * dh <= n && g * dl <= c * (TWO_31 / 2)
    requires 0 <= c <= 4
    ensures (g - c) * d <= n * TWO_16
  {
    Spread(g, dh, dl);
    CapTimes(c, d);
    assert (g - c) * d == g * d - c * d;
  }

  lemma CapTimes(c: int, d: int)
    requires 0 <= c && TWO_31 / 2 <= d
    ensures c * (TWO_31 / 2) <= c * d
  {}

  lemma CapAtMost(n: int, dh: int, g: int)
    requires dh > 0 && 0 <= n && 0 <= g <= n / dh
    ensures g * dh <= n
  {
    DivPart(n, dh);
    Scale(g, n / dh, n / dh + 1, dh);
  }

  lemma DivNonNegative(a: int, b: int)
    requires 0 <= a && b > 0
    ensures 0 <= a / b
  {}

  lemma DivBelow(a: int, b: int, m: int)
    requires b > 0 && a < m * b
    ensures a / b < m
  {
    if a / b >= m {
      DivPart(a, b);
      Scale(m, a / b, a / b + 1, b);
    }
  }

  lemma LowNotTooSmall(n: int, d: int, dh: int, dl: int, t: int)
    requires Halves(d, dh, dl) && 0 <= n < d && t == n * TWO_16 / d
    ensures 0 <= t <= Cap(n / dh)
  {
    DivNonNegative(n * TWO_16, d);
    DivPart(n * TWO_16, d);
    DivBelow(n * TWO_16, d, TWO_16);
    GuessNotTooSmall(n, d, dh, dl, t, n * TWO_16);
  }

  lemma LowFits(n: int, dh: int, g: int)
    requires dh > 0 && 0 <= n && 0 <= g <= n / dh
    ensures 0 <= g * dh <= n
  {
    CapAtMost(n, dh, g);
    ProductBound(g, dh, g, dh);
  }

  lemma LowNotTooBig(n: int, d: int, dh: int, dl: int, g: int)
    requires Halves(d, dh, dl) && 0 <= n < d && 0 <= g <= 0xFFFF && 0 <= g * dh <= n
    ensures g - 4 <= n * TWO_16 / d
  {
    ProductBound(g, dl, 0xFFFF, 0xFFFF);
    GuessNotTooBig(n, d, dh, dl, g, 4);
    DivAtLeast(g - 4, n * TWO_16, d);
  }

  /** The low digit guessed from dh, capped to 16 bits, is never too small and at most 4 too large. */
  lemma LowDigitBound(n: int, d: int, dh: int, dl: int, t: int, g: int)
    requires Halves(d, dh, dl) && 0 <= n < d
    requires t == n * TWO_16 / d && g == Cap(n / dh)
    ensures 0 <= t <= g <= t + 4 && g <= 0xFFFF && 0 <= g * dh <= n
  {
    LowNotTooSmall(n, d, dh, dl, t);
    LowFits(n, dh, g);
    LowNotTooBig(n, d, dh, dl, g);
  }

  lemma HighNotTooSmall(n: int, d: int, dh: int, dl: int, t: int)
    requires Halves(d, dh, dl) && 0 <= n < d && t == n * TWO_15 / d
    ensures 0 <= t <= Cap(n / dh) / 2
  {
    DivNonNegative(n * TWO_15, d);
    DivPart(n * TWO_15, d);
    DivBelow(n * TWO_15, d, TWO_15);
    assert (2 * t) * d == 2 * (t * d);
    GuessNotTooSmall(n, d, dh, dl, 2 * t, 2 * (n * TWO_15));
  }

  lemma HalfFits(n: int, dh: int, g: int)
    requires dh > 0 && 0 <= n && 0 <= 2 * g <= n / dh
    ensures 0 <= g * dh <= n / 2
  {
    CapAtMost(n, dh, 2 * g);
    assert (2 * g) * dh == 2 * (g * dh);
    ProductBound(g, dh, g, dh);
  }

  lemma HighNotTooBig(n: int, d: int, dh: int, dl: int, g: int)
    requires Halves(d, dh, dl) && 0 <= n < d && 0 <= g <= 0x7FFF && 0 <= g * dh <= n / 2
    ensures g - 2 <= n * TWO_15 / d
  {
    ProductBound(g, dl, 0x7FFF, 0xFFFF);
    GuessNotTooBig(n / 2, d, dh, dl, g, 2);
    DivAtLeast(g - 2, n * TWO_15, d);
  }

  /** The high digit is half the capped guess: never too small and at most 2 too large. */
  lemma HighDigitBound(n: int, d: int, dh: int, dl: int, t: int, g: int)
    requires Halves(d, dh, dl) && 0 <= n < d
    requires t == n * TWO_15 / d && g == Cap(n / dh) / 2
    ensures 0 <= t <= g <= t + 2 && g <= 0x7FFF && 0 <= g * dh <= n / 2
  {
    HighNotTooSmall(n, d, dh, dl, t);
    HalfFits(n, dh, g);
    HighNotTooBig(n, d, dh, dl, g);
  }

  /** One correction: a negative remainder gives one back to the digit. */
  function Back(r: int, d: int): int {
    if r < 0 then r + d else r
  }

  function Less(r: int, q: int): int {
    if r < 0 then q - 1 else q
  }

  lemma CorrectOnce(a: int, d: int, t: int, q: int, r: int)
    requires d > 0 && a >= 0 && t == a / d && t <= q && r == a - q * d
    ensures t <= Less(r, q) && Back(r, d) == a - Less(r, q) * d
    ensures q > t ==> Less(r, q) == q - 1
  {
    if q > t {
      DivPart(a, d);
      Scale(t + 1, q, q + 1, d);
    } else {
      DivPart(a, d);
    }
    if r < 0 {
      assert (q - 1) * d == q * d - d;
    }
  }

  /** n * 2^31 / d from its two digits. */
  lemma CombineDigits(n: int, d: int, th: int, r: int, tl: int)
    requires d > 0 && 0 <= n && th == n * TWO_15 / d && r == n * TWO_15 - th * d && tl == r * TWO_16 / d
    ensures th * TWO_16 + tl == n * TWO_31 / d
  {
    DivPart(r * TWO_16, d);
    assert (th * TWO_16 + tl) * d == (th * d) * TWO_16 + tl * d;
    assert (tl + 1) * d == tl * d + d;
    DivIs(th * TWO_16 + tl, n * TWO_31, d);
  }

  /** Scaling numerator and denominator alike does not change the quotient. */
  lemma CancelScale(a: int, b: int, p: int)
    requires a >= 0 && b > 0 && p > 0
    ensures (a * p) * TWO_31 / (b * p) == a * TWO_31 / b
  {
    var q := a * TWO_31 / b;
    DivPart(a * TWO_31, b);
    ScaleRemainder(a * TWO_31, b, q, p);
    assert (a * p) * TWO_31 == (a * TWO_31) * p;
    DivIs(q, (a * p) * TWO_31, b * p);
  }

  lemma ScaleRemainder(x: int, b: int, q: int, p: int)
    requires p > 0 && 0 <= x - q * b < b
    ensures 0 <= x * p - q * (b * p) < b * p
  {
    Scale(0, x - q * b, b, p);
    assert (x - q * b) * p == x * p - q * (b * p);
  }

  // ---- F32Div ----

  /** The first remainder, computed in two 32-bit products, is exact: no register wraps. */
  lemma FirstRemainder(n: int, d: int, dh: int, dl: int, g: int, r1: int, r2: int, r: int)
    requires Halves(d, dh, dl) && 0 <= n < d && 0 <= g <= 0x7FFF && 0 <= g * dh <= n / 2
    requires r1 == U32(n / 2 - U32(g * dh)) && r2 == U32(g * dl)
    requires r == r1 * TWO_16 - r2 + U32(n % 2 * TWO_15)
    ensures r == n * TWO_15 - g * d
  {
    ProductBound(g, dl, 0x7FFF, 0xFFFF);
    Spread(g, dh, dl);
  }

  lemma SecondRemainder(n: int, d: int, dh: int, dl: int, g: int, r1: int, r2: int, r: int)
    requires Halves(d, dh, dl) && 0 <= n < d && 0 <= g <= 0xFFFF && 0 <= g * dh <= n
    requires r1 == U32(n - U32(g * dh)) && r2 == U32(g * dl) && r == r1 * TWO_16 - r2
    ensures r == n * TWO_16 - g * d
  {
    ProductBound(g, dl, 0xFFFF, 0xFFFF);
    Spread(g, dh, dl);
  }

  /** The upper 15 bits of the quotient and the remainder they leave. */
  method HighDigit(n: int, d: int) returns (qh: int, r: int)
    requires TWO_31 / 2 <= d < TWO_31 && 0 <= n < d
    ensures qh == n * TWO_15 / d && 0 <= qh <= 0x7FFF
    ensures r == n * TWO_15 - qh * d && 0 <= r < d
  {
    ghost var t := n * TWO_15 / d;
    var nlsb := U32(n % 2 * TWO_15);
    var dh, dl := d / TWO_16, d % TWO_16;
    qh := n / dh;
    qh := if qh > 0xFFFF then 0xFFFF else qh;
    qh := qh / 2;
    HighDigitBound(n, d, dh, dl, t, qh);
    var r1, r2 := U32(qh * dh), U32(qh * dl);
    r1 := U32(n / 2 - r1);
    r := r1 * TWO_16 - r2 + nlsb;
    FirstRemainder(n, d, dh, dl, qh, r1, r2, r);
    CorrectOnce(n * TWO_15, d, t, qh, r);
    if r < 0 { r, qh := r + d, U32(qh - 1); }
    CorrectOnce(n * TWO_15, d, t, qh, r);
    if r < 0 { r, qh := r + d, U32(qh - 1); }
    DivPart(n * TWO_15, d);
    assert (t + 1) * d == t * d + d;
  }

  /** The lower 16 bits of the quotient. */
  method LowDigit(n: int, d: int) returns (ql: int)
    requires TWO_31 / 2 <= d < TWO_31 && 0 <= n < d
    ensures ql == n * TWO_16 / d && 0 <= ql <= 0xFFFF
  {
    ghost var t := n * TWO_16 / d;
    var dh, dl := d / TWO_16, d % TWO_16;
    ql := n / dh;
    ql := if ql > 0xFFFF then 0xFFFF else ql;
    LowDigitBound(n, d, dh, dl, t, ql);
    var r1, r2 := U32(ql * dh), U32(ql * dl);
    r1 := U32(n - r1);
    var r := r1 * TWO_16 - r2;
    SecondRemainder(n, d, dh, dl, ql, r1, r2, r);
    CorrectOnce(n * TWO_16, d, t, ql, r);
    if r < 0 { ql, r := U32(ql - 1), r + d; }
    CorrectOnce(n * TWO_16, d, t, ql, r);
    if r < 0 { ql, r := U32(ql - 1), r + d; }
    CorrectOnce(n * TWO_16, d, t, ql, r);
    if r < 0 { ql, r := U32(ql - 1), r + d; }
    CorrectOnce(n * TWO_16, d, t, ql, r);
    if r < 0 { ql, r := U32(ql - 1), r + d; }
  }

  lemma NormalisedBelow(n: int, d: int, p: int)
    requires 0 <= n < d && p > 0 && d * p < TWO_31
    ensures 0 <= n * p < d * p
  {
    Scale(n, n, d, p);
    Scale(0, n, n + 1, p);
  }

  /** x / y as a 32-bit fraction, rounded toward zero, for every x smaller in magnitude than y. */
  method F32Div(x: int, y: int) returns (z: int)
    requires InInt32(x) && InInt32(y) && Abs(x) < Abs(y)
    ensures z == TruncDiv(x * TWO_31, y)
    ensures InInt32(z)
  {
    if y == -TWO_31 {
      MinDenominator(x);
      return -x;
    }
    var negative := (x < 0) != (y < 0);
    var n, d := U32(Abs(x)), U32(Abs(y));
    var m := F32DivNorm(d);
    NormalisedBelow(n, d, Pow2(m));
    CancelScale(n, d, Pow2(m));
    ghost var quotient := n * TWO_31 / d;
    d, n := U32(d * Pow2(m)), U32(n * Pow2(m));
    var qh, r := HighDigit(n, d);
    var ql := LowDigit(U32(r), d);
    CombineDigits(n, d, qh, r, ql);
    var q := qh * TWO_16 + ql;
    assert q == quotient;
    z := if negative then -q else q;
    SignedQuotient(x, y, quotient);
  }

  lemma MinDenominator(x: int)
    requires InInt32(x) && Abs(x) < TWO_31
    ensures -x == TruncDiv(x * TWO_31, -TWO_31) && InInt32(-x)
  {}

  lemma SignedQuotient(x: int, y: int, q: int)
    requires y != 0 && q == Abs(x) * TWO_31 / Abs(y)
    ensures TruncDiv(x * TWO_31, y) == if (x < 0) != (y < 0) then -q else q
  {}

  /** The corrections are all needed: a guess can be 2, respectively 4, too large. */
  lemma CorrectionsAreSharp()
    ensures exists n, d, dh, dl :: Halves(d, dh, dl) && 0 <= n < d && Cap(n / dh) / 2 == n * TWO_15 / d + 2
    ensures exists n, d, dh, dl :: Halves(d, dh, dl) && 0 <= n < d && Cap(n / dh) == n * TWO_16 / d + 4
  {
    var dh, dl := TWO_15 / 2, 0xFFFF;
    var d, n := dh * TWO_16 + dl, 0xFFFF * dh;
    assert Halves(d, dh, dl);
    assert Cap(n / dh) == n * TWO_16 / d + 4;
    assert Cap(n / dh) / 2 == n * TWO_15 / d + 2;
  }

  // ---- F32DivF32F16 ----

  /** x / y for a 32-bit numerator and a 16-bit denominator: one exact digit, then the lower 15 bits. */
  method F32DivF32F16(x: int, y: int) returns (z: int)
    requires InInt32(x) && InInt16(y) && Abs(x) < Abs(y) * TWO_16
    ensures z == TruncDiv(x * TWO_15, y)
    ensures InInt32(z)
  {
    hide TruncDiv;
    var n, d := U32(Abs(x)), U32(Abs(y));
    var negative := (x < 0) != (y < 0);
    var qh := n / d;
    FirstRest(n, d);
    var r := U32(n - U32(qh * d));
    ghost var rest := r;
    r := r * TWO_16;
    assert 0 <= r < TWO_31;
    var ql := r / d;
    ql := ql / 2;
    qh := qh * TWO_15;
    ShortDigits(n, d, n / d, rest, ql);
    var q := qh + ql;
    z := if negative then -q else q;
    ShortQuotient(x, y, q);
  }

  /** The first digit and what is left fit their registers. */
  lemma FirstRest(n: int, d: int)
    requires 0 <= n < d * TWO_16 && 0 < d <= TWO_15
    ensures 0 <= n / d <= 0xFFFF && U32(n / d * d) == n / d * d && 0 <= n - n / d * d < d
    ensures U32(n - n / d * d) == n - n / d * d && 0 <= (n - n / d * d) * TWO_16 < TWO_31
  {
    var q := n / d;
    DivBelow(n, d, TWO_16);
    DivNonNegative(n, d);
    DivPart(n, d);
    assert (q + 1) * d == q * d + d;
    ProductBound(q, d, 0xFFFF, TWO_15);
  }

  lemma ShortDigits(n: int, d: int, qh: int, r: int, ql: int)
    requires d > 0 && 0 <= n && qh == n / d && r == n - qh * d && ql == r * TWO_16 / d / 2 && qh <= 0xFFFF
    ensures qh * TWO_15 + ql == n * TWO_15 / d && 0 <= ql <= 0x7FFF && 0 <= qh * TWO_15 + ql < TWO_31
  {
    DivPart(n, d);
    assert (qh + 1) * d == qh * d + d;
    var g := r * TWO_16 / d;
    DivPart(r * TWO_16, d);
    DivNonNegative(r * TWO_16, d);
    DivBelow(r * TWO_16, d, TWO_16);
    DivNonNegative(n, d);
    assert (g + 1) * d == g * d + d;
    HalfQuotient(r, d, g, ql);
    assert (qh * TWO_15 + ql) * d == (qh * d) * TWO_15 + ql * d;
    DivIs(qh * TWO_15 + ql, n * TWO_15, d);
  }

  lemma HalfQuotient(r: int, d: int, g: int, ql: int)
    requires d > 0 && g * d <= r * TWO_16 < g * d + d && ql == g / 2
    ensures 0 <= r * TWO_15 - ql * d < d
  {
    if g % 2 == 0 {
      assert g * d == 2 * (ql * d) by { assert g == 2 * ql; }
    } else {
      assert g * d == 2 * (ql * d) + d by { assert g == 2 * ql + 1; }
    }
  }

  lemma ShortQuotient(x: int, y: int, q: int)
    requires y != 0 && q == Abs(x) * TWO_15 / Abs(y)
    ensures TruncDiv(x * TWO_15, y) == if (x < 0) != (y < 0) then -q else q
  {}
}
