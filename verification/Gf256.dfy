/** The finite field of FIPS 197 section 4.2, with 3 as the generator used by aes.c. */
module Gf256 {
  import opened Words

  /** Multiplication by x, section 4.2.1. */
  function Xtime(a: byte): byte {
    (a << 1) ^ (if a & 0x80 != 0 then 0x1B else 0)
  }

  /** Multiplication as the sum of the multiples of a by the powers of x in b. */
  function Mul(a: byte, b: byte): byte {
    Times(a, b, 8)
  }

  function Times(a: byte, b: byte, n: nat): byte
    decreases n
  {
    if n == 0 then 0 else Pick(a, b) ^ Times(Xtime(a), b >> 1, n - 1)
  }

  function Pick(a: byte, b: byte): byte {
    if b & 1 == 1 then a else 0
  }

  /** s is the sum of a and b in the field. */
  predicate Sum(s: byte, a: byte, b: byte) {
    s == a ^ b
  }

  /** Multiplication by 3, the loop step of CalcPowLog. */
  function Triple(a: byte): byte {
    a ^ Xtime(a)
  }

  /** 3 to the power n. */
  function Power(n: nat): byte {
    Iterate(1, n)
  }

  function Iterate(a: byte, n: nat): byte
    decreases n
  {
    if n == 0 then a else Iterate(Triple(a), n - 1)
  }

  lemma TopBitOfXor(a: byte, b: byte)
    ensures (a ^ b) & 0x80 != 0 <==> (a & 0x80 != 0) != (b & 0x80 != 0)
    ensures (a ^ b) << 1 == (a << 1) ^ (b << 1)
  {}

  lemma XorShuffle(p: byte, a: byte, b: byte)
    ensures (a ^ p) ^ b == (a ^ b) ^ p
    ensures a ^ (b ^ p) == (a ^ b) ^ p
    ensures (a ^ p) ^ (b ^ p) == a ^ b
    ensures a ^ 0 == a
  {}

  lemma XtimeLinear(a: byte, b: byte)
    ensures Xtime(a ^ b) == Xtime(a) ^ Xtime(b)
  {
    TopBitOfXor(a, b);
    XorShuffle(0x1B, a << 1, b << 1);
    XorShuffle(0, a << 1, b << 1);
    XorShuffle(0, (a ^ b) << 1, 0);
  }

  lemma TripleInjective(a: byte, b: byte)
    requires Triple(a) == Triple(b)
    ensures a == b
  {}

  lemma {:induction false} IterateAdd(a: byte, m: nat, n: nat)
    ensures Iterate(a, m + n) == Iterate(Iterate(a, m), n)
    decreases m
  {
    if m > 0 {
      IterateAdd(Triple(a), m - 1, n);
    }
  }

  lemma {:induction false} IterateInjective(a: byte, b: byte, n: nat)
    requires Iterate(a, n) == Iterate(b, n)
    ensures a == b
    decreases n
  {
    if n > 0 {
      IterateInjective(Triple(a), Triple(b), n - 1);
      TripleInjective(a, b);
    }
  }

  lemma XtimeSum(s: byte, a: byte, b: byte)
    requires Sum(s, a, b)
    ensures Sum(Xtime(s), Xtime(a), Xtime(b))
  {
    XtimeLinear(a, b);
  }

  lemma SumSwap(s: byte, a: byte, b: byte, s': byte, a': byte, b': byte, u: byte, v: byte, w: byte)
    requires Sum(s, a, b) && Sum(s', a', b') && Sum(u, s, s') && Sum(v, a, a') && Sum(w, b, b')
    ensures Sum(u, v, w)
  {}

  lemma TripleIs(t: byte, a: byte, x: byte)
    requires t == Triple(a) && x == Xtime(a)
    ensures Sum(t, a, x)
  {}

  lemma TripleSum(s: byte, a: byte, b: byte)
    requires Sum(s, a, b)
    ensures Sum(Triple(s), Triple(a), Triple(b))
  {
    var xs, xa, xb := Xtime(s), Xtime(a), Xtime(b);
    XtimeSum(s, a, b);
    var ts, ta, tb := Triple(s), Triple(a), Triple(b);
    TripleIs(ts, s, xs);
    TripleIs(ta, a, xa);
    TripleIs(tb, b, xb);
    SumSwap(s, a, b, xs, xa, xb, ts, ta, tb);
  }

  lemma TripleXtime(a: byte)
    ensures Xtime(Triple(a)) == Triple(Xtime(a))
  {
    var x, t := Xtime(a), Triple(a);
    TripleIs(t, a, x);
    XtimeSum(t, a, x);
    TripleIs(Triple(x), x, Xtime(x));
    SumIsFunction(Xtime(t), Triple(x), x, Xtime(x));
  }

  lemma SumIsFunction(s: byte, t: byte, a: byte, b: byte)
    requires Sum(s, a, b) && Sum(t, a, b)
    ensures s == t
  {}

  lemma PickTriple(a: byte, b: byte)
    ensures Pick(Triple(a), b) == Triple(Pick(a, b))
  {
    assert Triple(0) == 0;
  }

  lemma TimesStep(a: byte, b: byte, n: nat)
    requires n > 0
    ensures Sum(Times(a, b, n), Pick(a, b), Times(Xtime(a), b >> 1, n - 1))
  {}

  lemma {:induction false} TimesTriple(a: byte, b: byte, n: nat)
    ensures Times(Triple(a), b, n) == Triple(Times(a, b, n))
    decreases n
  {
    if n == 0 {
      assert Triple(0) == 0;
    } else {
      TimesTriple(Xtime(a), b >> 1, n - 1);
      TimesStep(a, b, n);
      TimesStep(Triple(a), b, n);
      TripleXtime(a);
      PickTriple(a, b);
      TripleSum(Times(a, b, n), Pick(a, b), Times(Xtime(a), b >> 1, n - 1));
      SumIsFunction(Times(Triple(a), b, n), Triple(Times(a, b, n)), Pick(Triple(a), b), Triple(Times(Xtime(a), b >> 1, n - 1)));
    }
  }

  lemma {:induction false} MulIterate(a: byte, b: byte, n: nat)
    ensures Mul(Iterate(a, n), b) == Iterate(Mul(a, b), n)
    decreases n
  {
    if n > 0 {
      MulIterate(Triple(a), b, n - 1);
      TimesTriple(a, b, 8);
    }
  }

  lemma MulOne(b: byte)
    ensures Mul(1, b) == b
  {}

  /** Powers multiply by adding exponents. */
  lemma PowerAdd(m: nat, n: nat)
    ensures Power(m + n) == Mul(Power(m), Power(n))
  {
    MulIterate(1, Power(n), m);
    MulOne(Power(n));
    IterateAdd(1, n, m);
  }

  // ---- 3 generates the whole multiplicative group ----

  lemma PowerIs(m: nat, n: nat, a: byte, b: byte, c: byte)
    requires Power(m) == a && Power(n) == b && Mul(a, b) == c
    ensures Power(m + n) == c
  {
    PowerAdd(m, n);
  }

  lemma SomeProducts()
    ensures Mul(0x05, 0x0F) == 0x33 && Mul(0x33, 0x33) == 0x72 && Mul(0x72, 0x33) == 0x35
    ensures Mul(0x35, 0x05) == 0xE1 && Mul(0xE1, 0xE1) == 0x5C
  {}

  lemma MoreProducts()
    ensures Mul(0x5C, 0xE1) == 0x0C && Mul(0x0C, 0x5C) == 0xBD
    ensures Mul(0xBD, 0xBD) == 0xBC && Mul(0xBC, 0xBD) == 0x01
  {}

  lemma SomePowers()
    ensures Power(1) == 0x03 && Power(3) == 0x0F && Power(5) == 0x33 && Power(15) == 0x35
    ensures Power(17) == 0xE1 && Power(51) == 0x0C && Power(85) == 0xBD && Power(255) == 1
  {
    SomeProducts();
    MoreProducts();
    assert Power(2) == 0x05;
    PowerIs(2, 3, 0x05, 0x0F, 0x33);
    PowerIs(5, 5, 0x33, 0x33, 0x72);
    PowerIs(10, 5, 0x72, 0x33, 0x35);
    PowerIs(15, 2, 0x35, 0x05, 0xE1);
    PowerIs(17, 17, 0xE1, 0xE1, 0x5C);
    PowerIs(34, 17, 0x5C, 0xE1, 0x0C);
    PowerIs(51, 34, 0x0C, 0x5C, 0xBD);
    PowerIs(85, 85, 0xBD, 0xBD, 0xBC);
    PowerIs(170, 85, 0xBC, 0xBD, 0x01);
  }

  lemma {:induction false} PowerPeriodic(k: nat, q: nat, r: nat)
    requires Power(k) == 1
    ensures Power(k * q + r) == Power(r)
    decreases q
  {
    if q > 0 {
      PowerPeriodic(k, q - 1, r);
      IterateAdd(1, k, k * (q - 1) + r);
    }
  }

  lemma ProductGrows(k: nat, q: nat)
    ensures k >= 16 && q >= 16 ==> k * q >= 256
  {
    if k >= 16 && q >= 16 {
      assert k * q == 16 * q + (k - 16) * q;
    }
  }

  lemma DivisorsOf255(k: nat, q: nat)
    requires k * q == 255
    ensures k in {1, 3, 5, 15, 17, 51, 85, 255}
  {
    if k < 16 {
      if k == 0 {} else if k == 2 {} else if k == 4 {} else if k == 6 {} else if k == 7 {} else if k == 8 {}
      else if k == 9 {} else if k == 10 {} else if k == 11 {} else if k == 12 {} else if k == 13 {} else if k == 14 {}
    } else {
      ProductGrows(k, q);
      if q == 0 {} else if q == 2 {} else if q == 4 {} else if q == 6 {} else if q == 7 {} else if q == 8 {}
      else if q == 9 {} else if q == 10 {} else if q == 11 {} else if q == 12 {} else if q == 13 {} else if q == 14 {}
      else if q == 1 {} else if q == 3 {} else if q == 5 {} else {}
    }
  }

  /** The powers of 3 come back to 1 after 255 steps and not before. */
  lemma {:induction false} OrderIs255(k: nat)
    requires 0 < k < 255
    ensures Power(k) != 1 && Power(255) == 1
    decreases k
  {
    SomePowers();
    if Power(k) == 1 {
      var q, r := 255 / k, 255 % k;
      assert k * q + r == 255;
      PowerPeriodic(k, q, r);
      if r > 0 {
        OrderIs255(r);
      } else {
        DivisorsOf255(k, q);
      }
    }
  }

  lemma PowersDistinct(i: nat, j: nat)
    requires i < j < 255
    ensures Power(i) != Power(j)
  {
    if Power(i) == Power(j) {
      IterateAdd(1, j - i, i);
      IterateInjective(1, Power(j - i), i);
      OrderIs255(j - i);
    }
  }

  lemma TripleNonZero(a: byte)
    requires a != 0
    ensures Triple(a) != 0
  {}

  lemma {:induction false} IterateNonZero(a: byte, n: nat)
    requires a != 0
    ensures Iterate(a, n) != 0
    decreases n
  {
    if n > 0 {
      TripleNonZero(a);
      IterateNonZero(Triple(a), n - 1);
    }
  }

  ghost function PowersBelow(n: nat): set<int> {
    if n == 0 then {} else PowersBelow(n - 1) + {Power(n - 1) as int}
  }

  ghost function NonZeroUpTo(n: nat): set<int> {
    if n == 0 then {} else NonZeroUpTo(n - 1) + {n}
  }

  lemma {:induction false} NonZeroUpToCount(n: nat)
    ensures |NonZeroUpTo(n)| == n && forall x :: x in NonZeroUpTo(n) <==> 0 < x <= n
  {
    if n > 0 {
      NonZeroUpToCount(n - 1);
    }
  }

  lemma {:induction false} PowersBelowAre(n: nat, x: int)
    ensures x in PowersBelow(n) <==> exists k: nat :: k < n && Power(k) as int == x
  {
    if n > 0 {
      PowersBelowAre(n - 1, x);
      assert Power(n - 1) as int in PowersBelow(n);
    }
  }

  lemma AsIntInjective(a: byte, b: byte)
    requires a as int == b as int
    ensures a == b
  {
    assert a == (a as int) as byte;
  }

  lemma {:induction false} PowersBelowCount(n: nat)
    requires n <= 255
    ensures |PowersBelow(n)| == n
  {
    if n > 0 {
      PowersBelowCount(n - 1);
      var x := Power(n - 1) as int;
      PowersBelowAre(n - 1, x);
      if k: nat :| k < n - 1 && Power(k) as int == x {
        AsIntInjective(Power(k), Power(n - 1));
        PowersDistinct(k, n - 1);
      }
    }
  }

  lemma NonZeroAsInt(a: byte)
    requires a != 0
    ensures 0 < a as int <= 255
  {}

  lemma PowersBelowRange(n: nat, m: nat)
    requires m == 255
    ensures PowersBelow(n) <= NonZeroUpTo(m)
  {
    NonZeroUpToCount(m);
    forall x | x in PowersBelow(n)
      ensures x in NonZeroUpTo(m)
    {
      PowersBelowAre(n, x);
      var k: nat :| k < n && Power(k) as int == x;
      IterateNonZero(1, k);
      NonZeroAsInt(Power(k));
    }
  }

  lemma SubsetOfSameSize(a: set<int>, b: set<int>)
    requires a <= b && |a| == |b|
    ensures a == b
  {
    assert b == a + (b - a);
    assert |b| == |a| + |b - a|;
  }

  lemma PowersCover(n: nat, x: byte)
    requires n == 255 && x != 0
    ensures x as int in PowersBelow(n)
  {
    PowersBelowCount(n);
    NonZeroUpToCount(n);
    PowersBelowRange(n, n);
    SubsetOfSameSize(PowersBelow(n), NonZeroUpTo(n));
    assert 0 < x as int <= 255;
  }

  /** Every non-zero element is a power of 3. */
  lemma Logarithm(x: byte) returns (k: nat)
    requires x != 0
    ensures k < 255 && Power(k) == x
  {
    var n := 255;
    PowersCover(n, x);
    PowersBelowAre(n, x as int);
    k :| k < n && Power(k) as int == x as int;
    AsIntInjective(Power(k), x);
  }
}
