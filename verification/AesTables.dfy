/** aes.c: the three lookup tables, computed at start-up from the field arithmetic. */
module AesTables {
  import opened Words
  import opened Gf256

  // ---- The S-box of FIPS 197 section 5.1.1 ----

  ghost predicate IsInverse(x: byte, y: byte) {
    if x == 0 then y == 0 else Mul(x, y) == 1
  }

  function RotateLeft(b: byte): byte {
    (b << 1) | (b >> 7)
  }

  /** The affine transformation: five rotations of the byte and the constant 0x63. */
  function Affine(b: byte): byte {
    var b1 := RotateLeft(b);
    var b2 := RotateLeft(b1);
    var b3 := RotateLeft(b2);
    var b4 := RotateLeft(b3);
    (((b ^ 0x63) ^ b1) ^ b2) ^ b3 ^ b4
  }

  /** The inverse affine transformation of section 5.3.2. */
  function AffineInverse(b: byte): byte {
    var b1 := RotateLeft(b);
    var b3 := RotateLeft(RotateLeft(b1));
    var b6 := RotateLeft(RotateLeft(RotateLeft(b3)));
    (b1 ^ b3) ^ (b6 ^ 0x05)
  }

  lemma AffineUndone(b: byte)
    ensures AffineInverse(Affine(b)) == b
    ensures Affine(AffineInverse(b)) == b
  {}

  function Mask(i: nat): byte
    requires i < 8
  {
    if i == 0 then 1 else if i == 1 then 2 else if i == 2 then 4 else if i == 3 then 8
    else if i == 4 then 0x10 else if i == 5 then 0x20 else if i == 6 then 0x40 else 0x80
  }

  predicate Bit(b: byte, i: nat)
    requires i < 8
  {
    b & Mask(i) != 0
  }

  /** Equation 5.1: output bit i is the sum of input bits i, i+4, i+5, i+6, i+7 (mod 8) and bit i of 0x63. */
  lemma AffineBits(b: byte, r: byte)
    requires r == Affine(b)
    ensures Bit(r, 0) == (Bit(b, 0) != (Bit(b, 4) != (Bit(b, 5) != (Bit(b, 6) != (Bit(b, 7) != true)))))
    ensures Bit(r, 1) == (Bit(b, 1) != (Bit(b, 5) != (Bit(b, 6) != (Bit(b, 7) != (Bit(b, 0) != true)))))
    ensures Bit(r, 2) == (Bit(b, 2) != (Bit(b, 6) != (Bit(b, 7) != (Bit(b, 0) != (Bit(b, 1) != false)))))
    ensures Bit(r, 3) == (Bit(b, 3) != (Bit(b, 7) != (Bit(b, 0) != (Bit(b, 1) != (Bit(b, 2) != false)))))
    ensures Bit(r, 4) == (Bit(b, 4) != (Bit(b, 0) != (Bit(b, 1) != (Bit(b, 2) != (Bit(b, 3) != false)))))
    ensures Bit(r, 5) == (Bit(b, 5) != (Bit(b, 1) != (Bit(b, 2) != (Bit(b, 3) != (Bit(b, 4) != true)))))
    ensures Bit(r, 6) == (Bit(b, 6) != (Bit(b, 2) != (Bit(b, 3) != (Bit(b, 4) != (Bit(b, 5) != true)))))
    ensures Bit(r, 7) == (Bit(b, 7) != (Bit(b, 3) != (Bit(b, 4) != (Bit(b, 5) != (Bit(b, 6) != false)))))
  {}

  lemma InverseOfPower(k: nat)
    requires k < 255
    ensures IsInverse(Power(k), Power(255 - k)) && Power(k) != 0
  {
    PowerAdd(k, 255 - k);
    OrderIs255(1);
    IterateNonZero(1, k);
  }

  /** An element has at most one inverse, and it is the power with the opposite exponent. */
  lemma InverseUnique(k: nat, y: byte)
    requires k < 255 && IsInverse(Power(k), y)
    ensures y == Power(255 - k)
  {
    InverseOfPower(k);
    MulIterate(1, y, k);
    MulIterate(1, Power(255 - k), k);
    MulOne(y);
    MulOne(Power(255 - k));
    IterateInjective(y, Power(255 - k), k);
  }

  lemma InverseExists(x: byte)
    ensures exists y :: IsInverse(x, y)
  {
    if x == 0 {
      assert IsInverse(x, 0);
    } else {
      var k := Logarithm(x);
      InverseOfPower(k);
      assert IsInverse(x, Power(255 - k));
    }
  }

  ghost function Inverse(x: byte): (y: byte)
    ensures IsInverse(x, y)
  {
    InverseExists(x);
    var y :| IsInverse(x, y);
    y
  }

  lemma InverseIs(x: byte, k: nat)
    requires k < 255 && x == Power(k)
    ensures Inverse(x) == Power(255 - k)
  {
    InverseUnique(k, Inverse(x));
  }

  lemma InverseInvolution(x: byte)
    ensures Inverse(Inverse(x)) == x
  {
    if x != 0 {
      var k := Logarithm(x);
      InverseIs(x, k);
      if k > 0 {
        InverseIs(Inverse(x), 255 - k);
      } else {
        OrderIs255(1);
        InverseIs(1, 0);
      }
    }
  }

  ghost function SBox(x: byte): byte {
    Affine(Inverse(x))
  }

  ghost function InvSBox(y: byte): byte {
    Inverse(AffineInverse(y))
  }

  lemma InvSBoxUndoesSBox(x: byte)
    ensures InvSBox(SBox(x)) == x
    ensures SBox(InvSBox(x)) == x
  {
    AffineUndone(Inverse(x));
    AffineUndone(x);
    InverseInvolution(x);
    InverseInvolution(AffineInverse(x));
  }

  // ---- CalcPowLog ----

  function Index(b: byte): (i: int)
    ensures 0 <= i < 256
  {
    b as int
  }

  lemma IndexInjective(a: byte, b: byte)
    requires Index(a) == Index(b)
    ensures a == b
  {
    AsIntInjective(a, b);
  }

  lemma IndexSuccessor(b: byte)
    ensures Index(b) < 255 ==> Index(b + 1) == Index(b) + 1
    ensures Index(b) == 255 ==> b + 1 == 0
  {}

  /** The tables of powers and logarithms to the base 3, as far as n entries go. */
  ghost predicate PowLogUpTo(pow: seq<byte>, log: seq<byte>, n: nat)
    requires |pow| == 256 && |log| == 256 && n <= 255
  {
    forall k: nat :: k < n ==> pow[k] == Power(k) && Index(log[Index(Power(k))]) == k
  }

  lemma PowLogStep(pow: seq<byte>, log: seq<byte>, n: nat, t: byte, i: byte)
    requires |pow| == 256 && |log| == 256 && n < 255
    requires PowLogUpTo(pow, log, n) && t == Power(n) && Index(i) == n
    ensures PowLogUpTo(pow[n := t], log[Index(t) := i], n + 1)
  {
    forall k: nat | k < n
      ensures Index(Power(k)) != Index(t)
    {
      PowersDistinct(k, n);
      if Index(Power(k)) == Index(t) {
        IndexInjective(Power(k), t);
      }
    }
  }

  lemma {:induction false} PowerSuccessor(n: nat)
    ensures Power(n + 1) == Triple(Power(n))
  {
    IterateAdd(1, n, 1);
    assert Iterate(Power(n), 1) == Iterate(Triple(Power(n)), 0);
  }

  /** The loop runs exactly 255 times. */
  lemma LoopEnds(n: nat, t: byte)
    requires 0 < n <= 255 && t == Power(n)
    ensures t == 1 <==> n == 255
  {
    OrderIs255(1);
    if n < 255 {
      OrderIs255(n);
    }
  }

  method RecordPower(powTbl: array<byte>, logTbl: array<byte>, i: byte, t: byte, ghost n: nat)
    requires powTbl.Length == 256 && logTbl.Length == 256 && powTbl != logTbl
    requires n < 255 && Index(i) == n && t == Power(n) && PowLogUpTo(powTbl[..], logTbl[..], n)
    modifies powTbl, logTbl
    ensures PowLogUpTo(powTbl[..], logTbl[..], n + 1)
  {
    PowLogStep(powTbl[..], logTbl[..], n, t, i);
    ghost var pow, log := powTbl[..], logTbl[..];
    powTbl[Index(i)] := t;
    logTbl[Index(t)] := i;
    assert powTbl[..] == pow[n := t];
    assert logTbl[..] == log[Index(t) := i];
  }

  method CalcPowLog(powTbl: array<byte>, logTbl: array<byte>)
    requires powTbl.Length == 256 && logTbl.Length == 256 && powTbl != logTbl
    modifies powTbl, logTbl
    ensures PowLogUpTo(powTbl[..], logTbl[..], 255) && powTbl[255] == Power(255)
  {
    var i, t: byte := 0, 1;
    ghost var n := 0;
    while true
      invariant n < 255 && Index(i) == n && t == Power(n)
      invariant PowLogUpTo(powTbl[..], logTbl[..], n)
      decreases 255 - n
    {
      RecordPower(powTbl, logTbl, i, t, n);
      IndexSuccessor(i);
      i := i + 1;
      PowerSuccessor(n);
      t := t ^ Xtime(t);
      n := n + 1;
      LoopEnds(n, t);
      if t == 1 { break; }
    }
    ghost var pow := powTbl[..];
    assert pow[0] == Power(0);
    powTbl[255] := powTbl[0];
    assert powTbl[..] == pow[255 := pow[0]];
  }

  // ---- CalcSBox ----

  function RotateBy(b: byte, n: nat): byte {
    if n == 0 then b else RotateLeft(RotateBy(b, n - 1))
  }

  /** The running sum of the affine transformation after n rotations. */
  function AffineSum(b: byte, n: nat): byte {
    if n == 0 then b ^ 0x63 else AffineSum(b, n - 1) ^ RotateBy(b, n)
  }

  lemma AffineSumOfFour(b: byte)
    ensures AffineSum(b, 4) == Affine(b)
  {
    assert RotateBy(b, 1) == RotateLeft(b);
    assert RotateBy(b, 2) == RotateLeft(RotateBy(b, 1));
    assert RotateBy(b, 3) == RotateLeft(RotateBy(b, 2));
    assert RotateBy(b, 4) == RotateLeft(RotateBy(b, 3));
    assert AffineSum(b, 1) == (b ^ 0x63) ^ RotateBy(b, 1);
    assert AffineSum(b, 2) == AffineSum(b, 1) ^ RotateBy(b, 2);
    assert AffineSum(b, 3) == AffineSum(b, 2) ^ RotateBy(b, 3);
  }

  lemma InverseByTables(pow: seq<byte>, log: seq<byte>, x: byte)
    requires |pow| == 256 && |log| == 256 && PowLogUpTo(pow, log, 255) && pow[255] == Power(255) && x != 0
    ensures pow[255 - Index(log[Index(x)])] == Inverse(x)
  {
    var k := Logarithm(x);
    InverseIs(x, k);
    assert pow[k] == Power(k);
  }

  /** The inner loop of CalcSBox. */
  method AffineLoop(b: byte) returns (result: byte)
    ensures result == Affine(b)
  {
    var temp := b;
    result := temp ^ 0x63;
    for rot := 0 to 4
      invariant temp == RotateBy(b, rot)
      invariant result == AffineSum(b, rot)
    {
      temp := RotateLeft(temp);
      result := result ^ temp;
    }
    AffineSumOfFour(b);
  }

  method CalcSBoxEntry(powTbl: array<byte>, logTbl: array<byte>, i: byte) returns (result: byte)
    requires powTbl.Length == 256 && logTbl.Length == 256
    requires PowLogUpTo(powTbl[..], logTbl[..], 255) && powTbl[255] == Power(255)
    ensures result == SBox(i)
  {
    var temp: byte := 0;
    if i > 0 {
      InverseByTables(powTbl[..], logTbl[..], i);
      temp := powTbl[255 - Index(logTbl[Index(i)])];
    }
    result := AffineLoop(temp);
  }

  ghost predicate SBoxUpTo(table: seq<byte>, n: nat)
    requires |table| == 256
  {
    forall x: byte :: Index(x) < n ==> table[Index(x)] == SBox(x)
  }

  /** One round of the loop: the entry for i joins the finished ones. */
  method StoreEntry(powTbl: array<byte>, logTbl: array<byte>, sBox: array<byte>, i: byte)
    requires powTbl.Length == 256 && logTbl.Length == 256 && sBox.Length == 256
    requires PowLogUpTo(powTbl[..], logTbl[..], 255) && powTbl[255] == Power(255)
    requires SBoxUpTo(sBox[..], Index(i))
    modifies sBox
    ensures SBoxUpTo(sBox[..], Index(i) + 1)
  {
    var result := CalcSBoxEntry(powTbl, logTbl, i);
    SBoxStep(sBox[..], i, Index(i));
    ghost var before := sBox[..];
    sBox[Index(i)] := result;
    assert sBox[..] == before[Index(i) := SBox(i)];
  }

  method CalcSBox(powTbl: array<byte>, logTbl: array<byte>, sBox: array<byte>)
    requires powTbl.Length == 256 && logTbl.Length == 256 && sBox.Length == 256
    requires sBox != powTbl && sBox != logTbl
    requires PowLogUpTo(powTbl[..], logTbl[..], 255) && powTbl[255] == Power(255)
    modifies sBox
    ensures SBoxUpTo(sBox[..], 256)
  {
    var i: byte := 0;
    ghost var n := 0;
    while true
      invariant n < 256 && Index(i) == n && SBoxUpTo(sBox[..], n)
      invariant powTbl[..] == old(powTbl[..]) && logTbl[..] == old(logTbl[..])
      decreases 256 - n
    {
      assert powTbl[255] == powTbl[..][255];
      StoreEntry(powTbl, logTbl, sBox, i);
      IndexSuccessor(i);
      i := i + 1;
      n := n + 1;
      if i == 0 { break; }
    }
    LastIndex(i, n);
  }

  lemma SBoxStep(table: seq<byte>, i: byte, n: nat)
    requires |table| == 256 && n < 256 && Index(i) == n && SBoxUpTo(table, n)
    ensures SBoxUpTo(table[n := SBox(i)], n + 1)
  {
    forall x: byte | Index(x) < n + 1
      ensures table[n := SBox(i)][Index(x)] == SBox(x)
    {
      if Index(x) == n {
        IndexInjective(x, i);
      }
    }
  }

  lemma LastIndex(i: byte, n: nat)
    requires 0 < n <= 256 && i == 0 && (n < 256 ==> Index(i) == n)
    ensures n == 256
  {
    assert Index(0) == 0;
  }

  // ---- CalcSBoxInv ----

  ghost predicate Maps(table: seq<byte>, x: byte, y: byte)
    requires |table| == 256
  {
    table[Index(x)] == y
  }

  ghost predicate InjectiveTable(table: seq<byte>)
    requires |table| == 256
  {
    forall x: byte, x': byte, y: byte :: Maps(table, x, y) && Maps(table, x', y) ==> x == x'
  }

  /** inv undoes the table at every value below n. */
  ghost predicate InvertsUpTo(table: seq<byte>, inv: seq<byte>, n: nat)
    requires |table| == 256 && |inv| == 256
  {
    forall x: byte, y: byte :: Maps(table, x, y) && Index(y) < n ==> inv[Index(y)] == x
  }

  /** The inner loop: find j with sBox[j] == i, leaving the loop early by forcing j to wrap. */
  method FindPreimage(sBox: array<byte>, sBoxInv: array<byte>, i: byte)
    requires sBox.Length == 256 && sBoxInv.Length == 256 && sBox != sBoxInv && InjectiveTable(sBox[..])
    modifies sBoxInv
    ensures forall x: byte :: Maps(sBox[..], x, i) ==> sBoxInv[Index(i)] == x
    ensures forall k :: 0 <= k < 256 && k != Index(i) ==> sBoxInv[k] == old(sBoxInv[k])
  {
    var j: byte := 0;
    ghost var m, found := 0, false;
    while true
      invariant 0 <= m < 256 && Index(j) == m && !found
      invariant forall x: byte :: Index(x) < m ==> !Maps(sBox[..], x, i)
      invariant sBoxInv[..] == old(sBoxInv[..])
      decreases 256 - m
    {
      if sBox[Index(j)] == i {
        assert Maps(sBox[..], j, i);
        sBoxInv[Index(i)] := j;
        j := 255;
        found := true;
      } else {
        forall x: byte | Index(x) < m + 1 ensures !Maps(sBox[..], x, i) {
          if Index(x) == m { IndexInjective(x, j); }
        }
        m := m + 1;
      }
      IndexSuccessor(j);
      j := j + 1;
      if j == 0 { break; }
    }
    if !found { LastIndex(j, m); }
  }

  lemma InverseStep(table: seq<byte>, inv: seq<byte>, inv': seq<byte>, i: byte, n: nat)
    requires |table| == 256 && |inv| == 256 && |inv'| == 256 && Index(i) == n
    requires InvertsUpTo(table, inv, n)
    requires forall x: byte :: Maps(table, x, i) ==> inv'[n] == x
    requires forall k :: 0 <= k < 256 && k != n ==> inv'[k] == inv[k]
    ensures InvertsUpTo(table, inv', n + 1)
  {
    forall x: byte, y: byte | Maps(table, x, y) && Index(y) == n
      ensures y == i
    {
      IndexInjective(y, i);
    }
  }

  method InvertEntry(sBox: array<byte>, sBoxInv: array<byte>, i: byte)
    requires sBox.Length == 256 && sBoxInv.Length == 256 && sBox != sBoxInv && InjectiveTable(sBox[..])
    requires InvertsUpTo(sBox[..], sBoxInv[..], Index(i))
    modifies sBoxInv
    ensures InvertsUpTo(sBox[..], sBoxInv[..], Index(i) + 1)
  {
    ghost var table, before := sBox[..], sBoxInv[..];
    FindPreimage(sBox, sBoxInv, i);
    assert sBox[..] == table;
    InverseStep(table, before, sBoxInv[..], i, Index(i));
  }

  /** For any table without repeated values, the second table undoes the first. */
  method CalcSBoxInv(sBox: array<byte>, sBoxInv: array<byte>)
    requires sBox.Length == 256 && sBoxInv.Length == 256 && sBox != sBoxInv && InjectiveTable(sBox[..])
    modifies sBoxInv
    ensures InvertsUpTo(sBox[..], sBoxInv[..], 256)
  {
    var i: byte := 0;
    ghost var n := 0;
    while true
      invariant n < 256 && Index(i) == n && InvertsUpTo(sBox[..], sBoxInv[..], n)
      invariant sBox[..] == old(sBox[..])
      decreases 256 - n
    {
      InvertEntry(sBox, sBoxInv, i);
      IndexSuccessor(i);
      i := i + 1;
      n := n + 1;
      if i == 0 { break; }
    }
    LastIndex(i, n);
  }

  /** A full S-box table has no repeated values, and its inverse table is the inverse S-box. */
  lemma FullTables(table: seq<byte>, inv: seq<byte>)
    requires |table| == 256 && |inv| == 256 && SBoxUpTo(table, 256)
    ensures InjectiveTable(table)
    ensures InvertsUpTo(table, inv, 256) ==> forall y: byte :: inv[Index(y)] == InvSBox(y)
  {
    forall x: byte, x': byte, y: byte | Maps(table, x, y) && Maps(table, x', y)
      ensures x == x'
    {
      InvSBoxUndoesSBox(x);
      InvSBoxUndoesSBox(x');
    }
    if InvertsUpTo(table, inv, 256) {
      forall y: byte
        ensures inv[Index(y)] == InvSBox(y)
      {
        InvSBoxUndoesSBox(y);
        assert Maps(table, InvSBox(y), y);
      }
    }
  }
}
