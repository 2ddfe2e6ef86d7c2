/** FIPS 197: the cipher, the inverse cipher and the key schedule for 256-bit keys. */
module AesCipher {
  import opened Words
  import opened Gf256
  import opened AesTables

  const ROUNDS: nat := 14
  const KEY_WORDS: nat := 8

  type Block = s: seq<byte> | |s| == 16 witness seq(16, _ => 0)

  function Plus(a: byte, b: byte): (s: byte)
    ensures Sum(s, a, b)
  {
    a ^ b
  }

  // ---- The transformations of sections 5.1 and 5.3 ----

  ghost function SubBytes(s: Block): Block
  {
    seq(16, i requires 0 <= i < 16 => SBox(s[i]))
  }

  ghost function InvSubBytes(s: Block): Block
  {
    seq(16, i requires 0 <= i < 16 => InvSBox(s[i]))
  }

  /** Row r of the state, bytes r, r+4, r+8, r+12, moves r columns to the left. */
  ghost function ShiftRows(s: Block): Block
  {
    seq(16, i requires 0 <= i < 16 => s[(i + 4 * (i % 4)) % 16])
  }

  ghost function InvShiftRows(s: Block): Block
  {
    seq(16, i requires 0 <= i < 16 => s[(i + 12 * (i % 4)) % 16])
  }

  ghost function AddRoundKey(s: Block, k: Block): Block
  {
    seq(16, i requires 0 <= i < 16 => Plus(s[i], k[i]))
  }

  /** Four bytes, a column of the state. */
  datatype Column = Column(a: byte, b: byte, c: byte, d: byte) {
    function Rotate(): Column {
      Column(b, c, d, a)
    }
  }

  /** A row of a matrix applied to a column. */
  function Dot(m: Column, s: Column): byte {
    Plus(Plus(Mul(s.a, m.a), Mul(s.b, m.b)), Plus(Mul(s.c, m.c), Mul(s.d, m.d)))
  }

  /** The circulant matrix with first row m applied to a column: each row starts one byte further down. */
  function Apply(m: Column, s: Column): Column {
    Column(Dot(m, s), Dot(m, s.Rotate()), Dot(m, s.Rotate().Rotate()), Dot(m, s.Rotate().Rotate().Rotate()))
  }

  /** The matrices of sections 5.1.3 and 5.3.3. */
  const MIX := Column(2, 3, 1, 1)
  const UNMIX := Column(0x0E, 0x0B, 0x0D, 0x09)

  function ColumnOf(s: Block, i: nat): Column
    requires i < 4
  {
    Column(s[4 * i], s[4 * i + 1], s[4 * i + 2], s[4 * i + 3])
  }

  function Bytes(c: Column): seq<byte> {
    [c.a, c.b, c.c, c.d]
  }

  function FromColumns(c0: Column, c1: Column, c2: Column, c3: Column): Block {
    Bytes(c0) + Bytes(c1) + Bytes(c2) + Bytes(c3)
  }

  function ApplyToColumns(m: Column, s: Block): Block {
    FromColumns(Apply(m, ColumnOf(s, 0)), Apply(m, ColumnOf(s, 1)), Apply(m, ColumnOf(s, 2)), Apply(m, ColumnOf(s, 3)))
  }

  function MixColumns(s: Block): Block {
    ApplyToColumns(MIX, s)
  }

  function InvMixColumns(s: Block): Block {
    ApplyToColumns(UNMIX, s)
  }

  // ---- Each transformation is undone by its inverse ----

  lemma SubBytesUndone(s: Block)
    ensures InvSubBytes(SubBytes(s)) == s
  {
    forall i | 0 <= i < 16
      ensures InvSubBytes(SubBytes(s))[i] == s[i]
    {
      InvSBoxUndoesSBox(s[i]);
    }
  }

  lemma ShiftIndex(i: nat, k: nat)
    requires i < 16 && k == (i + 12 * (i % 4)) % 16
    ensures (k + 4 * (k % 4)) % 16 == i
  {}

  lemma ShiftRowsUndone(s: Block)
    ensures InvShiftRows(ShiftRows(s)) == s
  {
    forall i | 0 <= i < 16
      ensures InvShiftRows(ShiftRows(s))[i] == s[i]
    {
      ShiftIndex(i, (i + 12 * (i % 4)) % 16);
    }
  }

  lemma PlusTwice(a: byte, k: byte)
    ensures Plus(Plus(a, k), k) == a
  {}

  lemma AddRoundKeyUndone(s: Block, k: Block)
    ensures AddRoundKey(AddRoundKey(s, k), k) == s
  {
    forall i | 0 <= i < 16
      ensures AddRoundKey(AddRoundKey(s, k), k)[i] == s[i]
    {
      PlusTwice(s[i], k[i]);
    }
  }

  // ---- MixColumns: the two matrices are inverse because their product is linear and fixes every unit ----

  lemma PickSum(s: byte, a: byte, b: byte, k: byte)
    requires Sum(s, a, b)
    ensures Sum(Pick(s, k), Pick(a, k), Pick(b, k))
  {}

  lemma {:induction false} TimesSum(s: byte, a: byte, b: byte, k: byte, n: nat)
    requires Sum(s, a, b)
    ensures Sum(Times(s, k, n), Times(a, k, n), Times(b, k, n))
    decreases n
  {
    if n > 0 {
      XtimeSum(s, a, b);
      var s', a', b', k' := Xtime(s), Xtime(a), Xtime(b), k >> 1;
      TimesSum(s', a', b', k', n - 1);
      PickSum(s, a, b, k);
      TimesStep(s, k, n);
      TimesStep(a, k, n);
      TimesStep(b, k, n);
      SumSwap(Pick(s, k), Pick(a, k), Pick(b, k), Times(s', k', n - 1), Times(a', k', n - 1), Times(b', k', n - 1),
              Times(s, k, n), Times(a, k, n), Times(b, k, n));
    } else {
      assert Sum(0, 0, 0);
    }
  }

  ghost predicate ColumnSum(s: Column, t: Column, u: Column) {
    Sum(s.a, t.a, u.a) && Sum(s.b, t.b, u.b) && Sum(s.c, t.c, u.c) && Sum(s.d, t.d, u.d)
  }

  lemma MulSum(s: byte, a: byte, b: byte, k: byte)
    requires Sum(s, a, b)
    ensures Sum(Mul(s, k), Mul(a, k), Mul(b, k))
  {
    TimesSum(s, a, b, k, 8);
  }

  lemma PlusSum(s: byte, a: byte, b: byte, s': byte, a': byte, b': byte)
    requires Sum(s, a, b) && Sum(s', a', b')
    ensures Sum(Plus(s, s'), Plus(a, a'), Plus(b, b'))
  {
    SumSwap(s, a, b, s', a', b', Plus(s, s'), Plus(a, a'), Plus(b, b'));
  }

  lemma DotSum(m: Column, s: Column, t: Column, u: Column)
    requires ColumnSum(s, t, u)
    ensures Sum(Dot(m, s), Dot(m, t), Dot(m, u))
  {
    hide Mul;
    MulSum(s.a, t.a, u.a, m.a);
    MulSum(s.b, t.b, u.b, m.b);
    MulSum(s.c, t.c, u.c, m.c);
    MulSum(s.d, t.d, u.d, m.d);
    PlusSum(Mul(s.a, m.a), Mul(t.a, m.a), Mul(u.a, m.a), Mul(s.b, m.b), Mul(t.b, m.b), Mul(u.b, m.b));
    PlusSum(Mul(s.c, m.c), Mul(t.c, m.c), Mul(u.c, m.c), Mul(s.d, m.d), Mul(t.d, m.d), Mul(u.d, m.d));
    hide Plus;
    PlusSum(Plus(Mul(s.a, m.a), Mul(s.b, m.b)), Plus(Mul(t.a, m.a), Mul(t.b, m.b)), Plus(Mul(u.a, m.a), Mul(u.b, m.b)),
            Plus(Mul(s.c, m.c), Mul(s.d, m.d)), Plus(Mul(t.c, m.c), Mul(t.d, m.d)), Plus(Mul(u.c, m.c), Mul(u.d, m.d)));
  }

  lemma ApplySum(m: Column, s: Column, t: Column, u: Column)
    requires ColumnSum(s, t, u)
    ensures ColumnSum(Apply(m, s), Apply(m, t), Apply(m, u))
  {
    hide Dot, Sum;
    DotSum(m, s, t, u);
    DotSum(m, s.Rotate(), t.Rotate(), u.Rotate());
    DotSum(m, s.Rotate().Rotate(), t.Rotate().Rotate(), u.Rotate().Rotate());
    DotSum(m, s.Rotate().Rotate().Rotate(), t.Rotate().Rotate().Rotate(), u.Rotate().Rotate().Rotate());
  }

  lemma {:induction false} TimesOfZero(k: byte, n: nat)
    ensures Times(0, k, n) == 0
    decreases n
  {
    if n > 0 {
      assert Xtime(0) == 0;
      TimesOfZero(k >> 1, n - 1);
    }
  }

  // Multiplication by the constants of the matrices, by repeated Xtime.

  function By3(x: byte): byte {
    x ^ Xtime(x)
  }

  function By9(x: byte): byte {
    x ^ Xtime(Xtime(Xtime(x)))
  }

  function ByB(x: byte): byte {
    x ^ (Xtime(x) ^ Xtime(Xtime(Xtime(x))))
  }

  function ByD(x: byte): byte {
    x ^ (Xtime(Xtime(x)) ^ Xtime(Xtime(Xtime(x))))
  }

  function ByE(x: byte): byte {
    Xtime(x) ^ (Xtime(Xtime(x)) ^ Xtime(Xtime(Xtime(x))))
  }

  lemma MulBy1(x: byte) ensures Mul(x, 1) == x {}

  lemma MulBy2(x: byte) ensures Mul(x, 2) == Xtime(x) {}

  lemma MulBy3(x: byte) ensures Mul(x, 3) == By3(x) {}

  lemma MulBy9(x: byte) ensures Mul(x, 0x09) == By9(x) {}

  lemma MulByB(x: byte) ensures Mul(x, 0x0B) == ByB(x) {}

  lemma MulByD(x: byte) ensures Mul(x, 0x0D) == ByD(x) {}

  lemma MulByE(x: byte) ensures Mul(x, 0x0E) == ByE(x) {}

  lemma UnmixDot(s: Column)
    ensures Dot(UNMIX, s) == Plus(Plus(ByE(s.a), ByB(s.b)), Plus(ByD(s.c), By9(s.d)))
  {
    hide Mul, ByE, ByB, ByD, By9, Plus;
    MulByE(s.a);
    MulByB(s.b);
    MulByD(s.c);
    MulBy9(s.d);
  }

  /** The first column of the product of the two matrices. */
  lemma MatrixProduct(x: byte)
    ensures Plus(Plus(ByE(Xtime(x)), ByB(x)), Plus(ByD(x), By9(By3(x)))) == x
    ensures Plus(Plus(ByE(x), ByB(x)), Plus(ByD(By3(x)), By9(Xtime(x)))) == 0
    ensures Plus(Plus(ByE(x), ByB(By3(x))), Plus(ByD(Xtime(x)), By9(x))) == 0
    ensures Plus(Plus(ByE(By3(x)), ByB(Xtime(x))), Plus(ByD(x), By9(x))) == 0
  {}

  lemma PlusZero(x: byte)
    ensures Plus(Plus(x, 0), Plus(0, 0)) == x && Plus(Plus(0, x), Plus(0, 0)) == x
    ensures Plus(Plus(0, 0), Plus(x, 0)) == x && Plus(Plus(0, 0), Plus(0, x)) == x
  {}

  lemma MixOfUnit(x: byte)
    ensures Apply(MIX, Column(x, 0, 0, 0)) == Column(Xtime(x), x, x, By3(x))
  {
    hide Mul, Plus, Xtime, By3;
    ZeroProducts();
    MulBy1(x);
    MulBy2(x);
    MulBy3(x);
    PlusZero(x);
    PlusZero(Xtime(x));
    PlusZero(By3(x));
  }

  lemma ZeroProducts()
    ensures Mul(0, 1) == 0 && Mul(0, 2) == 0 && Mul(0, 3) == 0
  {
    TimesOfZero(1, 8);
    TimesOfZero(2, 8);
    TimesOfZero(3, 8);
  }

  lemma UnitFixed(x: byte)
    ensures Apply(UNMIX, Apply(MIX, Column(x, 0, 0, 0))) == Column(x, 0, 0, 0)
  {
    hide Dot, Plus, Xtime, ByE, ByB, ByD, By9, By3;
    MixOfUnit(x);
    var y := Column(Xtime(x), x, x, By3(x));
    UnmixDot(y);
    UnmixDot(y.Rotate());
    UnmixDot(y.Rotate().Rotate());
    UnmixDot(y.Rotate().Rotate().Rotate());
    MatrixProduct(x);
  }

  lemma ApplyRotates(m: Column, s: Column)
    ensures Apply(m, s.Rotate()) == Apply(m, s).Rotate()
  {
    assert s.Rotate().Rotate().Rotate().Rotate() == s;
  }

  ghost function Product(s: Column): Column {
    Apply(UNMIX, Apply(MIX, s))
  }

  lemma ProductRotates(s: Column)
    requires Product(s) == s
    ensures Product(s.Rotate()) == s.Rotate()
  {
    ApplyRotates(MIX, s);
    ApplyRotates(UNMIX, Apply(MIX, s));
  }

  lemma ProductSum(s: Column, t: Column, u: Column)
    requires ColumnSum(s, t, u) && Product(t) == t && Product(u) == u
    ensures Product(s) == s
  {
    hide Apply;
    ApplySum(MIX, s, t, u);
    ApplySum(UNMIX, Apply(MIX, s), Apply(MIX, t), Apply(MIX, u));
    ColumnSumIsFunction(Product(s), s, t, u);
  }

  lemma ColumnSumIsFunction(s: Column, s': Column, t: Column, u: Column)
    requires ColumnSum(s, t, u) && ColumnSum(s', t, u)
    ensures s == s'
  {}

  /** The two matrices undo each other on every column. */
  lemma ColumnUnmixed(s: Column)
    ensures Apply(UNMIX, Apply(MIX, s)) == s
  {
    hide Product;
    var a, b, c, d := Column(s.a, 0, 0, 0), Column(0, s.b, 0, 0), Column(0, 0, s.c, 0), Column(0, 0, 0, s.d);
    AllUnitsFixed(s.a);
    AllUnitsFixed(s.b);
    AllUnitsFixed(s.c);
    AllUnitsFixed(s.d);
    ProductSum(Column(s.a, s.b, 0, 0), a, b);
    ProductSum(Column(0, 0, s.c, s.d), c, d);
    ProductSum(s, Column(s.a, s.b, 0, 0), Column(0, 0, s.c, s.d));
    ProductDef(s);
  }

  lemma ProductDef(s: Column)
    ensures Product(s) == Apply(UNMIX, Apply(MIX, s))
  {}

  lemma AllUnitsFixed(x: byte)
    ensures Product(Column(x, 0, 0, 0)) == Column(x, 0, 0, 0) && Product(Column(0, 0, 0, x)) == Column(0, 0, 0, x)
    ensures Product(Column(0, 0, x, 0)) == Column(0, 0, x, 0) && Product(Column(0, x, 0, 0)) == Column(0, x, 0, 0)
  {
    hide Apply;
    UnitFixed(x);
    ProductRotates(Column(x, 0, 0, 0));
    ProductRotates(Column(0, 0, 0, x));
    ProductRotates(Column(0, 0, x, 0));
  }

  lemma ColumnsOf(c0: Column, c1: Column, c2: Column, c3: Column)
    ensures ColumnOf(FromColumns(c0, c1, c2, c3), 0) == c0 && ColumnOf(FromColumns(c0, c1, c2, c3), 1) == c1
    ensures ColumnOf(FromColumns(c0, c1, c2, c3), 2) == c2 && ColumnOf(FromColumns(c0, c1, c2, c3), 3) == c3
  {}

  lemma OfColumns(s: Block)
    ensures FromColumns(ColumnOf(s, 0), ColumnOf(s, 1), ColumnOf(s, 2), ColumnOf(s, 3)) == s
  {}

  lemma MixColumnsUndone(s: Block)
    ensures InvMixColumns(MixColumns(s)) == s
  {
    hide Apply, ColumnOf, FromColumns;
    var c0, c1, c2, c3 := ColumnOf(s, 0), ColumnOf(s, 1), ColumnOf(s, 2), ColumnOf(s, 3);
    ColumnUnmixed(c0);
    ColumnUnmixed(c1);
    ColumnUnmixed(c2);
    ColumnUnmixed(c3);
    ColumnsOf(Apply(MIX, c0), Apply(MIX, c1), Apply(MIX, c2), Apply(MIX, c3));
    OfColumns(s);
  }

  // ---- The key schedule of section 5.2 ----

  type Word = w: seq<byte> | |w| == 4 witness [0, 0, 0, 0]

  function RotWord(w: Word): Word {
    [w[1], w[2], w[3], w[0]]
  }

  ghost function SubWord(w: Word): Word {
    [SBox(w[0]), SBox(w[1]), SBox(w[2]), SBox(w[3])]
  }

  function XorWord(v: Word, w: Word): Word {
    [Plus(v[0], w[0]), Plus(v[1], w[1]), Plus(v[2], w[2]), Plus(v[3], w[3])]
  }

  /** x to the power n, the round constants. */
  function RoundConstant(n: nat): byte {
    if n == 0 then 1 else Xtime(RoundConstant(n - 1))
  }

  /** What is added to the word eight places back to make word i. */
  ghost function Temp(previous: Word, i: nat): Word
    requires i >= KEY_WORDS
  {
    if i % KEY_WORDS == 0 then XorWord(SubWord(RotWord(previous)), [RoundConstant(i / KEY_WORDS - 1), 0, 0, 0])
    else if i % KEY_WORDS == 4 then SubWord(previous)
    else previous
  }

  /** The first n words of the expanded key, as bytes. */
  ghost function Schedule(key: seq<byte>, n: nat): (w: seq<byte>)
    requires |key| == 4 * KEY_WORDS
    ensures |w| == 4 * n
  {
    if n <= KEY_WORDS then key[..4 * n]
    else
      var w := Schedule(key, n - 1);
      w + XorWord(Temp(w[4 * (n - 2)..4 * (n - 1)], n - 1), w[4 * (n - 1 - KEY_WORDS)..4 * (n - KEY_WORDS)])
  }

  /** All the words the rounds need. */
  ghost function ExpandedKey(key: seq<byte>): (w: seq<byte>)
    requires |key| == 4 * KEY_WORDS
    ensures |w| == 16 * (ROUNDS + 1)
  {
    Schedule(key, 4 * (ROUNDS + 1))
  }

  // ---- The cipher and its inverse, sections 5.1 and 5.3 ----

  function RoundKey(w: seq<byte>, r: nat): Block
    requires |w| == 16 * (ROUNDS + 1) && r <= ROUNDS
  {
    w[16 * r..16 * r + 16]
  }

  /** The state before the final round: round key 0, then full rounds 1 to r. */
  ghost function Rounds(s: Block, w: seq<byte>, r: nat): Block
    requires |w| == 16 * (ROUNDS + 1) && r <= ROUNDS
    decreases r
  {
    if r == 0 then AddRoundKey(s, RoundKey(w, 0))
    else AddRoundKey(MixColumns(ShiftRows(SubBytes(Rounds(s, w, r - 1)))), RoundKey(w, r))
  }

  ghost function Cipher(s: Block, w: seq<byte>): Block
    requires |w| == 16 * (ROUNDS + 1)
  {
    AddRoundKey(ShiftRows(SubBytes(Rounds(s, w, ROUNDS - 1))), RoundKey(w, ROUNDS))
  }

  /** One full round of the inverse cipher. */
  ghost function InvRound(s: Block, k: Block): Block {
    InvMixColumns(AddRoundKey(InvSubBytes(InvShiftRows(s)), k))
  }

  /** Inverse rounds r down to 1. */
  ghost function InvRounds(s: Block, w: seq<byte>, r: nat): Block
    requires |w| == 16 * (ROUNDS + 1) && r <= ROUNDS
    decreases r
  {
    if r == 0 then s else InvRounds(InvRound(s, RoundKey(w, r)), w, r - 1)
  }

  ghost function InvCipher(s: Block, w: seq<byte>): Block
    requires |w| == 16 * (ROUNDS + 1)
  {
    var t := InvRounds(AddRoundKey(s, RoundKey(w, ROUNDS)), w, ROUNDS - 1);
    AddRoundKey(InvSubBytes(InvShiftRows(t)), RoundKey(w, 0))
  }

  lemma InvRoundUndoes(s: Block, k: Block)
    ensures InvRound(ShiftRows(SubBytes(AddRoundKey(MixColumns(s), k))), k) == s
  {
    hide SubBytes, ShiftRows, MixColumns, AddRoundKey, InvSubBytes, InvShiftRows, InvMixColumns;
    var t := AddRoundKey(MixColumns(s), k);
    ShiftRowsUndone(SubBytes(t));
    SubBytesUndone(t);
    AddRoundKeyUndone(MixColumns(s), k);
    MixColumnsUndone(s);
  }

  lemma {:induction false} InvRoundsUndo(s: Block, w: seq<byte>, r: nat)
    requires |w| == 16 * (ROUNDS + 1) && r <= ROUNDS
    ensures InvRounds(ShiftRows(SubBytes(Rounds(s, w, r))), w, r) == ShiftRows(SubBytes(Rounds(s, w, 0)))
    decreases r
  {
    hide SubBytes, ShiftRows, MixColumns, AddRoundKey, InvRound;
    if r > 0 {
      InvRoundUndoes(ShiftRows(SubBytes(Rounds(s, w, r - 1))), RoundKey(w, r));
      InvRoundsUndo(s, w, r - 1);
    }
  }

  /** Decryption undoes encryption, for every key schedule and every block. */
  lemma InvCipherUndoesCipher(s: Block, w: seq<byte>)
    requires |w| == 16 * (ROUNDS + 1)
    ensures InvCipher(Cipher(s, w), w) == s
  {
    hide SubBytes, ShiftRows, AddRoundKey, InvSubBytes, InvShiftRows, InvRounds;
    var t := ShiftRows(SubBytes(Rounds(s, w, ROUNDS - 1)));
    AddRoundKeyUndone(t, RoundKey(w, ROUNDS));
    InvRoundsUndo(s, w, ROUNDS - 1);
    ShiftRowsUndone(SubBytes(Rounds(s, w, 0)));
    SubBytesUndone(Rounds(s, w, 0));
    AddRoundKeyUndone(s, RoundKey(w, 0));
  }
}
