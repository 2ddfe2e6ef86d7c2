/** The examples of FIPS 197 for 256-bit keys: the expanded key of appendix A.3 and the block of appendix C.3. */
module AesVectors {
  import opened Words
  import opened Gf256
  import opened AesTables
  import opened AesCipher

  /** An entry of the S-box, from the inverse of the byte. */
  lemma Entry(x: byte, y: byte, r: byte)
    requires IsInverse(x, y) && r == Affine(y)
    ensures SBox(x) == r
  {
    if x != 0 {
      var k := Logarithm(x);
      InverseUnique(k, y);
      InverseUnique(k, Inverse(x));
    }
  }

  /** The four columns of a state or of a round key. */
  datatype State = State(c0: Column, c1: Column, c2: Column, c3: Column) {
    function ToBlock(): Block {
      FromColumns(c0, c1, c2, c3)
    }
  }

  function Add(c: Column, d: Column): Column {
    Column(Plus(c.a, d.a), Plus(c.b, d.b), Plus(c.c, d.c), Plus(c.d, d.d))
  }

  // ---- The key schedule ----

  /** Word i of the expanded key, as a column of a round key. */
  ghost function KeyColumn(key: seq<byte>, i: nat): Column
    requires |key| == 32
  {
    var w := Schedule(key, i + 1);
    Column(w[4 * i], w[4 * i + 1], w[4 * i + 2], w[4 * i + 3])
  }

  lemma {:induction false} Extends(key: seq<byte>, m: nat, n: nat)
    requires |key| == 32 && m <= n
    ensures Schedule(key, m) == Schedule(key, n)[..4 * m]
    decreases n
  {
    hide Temp, XorWord;
    if m == n {
    } else if n > 8 {
      Extends(key, m, n - 1);
      assert Schedule(key, n)[..4 * (n - 1)] == Schedule(key, n - 1);
    }
  }

  lemma ColumnIn(key: seq<byte>, i: nat, n: nat)
    requires |key| == 32 && i < n
    ensures Schedule(key, n)[4 * i..4 * i + 4] == Bytes(KeyColumn(key, i))
  {
    hide Schedule;
    Extends(key, i + 1, n);
  }

  lemma NextColumn(key: seq<byte>, i: nat)
    requires |key| == 32 && i >= 8
    ensures Bytes(KeyColumn(key, i)) == XorWord(Temp(Bytes(KeyColumn(key, i - 1)), i), Bytes(KeyColumn(key, i - 8)))
  {
    hide Temp, XorWord, Bytes;
    ColumnIn(key, i, i + 1);
    ColumnIn(key, i - 1, i);
    ColumnIn(key, i - 8, i);
  }

  ghost function SubColumn(c: Column): Column {
    Column(SBox(c.a), SBox(c.b), SBox(c.c), SBox(c.d))
  }

  lemma Given(key: seq<byte>, i: nat)
    requires |key| == 32 && i < 8
    ensures KeyColumn(key, i) == Column(key[4 * i], key[4 * i + 1], key[4 * i + 2], key[4 * i + 3])
  {}

  /** At every eighth word the one before is rotated, substituted and added to a round constant. */
  lemma Eighth(key: seq<byte>, i: nat, c: byte)
    requires |key| == 32 && i >= 8 && i % 8 == 0 && c == RoundConstant(i / 8 - 1)
    ensures KeyColumn(key, i) == Add(Add(SubColumn(KeyColumn(key, i - 1).Rotate()), Column(c, 0, 0, 0)), KeyColumn(key, i - 8))
  {
    hide SBox, RoundConstant, KeyColumn, Plus;
    NextColumn(key, i);
  }

  /** In the middle between them it is substituted. */
  lemma Middle(key: seq<byte>, i: nat)
    requires |key| == 32 && i >= 8 && i % 8 == 4
    ensures KeyColumn(key, i) == Add(SubColumn(KeyColumn(key, i - 1)), KeyColumn(key, i - 8))
  {
    hide SBox, KeyColumn, Plus;
    NextColumn(key, i);
  }

  lemma Other(key: seq<byte>, i: nat)
    requires |key| == 32 && i >= 8 && i % 8 != 0 && i % 8 != 4
    ensures KeyColumn(key, i) == Add(KeyColumn(key, i - 1), KeyColumn(key, i - 8))
  {
    hide KeyColumn, Plus;
    NextColumn(key, i);
  }

  /** The round key of round r. */
  ghost function Key(key: seq<byte>, r: nat): State
    requires |key| == 32
  {
    State(KeyColumn(key, 4 * r), KeyColumn(key, 4 * r + 1), KeyColumn(key, 4 * r + 2), KeyColumn(key, 4 * r + 3))
  }

  lemma InFour(w: seq<byte>, i: nat)
    requires 4 * i + 16 <= |w|
    ensures w[4 * i..4 * i + 16] ==
            w[4 * i..4 * i + 4] + w[4 * (i + 1)..4 * (i + 1) + 4] + w[4 * (i + 2)..4 * (i + 2) + 4] + w[4 * (i + 3)..4 * (i + 3) + 4]
  {}

  lemma KeyIs(key: seq<byte>, r: nat)
    requires |key| == 32 && r <= ROUNDS
    ensures RoundKey(ExpandedKey(key), r) == Key(key, r).ToBlock()
  {
    hide Schedule, KeyColumn, Bytes;
    var w, i := Schedule(key, 60), 4 * r;
    ColumnIn(key, i, 60);
    ColumnIn(key, i + 1, 60);
    ColumnIn(key, i + 2, 60);
    ColumnIn(key, i + 3, 60);
    InFour(w, i);
  }

  // ---- The rounds ----

  /** A column after the byte substitution, multiplied by the matrix and added to a column of the round key. */
  ghost function Mixed(c: Column, k: Column): Column {
    var s := SubColumn(c);
    Add(Column(Plus(Plus(Xtime(s.a), By3(s.b)), Plus(s.c, s.d)), Plus(Plus(Xtime(s.b), By3(s.c)), Plus(s.d, s.a)),
               Plus(Plus(Xtime(s.c), By3(s.d)), Plus(s.a, s.b)), Plus(Plus(Xtime(s.d), By3(s.a)), Plus(s.b, s.c))), k)
  }

  lemma MixedIs(c: Column, k: Column)
    ensures Mixed(c, k) == Add(Apply(MIX, SubColumn(c)), k)
  {
    hide SubColumn, Plus, Mul, Xtime, By3;
    var s := SubColumn(c);
    MulBy1(s.a); MulBy1(s.b); MulBy1(s.c); MulBy1(s.d);
    MulBy2(s.a); MulBy2(s.b); MulBy2(s.c); MulBy2(s.d);
    MulBy3(s.a); MulBy3(s.b); MulBy3(s.c); MulBy3(s.d);
  }

  function Diagonal(c: Column, d: Column, e: Column, f: Column): Column {
    Column(c.a, d.b, e.c, f.d)
  }

  ghost function Turned(t: State, k: State): State {
    State(Mixed(Diagonal(t.c0, t.c1, t.c2, t.c3), k.c0), Mixed(Diagonal(t.c1, t.c2, t.c3, t.c0), k.c1),
          Mixed(Diagonal(t.c2, t.c3, t.c0, t.c1), k.c2), Mixed(Diagonal(t.c3, t.c0, t.c1, t.c2), k.c3))
  }

  ghost function Shifted(t: State): State {
    State(SubColumn(Diagonal(t.c0, t.c1, t.c2, t.c3)), SubColumn(Diagonal(t.c1, t.c2, t.c3, t.c0)),
          SubColumn(Diagonal(t.c2, t.c3, t.c0, t.c1)), SubColumn(Diagonal(t.c3, t.c0, t.c1, t.c2)))
  }

  function Added(t: State, k: State): State {
    State(Add(t.c0, k.c0), Add(t.c1, k.c1), Add(t.c2, k.c2), Add(t.c3, k.c3))
  }

  lemma RowIndex(j: nat, r: nat)
    requires j < 4 && r < 4
    ensures (4 * j + r + 4 * ((4 * j + r) % 4)) % 16 == 4 * ((j + r) % 4) + r
  {}

  lemma ShiftedAt(s: Block, j: nat, r: nat)
    requires j < 4 && r < 4
    ensures ShiftRows(SubBytes(s))[4 * j + r] == SBox(s[4 * ((j + r) % 4) + r])
  {
    hide SBox;
    RowIndex(j, r);
  }

  lemma ShiftedColumn(s: Block, j: nat)
    requires j < 4
    ensures ColumnOf(ShiftRows(SubBytes(s)), j) ==
            SubColumn(Diagonal(ColumnOf(s, j), ColumnOf(s, (j + 1) % 4), ColumnOf(s, (j + 2) % 4), ColumnOf(s, (j + 3) % 4)))
  {
    hide SBox, SubBytes, ShiftRows;
    ShiftedAt(s, j, 0);
    ShiftedAt(s, j, 1);
    ShiftedAt(s, j, 2);
    ShiftedAt(s, j, 3);
  }

  lemma ShiftedIs(t: State)
    ensures ShiftRows(SubBytes(t.ToBlock())) == Shifted(t).ToBlock()
  {
    hide SubBytes, ShiftRows, SubColumn, ColumnOf, FromColumns;
    var s := t.ToBlock();
    ColumnsOf(t.c0, t.c1, t.c2, t.c3);
    ShiftedColumn(s, 0);
    ShiftedColumn(s, 1);
    ShiftedColumn(s, 2);
    ShiftedColumn(s, 3);
    OfColumns(ShiftRows(SubBytes(s)));
  }

  lemma AddedColumn(s: Block, k: Block, j: nat)
    requires j < 4
    ensures ColumnOf(AddRoundKey(s, k), j) == Add(ColumnOf(s, j), ColumnOf(k, j))
  {
    hide Plus;
  }

  lemma AddedIs(t: State, k: State)
    ensures AddRoundKey(t.ToBlock(), k.ToBlock()) == Added(t, k).ToBlock()
  {
    hide AddRoundKey, Add, ColumnOf, FromColumns;
    var s, l := t.ToBlock(), k.ToBlock();
    ColumnsOf(t.c0, t.c1, t.c2, t.c3);
    ColumnsOf(k.c0, k.c1, k.c2, k.c3);
    AddedColumn(s, l, 0);
    AddedColumn(s, l, 1);
    AddedColumn(s, l, 2);
    AddedColumn(s, l, 3);
    OfColumns(AddRoundKey(s, l));
  }

  lemma MixIs(t: State)
    ensures MixColumns(t.ToBlock()) == State(Apply(MIX, t.c0), Apply(MIX, t.c1), Apply(MIX, t.c2), Apply(MIX, t.c3)).ToBlock()
  {
    hide Apply, ColumnOf, FromColumns;
    ColumnsOf(t.c0, t.c1, t.c2, t.c3);
  }

  lemma TurnedIs(t: State, k: State)
    ensures AddRoundKey(MixColumns(ShiftRows(SubBytes(t.ToBlock()))), k.ToBlock()) == Turned(t, k).ToBlock()
  {
    hide SubBytes, ShiftRows, MixColumns, AddRoundKey, Apply, SubColumn, Add, Mixed;
    ShiftedIs(t);
    var u := Shifted(t);
    MixIs(u);
    AddedIs(State(Apply(MIX, u.c0), Apply(MIX, u.c1), Apply(MIX, u.c2), Apply(MIX, u.c3)), k);
    MixedIs(Diagonal(t.c0, t.c1, t.c2, t.c3), k.c0);
    MixedIs(Diagonal(t.c1, t.c2, t.c3, t.c0), k.c1);
    MixedIs(Diagonal(t.c2, t.c3, t.c0, t.c1), k.c2);
    MixedIs(Diagonal(t.c3, t.c0, t.c1, t.c2), k.c3);
  }

  /** Round r of the cipher. */
  lemma Round(s: Block, key: seq<byte>, r: nat, t: State)
    requires |key| == 32 && 0 < r < ROUNDS && Rounds(s, ExpandedKey(key), r - 1) == t.ToBlock()
    ensures Rounds(s, ExpandedKey(key), r) == Turned(t, Key(key, r)).ToBlock()
  {
    hide SubBytes, ShiftRows, MixColumns, AddRoundKey, Turned, RoundKey, ExpandedKey, Key, FromColumns;
    KeyIs(key, r);
    TurnedIs(t, Key(key, r));
  }

  // ---- Appendix A.3 ----

  predicate IsA3(key: seq<byte>) {
    && |key| == 32
    && key[..16] == [0x60, 0x3D, 0xEB, 0x10, 0x15, 0xCA, 0x71, 0xBE, 0x2B, 0x73, 0xAE, 0xF0, 0x85, 0x7D, 0x77, 0x81]
    && key[16..] == [0x1F, 0x35, 0x2C, 0x07, 0x3B, 0x61, 0x08, 0xD7, 0x2D, 0x98, 0x10, 0xA3, 0x09, 0x14, 0xDF, 0xF4]
  }

  lemma A3First(key: seq<byte>)
    requires IsA3(key)
    ensures Key(key, 0) == State(Column(0x60, 0x3D, 0xEB, 0x10), Column(0x15, 0xCA, 0x71, 0xBE),
                                 Column(0x2B, 0x73, 0xAE, 0xF0), Column(0x85, 0x7D, 0x77, 0x81))
  {
    hide KeyColumn;
    Given(key, 0);
    Given(key, 1);
    Given(key, 2);
    Given(key, 3);
  }

  lemma A3Second(key: seq<byte>)
    requires IsA3(key)
    ensures Key(key, 1) == State(Column(0x1F, 0x35, 0x2C, 0x07), Column(0x3B, 0x61, 0x08, 0xD7),
                                 Column(0x2D, 0x98, 0x10, 0xA3), Column(0x09, 0x14, 0xDF, 0xF4))
  {
    hide KeyColumn;
    Given(key, 4);
    Given(key, 5);
    Given(key, 6);
    Given(key, 7);
  }

  lemma A3Keys2(key: seq<byte>)
    requires |key| == 32
    requires Key(key, 0) == State(Column(0x60, 0x3D, 0xEB, 0x10), Column(0x15, 0xCA, 0x71, 0xBE),
                                  Column(0x2B, 0x73, 0xAE, 0xF0), Column(0x85, 0x7D, 0x77, 0x81))
    requires Key(key, 1) == State(Column(0x1F, 0x35, 0x2C, 0x07), Column(0x3B, 0x61, 0x08, 0xD7),
                                  Column(0x2D, 0x98, 0x10, 0xA3), Column(0x09, 0x14, 0xDF, 0xF4))
    ensures Key(key, 2) == State(Column(0x9B, 0xA3, 0x54, 0x11), Column(0x8E, 0x69, 0x25, 0xAF),
                                 Column(0xA5, 0x1A, 0x8B, 0x5F), Column(0x20, 0x67, 0xFC, 0xDE))
    ensures Key(key, 3) == State(Column(0xA8, 0xB0, 0x9C, 0x1A), Column(0x93, 0xD1, 0x94, 0xCD),
                                 Column(0xBE, 0x49, 0x84, 0x6E), Column(0xB7, 0x5D, 0x5B, 0x9A))
  {
    hide SBox, KeyColumn;
    Entry(0x14, 0x99, 0xFA); Entry(0xDF, 0x6B, 0x9E); Entry(0xF4, 0x68, 0xBF); Entry(0x09, 0x4F, 0x01);
    Entry(0x20, 0x3A, 0xB7); Entry(0x67, 0x43, 0x85); Entry(0xFC, 0xCD, 0xB0); Entry(0xDE, 0x90, 0x1D);
    Eighth(key, 8, 0x01);
    Other(key, 9);
    Other(key, 10);
    Other(key, 11);
    Middle(key, 12);
    Other(key, 13);
    Other(key, 14);
    Other(key, 15);
  }

  /** Words 8 to 15 of the expanded key. */
  lemma ScheduleA3(key: seq<byte>)
    requires IsA3(key)
    ensures RoundKey(ExpandedKey(key), 2) ==
            [0x9B, 0xA3, 0x54, 0x11, 0x8E, 0x69, 0x25, 0xAF, 0xA5, 0x1A, 0x8B, 0x5F, 0x20, 0x67, 0xFC, 0xDE]
    ensures RoundKey(ExpandedKey(key), 3) ==
            [0xA8, 0xB0, 0x9C, 0x1A, 0x93, 0xD1, 0x94, 0xCD, 0xBE, 0x49, 0x84, 0x6E, 0xB7, 0x5D, 0x5B, 0x9A]
  {
    hide Key, RoundKey, ExpandedKey;
    A3First(key);
    A3Second(key);
    A3Keys2(key);
    KeyIs(key, 2);
    KeyIs(key, 3);
  }

  // ---- Appendix C.3 ----

  predicate IsC3(key: seq<byte>) {
    && |key| == 32
    && key[..16] == [0x00, 0x01, 0x02, 0x03, 0x04, 0x05, 0x06, 0x07, 0x08, 0x09, 0x0A, 0x0B, 0x0C, 0x0D, 0x0E, 0x0F]
    && key[16..] == [0x10, 0x11, 0x12, 0x13, 0x14, 0x15, 0x16, 0x17, 0x18, 0x19, 0x1A, 0x1B, 0x1C, 0x1D, 0x1E, 0x1F]
  }

  lemma C3First(key: seq<byte>)
    requires IsC3(key)
    ensures Key(key, 0) == State(Column(0x00, 0x01, 0x02, 0x03), Column(0x04, 0x05, 0x06, 0x07),
                                 Column(0x08, 0x09, 0x0A, 0x0B), Column(0x0C, 0x0D, 0x0E, 0x0F))
  {
    hide KeyColumn;
    Given(key, 0);
    Given(key, 1);
    Given(key, 2);
    Given(key, 3);
  }

  lemma C3Second(key: seq<byte>)
    requires IsC3(key)
    ensures Key(key, 1) == State(Column(0x10, 0x11, 0x12, 0x13), Column(0x14, 0x15, 0x16, 0x17),
                                 Column(0x18, 0x19, 0x1A, 0x1B), Column(0x1C, 0x1D, 0x1E, 0x1F))
  {
    hide KeyColumn;
    Given(key, 4);
    Given(key, 5);
    Given(key, 6);
    Given(key, 7);
  }

  lemma C3Keys2(key: seq<byte>)
    requires |key| == 32
    requires Key(key, 0) == State(Column(0x00, 0x01, 0x02, 0x03), Column(0x04, 0x05, 0x06, 0x07),
                                  Column(0x08, 0x09, 0x0A, 0x0B), Column(0x0C, 0x0D, 0x0E, 0x0F))
    requires Key(key, 1) == State(Column(0x10, 0x11, 0x12, 0x13), Column(0x14, 0x15, 0x16, 0x17),
                                  Column(0x18, 0x19, 0x1A, 0x1B), Column(0x1C, 0x1D, 0x1E, 0x1F))
    ensures Key(key, 2) == State(Column(0xA5, 0x73, 0xC2, 0x9F), Column(0xA1, 0x76, 0xC4, 0x98),
                                 Column(0xA9, 0x7F, 0xCE, 0x93), Column(0xA5, 0x72, 0xC0, 0x9C))
    ensures Key(key, 3) == State(Column(0x16, 0x51, 0xA8, 0xCD), Column(0x02, 0x44, 0xBE, 0xDA),
                                 Column(0x1A, 0x5D, 0xA4, 0xC1), Column(0x06, 0x40, 0xBA, 0xDE))
  {
    hide SBox, KeyColumn;
    Entry(0x1D, 0x40, 0xA4); Entry(0x1E, 0xEE, 0x72); Entry(0x1F, 0xB2, 0xC0); Entry(0x1C, 0xFF, 0x9C);
    Entry(0xA5, 0xB8, 0x06); Entry(0x72, 0x97, 0x40); Entry(0xC0, 0x0B, 0xBA); Entry(0x9C, 0xF9, 0xDE);
    Eighth(key, 8, 0x01);
    Other(key, 9);
    Other(key, 10);
    Other(key, 11);
    Middle(key, 12);
    Other(key, 13);
    Other(key, 14);
    Other(key, 15);
  }

  lemma C3Keys4(key: seq<byte>)
    requires |key| == 32
    requires Key(key, 2) == State(Column(0xA5, 0x73, 0xC2, 0x9F), Column(0xA1, 0x76, 0xC4, 0x98),
                                  Column(0xA9, 0x7F, 0xCE, 0x93), Column(0xA5, 0x72, 0xC0, 0x9C))
    requires Key(key, 3) == State(Column(0x16, 0x51, 0xA8, 0xCD), Column(0x02, 0x44, 0xBE, 0xDA),
                                  Column(0x1A, 0x5D, 0xA4, 0xC1), Column(0x06, 0x40, 0xBA, 0xDE))
    ensures Key(key, 4) == State(Column(0xAE, 0x87, 0xDF, 0xF0), Column(0x0F, 0xF1, 0x1B, 0x68),
                                 Column(0xA6, 0x8E, 0xD5, 0xFB), Column(0x03, 0xFC, 0x15, 0x67))
    ensures Key(key, 5) == State(Column(0x6D, 0xE1, 0xF1, 0x48), Column(0x6F, 0xA5, 0x4F, 0x92),
                                 Column(0x75, 0xF8, 0xEB, 0x53), Column(0x73, 0xB8, 0x51, 0x8D))
  {
    hide SBox, KeyColumn;
    Entry(0x40, 0x1D, 0x09); Entry(0xBA, 0x76, 0xF4); Entry(0xDE, 0x90, 0x1D); Entry(0x06, 0x7B, 0x6F);
    Entry(0x03, 0xF6, 0x7B); Entry(0xFC, 0xCD, 0xB0); Entry(0x15, 0x2B, 0x59); Entry(0x67, 0x43, 0x85);
    Eighth(key, 16, 0x02);
    Other(key, 17);
    Other(key, 18);
    Other(key, 19);
    Middle(key, 20);
    Other(key, 21);
    Other(key, 22);
    Other(key, 23);
  }

  lemma C3Keys6(key: seq<byte>)
    requires |key| == 32
    requires Key(key, 4) == State(Column(0xAE, 0x87, 0xDF, 0xF0), Column(0x0F, 0xF1, 0x1B, 0x68),
                                  Column(0xA6, 0x8E, 0xD5, 0xFB), Column(0x03, 0xFC, 0x15, 0x67))
    requires Key(key, 5) == State(Column(0x6D, 0xE1, 0xF1, 0x48), Column(0x6F, 0xA5, 0x4F, 0x92),
                                  Column(0x75, 0xF8, 0xEB, 0x53), Column(0x73, 0xB8, 0x51, 0x8D))
    ensures Key(key, 6) == State(Column(0xC6, 0x56, 0x82, 0x7F), Column(0xC9, 0xA7, 0x99, 0x17),
                                 Column(0x6F, 0x29, 0x4C, 0xEC), Column(0x6C, 0xD5, 0x59, 0x8B))
    ensures Key(key, 7) == State(Column(0x3D, 0xE2, 0x3A, 0x75), Column(0x52, 0x47, 0x75, 0xE7),
                                 Column(0x27, 0xBF, 0x9E, 0xB4), Column(0x54, 0x07, 0xCF, 0x39))
  {
    hide SBox, KeyColumn;
    Entry(0xB8, 0xA5, 0x6C); Entry(0x51, 0x5C, 0xD1); Entry(0x8D, 0x02, 0x5D); Entry(0x73, 0x85, 0x8F);
    Entry(0x6C, 0x33, 0x50); Entry(0xD5, 0xDB, 0x03); Entry(0x59, 0x3E, 0xCB); Entry(0x8B, 0xD9, 0x3D);
    Eighth(key, 24, 0x04);
    Other(key, 25);
    Other(key, 26);
    Other(key, 27);
    Middle(key, 28);
    Other(key, 29);
    Other(key, 30);
    Other(key, 31);
  }

  lemma C3Keys8(key: seq<byte>)
    requires |key| == 32
    requires Key(key, 6) == State(Column(0xC6, 0x56, 0x82, 0x7F), Column(0xC9, 0xA7, 0x99, 0x17),
                                  Column(0x6F, 0x29, 0x4C, 0xEC), Column(0x6C, 0xD5, 0x59, 0x8B))
    requires Key(key, 7) == State(Column(0x3D, 0xE2, 0x3A, 0x75), Column(0x52, 0x47, 0x75, 0xE7),
                                  Column(0x27, 0xBF, 0x9E, 0xB4), Column(0x54, 0x07, 0xCF, 0x39))
    ensures Key(key, 8) == State(Column(0x0B, 0xDC, 0x90, 0x5F), Column(0xC2, 0x7B, 0x09, 0x48),
                                 Column(0xAD, 0x52, 0x45, 0xA4), Column(0xC1, 0x87, 0x1C, 0x2F))
    ensures Key(key, 9) == State(Column(0x45, 0xF5, 0xA6, 0x60), Column(0x17, 0xB2, 0xD3, 0x87),
                                 Column(0x30, 0x0D, 0x4D, 0x33), Column(0x64, 0x0A, 0x82, 0x0A))
  {
    hide SBox, KeyColumn;
    Entry(0x07, 0xD1, 0xC5); Entry(0xCF, 0xE6, 0x8A); Entry(0x39, 0x35, 0x12); Entry(0x54, 0x4C, 0x20);
    Entry(0xC1, 0x28, 0x78); Entry(0x87, 0x56, 0x17); Entry(0x1C, 0xFF, 0x9C); Entry(0x2F, 0xC2, 0x15);
    Eighth(key, 32, 0x08);
    Other(key, 33);
    Other(key, 34);
    Other(key, 35);
    Middle(key, 36);
    Other(key, 37);
    Other(key, 38);
    Other(key, 39);
  }

  lemma C3Keys10(key: seq<byte>)
    requires |key| == 32
    requires Key(key, 8) == State(Column(0x0B, 0xDC, 0x90, 0x5F), Column(0xC2, 0x7B, 0x09, 0x48),
                                  Column(0xAD, 0x52, 0x45, 0xA4), Column(0xC1, 0x87, 0x1C, 0x2F))
    requires Key(key, 9) == State(Column(0x45, 0xF5, 0xA6, 0x60), Column(0x17, 0xB2, 0xD3, 0x87),
                                  Column(0x30, 0x0D, 0x4D, 0x33), Column(0x64, 0x0A, 0x82, 0x0A))
    ensures Key(key, 10) == State(Column(0x7C, 0xCF, 0xF7, 0x1C), Column(0xBE, 0xB4, 0xFE, 0x54),
                                  Column(0x13, 0xE6, 0xBB, 0xF0), Column(0xD2, 0x61, 0xA7, 0xDF))
    ensures Key(key, 11) == State(Column(0xF0, 0x1A, 0xFA, 0xFE), Column(0xE7, 0xA8, 0x29, 0x79),
                                  Column(0xD7, 0xA5, 0x64, 0x4A), Column(0xB3, 0xAF, 0xE6, 0x40))
  {
    hide SBox, KeyColumn;
    Entry(0x0A, 0x29, 0x67); Entry(0x82, 0x7F, 0x13); Entry(0x64, 0x49, 0x43); Entry(0xD2, 0xAE, 0xB5);
    Entry(0x61, 0x5E, 0xEF); Entry(0xA7, 0x48, 0x5C); Entry(0xDF, 0x6B, 0x9E);
    Eighth(key, 40, 0x10);
    Other(key, 41);
    Other(key, 42);
    Other(key, 43);
    Middle(key, 44);
    Other(key, 45);
    Other(key, 46);
    Other(key, 47);
  }

  lemma C3Keys12(key: seq<byte>)
    requires |key| == 32
    requires Key(key, 10) == State(Column(0x7C, 0xCF, 0xF7, 0x1C), Column(0xBE, 0xB4, 0xFE, 0x54),
                                   Column(0x13, 0xE6, 0xBB, 0xF0), Column(0xD2, 0x61, 0xA7, 0xDF))
    requires Key(key, 11) == State(Column(0xF0, 0x1A, 0xFA, 0xFE), Column(0xE7, 0xA8, 0x29, 0x79),
                                   Column(0xD7, 0xA5, 0x64, 0x4A), Column(0xB3, 0xAF, 0xE6, 0x40))
    ensures Key(key, 12) == State(Column(0x25, 0x41, 0xFE, 0x71), Column(0x9B, 0xF5, 0x00, 0x25),
                                  Column(0x88, 0x13, 0xBB, 0xD5), Column(0x5A, 0x72, 0x1C, 0x0A))
    ensures Key(key, 13) == State(Column(0x4E, 0x5A, 0x66, 0x99), Column(0xA9, 0xF2, 0x4F, 0xE0),
                                  Column(0x7E, 0x57, 0x2B, 0xAA), Column(0xCD, 0xF8, 0xCD, 0xEA))
  {
    hide SBox, KeyColumn;
    Entry(0xAF, 0x62, 0x79); Entry(0xE6, 0xCF, 0x8E); Entry(0x40, 0x1D, 0x09); Entry(0xB3, 0xEF, 0x6D);
    Entry(0x5A, 0x22, 0xBE); Entry(0x72, 0x97, 0x40); Entry(0x1C, 0xFF, 0x9C); Entry(0x0A, 0x29, 0x67);
    Eighth(key, 48, 0x20);
    Other(key, 49);
    Other(key, 50);
    Other(key, 51);
    Middle(key, 52);
    Other(key, 53);
    Other(key, 54);
    Other(key, 55);
  }

  lemma C3Keys14(key: seq<byte>)
    requires |key| == 32
    requires Key(key, 12) == State(Column(0x25, 0x41, 0xFE, 0x71), Column(0x9B, 0xF5, 0x00, 0x25),
                                   Column(0x88, 0x13, 0xBB, 0xD5), Column(0x5A, 0x72, 0x1C, 0x0A))
    requires Key(key, 13) == State(Column(0x4E, 0x5A, 0x66, 0x99), Column(0xA9, 0xF2, 0x4F, 0xE0),
                                   Column(0x7E, 0x57, 0x2B, 0xAA), Column(0xCD, 0xF8, 0xCD, 0xEA))
    ensures Key(key, 14) == State(Column(0x24, 0xFC, 0x79, 0xCC), Column(0xBF, 0x09, 0x79, 0xE9),
                                  Column(0x37, 0x1A, 0xC2, 0x3C), Column(0x6D, 0x68, 0xDE, 0x36))
  {
    hide SBox, KeyColumn;
    Entry(0xF8, 0xDD, 0x41); Entry(0xCD, 0xFC, 0xBD); Entry(0xEA, 0xD7, 0x87);
    Eighth(key, 56, 0x40);
    Other(key, 57);
    Other(key, 58);
    Other(key, 59);
  }

  lemma C3Round1(s: Block, key: seq<byte>)
    requires |key| == 32
    requires Rounds(s, ExpandedKey(key), 0) == State(Column(0x00, 0x10, 0x20, 0x30), Column(0x40, 0x50, 0x60, 0x70),
                                                     Column(0x80, 0x90, 0xA0, 0xB0), Column(0xC0, 0xD0, 0xE0, 0xF0)).ToBlock()
    requires Key(key, 1) == State(Column(0x10, 0x11, 0x12, 0x13), Column(0x14, 0x15, 0x16, 0x17),
                                  Column(0x18, 0x19, 0x1A, 0x1B), Column(0x1C, 0x1D, 0x1E, 0x1F))
    ensures Rounds(s, ExpandedKey(key), 1) == State(Column(0x4F, 0x63, 0x76, 0x06), Column(0x43, 0xE0, 0xAA, 0x85),
                                                    Column(0xEF, 0xA7, 0x21, 0x32), Column(0x01, 0xA4, 0xE7, 0x05)).ToBlock()
  {
    hide SBox, Rounds, ExpandedKey, Key, FromColumns;
    Entry(0x00, 0x00, 0x63); Entry(0x10, 0x74, 0xCA); Entry(0x20, 0x3A, 0xB7); Entry(0x30, 0x2C, 0x04);
    Entry(0x40, 0x1D, 0x09); Entry(0x50, 0xED, 0x53); Entry(0x60, 0x16, 0xD0); Entry(0x70, 0x79, 0x51);
    Entry(0x80, 0x83, 0xCD); Entry(0x90, 0xDE, 0x60); Entry(0xA0, 0xFB, 0xE0); Entry(0xB0, 0x0C, 0xE7);
    Entry(0xC0, 0x0B, 0xBA); Entry(0xD0, 0x7A, 0x70); Entry(0xE0, 0xB1, 0xE1); Entry(0xF0, 0x5B, 0x8C);
    Round(s, key, 1, State(Column(0x00, 0x10, 0x20, 0x30), Column(0x40, 0x50, 0x60, 0x70),
                           Column(0x80, 0x90, 0xA0, 0xB0), Column(0xC0, 0xD0, 0xE0, 0xF0)));
  }

  lemma C3Round2(s: Block, key: seq<byte>)
    requires |key| == 32
    requires Rounds(s, ExpandedKey(key), 1) == State(Column(0x4F, 0x63, 0x76, 0x06), Column(0x43, 0xE0, 0xAA, 0x85),
                                                     Column(0xEF, 0xA7, 0x21, 0x32), Column(0x01, 0xA4, 0xE7, 0x05)).ToBlock()
    requires Key(key, 2) == State(Column(0xA5, 0x73, 0xC2, 0x9F), Column(0xA1, 0x76, 0xC4, 0x98),
                                  Column(0xA9, 0x7F, 0xCE, 0x93), Column(0xA5, 0x72, 0xC0, 0x9C))
    ensures Rounds(s, ExpandedKey(key), 2) == State(Column(0x18, 0x59, 0xFB, 0xC2), Column(0x8A, 0x1C, 0x00, 0xA0),
                                                    Column(0x78, 0xED, 0x8A, 0xAD), Column(0xC4, 0x2F, 0x61, 0x09)).ToBlock()
  {
    hide SBox, Rounds, ExpandedKey, Key, FromColumns;
    Entry(0x4F, 0x09, 0x84); Entry(0x63, 0xD3, 0xFB); Entry(0x76, 0xBA, 0x38); Entry(0x06, 0x7B, 0x6F);
    Entry(0x43, 0x67, 0x1A); Entry(0xE0, 0xB1, 0xE1); Entry(0xAA, 0x12, 0xAC); Entry(0x85, 0x73, 0x97);
    Entry(0xEF, 0xB3, 0xDF); Entry(0xA7, 0x48, 0x5C); Entry(0x21, 0x6E, 0xFD); Entry(0x32, 0x92, 0x23);
    Entry(0x01, 0x01, 0x7C); Entry(0xA4, 0x8F, 0x49); Entry(0xE7, 0xAD, 0x94); Entry(0x05, 0x52, 0x6B);
    Round(s, key, 2, State(Column(0x4F, 0x63, 0x76, 0x06), Column(0x43, 0xE0, 0xAA, 0x85),
                           Column(0xEF, 0xA7, 0x21, 0x32), Column(0x01, 0xA4, 0xE7, 0x05)));
  }

  lemma C3Round3(s: Block, key: seq<byte>)
    requires |key| == 32
    requires Rounds(s, ExpandedKey(key), 2) == State(Column(0x18, 0x59, 0xFB, 0xC2), Column(0x8A, 0x1C, 0x00, 0xA0),
                                                     Column(0x78, 0xED, 0x8A, 0xAD), Column(0xC4, 0x2F, 0x61, 0x09)).ToBlock()
    requires Key(key, 3) == State(Column(0x16, 0x51, 0xA8, 0xCD), Column(0x02, 0x44, 0xBE, 0xDA),
                                  Column(0x1A, 0x5D, 0xA4, 0xC1), Column(0x06, 0x40, 0xBA, 0xDE))
    ensures Rounds(s, ExpandedKey(key), 3) == State(Column(0x97, 0x5C, 0x66, 0xC1), Column(0xCB, 0x9F, 0x3F, 0xA8),
                                                    Column(0xA9, 0x3A, 0x28, 0xDF), Column(0x8E, 0xE1, 0x0F, 0x63)).ToBlock()
  {
    hide SBox, Rounds, ExpandedKey, Key, FromColumns;
    Entry(0x18, 0x58, 0xAD); Entry(0x59, 0x3E, 0xCB); Entry(0xFB, 0xA0, 0x0F); Entry(0xC2, 0x2F, 0x25);
    Entry(0x8A, 0x95, 0x7E); Entry(0x1C, 0xFF, 0x9C); Entry(0x00, 0x00, 0x63); Entry(0xA0, 0xFB, 0xE0);
    Entry(0x78, 0xB6, 0xBC); Entry(0xED, 0x50, 0x55); Entry(0xAD, 0xE7, 0x95); Entry(0xC4, 0xDA, 0x1C);
    Entry(0x2F, 0xC2, 0x15); Entry(0x61, 0x5E, 0xEF); Entry(0x09, 0x4F, 0x01);
    Round(s, key, 3, State(Column(0x18, 0x59, 0xFB, 0xC2), Column(0x8A, 0x1C, 0x00, 0xA0),
                           Column(0x78, 0xED, 0x8A, 0xAD), Column(0xC4, 0x2F, 0x61, 0x09)));
  }

  lemma C3Round4(s: Block, key: seq<byte>)
    requires |key| == 32
    requires Rounds(s, ExpandedKey(key), 3) == State(Column(0x97, 0x5C, 0x66, 0xC1), Column(0xCB, 0x9F, 0x3F, 0xA8),
                                                     Column(0xA9, 0x3A, 0x28, 0xDF), Column(0x8E, 0xE1, 0x0F, 0x63)).ToBlock()
    requires Key(key, 4) == State(Column(0xAE, 0x87, 0xDF, 0xF0), Column(0x0F, 0xF1, 0x1B, 0x68),
                                  Column(0xA6, 0x8E, 0xD5, 0xFB), Column(0x03, 0xFC, 0x15, 0x67))
    ensures Rounds(s, ExpandedKey(key), 4) == State(Column(0x1C, 0x05, 0xF2, 0x71), Column(0xA4, 0x17, 0xE0, 0x4F),
                                                    Column(0xF9, 0x21, 0xC5, 0xC1), Column(0x04, 0x70, 0x15, 0x54)).ToBlock()
  {
    hide SBox, Rounds, ExpandedKey, Key, FromColumns;
    Entry(0x97, 0x72, 0x88); Entry(0x5C, 0x51, 0x4A); Entry(0x66, 0x36, 0x33); Entry(0xC1, 0x28, 0x78);
    Entry(0xCB, 0x04, 0x1F); Entry(0x9F, 0x9A, 0xDB); Entry(0x3F, 0x19, 0x75); Entry(0xA8, 0x26, 0xC2);
    Entry(0xA9, 0xC8, 0xD3); Entry(0x3A, 0x20, 0x80); Entry(0x28, 0xC1, 0x34); Entry(0xDF, 0x6B, 0x9E);
    Entry(0x8E, 0xB9, 0x19); Entry(0xE1, 0x0D, 0xF8); Entry(0x0F, 0xC7, 0x76); Entry(0x63, 0xD3, 0xFB);
    Round(s, key, 4, State(Column(0x97, 0x5C, 0x66, 0xC1), Column(0xCB, 0x9F, 0x3F, 0xA8),
                           Column(0xA9, 0x3A, 0x28, 0xDF), Column(0x8E, 0xE1, 0x0F, 0x63)));
  }

  lemma C3Round5(s: Block, key: seq<byte>)
    requires |key| == 32
    requires Rounds(s, ExpandedKey(key), 4) == State(Column(0x1C, 0x05, 0xF2, 0x71), Column(0xA4, 0x17, 0xE0, 0x4F),
                                                     Column(0xF9, 0x21, 0xC5, 0xC1), Column(0x04, 0x70, 0x15, 0x54)).ToBlock()
    requires Key(key, 5) == State(Column(0x6D, 0xE1, 0xF1, 0x48), Column(0x6F, 0xA5, 0x4F, 0x92),
                                  Column(0x75, 0xF8, 0xEB, 0x53), Column(0x73, 0xB8, 0x51, 0x8D))
    ensures Rounds(s, ExpandedKey(key), 5) == State(Column(0xC3, 0x57, 0xAA, 0xE1), Column(0x1B, 0x45, 0xB7, 0xB0),
                                                    Column(0xA2, 0xC7, 0xBD, 0x28), Column(0xA8, 0xDC, 0x99, 0xFA)).ToBlock()
  {
    hide SBox, Rounds, ExpandedKey, Key, FromColumns;
    Entry(0x1C, 0xFF, 0x9C); Entry(0x05, 0x52, 0x6B); Entry(0xF2, 0x38, 0x89); Entry(0x71, 0xB7, 0xA3);
    Entry(0xA4, 0x8F, 0x49); Entry(0x17, 0x5F, 0xF0); Entry(0xE0, 0xB1, 0xE1); Entry(0x4F, 0x09, 0x84);
    Entry(0xF9, 0x9C, 0x99); Entry(0x21, 0x6E, 0xFD); Entry(0xC5, 0xD4, 0xA6); Entry(0xC1, 0x28, 0x78);
    Entry(0x04, 0xCB, 0xF2); Entry(0x70, 0x79, 0x51); Entry(0x15, 0x2B, 0x59); Entry(0x54, 0x4C, 0x20);
    Round(s, key, 5, State(Column(0x1C, 0x05, 0xF2, 0x71), Column(0xA4, 0x17, 0xE0, 0x4F),
                           Column(0xF9, 0x21, 0xC5, 0xC1), Column(0x04, 0x70, 0x15, 0x54)));
  }

  lemma C3Round6(s: Block, key: seq<byte>)
    requires |key| == 32
    requires Rounds(s, ExpandedKey(key), 5) == State(Column(0xC3, 0x57, 0xAA, 0xE1), Column(0x1B, 0x45, 0xB7, 0xB0),
                                                     Column(0xA2, 0xC7, 0xBD, 0x28), Column(0xA8, 0xDC, 0x99, 0xFA)).ToBlock()
    requires Key(key, 6) == State(Column(0xC6, 0x56, 0x82, 0x7F), Column(0xC9, 0xA7, 0x99, 0x17),
                                  Column(0x6F, 0x29, 0x4C, 0xEC), Column(0x6C, 0xD5, 0x59, 0x8B))
    ensures Rounds(s, ExpandedKey(key), 6) == State(Column(0x7F, 0x07, 0x41, 0x43), Column(0xCB, 0x4E, 0x24, 0x3E),
                                                    Column(0xC1, 0x0C, 0x81, 0x5D), Column(0x83, 0x75, 0xD5, 0x4C)).ToBlock()
  {
    hide SBox, Rounds, ExpandedKey, Key, FromColumns;
    Entry(0xC3, 0xA3, 0x2E); Entry(0x57, 0xBF, 0x5B); Entry(0xAA, 0x12, 0xAC); Entry(0xE1, 0x0D, 0xF8);
    Entry(0x1B, 0xCC, 0xAF); Entry(0x45, 0x31, 0x6E); Entry(0xB7, 0x71, 0xA9); Entry(0xB0, 0x0C, 0xE7);
    Entry(0xA2, 0x2E, 0x3A); Entry(0xC7, 0x0F, 0xC6); Entry(0xBD, 0xBC, 0x7A); Entry(0x28, 0xC1, 0x34);
    Entry(0xA8, 0x26, 0xC2); Entry(0xDC, 0x9D, 0x86); Entry(0x99, 0x14, 0xEE); Entry(0xFA, 0x7D, 0x2D);
    Round(s, key, 6, State(Column(0xC3, 0x57, 0xAA, 0xE1), Column(0x1B, 0x45, 0xB7, 0xB0),
                           Column(0xA2, 0xC7, 0xBD, 0x28), Column(0xA8, 0xDC, 0x99, 0xFA)));
  }

  lemma C3Round7(s: Block, key: seq<byte>)
    requires |key| == 32
    requires Rounds(s, ExpandedKey(key), 6) == State(Column(0x7F, 0x07, 0x41, 0x43), Column(0xCB, 0x4E, 0x24, 0x3E),
                                                     Column(0xC1, 0x0C, 0x81, 0x5D), Column(0x83, 0x75, 0xD5, 0x4C)).ToBlock()
    requires Key(key, 7) == State(Column(0x3D, 0xE2, 0x3A, 0x75), Column(0x52, 0x47, 0x75, 0xE7),
                                  Column(0x27, 0xBF, 0x9E, 0xB4), Column(0x54, 0x07, 0xCF, 0x39))
    ensures Rounds(s, ExpandedKey(key), 7) == State(Column(0xD6, 0x53, 0xA4, 0x69), Column(0x6C, 0xA0, 0xBC, 0x0F),
                                                    Column(0x5A, 0xCA, 0xAB, 0x5D), Column(0xB9, 0x6C, 0x5E, 0x7D)).ToBlock()
  {
    hide SBox, Rounds, ExpandedKey, Key, FromColumns;
    Entry(0x7F, 0x82, 0xD2); Entry(0x07, 0xD1, 0xC5); Entry(0x41, 0xFE, 0x83); Entry(0x43, 0x67, 0x1A);
    Entry(0xCB, 0x04, 0x1F); Entry(0x4E, 0xE9, 0x2F); Entry(0x24, 0x55, 0x36); Entry(0x3E, 0x59, 0xB2);
    Entry(0xC1, 0x28, 0x78); Entry(0x0C, 0xB0, 0xFE); Entry(0x81, 0x7E, 0x0C); Entry(0x5D, 0xEC, 0x4C);
    Entry(0x83, 0x80, 0xEC); Entry(0x75, 0xB5, 0x9D); Entry(0xD5, 0xDB, 0x03); Entry(0x4C, 0x54, 0x29);
    Round(s, key, 7, State(Column(0x7F, 0x07, 0x41, 0x43), Column(0xCB, 0x4E, 0x24, 0x3E),
                           Column(0xC1, 0x0C, 0x81, 0x5D), Column(0x83, 0x75, 0xD5, 0x4C)));
  }

  lemma C3Round8(s: Block, key: seq<byte>)
    requires |key| == 32
    requires Rounds(s, ExpandedKey(key), 7) == State(Column(0xD6, 0x53, 0xA4, 0x69), Column(0x6C, 0xA0, 0xBC, 0x0F),
                                                     Column(0x5A, 0xCA, 0xAB, 0x5D), Column(0xB9, 0x6C, 0x5E, 0x7D)).ToBlock()
    requires Key(key, 8) == State(Column(0x0B, 0xDC, 0x90, 0x5F), Column(0xC2, 0x7B, 0x09, 0x48),
                                  Column(0xAD, 0x52, 0x45, 0xA4), Column(0xC1, 0x87, 0x1C, 0x2F))
    ensures Rounds(s, ExpandedKey(key), 8) == State(Column(0x5A, 0xA8, 0x58, 0x39), Column(0x5F, 0xD2, 0x8D, 0x7D),
                                                    Column(0x05, 0xE1, 0xA3, 0x88), Column(0x68, 0xF3, 0xB9, 0xC5)).ToBlock()
  {
    hide SBox, Rounds, ExpandedKey, Key, FromColumns;
    Entry(0xD6, 0xE2, 0xF6); Entry(0x53, 0xCA, 0xED); Entry(0xA4, 0x8F, 0x49); Entry(0x69, 0x47, 0xF9);
    Entry(0x6C, 0x33, 0x50); Entry(0xA0, 0xFB, 0xE0); Entry(0xBC, 0xBD, 0x65); Entry(0x0F, 0xC7, 0x76);
    Entry(0x5A, 0x22, 0xBE); Entry(0xCA, 0x53, 0x74); Entry(0xAB, 0x4A, 0x62); Entry(0x5D, 0xEC, 0x4C);
    Entry(0xB9, 0x8E, 0x56); Entry(0x5E, 0x61, 0x58); Entry(0x7D, 0xFA, 0xFF);
    Round(s, key, 8, State(Column(0xD6, 0x53, 0xA4, 0x69), Column(0x6C, 0xA0, 0xBC, 0x0F),
                           Column(0x5A, 0xCA, 0xAB, 0x5D), Column(0xB9, 0x6C, 0x5E, 0x7D)));
  }

  lemma C3Round9(s: Block, key: seq<byte>)
    requires |key| == 32
    requires Rounds(s, ExpandedKey(key), 8) == State(Column(0x5A, 0xA8, 0x58, 0x39), Column(0x5F, 0xD2, 0x8D, 0x7D),
                                                     Column(0x05, 0xE1, 0xA3, 0x88), Column(0x68, 0xF3, 0xB9, 0xC5)).ToBlock()
    requires Key(key, 9) == State(Column(0x45, 0xF5, 0xA6, 0x60), Column(0x17, 0xB2, 0xD3, 0x87),
                                  Column(0x30, 0x0D, 0x4D, 0x33), Column(0x64, 0x0A, 0x82, 0x0A))
    ensures Rounds(s, ExpandedKey(key), 9) == State(Column(0x4A, 0x82, 0x48, 0x51), Column(0xC5, 0x7E, 0x7E, 0x47),
                                                    Column(0x64, 0x3D, 0xE5, 0x0C), Column(0x2A, 0xF3, 0xE8, 0xC9)).ToBlock()
  {
    hide SBox, Rounds, ExpandedKey, Key, FromColumns;
    Entry(0x5A, 0x22, 0xBE); Entry(0xA8, 0x26, 0xC2); Entry(0x58, 0x18, 0x6A); Entry(0x39, 0x35, 0x12);
    Entry(0x5F, 0x17, 0xCF); Entry(0xD2, 0xAE, 0xB5); Entry(0x8D, 0x02, 0x5D); Entry(0x7D, 0xFA, 0xFF);
    Entry(0x05, 0x52, 0x6B); Entry(0xE1, 0x0D, 0xF8); Entry(0xA3, 0xC3, 0x0A); Entry(0x88, 0x9B, 0xC4);
    Entry(0x68, 0xF4, 0x45); Entry(0xF3, 0x34, 0x0D); Entry(0xB9, 0x8E, 0x56); Entry(0xC5, 0xD4, 0xA6);
    Round(s, key, 9, State(Column(0x5A, 0xA8, 0x58, 0x39), Column(0x5F, 0xD2, 0x8D, 0x7D),
                           Column(0x05, 0xE1, 0xA3, 0x88), Column(0x68, 0xF3, 0xB9, 0xC5)));
  }

  lemma C3Round10(s: Block, key: seq<byte>)
    requires |key| == 32
    requires Rounds(s, ExpandedKey(key), 9) == State(Column(0x4A, 0x82, 0x48, 0x51), Column(0xC5, 0x7E, 0x7E, 0x47),
                                                     Column(0x64, 0x3D, 0xE5, 0x0C), Column(0x2A, 0xF3, 0xE8, 0xC9)).ToBlock()
    requires Key(key, 10) == State(Column(0x7C, 0xCF, 0xF7, 0x1C), Column(0xBE, 0xB4, 0xFE, 0x54),
                                   Column(0x13, 0xE6, 0xBB, 0xF0), Column(0xD2, 0x61, 0xA7, 0xDF))
    ensures Rounds(s, ExpandedKey(key), 10) == State(Column(0xC1, 0x49, 0x07, 0xF6), Column(0xCA, 0x3B, 0x3A, 0xA0),
                                                     Column(0x70, 0xE9, 0xAA, 0x31), Column(0x3B, 0x52, 0xB5, 0xEC)).ToBlock()
  {
    hide SBox, Rounds, ExpandedKey, Key, FromColumns;
    Entry(0x4A, 0xAB, 0xD6); Entry(0x82, 0x7F, 0x13); Entry(0x48, 0xA7, 0x52); Entry(0x51, 0x5C, 0xD1);
    Entry(0xC5, 0xD4, 0xA6); Entry(0x7E, 0x81, 0xF3); Entry(0x47, 0x69, 0xA0); Entry(0x64, 0x49, 0x43);
    Entry(0x3D, 0xBB, 0x27); Entry(0xE5, 0x0E, 0xD9); Entry(0x0C, 0xB0, 0xFE); Entry(0x2A, 0x98, 0xE5);
    Entry(0xF3, 0x34, 0x0D); Entry(0xE8, 0x08, 0x9B); Entry(0xC9, 0x27, 0xDD);
    Round(s, key, 10, State(Column(0x4A, 0x82, 0x48, 0x51), Column(0xC5, 0x7E, 0x7E, 0x47),
                            Column(0x64, 0x3D, 0xE5, 0x0C), Column(0x2A, 0xF3, 0xE8, 0xC9)));
  }

  lemma C3Round11(s: Block, key: seq<byte>)
    requires |key| == 32
    requires Rounds(s, ExpandedKey(key), 10) == State(Column(0xC1, 0x49, 0x07, 0xF6), Column(0xCA, 0x3B, 0x3A, 0xA0),
                                                      Column(0x70, 0xE9, 0xAA, 0x31), Column(0x3B, 0x52, 0xB5, 0xEC)).ToBlock()
    requires Key(key, 11) == State(Column(0xF0, 0x1A, 0xFA, 0xFE), Column(0xE7, 0xA8, 0x29, 0x79),
                                   Column(0xD7, 0xA5, 0x64, 0x4A), Column(0xB3, 0xAF, 0xE6, 0x40))
    ensures Rounds(s, ExpandedKey(key), 11) == State(Column(0x5F, 0x9C, 0x6A, 0xBF), Column(0xBA, 0xC6, 0x34, 0xAA),
                                                     Column(0x50, 0x40, 0x9F, 0xA7), Column(0x66, 0x67, 0x76, 0x53)).ToBlock()
  {
    hide SBox, Rounds, ExpandedKey, Key, FromColumns;
    Entry(0xC1, 0x28, 0x78); Entry(0x49, 0x64, 0x3B); Entry(0x07, 0xD1, 0xC5); Entry(0xF6, 0x03, 0x42);
    Entry(0xCA, 0x53, 0x74); Entry(0x3B, 0x6F, 0xE2); Entry(0x3A, 0x20, 0x80); Entry(0xA0, 0xFB, 0xE0);
    Entry(0x70, 0x79, 0x51); Entry(0xE9, 0x4E, 0x1E); Entry(0xAA, 0x12, 0xAC); Entry(0x31, 0x45, 0xC7);
    Entry(0x52, 0x05, 0x00); Entry(0xB5, 0x75, 0xD5); Entry(0xEC, 0x5D, 0xCE);
    Round(s, key, 11, State(Column(0xC1, 0x49, 0x07, 0xF6), Column(0xCA, 0x3B, 0x3A, 0xA0),
                            Column(0x70, 0xE9, 0xAA, 0x31), Column(0x3B, 0x52, 0xB5, 0xEC)));
  }

  lemma C3Round12(s: Block, key: seq<byte>)
    requires |key| == 32
    requires Rounds(s, ExpandedKey(key), 11) == State(Column(0x5F, 0x9C, 0x6A, 0xBF), Column(0xBA, 0xC6, 0x34, 0xAA),
                                                      Column(0x50, 0x40, 0x9F, 0xA7), Column(0x66, 0x67, 0x76, 0x53)).ToBlock()
    requires Key(key, 12) == State(Column(0x25, 0x41, 0xFE, 0x71), Column(0x9B, 0xF5, 0x00, 0x25),
                                   Column(0x88, 0x13, 0xBB, 0xD5), Column(0x5A, 0x72, 0x1C, 0x0A))
    ensures Rounds(s, ExpandedKey(key), 12) == State(Column(0x51, 0x66, 0x04, 0x95), Column(0x43, 0x53, 0x95, 0x03),
                                                     Column(0x14, 0xFB, 0x86, 0xE4), Column(0x01, 0x92, 0x25, 0x21)).ToBlock()
  {
    hide SBox, Rounds, ExpandedKey, Key, FromColumns;
    Entry(0x5F, 0x17, 0xCF); Entry(0x9C, 0xF9, 0xDE); Entry(0x6A, 0x91, 0x02); Entry(0xBF, 0x57, 0x08);
    Entry(0xBA, 0x76, 0xF4); Entry(0xC6, 0xE4, 0xB4); Entry(0x34, 0xF3, 0x18); Entry(0xAA, 0x12, 0xAC);
    Entry(0x50, 0xED, 0x53); Entry(0x40, 0x1D, 0x09); Entry(0x9F, 0x9A, 0xDB); Entry(0xA7, 0x48, 0x5C);
    Entry(0x66, 0x36, 0x33); Entry(0x67, 0x43, 0x85); Entry(0x76, 0xBA, 0x38); Entry(0x53, 0xCA, 0xED);
    Round(s, key, 12, State(Column(0x5F, 0x9C, 0x6A, 0xBF), Column(0xBA, 0xC6, 0x34, 0xAA),
                            Column(0x50, 0x40, 0x9F, 0xA7), Column(0x66, 0x67, 0x76, 0x53)));
  }

  lemma C3Round13(s: Block, key: seq<byte>)
    requires |key| == 32
    requires Rounds(s, ExpandedKey(key), 12) == State(Column(0x51, 0x66, 0x04, 0x95), Column(0x43, 0x53, 0x95, 0x03),
                                                      Column(0x14, 0xFB, 0x86, 0xE4), Column(0x01, 0x92, 0x25, 0x21)).ToBlock()
    requires Key(key, 13) == State(Column(0x4E, 0x5A, 0x66, 0x99), Column(0xA9, 0xF2, 0x4F, 0xE0),
                                   Column(0x7E, 0x57, 0x2B, 0xAA), Column(0xCD, 0xF8, 0xCD, 0xEA))
    ensures Rounds(s, ExpandedKey(key), 13) == State(Column(0x62, 0x7B, 0xCE, 0xB9), Column(0x99, 0x9D, 0x5A, 0xAA),
                                                     Column(0xC9, 0x45, 0xEC, 0xF4), Column(0x23, 0xF5, 0x6D, 0xA5)).ToBlock()
  {
    hide SBox, Rounds, ExpandedKey, Key, FromColumns;
    Entry(0x51, 0x5C, 0xD1); Entry(0x66, 0x36, 0x33); Entry(0x04, 0xCB, 0xF2); Entry(0x95, 0x8A, 0x2A);
    Entry(0x43, 0x67, 0x1A); Entry(0x53, 0xCA, 0xED); Entry(0x03, 0xF6, 0x7B); Entry(0x14, 0x99, 0xFA);
    Entry(0xFB, 0xA0, 0x0F); Entry(0x86, 0xBE, 0x44); Entry(0xE4, 0xC6, 0x69); Entry(0x01, 0x01, 0x7C);
    Entry(0x92, 0x32, 0x4F); Entry(0x25, 0x4D, 0x3F); Entry(0x21, 0x6E, 0xFD);
    Round(s, key, 13, State(Column(0x51, 0x66, 0x04, 0x95), Column(0x43, 0x53, 0x95, 0x03),
                            Column(0x14, 0xFB, 0x86, 0xE4), Column(0x01, 0x92, 0x25, 0x21)));
  }

  predicate IsPlain(s: Block) {
    s == [0x00, 0x11, 0x22, 0x33, 0x44, 0x55, 0x66, 0x77, 0x88, 0x99, 0xAA, 0xBB, 0xCC, 0xDD, 0xEE, 0xFF]
  }

  lemma C3Start(s: Block, key: seq<byte>)
    requires |key| == 32 && IsPlain(s)
    requires Key(key, 0) == State(Column(0x00, 0x01, 0x02, 0x03), Column(0x04, 0x05, 0x06, 0x07),
                                  Column(0x08, 0x09, 0x0A, 0x0B), Column(0x0C, 0x0D, 0x0E, 0x0F))
    ensures Rounds(s, ExpandedKey(key), 0) == State(Column(0x00, 0x10, 0x20, 0x30), Column(0x40, 0x50, 0x60, 0x70),
                                                    Column(0x80, 0x90, 0xA0, 0xB0), Column(0xC0, 0xD0, 0xE0, 0xF0)).ToBlock()
  {
    hide AddRoundKey, RoundKey, ExpandedKey, Key;
    var t := State(Column(0x00, 0x11, 0x22, 0x33), Column(0x44, 0x55, 0x66, 0x77),
                   Column(0x88, 0x99, 0xAA, 0xBB), Column(0xCC, 0xDD, 0xEE, 0xFF));
    assert s == t.ToBlock();
    hide FromColumns;
    KeyIs(key, 0);
    AddedIs(t, Key(key, 0));
  }

  lemma C3End(s: Block, key: seq<byte>)
    requires |key| == 32
    requires Rounds(s, ExpandedKey(key), 13) == State(Column(0x62, 0x7B, 0xCE, 0xB9), Column(0x99, 0x9D, 0x5A, 0xAA),
                                                      Column(0xC9, 0x45, 0xEC, 0xF4), Column(0x23, 0xF5, 0x6D, 0xA5)).ToBlock()
    requires Key(key, 14) == State(Column(0x24, 0xFC, 0x79, 0xCC), Column(0xBF, 0x09, 0x79, 0xE9),
                                   Column(0x37, 0x1A, 0xC2, 0x3C), Column(0x6D, 0x68, 0xDE, 0x36))
    ensures Cipher(s, ExpandedKey(key)) == State(Column(0x8E, 0xA2, 0xB7, 0xCA), Column(0x51, 0x67, 0x45, 0xBF),
                                                 Column(0xEA, 0xFC, 0x49, 0x90), Column(0x4B, 0x49, 0x60, 0x89)).ToBlock()
  {
    hide SBox, SubBytes, ShiftRows, AddRoundKey, Rounds, RoundKey, ExpandedKey, Key, FromColumns;
    Entry(0x62, 0xAF, 0xAA); Entry(0x7B, 0x06, 0x21); Entry(0xCE, 0xAC, 0x8B); Entry(0xB9, 0x8E, 0x56);
    Entry(0x99, 0x14, 0xEE); Entry(0x9D, 0xDC, 0x5E); Entry(0x5A, 0x22, 0xBE); Entry(0xAA, 0x12, 0xAC);
    Entry(0xC9, 0x27, 0xDD); Entry(0x45, 0x31, 0x6E); Entry(0xEC, 0x5D, 0xCE); Entry(0xF4, 0x68, 0xBF);
    Entry(0x23, 0xF1, 0x26); Entry(0xF5, 0x46, 0xE6); Entry(0x6D, 0x93, 0x3C); Entry(0xA5, 0xB8, 0x06);
    var t := State(Column(0x62, 0x7B, 0xCE, 0xB9), Column(0x99, 0x9D, 0x5A, 0xAA),
                   Column(0xC9, 0x45, 0xEC, 0xF4), Column(0x23, 0xF5, 0x6D, 0xA5));
    KeyIs(key, 14);
    ShiftedIs(t);
    AddedIs(Shifted(t), Key(key, 14));
  }

  lemma C3Keys(key: seq<byte>)
    requires IsC3(key)
    ensures Key(key, 0) == State(Column(0x00, 0x01, 0x02, 0x03), Column(0x04, 0x05, 0x06, 0x07),
                                 Column(0x08, 0x09, 0x0A, 0x0B), Column(0x0C, 0x0D, 0x0E, 0x0F))
    ensures Key(key, 1) == State(Column(0x10, 0x11, 0x12, 0x13), Column(0x14, 0x15, 0x16, 0x17),
                                 Column(0x18, 0x19, 0x1A, 0x1B), Column(0x1C, 0x1D, 0x1E, 0x1F))
    ensures Key(key, 2) == State(Column(0xA5, 0x73, 0xC2, 0x9F), Column(0xA1, 0x76, 0xC4, 0x98),
                                 Column(0xA9, 0x7F, 0xCE, 0x93), Column(0xA5, 0x72, 0xC0, 0x9C))
    ensures Key(key, 3) == State(Column(0x16, 0x51, 0xA8, 0xCD), Column(0x02, 0x44, 0xBE, 0xDA),
                                 Column(0x1A, 0x5D, 0xA4, 0xC1), Column(0x06, 0x40, 0xBA, 0xDE))
    ensures Key(key, 4) == State(Column(0xAE, 0x87, 0xDF, 0xF0), Column(0x0F, 0xF1, 0x1B, 0x68),
                                 Column(0xA6, 0x8E, 0xD5, 0xFB), Column(0x03, 0xFC, 0x15, 0x67))
    ensures Key(key, 5) == State(Column(0x6D, 0xE1, 0xF1, 0x48), Column(0x6F, 0xA5, 0x4F, 0x92),
                                 Column(0x75, 0xF8, 0xEB, 0x53), Column(0x73, 0xB8, 0x51, 0x8D))
    ensures Key(key, 6) == State(Column(0xC6, 0x56, 0x82, 0x7F), Column(0xC9, 0xA7, 0x99, 0x17),
                                 Column(0x6F, 0x29, 0x4C, 0xEC), Column(0x6C, 0xD5, 0x59, 0x8B))
    ensures Key(key, 7) == State(Column(0x3D, 0xE2, 0x3A, 0x75), Column(0x52, 0x47, 0x75, 0xE7),
                                 Column(0x27, 0xBF, 0x9E, 0xB4), Column(0x54, 0x07, 0xCF, 0x39))
    ensures Key(key, 8) == State(Column(0x0B, 0xDC, 0x90, 0x5F), Column(0xC2, 0x7B, 0x09, 0x48),
                                 Column(0xAD, 0x52, 0x45, 0xA4), Column(0xC1, 0x87, 0x1C, 0x2F))
    ensures Key(key, 9) == State(Column(0x45, 0xF5, 0xA6, 0x60), Column(0x17, 0xB2, 0xD3, 0x87),
                                 Column(0x30, 0x0D, 0x4D, 0x33), Column(0x64, 0x0A, 0x82, 0x0A))
    ensures Key(key, 10) == State(Column(0x7C, 0xCF, 0xF7, 0x1C), Column(0xBE, 0xB4, 0xFE, 0x54),
                                  Column(0x13, 0xE6, 0xBB, 0xF0), Column(0xD2, 0x61, 0xA7, 0xDF))
    ensures Key(key, 11) == State(Column(0xF0, 0x1A, 0xFA, 0xFE), Column(0xE7, 0xA8, 0x29, 0x79),
                                  Column(0xD7, 0xA5, 0x64, 0x4A), Column(0xB3, 0xAF, 0xE6, 0x40))
    ensures Key(key, 12) == State(Column(0x25, 0x41, 0xFE, 0x71), Column(0x9B, 0xF5, 0x00, 0x25),
                                  Column(0x88, 0x13, 0xBB, 0xD5), Column(0x5A, 0x72, 0x1C, 0x0A))
    ensures Key(key, 13) == State(Column(0x4E, 0x5A, 0x66, 0x99), Column(0xA9, 0xF2, 0x4F, 0xE0),
                                  Column(0x7E, 0x57, 0x2B, 0xAA), Column(0xCD, 0xF8, 0xCD, 0xEA))
    ensures Key(key, 14) == State(Column(0x24, 0xFC, 0x79, 0xCC), Column(0xBF, 0x09, 0x79, 0xE9),
                                  Column(0x37, 0x1A, 0xC2, 0x3C), Column(0x6D, 0x68, 0xDE, 0x36))
  {
    hide Key;
    C3First(key);
    C3Second(key);
    C3Keys2(key);
    C3Keys4(key);
    C3Keys6(key);
    C3Keys8(key);
    C3Keys10(key);
    C3Keys12(key);
    C3Keys14(key);
  }

  lemma C3Cipher(s: Block, key: seq<byte>)
    requires |key| == 32 && IsC3(key) && IsPlain(s)
    ensures Cipher(s, ExpandedKey(key)) == State(Column(0x8E, 0xA2, 0xB7, 0xCA), Column(0x51, 0x67, 0x45, 0xBF),
                                                 Column(0xEA, 0xFC, 0x49, 0x90), Column(0x4B, 0x49, 0x60, 0x89)).ToBlock()
  {
    hide IsC3, IsPlain, Rounds, Cipher, ExpandedKey, Key, FromColumns;
    C3Keys(key);
    C3Start(s, key);
    C3Round1(s, key);
    C3Round2(s, key);
    C3Round3(s, key);
    C3Round4(s, key);
    C3Round5(s, key);
    C3Round6(s, key);
    C3Round7(s, key);
    C3Round8(s, key);
    C3Round9(s, key);
    C3Round10(s, key);
    C3Round11(s, key);
    C3Round12(s, key);
    C3Round13(s, key);
    C3End(s, key);
  }

  /** The ciphertext block of the example is deciphered to its plaintext block. */
  lemma BlockC3(s: Block, key: seq<byte>)
    requires |key| == 32 && IsC3(key)
    requires s == [0x8E, 0xA2, 0xB7, 0xCA, 0x51, 0x67, 0x45, 0xBF, 0xEA, 0xFC, 0x49, 0x90, 0x4B, 0x49, 0x60, 0x89]
    ensures InvCipher(s, ExpandedKey(key)) ==
            [0x00, 0x11, 0x22, 0x33, 0x44, 0x55, 0x66, 0x77, 0x88, 0x99, 0xAA, 0xBB, 0xCC, 0xDD, 0xEE, 0xFF]
  {
    hide IsC3, Cipher, InvCipher, ExpandedKey;
    var p: Block := [0x00, 0x11, 0x22, 0x33, 0x44, 0x55, 0x66, 0x77, 0x88, 0x99, 0xAA, 0xBB, 0xCC, 0xDD, 0xEE, 0xFF];
    C3Cipher(p, key);
    InvCipherUndoesCipher(p, ExpandedKey(key));
    assert s == Cipher(p, ExpandedKey(key));
  }
}
