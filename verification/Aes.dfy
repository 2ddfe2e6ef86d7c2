/** aes.c: decryption in place, with the log tables' memory reused for the key and the inverse S-box. */
module Aes {
  import opened Words
  import opened Gf256
  import opened AesTables
  import opened AesCipher

  /** s with the bytes from o on replaced by t. */
  function Splice(s: seq<byte>, o: nat, t: seq<byte>): (r: seq<byte>)
    requires o + |t| <= |s|
    ensures |r| == |s| && r[..o] == s[..o] && r[o..o + |t|] == t && r[o + |t|..] == s[o + |t|..]
  {
    s[..o] + t + s[o + |t|..]
  }

  function XorSeq(s: seq<byte>, t: seq<byte>): (r: seq<byte>)
    requires |s| == |t|
    ensures |r| == |s| && forall k :: 0 <= k < |s| ==> r[k] == Plus(s[k], t[k])
  {
    seq(|s|, k requires 0 <= k < |s| => Plus(s[k], t[k]))
  }

  lemma SpliceIs(s: seq<byte>, r: seq<byte>, o: nat, t: seq<byte>)
    requires o + |t| <= |s| == |r|
    requires forall k :: o <= k < o + |t| ==> r[k] == t[k - o]
    requires forall k :: 0 <= k < |s| && !(o <= k < o + |t|) ==> r[k] == s[k]
    ensures r == Splice(s, o, t)
  {}

  method CycleLeft(row: array<byte>)
    requires row.Length == 4
    modifies row
    ensures row[..] == RotWord(old(row[..]))
  {
    var temp := row[0];
    row[0] := row[1];
    row[1] := row[2];
    row[2] := row[3];
    row[3] := temp;
  }

  method XORBytes(bytes1: array<byte>, o1: nat, bytes2: array<byte>, o2: nat, count: nat)
    requires bytes1 != bytes2 && 0 < count && o1 + count <= bytes1.Length && o2 + count <= bytes2.Length
    modifies bytes1
    ensures bytes1[..] == Splice(old(bytes1[..]), o1, XorSeq(old(bytes1[o1..o1 + count]), bytes2[o2..o2 + count]))
  {
    hide Plus, Sum;
    var n := 0;
    while true
      invariant 0 <= n < count
      invariant forall k :: o1 <= k < o1 + n ==> bytes1[k] == Plus(old(bytes1[k]), bytes2[k - o1 + o2])
      invariant forall k :: 0 <= k < bytes1.Length && !(o1 <= k < o1 + n) ==> bytes1[k] == old(bytes1[k])
      decreases count - n
    {
      bytes1[o1 + n] := Plus(bytes1[o1 + n], bytes2[o2 + n]);
      n := n + 1;
      if n == count { break; }
    }
    ghost var t := XorSeq(old(bytes1[o1..o1 + count]), bytes2[o2..o2 + count]);
    forall k | o1 <= k < o1 + count
      ensures bytes1[..][k] == t[k - o1]
    {
      assert t[k - o1] == Plus(old(bytes1[o1..o1 + count])[k - o1], bytes2[o2..o2 + count][k - o1]);
    }
    SpliceIs(old(bytes1[..]), bytes1[..], o1, t);
  }

  method CopyBytes(to: array<byte>, o1: nat, from: array<byte>, o2: nat, count: nat)
    requires to != from && 0 < count && o1 + count <= to.Length && o2 + count <= from.Length
    modifies to
    ensures to[..] == Splice(old(to[..]), o1, from[o2..o2 + count])
  {
    var n := 0;
    while true
      invariant 0 <= n < count
      invariant forall k :: o1 <= k < o1 + n ==> to[k] == from[k - o1 + o2]
      invariant forall k :: 0 <= k < to.Length && !(o1 <= k < o1 + n) ==> to[k] == old(to[k])
      decreases count - n
    {
      to[o1 + n] := from[o2 + n];
      n := n + 1;
      if n == count { break; }
    }
    SpliceIs(old(to[..]), to[..], o1, from[o2..o2 + count]);
  }

  // ---- InvMixColumn: the factored form ----

  function Double(s: Column): Column {
    Column(Xtime(s.a), Xtime(s.b), Xtime(s.c), Xtime(s.d))
  }

  /** The first output byte as the code collects it: three plain inputs, two doubled, two quadrupled
      and all four octupled. */
  function Collect(s: Column): byte {
    var x := Double(s);
    var y := Double(x);
    var z := Double(y);
    Plus(Plus(Plus(Plus(Plus(s.b, s.c), s.d), Plus(x.a, x.b)), Plus(y.a, y.c)), Plus(z.a, Plus(Plus(z.b, z.c), z.d)))
  }

  lemma DoubleSum(s: Column, t: Column, u: Column)
    requires ColumnSum(s, t, u)
    ensures ColumnSum(Double(s), Double(t), Double(u))
  {
    XtimeSum(s.a, t.a, u.a);
    XtimeSum(s.b, t.b, u.b);
    XtimeSum(s.c, t.c, u.c);
    XtimeSum(s.d, t.d, u.d);
  }

  lemma CollectSum(s: Column, t: Column, u: Column)
    requires ColumnSum(s, t, u)
    ensures Sum(Collect(s), Collect(t), Collect(u))
  {
    hide Plus, Sum, Double;
    var sx, tx, ux := Double(s), Double(t), Double(u);
    DoubleSum(s, t, u);
    var sy, ty, uy := Double(sx), Double(tx), Double(ux);
    DoubleSum(sx, tx, ux);
    var sz, tz, uz := Double(sy), Double(ty), Double(uy);
    DoubleSum(sy, ty, uy);
    var s0, t0, u0 := Plus(s.b, s.c), Plus(t.b, t.c), Plus(u.b, u.c);
    PlusSum(s.b, t.b, u.b, s.c, t.c, u.c);
    var s1, t1, u1 := Plus(s0, s.d), Plus(t0, t.d), Plus(u0, u.d);
    PlusSum(s0, t0, u0, s.d, t.d, u.d);
    var s2, t2, u2 := Plus(sx.a, sx.b), Plus(tx.a, tx.b), Plus(ux.a, ux.b);
    PlusSum(sx.a, tx.a, ux.a, sx.b, tx.b, ux.b);
    var s3, t3, u3 := Plus(sy.a, sy.c), Plus(ty.a, ty.c), Plus(uy.a, uy.c);
    PlusSum(sy.a, ty.a, uy.a, sy.c, ty.c, uy.c);
    var s4, t4, u4 := Plus(sz.b, sz.c), Plus(tz.b, tz.c), Plus(uz.b, uz.c);
    PlusSum(sz.b, tz.b, uz.b, sz.c, tz.c, uz.c);
    var s5, t5, u5 := Plus(s4, sz.d), Plus(t4, tz.d), Plus(u4, uz.d);
    PlusSum(s4, t4, u4, sz.d, tz.d, uz.d);
    PlusSum(sz.a, tz.a, uz.a, s5, t5, u5);
    PlusSum(s1, t1, u1, s2, t2, u2);
    PlusSum(Plus(s1, s2), Plus(t1, t2), Plus(u1, u2), s3, t3, u3);
    PlusSum(Plus(Plus(s1, s2), s3), Plus(Plus(t1, t2), t3), Plus(Plus(u1, u2), u3),
            Plus(sz.a, s5), Plus(tz.a, t5), Plus(uz.a, u5));
  }

  lemma CollectA(x: byte)
    ensures Collect(Column(x, 0, 0, 0)) == ByE(x)
  {
    assert Xtime(0) == 0;
  }

  lemma CollectB(x: byte)
    ensures Collect(Column(0, x, 0, 0)) == ByB(x)
  {
    assert Xtime(0) == 0;
  }

  lemma CollectC(x: byte)
    ensures Collect(Column(0, 0, x, 0)) == ByD(x)
  {
    assert Xtime(0) == 0;
  }

  lemma CollectD(x: byte)
    ensures Collect(Column(0, 0, 0, x)) == By9(x)
  {
    assert Xtime(0) == 0;
  }

  lemma DotUnits(x: byte)
    ensures Dot(UNMIX, Column(x, 0, 0, 0)) == ByE(x) && Dot(UNMIX, Column(0, x, 0, 0)) == ByB(x)
    ensures Dot(UNMIX, Column(0, 0, x, 0)) == ByD(x) && Dot(UNMIX, Column(0, 0, 0, x)) == By9(x)
  {
    assert ByE(0) == 0 && ByB(0) == 0 && ByD(0) == 0 && By9(0) == 0;
    hide Dot, ByE, ByB, ByD, By9, Plus;
    UnmixDot(Column(x, 0, 0, 0));
    UnmixDot(Column(0, x, 0, 0));
    UnmixDot(Column(0, 0, x, 0));
    UnmixDot(Column(0, 0, 0, x));
    PlusZero(ByE(x));
    PlusZero(ByB(x));
    PlusZero(ByD(x));
    PlusZero(By9(x));
  }

  lemma CollectStep(s: Column, t: Column, u: Column)
    requires ColumnSum(s, t, u) && Collect(t) == Dot(UNMIX, t) && Collect(u) == Dot(UNMIX, u)
    ensures Collect(s) == Dot(UNMIX, s)
  {
    hide Collect, Dot;
    CollectSum(s, t, u);
    DotSum(UNMIX, s, t, u);
    SumIsFunction(Collect(s), Dot(UNMIX, s), Collect(t), Collect(u));
  }

  /** The factored form is a row of the inverse matrix: both are linear and they agree on unit columns. */
  lemma CollectIsDot(s: Column)
    ensures Collect(s) == Dot(UNMIX, s)
  {
    hide Collect, Dot;
    CollectA(s.a);
    CollectB(s.b);
    CollectC(s.c);
    CollectD(s.d);
    DotUnits(s.a);
    DotUnits(s.b);
    DotUnits(s.c);
    DotUnits(s.d);
    CollectStep(Column(s.a, s.b, 0, 0), Column(s.a, 0, 0, 0), Column(0, s.b, 0, 0));
    CollectStep(Column(0, 0, s.c, s.d), Column(0, 0, s.c, 0), Column(0, 0, 0, s.d));
    CollectStep(s, Column(s.a, s.b, 0, 0), Column(0, 0, s.c, s.d));
  }

  /** Addition may be reordered. */
  lemma PlusOrder(p: byte, q: byte, r: byte, t: byte)
    ensures Plus(p, q) == Plus(q, p)
    ensures Plus(Plus(p, q), r) == Plus(Plus(q, r), p)
    ensures Plus(p, Plus(Plus(q, r), t)) == Plus(q, Plus(Plus(r, t), p))
  {}

  /** The three-times doubled column and its sum. */
  ghost predicate Doubled(c: Column, x: Column, y: Column, z: Column) {
    x == Double(c) && y == Double(x) && z == Double(y)
  }

  lemma CollectIs(c: Column, x: Column, y: Column, z: Column)
    requires Doubled(c, x, y, z)
    ensures Collect(c) == Plus(Plus(Plus(Plus(Plus(c.b, c.c), c.d), Plus(x.a, x.b)), Plus(y.a, y.c)),
                               Plus(z.a, Plus(Plus(z.b, z.c), z.d)))
  {}

  lemma DoubledRotates(c: Column, x: Column, y: Column, z: Column)
    requires Doubled(c, x, y, z)
    ensures Doubled(c.Rotate(), x.Rotate(), y.Rotate(), z.Rotate())
  {}

  // The same sums in the order of the code, for the second, third and fourth byte.

  lemma CollectOrderB(c: Column, x: Column, y: Column, z: Column, zz: byte)
    requires Doubled(c, x, y, z) && zz == Plus(z.a, Plus(Plus(z.b, z.c), z.d))
    ensures Plus(Plus(Plus(Plus(Plus(c.a, c.c), c.d), Plus(x.b, x.c)), Plus(y.b, y.d)), zz) == Collect(c.Rotate())
  {
    DoubledRotates(c, x, y, z);
    hide Plus, Sum, Xtime, Collect, Doubled;
    CollectIs(c.Rotate(), x.Rotate(), y.Rotate(), z.Rotate());
    PlusOrder(z.a, z.b, z.c, z.d);
    PlusOrder(c.a, c.c, c.d, 0);
  }

  lemma CollectOrderC(c: Column, x: Column, y: Column, z: Column, zz: byte)
    requires Doubled(c, x, y, z) && zz == Plus(z.a, Plus(Plus(z.b, z.c), z.d))
    ensures Plus(Plus(Plus(Plus(Plus(c.a, c.b), c.d), Plus(x.c, x.d)), Plus(y.a, y.c)), zz) == Collect(c.Rotate().Rotate())
  {
    DoubledRotates(c, x, y, z);
    DoubledRotates(c.Rotate(), x.Rotate(), y.Rotate(), z.Rotate());
    hide Plus, Sum, Xtime, Collect, Doubled;
    CollectIs(c.Rotate().Rotate(), x.Rotate().Rotate(), y.Rotate().Rotate(), z.Rotate().Rotate());
    PlusOrder(z.a, z.b, z.c, z.d);
    PlusOrder(z.b, z.c, z.d, z.a);
    PlusOrder(c.d, c.a, c.b, 0);
    PlusOrder(y.a, y.c, 0, 0);
  }

  lemma CollectOrderD(c: Column, x: Column, y: Column, z: Column, zz: byte)
    requires Doubled(c, x, y, z) && zz == Plus(z.a, Plus(Plus(z.b, z.c), z.d))
    ensures Plus(Plus(Plus(Plus(Plus(c.a, c.b), c.c), Plus(x.a, x.d)), Plus(y.b, y.d)), zz)
         == Collect(c.Rotate().Rotate().Rotate())
  {
    var c', x', y', z' := c.Rotate(), x.Rotate(), y.Rotate(), z.Rotate();
    DoubledRotates(c, x, y, z);
    DoubledRotates(c', x', y', z');
    DoubledRotates(c'.Rotate(), x'.Rotate(), y'.Rotate(), z'.Rotate());
    hide Plus, Sum, Xtime, Collect, Doubled;
    CollectIs(c'.Rotate().Rotate(), x'.Rotate().Rotate(), y'.Rotate().Rotate(), z'.Rotate().Rotate());
    PlusOrder(z.a, z.b, z.c, z.d);
    PlusOrder(z.b, z.c, z.d, z.a);
    PlusOrder(z.c, z.d, z.a, z.b);
    PlusOrder(x.a, x.d, 0, 0);
    PlusOrder(y.b, y.d, 0, 0);
  }

  /** The arithmetic of InvMixColumn on the four bytes of a column; Plus is the exclusive or. */
  method Unmix(c: Column) returns (r: Column)
    ensures r == Apply(UNMIX, c)
  {
    hide Plus, Sum, Xtime;
    var c0, c1, c2, c3 := c.a, c.b, c.c, c.d;
    var r0 := Plus(Plus(c1, c2), c3);
    var r1 := Plus(Plus(c0, c2), c3);
    var r2 := Plus(Plus(c0, c1), c3);
    var r3 := Plus(Plus(c0, c1), c2);
    c0, c1, c2, c3 := Xtime(c0), Xtime(c1), Xtime(c2), Xtime(c3);
    ghost var x := Column(c0, c1, c2, c3);
    r0 := Plus(r0, Plus(c0, c1));
    r1 := Plus(r1, Plus(c1, c2));
    r2 := Plus(r2, Plus(c2, c3));
    r3 := Plus(r3, Plus(c0, c3));
    c0, c1, c2, c3 := Xtime(c0), Xtime(c1), Xtime(c2), Xtime(c3);
    ghost var y := Column(c0, c1, c2, c3);
    r0 := Plus(r0, Plus(c0, c2));
    r1 := Plus(r1, Plus(c1, c3));
    r2 := Plus(r2, Plus(c0, c2));
    r3 := Plus(r3, Plus(c1, c3));
    c0, c1, c2, c3 := Xtime(c0), Xtime(c1), Xtime(c2), Xtime(c3);
    ghost var z := Column(c0, c1, c2, c3);
    c0 := Plus(c0, Plus(Plus(c1, c2), c3));
    CollectIs(c, x, y, z);
    CollectOrderB(c, x, y, z, c0);
    CollectOrderC(c, x, y, z, c0);
    CollectOrderD(c, x, y, z, c0);
    r := Column(Plus(r0, c0), Plus(r1, c0), Plus(r2, c0), Plus(r3, c0));
    CollectIsDot(c);
    CollectIsDot(c.Rotate());
    CollectIsDot(c.Rotate().Rotate());
    CollectIsDot(c.Rotate().Rotate().Rotate());
    hide Dot, Collect;
  }

  function ColumnAt(s: seq<byte>, o: nat): Column
    requires o + 4 <= |s|
  {
    Column(s[o], s[o + 1], s[o + 2], s[o + 3])
  }

  method InvMixColumn(column: array<byte>, o: nat)
    requires o + 4 <= column.Length
    modifies column
    ensures column[..] == Splice(old(column[..]), o, Bytes(Apply(UNMIX, ColumnAt(old(column[..]), o))))
  {
    hide Apply;
    var r := Unmix(Column(column[o], column[o + 1], column[o + 2], column[o + 3]));
    column[o], column[o + 1], column[o + 2], column[o + 3] := r.a, r.b, r.c, r.d;
  }

  lemma InvShiftRowsAt(s: Block)
    ensures AesCipher.InvShiftRows(s) ==
            [s[0], s[13], s[10], s[7], s[4], s[1], s[14], s[11], s[8], s[5], s[2], s[15], s[12], s[9], s[6], s[3]]
  {}

  lemma RowsCycled(s: seq<byte>, r: seq<byte>, o: nat)
    requires o + 16 <= |s| == |r|
    requires r[o] == s[o] && r[o + 1] == s[o + 13] && r[o + 2] == s[o + 10] && r[o + 3] == s[o + 7]
    requires r[o + 4] == s[o + 4] && r[o + 5] == s[o + 1] && r[o + 6] == s[o + 14] && r[o + 7] == s[o + 11]
    requires r[o + 8] == s[o + 8] && r[o + 9] == s[o + 5] && r[o + 10] == s[o + 2] && r[o + 11] == s[o + 15]
    requires r[o + 12] == s[o + 12] && r[o + 13] == s[o + 9] && r[o + 14] == s[o + 6] && r[o + 15] == s[o + 3]
    requires forall k :: 0 <= k < |s| && !(o <= k < o + 16) ==> r[k] == s[k]
    ensures r == Splice(s, o, AesCipher.InvShiftRows(s[o..o + 16]))
  {
    hide AesCipher.InvShiftRows, Splice;
    InvShiftRowsAt(s[o..o + 16]);
    assert r[o..o + 16] == AesCipher.InvShiftRows(s[o..o + 16]);
    assert forall k :: o <= k < o + 16 ==> r[k] == r[o..o + 16][k - o];
    SpliceIs(s, r, o, r[o..o + 16]);
  }

  /** Second row right once. */
  method CycleRow1(state: array<byte>, o: nat)
    requires o + 16 <= state.Length
    modifies state
    ensures state[o + 1] == old(state[o + 13]) && state[o + 5] == old(state[o + 1])
    ensures state[o + 9] == old(state[o + 5]) && state[o + 13] == old(state[o + 9])
    ensures forall k :: 0 <= k < state.Length && k !in {o + 1, o + 5, o + 9, o + 13} ==> state[k] == old(state[k])
  {
    var temp := state[o + 1 + 3 * 4];
    state[o + 1 + 3 * 4] := state[o + 1 + 2 * 4];
    state[o + 1 + 2 * 4] := state[o + 1 + 1 * 4];
    state[o + 1 + 1 * 4] := state[o + 1 + 0 * 4];
    state[o + 1 + 0 * 4] := temp;
  }

  /** Third row right twice. */
  method CycleRow2(state: array<byte>, o: nat)
    requires o + 16 <= state.Length
    modifies state
    ensures state[o + 2] == old(state[o + 10]) && state[o + 10] == old(state[o + 2])
    ensures state[o + 6] == old(state[o + 14]) && state[o + 14] == old(state[o + 6])
    ensures forall k :: 0 <= k < state.Length && k !in {o + 2, o + 6, o + 10, o + 14} ==> state[k] == old(state[k])
  {
    var temp := state[o + 2 + 0 * 4];
    state[o + 2 + 0 * 4] := state[o + 2 + 2 * 4];
    state[o + 2 + 2 * 4] := temp;
    temp := state[o + 2 + 1 * 4];
    state[o + 2 + 1 * 4] := state[o + 2 + 3 * 4];
    state[o + 2 + 3 * 4] := temp;
  }

  /** Fourth row right three times, that is left once. */
  method CycleRow3(state: array<byte>, o: nat)
    requires o + 16 <= state.Length
    modifies state
    ensures state[o + 3] == old(state[o + 7]) && state[o + 7] == old(state[o + 11])
    ensures state[o + 11] == old(state[o + 15]) && state[o + 15] == old(state[o + 3])
    ensures forall k :: 0 <= k < state.Length && k !in {o + 3, o + 7, o + 11, o + 15} ==> state[k] == old(state[k])
  {
    var temp := state[o + 3 + 0 * 4];
    state[o + 3 + 0 * 4] := state[o + 3 + 1 * 4];
    state[o + 3 + 1 * 4] := state[o + 3 + 2 * 4];
    state[o + 3 + 2 * 4] := state[o + 3 + 3 * 4];
    state[o + 3 + 3 * 4] := temp;
  }

  lemma SpliceTwice(s: seq<byte>, o: nat, t: seq<byte>, u: seq<byte>)
    requires o + |t| + |u| <= |s|
    ensures Splice(Splice(s, o, t), o + |t|, u) == Splice(s, o, t + u)
  {}

  lemma ColumnsAt(s: seq<byte>, o: nat, t: seq<byte>)
    requires o + 16 <= |s| && t == s[o..o + 16]
    ensures ColumnAt(s, o) == ColumnOf(t, 0) && ColumnAt(s, o + 4) == ColumnOf(t, 1)
    ensures ColumnAt(s, o + 8) == ColumnOf(t, 2) && ColumnAt(s, o + 12) == ColumnOf(t, 3)
  {}

  lemma ColumnAfter(s: seq<byte>, o: nat, t: seq<byte>, o': nat)
    requires o + |t| <= o' && o' + 4 <= |s|
    ensures ColumnAt(Splice(s, o, t), o') == ColumnAt(s, o')
  {
    var r := Splice(s, o, t);
    assert r[o'] == r[o + |t|..][o' - o - |t|];
    assert r[o' + 1] == r[o + |t|..][o' + 1 - o - |t|];
    assert r[o' + 2] == r[o + |t|..][o' + 2 - o - |t|];
    assert r[o' + 3] == r[o + |t|..][o' + 3 - o - |t|];
  }

  /** A key of 256 bits. */
  type Key = k: seq<byte> | |k| == 32 witness seq(32, _ => 0)

  /** The tables and keys aes.c keeps in its three global arrays. */
  class Tables {
    const block1: array<byte>
    const block2: array<byte>
    const sBox: array<byte>
    const key: Key

    ghost predicate Valid() {
      block1.Length == 256 && block2.Length == 256 && sBox.Length == 256 && |key| == 32
      && block1 != block2 && block1 != sBox && block2 != sBox
    }

    /** After initialisation block1 holds the key schedule and block2 the inverse S-box. */
    ghost predicate Ready()
      reads block1, block2
    {
      Valid() && HoldsInvSBox(block2[..]) && block1[..240] == ExpandedKey(key)
    }

    ghost predicate Inverted()
      reads block2
    {
      Valid() && HoldsInvSBox(block2[..])
    }

    /** Decryption of one block with this key under cipher block chaining. */
    ghost function Decrypted(c: Block, chain: Block): Block
      requires Valid()
    {
      AddRoundKey(AesCipher.InvCipher(c, ExpandedKey(key)), chain)
    }

    constructor (key: seq<byte>)
      requires |key| == 32
      ensures Valid() && this.key == key && fresh(block1) && fresh(block2) && fresh(sBox)
    {
      this.key := key;
      block1 := new byte[256];
      block2 := new byte[256];
      sBox := new byte[256];
    }

    /** The code's byte moves, row by row, are the rotation of section 5.3.1. */
    method InvShiftRows(state: array<byte>, o: nat)
      requires o + 16 <= state.Length
      modifies state
      ensures state[..] == Splice(old(state[..]), o, AesCipher.InvShiftRows(old(state[o..o + 16])))
    {
      hide AesCipher.InvShiftRows, Splice;
      ghost var before := state[..];
      CycleRow1(state, o);
      CycleRow2(state, o);
      CycleRow3(state, o);
      RowsCycled(before, state[..], o);
    }

    method InvMixColumns(state: array<byte>, o: nat)
      requires o + 16 <= state.Length
      modifies state
      ensures state[..] == Splice(old(state[..]), o, AesCipher.InvMixColumns(old(state[o..o + 16])))
    {
      hide Apply, Splice, ColumnAt, ColumnOf;
      ghost var s, t := state[..], state[o..o + 16];
      ghost var b0, b1 := Bytes(Apply(UNMIX, ColumnAt(s, o))), Bytes(Apply(UNMIX, ColumnAt(s, o + 4)));
      ghost var b2, b3 := Bytes(Apply(UNMIX, ColumnAt(s, o + 8))), Bytes(Apply(UNMIX, ColumnAt(s, o + 12)));
      ColumnsAt(s, o, t);
      InvMixColumn(state, o + 0 * 4);
      ColumnAfter(s, o, b0, o + 4);
      ColumnAfter(s, o, b0 + b1, o + 8);
      ColumnAfter(s, o, b0 + b1 + b2, o + 12);
      InvMixColumn(state, o + 1 * 4);
      SpliceTwice(s, o, b0, b1);
      InvMixColumn(state, o + 2 * 4);
      SpliceTwice(s, o, b0 + b1, b2);
      InvMixColumn(state, o + 3 * 4);
      SpliceTwice(s, o, b0 + b1 + b2, b3);
    }

    method InvSubBytesAndXOR(bytes: array<byte>, o: nat, k: nat)
      requires Inverted() && bytes != block1 && bytes != block2 && o + 16 <= bytes.Length && k + 16 <= 240
      modifies bytes
      ensures bytes[..] == Splice(old(bytes[..]), o, AddRoundKey(InvSubBytes(old(bytes[o..o + 16])), block1[k..k + 16]))
    {
      hide Plus, Sum, InvSBox;
      ghost var s, key := bytes[o..o + 16], block1[k..k + 16];
      var n := 0;
      while true
        invariant 0 <= n < 16
        invariant forall j :: o <= j < o + n ==> bytes[j] == Plus(InvSBox(s[j - o]), key[j - o])
        invariant forall j :: 0 <= j < bytes.Length && !(o <= j < o + n) ==> bytes[j] == old(bytes[j])
        decreases 16 - n
      {
        assert block2[..][Index(bytes[o + n])] == InvSBox(s[n]);
        bytes[o + n] := Plus(block2[Index(bytes[o + n])], block1[k + n]);
        n := n + 1;
        if n == 16 { break; }
      }
      SpliceIs(old(bytes[..]), bytes[..], o, AddRoundKey(InvSubBytes(s), key));
    }

    method SubBytes(bytes: array<byte>)
      requires Valid() && SBoxUpTo(sBox[..], 256) && bytes.Length == 4 && bytes != sBox
      modifies bytes
      ensures bytes[..] == SubWord(old(bytes[..]))
    {
      hide SBox;
      ghost var s := bytes[..];
      var n := 0;
      while true
        invariant 0 <= n < 4
        invariant forall j :: 0 <= j < n ==> bytes[j] == SBox(s[j])
        invariant forall j :: n <= j < 4 ==> bytes[j] == s[j]
        decreases 4 - n
      {
        assert sBox[..][Index(bytes[n])] == SBox(bytes[n]);
        bytes[n] := sBox[Index(bytes[n])];
        n := n + 1;
        if n == 4 { break; }
      }
    }

    /** The first step of a new key word: rotate, substitute, add the round constant and double it. */
    method MixWithConstant(temp: array<byte>, rcon: array<byte>, ghost n: nat)
      requires Valid() && SBoxUpTo(sBox[..], 256) && temp.Length == 4 && rcon.Length == 4
      requires temp != sBox && temp != rcon && IsRcon(rcon[..], n)
      modifies temp, rcon
      ensures temp[..] == XorWord(SubWord(RotWord(old(temp[..]))), [RoundConstant(n), 0, 0, 0])
      ensures IsRcon(rcon[..], n + 1)
    {
      hide SBox, Xtime, Plus, Sum;
      CycleLeft(temp);
      SubBytes(temp);
      XorInto(temp, rcon, 0);
      rcon[0] := Xtime(rcon[0]);
    }

    /** What the loop of KeyExpansion does to temp before adding the word eight places back. */
    method MixTemp(temp: array<byte>, rcon: array<byte>, i: nat)
      requires Valid() && SBoxUpTo(sBox[..], 256) && temp.Length == 4 && rcon.Length == 4
      requires temp != sBox && temp != rcon && rcon != sBox && i % 4 == 0 && 32 <= i
      requires IsRcon(rcon[..], (i - 1) / 32)
      modifies temp, rcon
      ensures temp[..] == Temp(old(temp[..]), i / 4)
      ensures IsRcon(rcon[..], (i + 3) / 32)
    {
      hide SubWord, XorWord, IsRcon, Temp, RoundConstant;
      TempCases(temp[..], i);
      if i % 32 == 0 {
        MixWithConstant(temp, rcon, (i - 1) / 32);
      } else if i % 32 == 16 {
        SubBytes(temp);
      }
    }

    /** One round of the loop: four more bytes of the schedule. */
    method NextWord(temp: array<byte>, rcon: array<byte>, i: nat)
      requires Valid() && SBoxUpTo(sBox[..], 256) && temp.Length == 4 && rcon.Length == 4
      requires temp != sBox && rcon != sBox && temp != rcon && temp != block1 && rcon != block1
      requires i % 4 == 0 && 32 <= i < 240
      requires block1[..i] == Schedule(key, i / 4) && temp[..] == block1[i - 4..i] && IsRcon(rcon[..], (i - 1) / 32)
      modifies temp, rcon, block1
      ensures block1[..i + 4] == Schedule(key, i / 4 + 1) && temp[..] == block1[i..i + 4]
      ensures IsRcon(rcon[..], (i + 3) / 32)
    {
      hide Temp, XorWord, IsRcon, Schedule, SBoxUpTo;
      ghost var w, n := block1[..i], i / 4;
      assert i == 4 * n && i - 32 == 4 * (n - 8) && i - 28 == 4 * (n - 7);
      assert temp[..] == w[4 * (n - 1)..4 * n];
      MixTemp(temp, rcon, i);
      Within(block1[..], i, i - 32, i - 28);
      assert block1[..][..i] == w && block1[..][i - 32..i - 28] == block1[i - 32..i - 28];
      XorInto(temp, block1, i - 32);
      ScheduleGrows(key, n, w, temp[..]);
      block1[i], block1[i + 1], block1[i + 2], block1[i + 3] := temp[0], temp[1], temp[2], temp[3];
      assert block1[..i + 4] == w + temp[..];
    }

    /** The key itself, its last word and the first round constant. */
    method CopyKey(temp: array<byte>, rcon: array<byte>)
      requires Valid() && temp.Length == 4 && rcon.Length == 4
      requires temp != rcon && temp != block1 && rcon != block1
      modifies block1, temp, rcon
      ensures block1[..32] == key && temp[..] == block1[28..32] && IsRcon(rcon[..], 0)
    {
      var n := 0;
      while n < 32
        invariant 0 <= n <= 32 && block1[..n] == key[..n]
        modifies block1
      {
        block1[n] := key[n];
        n := n + 1;
      }
      temp[0], temp[1], temp[2], temp[3] := block1[28], block1[29], block1[30], block1[31];
      rcon[0], rcon[1], rcon[2], rcon[3] := 1, 0, 0, 0;
      FirstRcon(rcon[..]);
    }

    method KeyExpansion()
      requires Valid() && SBoxUpTo(sBox[..], 256)
      modifies block1
      ensures block1[..240] == ExpandedKey(key)
    {
      hide IsRcon, SBoxUpTo, Schedule;
      var temp, rcon := new byte[4], new byte[4];
      CopyKey(temp, rcon);
      FirstWords(key, block1[..32]);
      var i := 32;
      while i < 240
        invariant 32 <= i <= 240 && i % 4 == 0
        invariant block1[..i] == Schedule(key, i / 4) && temp[..] == block1[i - 4..i]
        invariant IsRcon(rcon[..], (i - 1) / 32)
        invariant sBox[..] == old(sBox[..])
      {
        NextWord(temp, rcon, i);
        i := i + 4;
      }
    }

    /** One pass of the loop of InvCipher. */
    method FullRound(block: array<byte>, o: nat, k: nat, ghost s: seq<byte>, ghost t: Block)
      requires Inverted() && block != block1 && block != block2 && o + 16 <= block.Length && k + 16 <= 240
      requires o + 16 <= |s| && block[..] == Splice(s, o, t)
      modifies block
      ensures block[..] == Splice(s, o, InvRound(t, block1[k..k + 16]))
    {
      HalfRound(block, o, k, s, t);
      hide AddRoundKey, InvSubBytes, AesCipher.InvShiftRows, AesCipher.InvMixColumns, Splice, HoldsInvSBox;
      ghost var v := AddRoundKey(InvSubBytes(AesCipher.InvShiftRows(t)), block1[k..k + 16]);
      SpliceOver(s, o, v, AesCipher.InvMixColumns(v), block[..]);
      InvMixColumns(block, o);
    }

    /** The part of a round that the final round has as well. */
    method HalfRound(block: array<byte>, o: nat, k: nat, ghost s: seq<byte>, ghost t: Block)
      requires Inverted() && block != block1 && block != block2 && o + 16 <= block.Length && k + 16 <= 240
      requires o + 16 <= |s| && block[..] == Splice(s, o, t)
      modifies block
      ensures block[..] == Splice(s, o, AddRoundKey(InvSubBytes(AesCipher.InvShiftRows(t)), block1[k..k + 16]))
    {
      hide AddRoundKey, InvSubBytes, AesCipher.InvShiftRows, Splice, HoldsInvSBox;
      ghost var u := AesCipher.InvShiftRows(t);
      SpliceOver(s, o, t, u, block[..]);
      InvShiftRows(block, o);
      SpliceOver(s, o, u, AddRoundKey(InvSubBytes(u), block1[k..k + 16]), block[..]);
      InvSubBytesAndXOR(block, o, k);
    }

    method InvCipher(block: array<byte>, o: nat)
      requires Inverted() && block != block1 && block != block2 && o + 16 <= block.Length
      modifies block
      ensures block[..] == Splice(old(block[..]), o, AesCipher.InvCipher(old(block[o..o + 16]), block1[..240]))
    {
      hide AddRoundKey, InvSubBytes, AesCipher.InvShiftRows, AesCipher.InvMixColumns, Splice, HoldsInvSBox, InvRound;
      ghost var s, w := block[..], block1[..240];
      ghost var t := AddRoundKey(block[o..o + 16], RoundKey(w, 14));
      ghost var t0 := t;
      var round := 13;
      var k := 16 * 14;
      assert block1[k..k + 16] == RoundKey(w, 14);
      XorIsAddRoundKey(block[o..o + 16], block1[k..k + 16]);
      XORBytes(block, o, block1, k, 16);
      k := k - 16;
      while true
        invariant 1 <= round <= 13 && k == 16 * round && Inverted() && block1[..240] == w
        invariant block[..] == Splice(s, o, t)
        invariant InvRounds(t, w, round) == InvRounds(t0, w, 13)
        decreases round
      {
        FullRound(block, o, k, s, t);
        assert block1[k..k + 16] == RoundKey(w, round);
        t := InvRound(t, RoundKey(w, round));
        k := k - 16;
        round := round - 1;
        if round == 0 { break; }
      }
      HalfRound(block, o, k, s, t);
      assert block1[0..16] == RoundKey(w, 0);
    }

    /** The log tables are built in the memory that the key schedule and the inverse S-box take over. */
    method AesInit()
      requires Valid()
      modifies block1, block2, sBox
      ensures Ready()
    {
      CalcPowLog(block1, block2);
      CalcSBox(block1, block2, sBox);
      FullTables(sBox[..], block2[..]);
      KeyExpansion();
      CalcSBoxInv(sBox, block2);
      FullTables(sBox[..], block2[..]);
    }

    /** Decrypt in place and add the chain block. */
    method DecryptAndChain(buffer: array<byte>, o: nat, chainBlock: array<byte>)
      requires Ready() && chainBlock.Length == 16 && o + 16 <= buffer.Length && buffer != chainBlock
      requires buffer != block1 && buffer != block2
      modifies buffer
      ensures buffer[..] == Splice(old(buffer[..]), o, Decrypted(old(buffer[o..o + 16]), chainBlock[..]))
    {
      hide AddRoundKey, AesCipher.InvCipher, Splice, HoldsInvSBox, Schedule;
      ghost var s, c, t := buffer[..], buffer[o..o + 16], chainBlock[..];
      ghost var p := AesCipher.InvCipher(c, block1[..240]);
      InvCipher(buffer, o);
      XorIsAddRoundKey(p, t);
      assert chainBlock[0..0 + 16] == t;
      SpliceOver(s, o, p, AddRoundKey(p, t), buffer[..]);
      XORBytes(buffer, o, chainBlock, 0, 16);
    }

    /** One block of cipher block chaining; the ciphertext becomes the next chain block. */
    method AesDecrypt(buffer: array<byte>, o: nat, chainBlock: array<byte>)
      requires Ready() && chainBlock.Length == 16 && o + 16 <= buffer.Length && buffer != chainBlock
      requires buffer != block1 && buffer != block2 && chainBlock != block1 && chainBlock != block2
      modifies buffer, chainBlock
      ensures buffer[..] == Splice(old(buffer[..]), o, Decrypted(old(buffer[o..o + 16]), old(chainBlock[..])))
      ensures chainBlock[..] == old(buffer[o..o + 16])
      ensures Ready()
    {
      hide Decrypted, Splice, HoldsInvSBox, Schedule, ExpandedKey;
      var temp := new byte[16];
      WholeSplice(temp[..], buffer[o..o + 16]);
      CopyBytes(temp, 0, buffer, o, 16);
      DecryptAndChain(buffer, o, chainBlock);
      WholeSplice(chainBlock[..], temp[0..0 + 16]);
      CopyBytes(chainBlock, 0, temp, 0, 16);
    }
  }

  lemma WholeSplice(s: seq<byte>, t: seq<byte>)
    requires |s| == |t|
    ensures Splice(s, 0, t) == t
  {}

  lemma SpliceOver(s: seq<byte>, o: nat, t: seq<byte>, u: seq<byte>, r: seq<byte>)
    requires o + 16 <= |s| && |t| == 16 && |u| == 16 && r == Splice(s, o, t)
    ensures r[o..o + 16] == t && Splice(r, o, u) == Splice(s, o, u)
  {}

  lemma XorIsAddRoundKey(s: Block, k: Block)
    ensures XorSeq(s, k) == AddRoundKey(s, k)
  {}

  ghost predicate IsRcon(s: seq<byte>, n: nat) {
    |s| == 4 && s[0] == RoundConstant(n) && s[1] == 0 && s[2] == 0 && s[3] == 0
  }

  lemma FirstRcon(s: seq<byte>)
    requires s == [1, 0, 0, 0]
    ensures IsRcon(s, 0)
  {}

  lemma FirstWords(key: seq<byte>, w: seq<byte>)
    requires |key| == 32 && w == key
    ensures w == Schedule(key, 8)
  {}

  method XorInto(temp: array<byte>, from: array<byte>, o: nat)
    requires temp.Length == 4 && temp != from && o + 4 <= from.Length
    modifies temp
    ensures temp[..] == XorWord(old(temp[..]), from[o..o + 4])
  {
    XorOfWords(temp[..], from[o..o + 4]);
    assert temp[0..0 + 4] == temp[..][0..4];
    XORBytes(temp, 0, from, o, 4);
  }

  lemma XorOfWords(v: seq<byte>, w: seq<byte>)
    requires |v| == 4 && |w| == 4
    ensures Splice(v, 0, XorSeq(v[0..4], w)) == XorWord(v, w)
  {}

  lemma WordNumber(i: nat)
    requires i % 4 == 0 && 32 <= i
    ensures i / 4 >= 8 && (i / 4 % 8 == 0 <==> i % 32 == 0) && (i / 4 % 8 == 4 <==> i % 32 == 16)
    ensures if i % 32 == 0 then i / 4 / 8 - 1 == (i - 1) / 32 && (i + 3) / 32 == (i - 1) / 32 + 1 else (i + 3) / 32 == (i - 1) / 32
  {}

  /** Which of its three forms Temp has at a byte of the schedule. */
  lemma TempCases(previous: Word, i: nat)
    requires i % 4 == 0 && 32 <= i
    ensures i / 4 >= 8
    ensures Temp(previous, i / 4) ==
            if i % 32 == 0 then XorWord(SubWord(RotWord(previous)), [RoundConstant((i - 1) / 32), 0, 0, 0])
            else if i % 32 == 16 then SubWord(previous) else previous
    ensures (i + 3) / 32 == if i % 32 == 0 then (i - 1) / 32 + 1 else (i - 1) / 32
  {
    hide SubWord, XorWord, RoundConstant;
    WordNumber(i);
  }

  lemma Within(s: seq<byte>, i: nat, a: nat, b: nat)
    requires a <= b <= i <= |s|
    ensures s[..i][a..b] == s[a..b]
  {}

  lemma ScheduleGrows(key: seq<byte>, n: nat, w: seq<byte>, next: Word)
    requires |key| == 32 && n >= 8 && w == Schedule(key, n)
    requires next == XorWord(Temp(w[4 * (n - 1)..4 * n], n), w[4 * (n - 8)..4 * (n - 7)])
    ensures Schedule(key, n + 1) == w + next
  {
    hide Temp, XorWord;
  }

  ghost predicate HoldsInvSBox(table: seq<byte>)
    requires |table| == 256
  {
    forall y: byte :: table[Index(y)] == InvSBox(y)
  }
}
