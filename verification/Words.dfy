/** What the modules share: machine integers, optional values, the division of C and the block copy. */
module Words {
  type byte = bv8
  type word = bv32

  datatype Option<T> = None | Some(value: T)

  function Abs(x: int): nat {
    if x < 0 then -x else x
  }

  /** The quotient rounded toward zero, as C defines it. */
  function TruncDiv(a: int, b: int): int
    requires b != 0
  {
    if (a < 0) == (b < 0) then Abs(a) / Abs(b) else -(Abs(a) / Abs(b))
  }

  function ToByte(x: nat): byte
    requires x < 0x100
  {
    x as byte
  }

  function ToNat(b: byte): (x: nat)
    ensures x < 0x100
  {
    b as int
  }

  lemma ByteIs(b: byte)
    ensures ToByte(ToNat(b)) == b && ToNat(0) == 0 && ToByte(0) == 0
    ensures ToNat(b) < 255 ==> ToNat(b + 1) == ToNat(b) + 1
  {}

  /** A small number is what its octet stands for. */
  lemma {:induction false} ByteKept(x: nat)
    requires x < 0x100
    ensures ToNat(ToByte(x)) == x
    decreases x
  {
    hide ToByte, ToNat;
    ByteIs(0);
    if x > 0 {
      ByteKept(x - 1);
      ByteIs(ToByte(x - 1));
      ByteIs(ToByte(x - 1) + 1);
    }
  }

  /** memcpy into a buffer. */
  method CopyIn(a: array<byte>, o: nat, s: seq<byte>)
    requires o + |s| <= a.Length
    modifies a
    ensures a[..] == old(a[..o]) + s + old(a[o + |s|..])
  {
    for i := 0 to |s|
      invariant forall k :: 0 <= k < a.Length ==> a[k] == if o <= k < o + i then s[k - o] else old(a[k])
    {
      a[o + i] := s[i];
    }
  }
}
