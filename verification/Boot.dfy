/** Main.c, Check_and_Jump_to_App: the boot record at the end of the flash decides whether the application is started. */
module Boot {
  import opened Words
  import opened Flash
  import Md5

  /** BOOTL_IMG_SIZE; the program area begins where the boot loader ends. */
  const BOOTLOADER := 0x8000

  /** The size of a boot record and its place. */
  const RECORD := 48
  const RECORD_ADDR := AREA - RECORD

  const MAGIC_TAG := 0xAA553311

  type Record = r: seq<byte> | |r| == RECORD witness seq(RECORD, _ => 0)
  type Image = m: seq<byte> | |m| == AREA witness seq(AREA, _ => 0)

  function Octet(b: byte): (n: nat)
    ensures n < 0x100 && (b == 0xFF ==> n == 0xFF)
  {
    b as nat
  }

  /** The 32-bit number stored at an address, low-order byte first. */
  function Number(s: seq<byte>, i: nat): nat
    requires i + 4 <= |s|
  {
    Octet(s[i]) + 0x100 * Octet(s[i + 1]) + 0x1_0000 * Octet(s[i + 2]) + 0x100_0000 * Octet(s[i + 3])
  }

  /** The number of any octets, low-order first. */
  function Value(s: seq<byte>): nat
    decreases |s|
  {
    if s == [] then 0 else Octet(s[0]) + 0x100 * Value(s[1..])
  }

  lemma {:induction false} ValueReads(n: nat, k: nat)
    requires n < Md5.Pow256(k)
    ensures Value(Md5.LittleEndian(n, k)) == n
    decreases k
  {
    hide Octet;
    if k > 0 {
      var s := Md5.LittleEndian(n, k);
      OctetKept(n % 0x100);
      ValueReads(n / 0x100, k - 1);
      assert s[1..] == Md5.LittleEndian(n / 0x100, k - 1);
    }
  }

  lemma NumberIsValue(s: seq<byte>)
    requires |s| == 4
    ensures Number(s, 0) == Value(s)
  {
    hide Octet;
    assert s[1..][1..] == s[2..] && s[2..][1..] == s[3..] && s[3..][1..] == [];
    assert Value(s[3..]) == Octet(s[3]);
    assert Value(s[2..]) == Octet(s[2]) + 0x100 * Value(s[3..]);
    assert Value(s[1..]) == Octet(s[1]) + 0x100 * Value(s[2..]);
  }

  /** It is the number whose octets are stored, low-order first. */
  lemma NumberReads(n: nat)
    requires n < WORD
    ensures Number(Md5.LittleEndian(n, 4), 0) == n
  {
    hide Value, Md5.LittleEndian;
    Md5.WordIsPow256();
    ValueReads(n, 4);
    NumberIsValue(Md5.LittleEndian(n, 4));
  }

  lemma OctetKept(x: nat)
    requires x < 0x100
    ensures Octet(x as byte) == x
  {
    ByteKept(x);
    assert ToByte(x) == x as byte;
    assert Octet(ToByte(x)) == ToNat(ToByte(x));
  }

  // The fields of T_Boot_record.
  function Hash(r: Record): seq<byte> { r[..16] }
  function OrigImgSize(r: Record): nat { Number(r, 16) }
  function CompressFlag(r: Record): nat { Number(r, 36) }
  function MagicVal(r: Record): nat { Number(r, 44) }

  /** T_Boot_record: hash, original size, date, time, offset, compression algorithm, flag, size of the image file, magic number. */
  lemma Layout(hash: seq<byte>, size: seq<byte>, between: seq<byte>, flag: seq<byte>, fileSize: seq<byte>, magic: seq<byte>)
    requires |hash| == 16 && |size| == |flag| == |fileSize| == |magic| == 4 && |between| == 4 * 4
    ensures var r := hash + size + between + flag + fileSize + magic;
            && |r| == RECORD && Hash(r) == hash && OrigImgSize(r) == Number(size, 0)
            && CompressFlag(r) == Number(flag, 0) && MagicVal(r) == Number(magic, 0)
  {
    hide Octet;
    var r := hash + size + between + flag + fileSize + magic;
    assert r[16..20] == size && r[36..40] == flag && r[44..48] == magic;
    NumberAt(r, 16);
    NumberAt(r, 36);
    NumberAt(r, 44);
  }

  lemma NumberAt(s: seq<byte>, i: nat)
    requires i + 4 <= |s|
    ensures Number(s[i..i + 4], 0) == Number(s, i)
  {
    hide Octet;
  }

  function RecordIn(m: Image): Record {
    m[RECORD_ADDR..]
  }

  /** n bytes from the program area on; beyond the flash lies memory this model knows nothing of. */
  function ProgramArea(m: Image, beyond: nat -> byte, n: nat): (s: seq<byte>)
    ensures |s| == n
  {
    seq(n, (i: nat) => if BOOTLOADER + i < AREA then m[BOOTLOADER + i] else beyond(i))
  }

  predicate HashMatches(m: Image, beyond: nat -> byte) {
    var r := RecordIn(m);
    OrigImgSize(r) <= AREA && Hash(r) == Md5.Digest(ProgramArea(m, beyond, OrigImgSize(r)))
  }

  /** Jump_to_app jumps only through vectors that have been written. */
  predicate VectorsWritten(m: Image) {
    Number(m, BOOTLOADER) != 0xFFFF_FFFF && Number(m, BOOTLOADER + 4) != 0xFFFF_FFFF
  }

  predicate Starts(m: Image, beyond: nat -> byte) {
    HashMatches(m, beyond) && VectorsWritten(m)
  }

  /** Nothing has been written over the boot record since the last erasure. */
  predicate Blank(m: Image) {
    forall i :: RECORD_ADDR <= i < AREA ==> m[i] == 0xFF
  }

  /** A blank record names a size no image has, so nothing is started. */
  lemma BlankNeverStarts(m: Image, beyond: nat -> byte)
    requires Blank(m)
    ensures !Starts(m, beyond)
  {
    var r := RecordIn(m);
    assert r[16] == m[RECORD_ADDR + 16] && r[17] == m[RECORD_ADDR + 17];
    assert r[18] == m[RECORD_ADDR + 18] && r[19] == m[RECORD_ADDR + 19];
    AllOnes(r, 16);
  }

  lemma AllOnes(s: seq<byte>, i: nat)
    requires i + 4 <= |s| && s[i] == s[i + 1] == s[i + 2] == s[i + 3] == 0xFF
    ensures Number(s, i) == 0xFFFF_FFFF
  {
    hide Octet;
  }

  /** Check_and_Jump_to_App */
  method CheckAndJump(device: Device, beyond: nat -> byte) returns (jumped: bool)
    requires device.Valid()
    ensures jumped <==> Starts(device.mem, beyond)
  {
    hide Md5.Digest, Md5.StandsFor, Number;
    var m := device.mem;
    var record := m[RECORD_ADDR..];
    if OrigImgSize(record) <= AREA {
      var ctx := new Md5.Context();
      ctx.Starts();
      var area := ProgramArea(m, beyond, OrigImgSize(record));
      ctx.Update(area);
      assert ctx.message == area;
      var md5sum := ctx.Finish();
      if record[..16] == md5sum {
        if Number(m, BOOTLOADER) != 0xFFFF_FFFF && Number(m, BOOTLOADER + 4) != 0xFFFF_FFFF {
          return true;
        }
      }
    }
    return false;
  }
}
