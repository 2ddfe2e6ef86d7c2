/**
 * md5.c: the MD5 message digest of RFC 1321, computed over a message that arrives in pieces of any size.
 */
module Md5 {
  import opened Words

  // ---- RFC 1321 ----

  /** The four registers, in the order A, B, C, D. */
  datatype Regs = Regs(a: word, b: word, c: word, d: word)

  type Block = b: seq<byte> | |b| == 64 witness seq(64, _ => 0)

  const INIT := Regs(0x67452301, 0xEFCDAB89, 0x98BADCFE, 0x10325476)

  /** The auxiliary functions F, G, H and I of section 3.4, one for each round. */
  function Aux(round: nat, x: word, y: word, z: word): word {
    if round == 0 then (x & y) | (!x & z)
    else if round == 1 then (x & z) | (y & !z)
    else if round == 2 then x ^ y ^ z
    else y ^ (x | !z)
  }

  /** Rotation to the left by n places. */
  function Rotate(x: word, n: word): word
    requires n <= 32
  {
    (x << n) | (x >> (32 - n))
  }

  /** The product with 2^n, reckoned in 64 bits: its low word plus what falls out of it. */
  lemma RotateIs(x: word, n: bv64)
    requires n <= 32
    ensures var p := (x as bv64) * (1 << n); Rotate(x, n as word) as bv64 == p % 0x1_0000_0000 + p / 0x1_0000_0000
  {}

  /** The word a step reads. */
  function Index(i: nat): (k: nat)
    ensures k < 16
  {
    if i < 16 then i
    else if i < 32 then (5 * i + 1) % 16
    else if i < 48 then (3 * i + 5) % 16
    else (7 * i) % 16
  }

  /** The rotation of a step. */
  function Shift(i: nat): (n: word)
    ensures 0 < n < 32
  {
    var k := i % 4;
    if i < 16 then if k == 0 then 7 else if k == 1 then 12 else if k == 2 then 17 else 22
    else if i < 32 then if k == 0 then 5 else if k == 1 then 9 else if k == 2 then 14 else 20
    else if i < 48 then if k == 0 then 4 else if k == 1 then 11 else if k == 2 then 16 else 23
    else if k == 0 then 6 else if k == 1 then 10 else if k == 2 then 15 else 21
  }

  function Sine1(i: nat): word
    requires 0 <= i < 16
  {
    if i == 0 then 0xD76AA478 else if i == 1 then 0xE8C7B756 else if i == 2 then 0x242070DB else if i == 3 then 0xC1BDCEEE else
    if i == 4 then 0xF57C0FAF else if i == 5 then 0x4787C62A else if i == 6 then 0xA8304613 else if i == 7 then 0xFD469501 else
    if i == 8 then 0x698098D8 else if i == 9 then 0x8B44F7AF else if i == 10 then 0xFFFF5BB1 else if i == 11 then 0x895CD7BE else
    if i == 12 then 0x6B901122 else if i == 13 then 0xFD987193 else if i == 14 then 0xA679438E else 0x49B40821
  }

  function Sine2(i: nat): word
    requires 16 <= i < 32
  {
    if i == 16 then 0xF61E2562 else if i == 17 then 0xC040B340 else if i == 18 then 0x265E5A51 else if i == 19 then 0xE9B6C7AA else
    if i == 20 then 0xD62F105D else if i == 21 then 0x02441453 else if i == 22 then 0xD8A1E681 else if i == 23 then 0xE7D3FBC8 else
    if i == 24 then 0x21E1CDE6 else if i == 25 then 0xC33707D6 else if i == 26 then 0xF4D50D87 else if i == 27 then 0x455A14ED else
    if i == 28 then 0xA9E3E905 else if i == 29 then 0xFCEFA3F8 else if i == 30 then 0x676F02D9 else 0x8D2A4C8A
  }

  function Sine3(i: nat): word
    requires 32 <= i < 48
  {
    if i == 32 then 0xFFFA3942 else if i == 33 then 0x8771F681 else if i == 34 then 0x6D9D6122 else if i == 35 then 0xFDE5380C else
    if i == 36 then 0xA4BEEA44 else if i == 37 then 0x4BDECFA9 else if i == 38 then 0xF6BB4B60 else if i == 39 then 0xBEBFBC70 else
    if i == 40 then 0x289B7EC6 else if i == 41 then 0xEAA127FA else if i == 42 then 0xD4EF3085 else if i == 43 then 0x04881D05 else
    if i == 44 then 0xD9D4D039 else if i == 45 then 0xE6DB99E5 else if i == 46 then 0x1FA27CF8 else 0xC4AC5665
  }

  function Sine4(i: nat): word
    requires 48 <= i < 64
  {
    if i == 48 then 0xF4292244 else if i == 49 then 0x432AFF97 else if i == 50 then 0xAB9423A7 else if i == 51 then 0xFC93A039 else
    if i == 52 then 0x655B59C3 else if i == 53 then 0x8F0CCC92 else if i == 54 then 0xFFEFF47D else if i == 55 then 0x85845DD1 else
    if i == 56 then 0x6FA87E4F else if i == 57 then 0xFE2CE6E0 else if i == 58 then 0xA3014314 else if i == 59 then 0x4E0811A1 else
    if i == 60 then 0xF7537E82 else if i == 61 then 0xBD3AF235 else if i == 62 then 0x2AD7D2BB else 0xEB86D391
  }

  /** The integer part of 4294967296 times |sin(i + 1)|, i + 1 in radians. */
  function Sine(i: nat): word
    requires i < 64
  {
    if i < 16 then Sine1(i) else if i < 32 then Sine2(i) else if i < 48 then Sine3(i) else Sine4(i)
  }

  /** b plus the sum of a, f, x and t rotated by s, all modulo the word size. */
  function Mixed(a: word, f: word, b: word, x: word, t: word, s: word): word
    requires s <= 32
  {
    Rotate(a + (f + x + t), s) + b
  }

  /** Step i on words x; every step leaves the registers turned by one place, as the register it wrote comes to be read as B. */
  function Step(r: Regs, x: seq<word>, i: nat): Regs
    requires |x| == 16 && i < 64
  {
    Regs(r.d, Mixed(r.a, Aux(i / 16, r.b, r.c, r.d), r.b, x[Index(i)], Sine(i), Shift(i)), r.b, r.c)
  }

  /** The first n steps. */
  function Steps(r: Regs, x: seq<word>, n: nat): Regs
    requires |x| == 16 && n <= 64
  {
    if n == 0 then r else Step(Steps(r, x, n - 1), x, n - 1)
  }

  // ---- Words and octets, low-order octet first ----

  /** The word with the given octets; section 2. */
  function Word(b0: byte, b1: byte, b2: byte, b3: byte): word {
    (b0 as word) + 0x100 * (b1 as word) + 0x1_0000 * (b2 as word) + 0x100_0000 * (b3 as word)
  }

  /** GET_UINT32 */
  function GetUint32(b0: byte, b1: byte, b2: byte, b3: byte): (w: word)
    ensures w == Word(b0, b1, b2, b3)
  {
    (b0 as word) | ((b1 as word) << 8) | ((b2 as word) << 16) | ((b3 as word) << 24)
  }

  /** PUT_UINT32 */
  function PutUint32(w: word): (s: seq<byte>)
    ensures |s| == 4 && Word(s[0], s[1], s[2], s[3]) == w
  {
    [(w & 0xFF) as byte, ((w >> 8) & 0xFF) as byte, ((w >> 16) & 0xFF) as byte, ((w >> 24) & 0xFF) as byte]
  }

  /** The sixteen words of a block. */
  function WordsOf(b: Block): (x: seq<word>)
    ensures |x| == 16
  {
    seq(16, k requires 0 <= k < 16 => Word(b[4 * k], b[4 * k + 1], b[4 * k + 2], b[4 * k + 3]))
  }

  function Plus(r: Regs, s: Regs): Regs {
    Regs(r.a + s.a, r.b + s.b, r.c + s.c, r.d + s.d)
  }

  /** What a block does to the registers. */
  function Compress(r: Regs, b: Block): Regs {
    Plus(r, Steps(r, WordsOf(b), 64))
  }

  // ---- The steps as they are written out ----

  lemma Form1(x: word, y: word, z: word)
    ensures z ^ (x & (y ^ z)) == Aux(0, x, y, z)
  {}

  lemma Form2(x: word, y: word, z: word)
    ensures y ^ (z & (x ^ y)) == Aux(1, x, y, z)
  {}

  /** The macro F of round 1. */
  function F1(x: word, y: word, z: word): (r: word)
    ensures r == Aux(0, x, y, z)
  {
    Form1(x, y, z);
    z ^ (x & (y ^ z))
  }

  /** The macro F of round 2. */
  function F2(x: word, y: word, z: word): (r: word)
    ensures r == Aux(1, x, y, z)
  {
    Form2(x, y, z);
    y ^ (z & (x ^ y))
  }

  /** The macro F of round 3. */
  function F3(x: word, y: word, z: word): (r: word)
    ensures r == Aux(2, x, y, z)
  {
    x ^ y ^ z
  }

  /** The macro F of round 4. */
  function F4(x: word, y: word, z: word): (r: word)
    ensures r == Aux(3, x, y, z)
  {
    y ^ (x | !z)
  }

  /** Step i reads word k, rotates by n and adds t. */
  predicate IsStep(i: nat, k: nat, n: word, t: word) {
    i < 64 && k == Index(i) && n == Shift(i) && t == Sine(i)
  }

  lemma StepIs(s: Regs, x: seq<word>, i: nat, a: word, b: word, c: word, d: word, k: nat, n: word, t: word)
    requires |x| == 16 && IsStep(i, k, n, t) && Regs(a, b, c, d) == Steps(s, x, i)
    ensures k < 16 && n <= 32
    ensures Steps(s, x, i + 1) == Regs(d, Mixed(a, Aux(i / 16, b, c, d), b, x[k], t, n), b, c)
  {}

  lemma Constants1A()
    ensures IsStep(0, 0, 7, 0xD76AA478) && IsStep(1, 1, 12, 0xE8C7B756)
    ensures IsStep(2, 2, 17, 0x242070DB) && IsStep(3, 3, 22, 0xC1BDCEEE)
    ensures IsStep(4, 4, 7, 0xF57C0FAF) && IsStep(5, 5, 12, 0x4787C62A)
    ensures IsStep(6, 6, 17, 0xA8304613) && IsStep(7, 7, 22, 0xFD469501)
  {}

  lemma Constants1B()
    ensures IsStep(8, 8, 7, 0x698098D8) && IsStep(9, 9, 12, 0x8B44F7AF)
    ensures IsStep(10, 10, 17, 0xFFFF5BB1) && IsStep(11, 11, 22, 0x895CD7BE)
    ensures IsStep(12, 12, 7, 0x6B901122) && IsStep(13, 13, 12, 0xFD987193)
    ensures IsStep(14, 14, 17, 0xA679438E) && IsStep(15, 15, 22, 0x49B40821)
  {}

  lemma Constants2A()
    ensures IsStep(16, 1, 5, 0xF61E2562) && IsStep(17, 6, 9, 0xC040B340)
    ensures IsStep(18, 11, 14, 0x265E5A51) && IsStep(19, 0, 20, 0xE9B6C7AA)
    ensures IsStep(20, 5, 5, 0xD62F105D) && IsStep(21, 10, 9, 0x02441453)
    ensures IsStep(22, 15, 14, 0xD8A1E681) && IsStep(23, 4, 20, 0xE7D3FBC8)
  {}

  lemma Constants2B()
    ensures IsStep(24, 9, 5, 0x21E1CDE6) && IsStep(25, 14, 9, 0xC33707D6)
    ensures IsStep(26, 3, 14, 0xF4D50D87) && IsStep(27, 8, 20, 0x455A14ED)
    ensures IsStep(28, 13, 5, 0xA9E3E905) && IsStep(29, 2, 9, 0xFCEFA3F8)
    ensures IsStep(30, 7, 14, 0x676F02D9) && IsStep(31, 12, 20, 0x8D2A4C8A)
  {}

  lemma Constants3A()
    ensures IsStep(32, 5, 4, 0xFFFA3942) && IsStep(33, 8, 11, 0x8771F681)
    ensures IsStep(34, 11, 16, 0x6D9D6122) && IsStep(35, 14, 23, 0xFDE5380C)
    ensures IsStep(36, 1, 4, 0xA4BEEA44) && IsStep(37, 4, 11, 0x4BDECFA9)
    ensures IsStep(38, 7, 16, 0xF6BB4B60) && IsStep(39, 10, 23, 0xBEBFBC70)
  {}

  lemma Constants3B()
    ensures IsStep(40, 13, 4, 0x289B7EC6) && IsStep(41, 0, 11, 0xEAA127FA)
    ensures IsStep(42, 3, 16, 0xD4EF3085) && IsStep(43, 6, 23, 0x04881D05)
    ensures IsStep(44, 9, 4, 0xD9D4D039) && IsStep(45, 12, 11, 0xE6DB99E5)
    ensures IsStep(46, 15, 16, 0x1FA27CF8) && IsStep(47, 2, 23, 0xC4AC5665)
  {}

  lemma Constants4A()
    ensures IsStep(48, 0, 6, 0xF4292244) && IsStep(49, 7, 10, 0x432AFF97)
    ensures IsStep(50, 14, 15, 0xAB9423A7) && IsStep(51, 5, 21, 0xFC93A039)
    ensures IsStep(52, 12, 6, 0x655B59C3) && IsStep(53, 3, 10, 0x8F0CCC92)
    ensures IsStep(54, 10, 15, 0xFFEFF47D) && IsStep(55, 1, 21, 0x85845DD1)
  {}

  lemma Constants4B()
    ensures IsStep(56, 8, 6, 0x6FA87E4F) && IsStep(57, 15, 10, 0xFE2CE6E0)
    ensures IsStep(58, 6, 15, 0xA3014314) && IsStep(59, 13, 21, 0x4E0811A1)
    ensures IsStep(60, 4, 6, 0xF7537E82) && IsStep(61, 11, 10, 0xBD3AF235)
    ensures IsStep(62, 2, 15, 0x2AD7D2BB) && IsStep(63, 9, 21, 0xEB86D391)
  {}

  method Round1(x: seq<word>, r: Regs, ghost s: Regs) returns (a: word, b: word, c: word, d: word)
    requires |x| == 16 && r == Steps(s, x, 0)
    ensures Regs(a, b, c, d) == Steps(s, x, 16)
  {
    hide Mixed, Aux, F1, Steps, IsStep;
    Constants1A();
    Constants1B();
    a, b, c, d := r.a, r.b, r.c, r.d;
    StepIs(s, x, 0, a, b, c, d, 0, 7, 0xD76AA478);
    a := Mixed(a, F1(b, c, d), b, x[0], 0xD76AA478, 7);
    StepIs(s, x, 1, d, a, b, c, 1, 12, 0xE8C7B756);
    d := Mixed(d, F1(a, b, c), a, x[1], 0xE8C7B756, 12);
    StepIs(s, x, 2, c, d, a, b, 2, 17, 0x242070DB);
    c := Mixed(c, F1(d, a, b), d, x[2], 0x242070DB, 17);
    StepIs(s, x, 3, b, c, d, a, 3, 22, 0xC1BDCEEE);
    b := Mixed(b, F1(c, d, a), c, x[3], 0xC1BDCEEE, 22);
    StepIs(s, x, 4, a, b, c, d, 4, 7, 0xF57C0FAF);
    a := Mixed(a, F1(b, c, d), b, x[4], 0xF57C0FAF, 7);
    StepIs(s, x, 5, d, a, b, c, 5, 12, 0x4787C62A);
    d := Mixed(d, F1(a, b, c), a, x[5], 0x4787C62A, 12);
    StepIs(s, x, 6, c, d, a, b, 6, 17, 0xA8304613);
    c := Mixed(c, F1(d, a, b), d, x[6], 0xA8304613, 17);
    StepIs(s, x, 7, b, c, d, a, 7, 22, 0xFD469501);
    b := Mixed(b, F1(c, d, a), c, x[7], 0xFD469501, 22);
    StepIs(s, x, 8, a, b, c, d, 8, 7, 0x698098D8);
    a := Mixed(a, F1(b, c, d), b, x[8], 0x698098D8, 7);
    StepIs(s, x, 9, d, a, b, c, 9, 12, 0x8B44F7AF);
    d := Mixed(d, F1(a, b, c), a, x[9], 0x8B44F7AF, 12);
    StepIs(s, x, 10, c, d, a, b, 10, 17, 0xFFFF5BB1);
    c := Mixed(c, F1(d, a, b), d, x[10], 0xFFFF5BB1, 17);
    StepIs(s, x, 11, b, c, d, a, 11, 22, 0x895CD7BE);
    b := Mixed(b, F1(c, d, a), c, x[11], 0x895CD7BE, 22);
    StepIs(s, x, 12, a, b, c, d, 12, 7, 0x6B901122);
    a := Mixed(a, F1(b, c, d), b, x[12], 0x6B901122, 7);
    StepIs(s, x, 13, d, a, b, c, 13, 12, 0xFD987193);
    d := Mixed(d, F1(a, b, c), a, x[13], 0xFD987193, 12);
    StepIs(s, x, 14, c, d, a, b, 14, 17, 0xA679438E);
    c := Mixed(c, F1(d, a, b), d, x[14], 0xA679438E, 17);
    StepIs(s, x, 15, b, c, d, a, 15, 22, 0x49B40821);
    b := Mixed(b, F1(c, d, a), c, x[15], 0x49B40821, 22);
  }

  method Round2(x: seq<word>, r: Regs, ghost s: Regs) returns (a: word, b: word, c: word, d: word)
    requires |x| == 16 && r == Steps(s, x, 16)
    ensures Regs(a, b, c, d) == Steps(s, x, 32)
  {
    hide Mixed, Aux, F2, Steps, IsStep;
    Constants2A();
    Constants2B();
    a, b, c, d := r.a, r.b, r.c, r.d;
    StepIs(s, x, 16, a, b, c, d, 1, 5, 0xF61E2562);
    a := Mixed(a, F2(b, c, d), b, x[1], 0xF61E2562, 5);
    StepIs(s, x, 17, d, a, b, c, 6, 9, 0xC040B340);
    d := Mixed(d, F2(a, b, c), a, x[6], 0xC040B340, 9);
    StepIs(s, x, 18, c, d, a, b, 11, 14, 0x265E5A51);
    c := Mixed(c, F2(d, a, b), d, x[11], 0x265E5A51, 14);
    StepIs(s, x, 19, b, c, d, a, 0, 20, 0xE9B6C7AA);
    b := Mixed(b, F2(c, d, a), c, x[0], 0xE9B6C7AA, 20);
    StepIs(s, x, 20, a, b, c, d, 5, 5, 0xD62F105D);
    a := Mixed(a, F2(b, c, d), b, x[5], 0xD62F105D, 5);
    StepIs(s, x, 21, d, a, b, c, 10, 9, 0x02441453);
    d := Mixed(d, F2(a, b, c), a, x[10], 0x02441453, 9);
    StepIs(s, x, 22, c, d, a, b, 15, 14, 0xD8A1E681);
    c := Mixed(c, F2(d, a, b), d, x[15], 0xD8A1E681, 14);
    StepIs(s, x, 23, b, c, d, a, 4, 20, 0xE7D3FBC8);
    b := Mixed(b, F2(c, d, a), c, x[4], 0xE7D3FBC8, 20);
    StepIs(s, x, 24, a, b, c, d, 9, 5, 0x21E1CDE6);
    a := Mixed(a, F2(b, c, d), b, x[9], 0x21E1CDE6, 5);
    StepIs(s, x, 25, d, a, b, c, 14, 9, 0xC33707D6);
    d := Mixed(d, F2(a, b, c), a, x[14], 0xC33707D6, 9);
    StepIs(s, x, 26, c, d, a, b, 3, 14, 0xF4D50D87);
    c := Mixed(c, F2(d, a, b), d, x[3], 0xF4D50D87, 14);
    StepIs(s, x, 27, b, c, d, a, 8, 20, 0x455A14ED);
    b := Mixed(b, F2(c, d, a), c, x[8], 0x455A14ED, 20);
    StepIs(s, x, 28, a, b, c, d, 13, 5, 0xA9E3E905);
    a := Mixed(a, F2(b, c, d), b, x[13], 0xA9E3E905, 5);
    StepIs(s, x, 29, d, a, b, c, 2, 9, 0xFCEFA3F8);
    d := Mixed(d, F2(a, b, c), a, x[2], 0xFCEFA3F8, 9);
    StepIs(s, x, 30, c, d, a, b, 7, 14, 0x676F02D9);
    c := Mixed(c, F2(d, a, b), d, x[7], 0x676F02D9, 14);
    StepIs(s, x, 31, b, c, d, a, 12, 20, 0x8D2A4C8A);
    b := Mixed(b, F2(c, d, a), c, x[12], 0x8D2A4C8A, 20);
  }

  method Round3(x: seq<word>, r: Regs, ghost s: Regs) returns (a: word, b: word, c: word, d: word)
    requires |x| == 16 && r == Steps(s, x, 32)
    ensures Regs(a, b, c, d) == Steps(s, x, 48)
  {
    hide Mixed, Aux, F3, Steps, IsStep;
    Constants3A();
    Constants3B();
    a, b, c, d := r.a, r.b, r.c, r.d;
    StepIs(s, x, 32, a, b, c, d, 5, 4, 0xFFFA3942);
    a := Mixed(a, F3(b, c, d), b, x[5], 0xFFFA3942, 4);
    StepIs(s, x, 33, d, a, b, c, 8, 11, 0x8771F681);
    d := Mixed(d, F3(a, b, c), a, x[8], 0x8771F681, 11);
    StepIs(s, x, 34, c, d, a, b, 11, 16, 0x6D9D6122);
    c := Mixed(c, F3(d, a, b), d, x[11], 0x6D9D6122, 16);
    StepIs(s, x, 35, b, c, d, a, 14, 23, 0xFDE5380C);
    b := Mixed(b, F3(c, d, a), c, x[14], 0xFDE5380C, 23);
    StepIs(s, x, 36, a, b, c, d, 1, 4, 0xA4BEEA44);
    a := Mixed(a, F3(b, c, d), b, x[1], 0xA4BEEA44, 4);
    StepIs(s, x, 37, d, a, b, c, 4, 11, 0x4BDECFA9);
    d := Mixed(d, F3(a, b, c), a, x[4], 0x4BDECFA9, 11);
    StepIs(s, x, 38, c, d, a, b, 7, 16, 0xF6BB4B60);
    c := Mixed(c, F3(d, a, b), d, x[7], 0xF6BB4B60, 16);
    StepIs(s, x, 39, b, c, d, a, 10, 23, 0xBEBFBC70);
    b := Mixed(b, F3(c, d, a), c, x[10], 0xBEBFBC70, 23);
    StepIs(s, x, 40, a, b, c, d, 13, 4, 0x289B7EC6);
    a := Mixed(a, F3(b, c, d), b, x[13], 0x289B7EC6, 4);
    StepIs(s, x, 41, d, a, b, c, 0, 11, 0xEAA127FA);
    d := Mixed(d, F3(a, b, c), a, x[0], 0xEAA127FA, 11);
    StepIs(s, x, 42, c, d, a, b, 3, 16, 0xD4EF3085);
    c := Mixed(c, F3(d, a, b), d, x[3], 0xD4EF3085, 16);
    StepIs(s, x, 43, b, c, d, a, 6, 23, 0x04881D05);
    b := Mixed(b, F3(c, d, a), c, x[6], 0x04881D05, 23);
    StepIs(s, x, 44, a, b, c, d, 9, 4, 0xD9D4D039);
    a := Mixed(a, F3(b, c, d), b, x[9], 0xD9D4D039, 4);
    StepIs(s, x, 45, d, a, b, c, 12, 11, 0xE6DB99E5);
    d := Mixed(d, F3(a, b, c), a, x[12], 0xE6DB99E5, 11);
    StepIs(s, x, 46, c, d, a, b, 15, 16, 0x1FA27CF8);
    c := Mixed(c, F3(d, a, b), d, x[15], 0x1FA27CF8, 16);
    StepIs(s, x, 47, b, c, d, a, 2, 23, 0xC4AC5665);
    b := Mixed(b, F3(c, d, a), c, x[2], 0xC4AC5665, 23);
  }

  method Round4(x: seq<word>, r: Regs, ghost s: Regs) returns (a: word, b: word, c: word, d: word)
    requires |x| == 16 && r == Steps(s, x, 48)
    ensures Regs(a, b, c, d) == Steps(s, x, 64)
  {
    hide Mixed, Aux, F4, Steps, IsStep;
    Constants4A();
    Constants4B();
    a, b, c, d := r.a, r.b, r.c, r.d;
    StepIs(s, x, 48, a, b, c, d, 0, 6, 0xF4292244);
    a := Mixed(a, F4(b, c, d), b, x[0], 0xF4292244, 6);
    StepIs(s, x, 49, d, a, b, c, 7, 10, 0x432AFF97);
    d := Mixed(d, F4(a, b, c), a, x[7], 0x432AFF97, 10);
    StepIs(s, x, 50, c, d, a, b, 14, 15, 0xAB9423A7);
    c := Mixed(c, F4(d, a, b), d, x[14], 0xAB9423A7, 15);
    StepIs(s, x, 51, b, c, d, a, 5, 21, 0xFC93A039);
    b := Mixed(b, F4(c, d, a), c, x[5], 0xFC93A039, 21);
    StepIs(s, x, 52, a, b, c, d, 12, 6, 0x655B59C3);
    a := Mixed(a, F4(b, c, d), b, x[12], 0x655B59C3, 6);
    StepIs(s, x, 53, d, a, b, c, 3, 10, 0x8F0CCC92);
    d := Mixed(d, F4(a, b, c), a, x[3], 0x8F0CCC92, 10);
    StepIs(s, x, 54, c, d, a, b, 10, 15, 0xFFEFF47D);
    c := Mixed(c, F4(d, a, b), d, x[10], 0xFFEFF47D, 15);
    StepIs(s, x, 55, b, c, d, a, 1, 21, 0x85845DD1);
    b := Mixed(b, F4(c, d, a), c, x[1], 0x85845DD1, 21);
    StepIs(s, x, 56, a, b, c, d, 8, 6, 0x6FA87E4F);
    a := Mixed(a, F4(b, c, d), b, x[8], 0x6FA87E4F, 6);
    StepIs(s, x, 57, d, a, b, c, 15, 10, 0xFE2CE6E0);
    d := Mixed(d, F4(a, b, c), a, x[15], 0xFE2CE6E0, 10);
    StepIs(s, x, 58, c, d, a, b, 6, 15, 0xA3014314);
    c := Mixed(c, F4(d, a, b), d, x[6], 0xA3014314, 15);
    StepIs(s, x, 59, b, c, d, a, 13, 21, 0x4E0811A1);
    b := Mixed(b, F4(c, d, a), c, x[13], 0x4E0811A1, 21);
    StepIs(s, x, 60, a, b, c, d, 4, 6, 0xF7537E82);
    a := Mixed(a, F4(b, c, d), b, x[4], 0xF7537E82, 6);
    StepIs(s, x, 61, d, a, b, c, 11, 10, 0xBD3AF235);
    d := Mixed(d, F4(a, b, c), a, x[11], 0xBD3AF235, 10);
    StepIs(s, x, 62, c, d, a, b, 2, 15, 0x2AD7D2BB);
    c := Mixed(c, F4(d, a, b), d, x[2], 0x2AD7D2BB, 15);
    StepIs(s, x, 63, b, c, d, a, 9, 21, 0xEB86D391);
    b := Mixed(b, F4(c, d, a), c, x[9], 0xEB86D391, 21);
  }

  // ---- The message ----

  /** Octets of n in base 256, low-order first; section 3.2. */
  function LittleEndian(n: nat, k: nat): (s: seq<byte>)
    ensures |s| == k
    decreases k
  {
    if k == 0 then [] else [(n % 0x100) as byte] + LittleEndian(n / 0x100, k - 1)
  }

  function Zeros(n: nat): (s: seq<byte>)
    ensures |s| == n && forall i :: 0 <= i < n ==> s[i] == 0
  {
    seq(n, _ => 0)
  }

  /** The zero octets that make the length congruent to 56 modulo 64 after the octet 0x80. */
  function PadLength(n: nat): (z: nat)
    ensures z < 64 && (n + 1 + z) % 64 == 56
  {
    (55 - n) % 64
  }

  /** Sections 3.1 and 3.2: one bit, zero bits, and the number of bits of the message modulo 2^64. */
  function Padded(m: seq<byte>): (s: seq<byte>)
    ensures |s| % 64 == 0
  {
    PaddedLength(|m|);
    m + [0x80] + Zeros(PadLength(|m|)) + LittleEndian(8 * |m|, 8)
  }

  lemma PaddedLength(n: nat)
    ensures (n + 1 + PadLength(n) + 8) % 64 == 0
  {
    hide PadLength;
  }

  /** Section 3.4 over all whole blocks. */
  function Fold(r: Regs, s: seq<byte>): Regs
    requires |s| % 64 == 0
    decreases |s|
  {
    if s == [] then r else Fold(Compress(r, s[..64]), s[64..])
  }

  function Octets(r: Regs): (s: seq<byte>)
    ensures |s| == 16
  {
    PutUint32(r.a) + PutUint32(r.b) + PutUint32(r.c) + PutUint32(r.d)
  }

  function Digest(m: seq<byte>): seq<byte> {
    Octets(Fold(INIT, Padded(m)))
  }

  lemma {:induction false} FoldSplit(r: Regs, s: seq<byte>, t: seq<byte>)
    requires |s| % 64 == 0 && |t| % 64 == 0
    ensures |s + t| % 64 == 0 && Fold(r, s + t) == Fold(Fold(r, s), t)
    decreases |s|
  {
    hide Compress;
    if s == [] {
      assert s + t == t;
    } else {
      assert (s + t)[..64] == s[..64] && (s + t)[64..] == s[64..] + t;
      FoldSplit(Compress(r, s[..64]), s[64..], t);
    }
  }

  lemma FoldOne(r: Regs, b: Block)
    ensures Fold(r, b) == Compress(r, b)
  {
    hide Compress;
    assert b[..64] == b && b[64..] == [];
  }

  lemma StepsNone(r: Regs, x: seq<word>)
    requires |x| == 16
    ensures Steps(r, x, 0) == r
  {}

  // ---- The context ----

  /** r holds the fold of the first n octets of m. */
  ghost predicate Folded(r: Regs, m: seq<byte>, n: int) {
    0 <= n <= |m| && n % 64 == 0 && r == Fold(INIT, m[..n])
  }

  lemma FoldedNext(r: Regs, m: seq<byte>, n: int, r': Regs)
    requires Folded(r, m, n) && n + 64 <= |m| && r' == Compress(r, m[n..n + 64])
    ensures Folded(r', m, n + 64)
  {
    hide Compress;
    FoldSplit(INIT, m[..n], m[n..n + 64]);
    FoldOne(r, m[n..n + 64]);
    assert m[..n + 64] == m[..n] + m[n..n + 64];
  }

  lemma FoldedExtends(r: Regs, m: seq<byte>, n: int, more: seq<byte>)
    requires Folded(r, m, n)
    ensures Folded(r, m + more, n)
  {
    assert (m + more)[..n] == m[..n];
  }

  const WORD := 0x1_0000_0000

  /** The two words of the length of m in octets. */
  predicate Counted(total0: nat, total1: nat, n: nat) {
    total0 == n % WORD && total1 == n / WORD % WORD
  }

  lemma LeftIs(total0: nat, total1: nat, n: nat)
    requires Counted(total0, total1, n)
    ensures total0 % 64 == n % 64
  {
    assert n == n / WORD * WORD + total0;
    Multiple64(n / WORD * 0x400_0000, total0, n);
  }

  lemma Multiple64(k: nat, r: nat, n: nat)
    requires n == 64 * k + r
    ensures n % 64 == r % 64
  {}

  /** The context stands for the message m: its whole blocks are folded, the rest of it is in the buffer. */
  ghost predicate StandsFor(total0: nat, total1: nat, state: Regs, buf: seq<byte>, m: seq<byte>) {
    Counted(total0, total1, |m|) && Pending(state, buf, |m| % 64, m, |m| - |m| % 64)
  }

  /** The first done octets of m are folded and the next left octets are in the buffer. */
  ghost predicate Pending(state: Regs, buf: seq<byte>, left: nat, m: seq<byte>, done: int) {
    && Folded(state, m, done) && |buf| == 64 && left < 64 && done + left <= |m|
    && buf[..left] == m[done..done + left]
  }

  lemma FoldedBlock(r: Regs, m: seq<byte>, n: int)
    requires Folded(r, m, n)
    ensures 0 <= n <= |m| && n % 64 == 0
  {}

  lemma Begin(total0: nat, total1: nat, state: Regs, buf: seq<byte>, m: seq<byte>, input: seq<byte>)
    requires StandsFor(total0, total1, state, buf, m)
    ensures Counted(total0, total1, |m|) && total0 % 64 == |m| % 64
    ensures Pending(state, buf, total0 % 64, m + input, |m| - total0 % 64)
  {
    hide Folded;
    LeftIs(total0, total1, |m|);
    FoldedExtends(state, m, |m| - total0 % 64, input);
    assert (m + input)[|m| - total0 % 64..|m|] == m[|m| - total0 % 64..];
  }

  lemma Join(m: seq<byte>, i: nat, j: nat, k: nat)
    requires i <= j <= k <= |m|
    ensures m[i..j] + m[j..k] == m[i..k]
  {}

  lemma Filled(state: Regs, buf: seq<byte>, left: nat, m: seq<byte>, done: nat, piece: seq<byte>, whole: Block, state': Regs)
    requires Pending(state, buf, left, m, done) && left + |piece| == |buf| == 64
    requires done + 64 <= |m| && piece == m[done + left..done + 64]
    requires whole == buf[..left] + piece && state' == Compress(state, whole)
    ensures Pending(state', whole, 0, m, done + 64)
  {
    hide Compress, Folded;
    Join(m, done, done + left, done + 64);
    FoldedBlock(state, m, done);
    FoldedNext(state, m, done, state');
  }

  lemma Folding(state: Regs, buf: seq<byte>, m: seq<byte>, done: nat, whole: Block, state': Regs)
    requires Pending(state, buf, 0, m, done) && done + 64 <= |m| && whole == m[done..done + 64]
    requires state' == Compress(state, whole)
    ensures Pending(state', buf, 0, m, done + 64)
  {
    hide Compress, Folded;
    FoldedBlock(state, m, done);
    FoldedNext(state, m, done, state');
  }

  lemma Remainder(done: nat, r: nat, n: nat)
    requires done % 64 == 0 && r < 64 && n == done + r
    ensures n % 64 == r
  {}

  lemma End(total0: nat, total1: nat, state: Regs, buf: seq<byte>, left: nat, m: seq<byte>, done: nat, rest: seq<byte>)
    requires Counted(total0, total1, |m|) && Pending(state, buf, left, m, done)
    requires done + left <= |m| && rest == m[done + left..] && left + |rest| < 64
    ensures StandsFor(total0, total1, state, buf[..left] + rest + buf[left + |rest|..], m)
  {
    hide Folded, Counted;
    FoldedBlock(state, m, done);
    Remainder(done, left + |rest|, |m|);
    var b := buf[..left] + rest + buf[left + |rest|..];
    assert b[..left + |rest|] == m[done..];
  }

  lemma InputAt(m: seq<byte>, input: seq<byte>, i: nat, j: nat)
    requires i <= j <= |input|
    ensures (m + input)[|m| + i..|m| + j] == input[i..j]
  {}

  lemma EndsWhole(total0: nat, total1: nat, state: Regs, buf: seq<byte>, m: seq<byte>)
    requires StandsFor(total0, total1, state, buf, m) && |m| % 64 == 0
    ensures state == Fold(INIT, m)
  {
    hide Fold, Counted;
    assert |m| - |m| % 64 == |m|;
    assert m[..|m|] == m;
  }

  /** The carry is noticed exactly when the low word has wrapped. */
  lemma CountedAdd(total0: nat, total1: nat, n: nat, length: nat)
    requires Counted(total0, total1, n) && length < WORD
    ensures var t := (total0 + length) % WORD;
            Counted(t, if t < length then (total1 + 1) % WORD else total1, n + length)
  {
    var q := n / WORD;
    assert n == q * WORD + total0;
    if total0 + length < WORD {
      DivMod(n + length, q, total0 + length);
    } else {
      DivMod(n + length, q + 1, total0 + length - WORD);
    }
  }

  function Pow256(k: nat): (p: nat)
    ensures p > 0
    decreases k
  {
    if k == 0 then 1 else 0x100 * Pow256(k - 1)
  }

  lemma ByteAndRest(u: nat, b: nat)
    requires b < 0x100
    ensures (0x100 * u + b) % 0x100 == b && (0x100 * u + b) / 0x100 == u
  {}

  lemma Grouped(q: nat, p: nat, n: nat, b: nat)
    ensures q * (0x100 * p) + (0x100 * n + b) == 0x100 * (q * p + n) + b
  {}

  /** Only the number modulo 256^k shows in k octets. */
  lemma {:induction false} LittleEndianWraps(q: nat, n: nat, k: nat)
    ensures LittleEndian(q * Pow256(k) + n, k) == LittleEndian(n, k)
    decreases k
  {
    if k > 0 {
      var p, n', b := Pow256(k - 1), n / 0x100, n % 0x100;
      Grouped(q, p, n', b);
      ByteAndRest(q * p + n', b);
      LittleEndianWraps(q, n', k - 1);
    }
  }

  lemma {:induction false} LittleEndianSplits(high: nat, low: nat, j: nat, k: nat)
    requires low < Pow256(j)
    ensures LittleEndian(high * Pow256(j) + low, j + k) == LittleEndian(low, j) + LittleEndian(high, k)
    decreases j
  {
    if j > 0 {
      var p, l, b := Pow256(j - 1), low / 0x100, low % 0x100;
      Grouped(high, p, l, b);
      ByteAndRest(high * p + l, b);
      LittleEndianSplits(high, l, j - 1, k);
    }
  }

  lemma WordIsPow256()
    ensures Pow256(4) == WORD
  {
    assert Pow256(1) == 0x100;
    assert Pow256(2) == 0x1_0000;
    assert Pow256(3) == 0x100_0000;
  }

  lemma DivMod(n: nat, q: nat, r: nat)
    requires n == q * WORD + r && r < WORD
    ensures n / WORD == q && n % WORD == r
  {}

  /** The bit count as finish computes it, in two words. */
  lemma BitCount(total0: nat, total1: nat, n: nat)
    requires Counted(total0, total1, n)
    ensures LittleEndian(total0 * 8 % WORD, 4) + LittleEndian(total0 / 0x2000_0000 + total1 * 8 % WORD, 4) == LittleEndian(8 * n, 8)
  {
    hide LittleEndian, Pow256;
    var q, c, d := n / WORD, total0 / 0x2000_0000, total0 % 0x2000_0000;
    var e, f := q / WORD, 8 * total1 / WORD;
    DivMod(total0 * 8, c, 8 * d);
    WordIsPow256();
    LittleEndianSplits(8 * q + c, 8 * d, 4, 4);
    assert 8 * n == (8 * q + c) * WORD + 8 * d;
    assert 8 * q + c == (8 * e + f) * WORD + (8 * total1 % WORD + c);
    LittleEndianWraps(8 * e + f, 8 * total1 % WORD + c, 4);
  }

  lemma PaddingIs(m: seq<byte>, last: nat, padn: nat)
    requires last == |m| % 64 && padn == if last < 56 then 56 - last else 120 - last
    ensures 0 < padn <= 64
    ensures m + ([0x80] + Zeros(63))[..padn] + LittleEndian(8 * |m|, 8) == Padded(m)
  {
    hide LittleEndian;
    var z := PadLength(|m|);
    PadLengthIs(|m|, last, padn);
    hide PadLength;
    PaddingStarts(z);
    hide Zeros;
    Associative(m, [0x80], Zeros(z));
  }

  lemma PaddingStarts(z: nat)
    requires z < 64
    ensures ([0x80] + Zeros(63))[..1 + z] == [0x80] + Zeros(z)
  {}

  lemma Associative(a: seq<byte>, b: seq<byte>, c: seq<byte>)
    ensures a + (b + c) == a + b + c
  {}

  lemma PadLengthIs(n: nat, last: nat, padn: nat)
    requires last == n % 64 && padn == if last < 56 then 56 - last else 120 - last
    ensures padn == 1 + PadLength(n)
  {
    assert n == 64 * (n / 64) + last;
  }

  /** md5_context with its operations. */
  class Context {
    var total0: nat
    var total1: nat
    var state: Regs
    const buffer: array<byte>
    ghost var message: seq<byte>

    ghost predicate Valid()
      reads this, buffer
    {
      buffer.Length == 64 && StandsFor(total0, total1, state, buffer[..], message)
    }

    constructor ()
      ensures Valid() && fresh(buffer) && message == []
    {
      total0, total1, state, message := 0, 0, INIT, [];
      buffer := new byte[64];
    }

    /** md5_starts */
    method Starts()
      requires buffer.Length == 64
      modifies this
      ensures Valid() && message == []
    {
      total0, total1, message := 0, 0, [];
      state := INIT;
    }

    /** md5_process */
    method Process(data: Block)
      modifies this`state
      ensures state == Compress(old(state), data)
    {
      hide Steps, GetUint32, Word;
      var x := seq(16, k requires 0 <= k < 16 => GetUint32(data[4 * k], data[4 * k + 1], data[4 * k + 2], data[4 * k + 3]));
      assert x == WordsOf(data);
      var s := state;
      StepsNone(s, x);
      var a, b, c, d := Round1(x, s, s);
      a, b, c, d := Round2(x, Regs(a, b, c, d), s);
      a, b, c, d := Round3(x, Regs(a, b, c, d), s);
      a, b, c, d := Round4(x, Regs(a, b, c, d), s);
      state := Plus(s, Regs(a, b, c, d));
    }

    /** The first part of md5_update: the piece completes the block in the buffer. */
    method Fill(left: nat, piece: seq<byte>, ghost m: seq<byte>, ghost done: nat)
      requires buffer.Length == 64 && Pending(state, buffer[..], left, m, done)
      requires left + |piece| == 64 && done + 64 <= |m| && piece == m[done + left..done + 64]
      modifies this`state, buffer
      ensures Pending(state, buffer[..], 0, m, done + 64)
    {
      hide Compress, Pending;
      CopyIn(buffer, left, piece);
      Process(buffer[..]);
      assert old(buffer[..])[..left] == old(buffer[..left]);
      assert buffer[..] == old(buffer[..left]) + piece;
      Filled(old(state), old(buffer[..]), left, m, done, piece, buffer[..], state);
    }

    /** A turn of the loop of md5_update. */
    method Take(piece: Block, ghost m: seq<byte>, ghost done: nat)
      requires Pending(state, buffer[..], 0, m, done) && done + 64 <= |m| && piece == m[done..done + 64]
      modifies this`state
      ensures Pending(state, buffer[..], 0, m, done + 64)
    {
      hide Compress, Pending;
      Process(piece);
      Folding(old(state), buffer[..], m, done, piece, state);
    }

    /** The count of octets in two words. */
    method Count(length: nat, ghost n: nat)
      requires Counted(total0, total1, n) && length < WORD
      modifies this`total0, this`total1
      ensures Counted(total0, total1, n + length)
    {
      CountedAdd(total0, total1, n, length);
      total0 := (total0 + length) % WORD;
      if total0 < length { total1 := (total1 + 1) % WORD; }
    }

    /** The last part of md5_update: what is left goes to the buffer. */
    method Keep(left: nat, rest: seq<byte>, ghost m: seq<byte>, ghost done: nat)
      requires buffer.Length == 64 && Pending(state, buffer[..], left, m, done) && Counted(total0, total1, |m|)
      requires done + left <= |m| && rest == m[done + left..] && left + |rest| < 64
      modifies buffer
      ensures StandsFor(total0, total1, state, buffer[..], m)
    {
      hide Pending, Counted, StandsFor;
      End(total0, total1, state, buffer[..], left, m, done, rest);
      if |rest| != 0 {
        CopyIn(buffer, left, rest);
      } else {
        assert buffer[..] == buffer[..left] + rest + buffer[left + |rest|..];
      }
      assert buffer[..] == old(buffer[..])[..left] + rest + old(buffer[..])[left + |rest|..];
    }

    /** md5_update: the context stands for the longer message, however long the piece is. */
    method Update(input: seq<byte>)
      requires Valid() && |input| < WORD
      modifies this, buffer
      ensures Valid() && message == old(message) + input
    {
      hide Compress, StandsFor, Pending, Counted;
      if |input| == 0 {
        assert message + input == message;
        return;
      }
      var left := total0 % 64;
      var fill := 64 - left;
      ghost var m, done := message + input, |message| - left;
      Begin(total0, total1, state, buffer[..], message, input);
      Count(|input|, |message|);

      var p := 0;
      if left != 0 && |input| >= fill {
        InputAt(message, input, 0, fill);
        Fill(left, input[..fill], m, done);
        p, left, done := fill, 0, done + 64;
      }
      message := m;
      while |input| - p >= 64
        invariant 0 <= p <= |input| && 0 <= done == |m| - |input| + p - left
        invariant message == m && Counted(total0, total1, |m|)
        invariant left != 0 ==> |input| - p < 64 - left
        invariant Pending(state, buffer[..], left, m, done)
      {
        InputAt(old(message), input, p, p + 64);
        Take(input[p..p + 64], m, done);
        p, done := p + 64, done + 64;
      }
      InputAt(old(message), input, p, |input|);
      Keep(left, input[p..], m, done);
    }

    /** md5_finish */
    method Finish() returns (digest: seq<byte>)
      requires Valid()
      modifies this, buffer
      ensures digest == Digest(old(message))
    {
      hide StandsFor, LittleEndian, Fold, Compress;
      ghost var m := message;
      Begin(total0, total1, state, buffer[..], m, []);
      var high := total0 / 0x2000_0000 + total1 * 8 % WORD;
      var low := total0 * 8 % WORD;
      var msglen := LittleEndian(low, 4) + LittleEndian(high, 4);
      BitCount(total0, total1, |m|);
      var last := total0 % 64;
      var padn := if last < 56 then 56 - last else 120 - last;
      PaddingIs(m, last, padn);
      Update(([0x80] + Zeros(63))[..padn]);
      Update(msglen);
      EndsWhole(total0, total1, state, buffer[..], message);
      digest := Octets(state);
    }
  }

  function Concat(chunks: seq<seq<byte>>): seq<byte> {
    if chunks == [] then [] else chunks[0] + Concat(chunks[1..])
  }

  lemma {:induction false} ConcatSnoc(chunks: seq<seq<byte>>, c: seq<byte>)
    ensures Concat(chunks + [c]) == Concat(chunks) + c
  {
    if chunks == [] {
      assert [c][1..] == [];
    } else {
      assert (chunks + [c])[1..] == chunks[1..] + [c];
      ConcatSnoc(chunks[1..], c);
    }
  }

  /** However a message is cut into pieces, starts, one update for each piece and finish give the digest of the whole. */
  method DigestOfPieces(chunks: seq<seq<byte>>) returns (digest: seq<byte>)
    requires forall i :: 0 <= i < |chunks| ==> |chunks[i]| < WORD
    ensures digest == Digest(Concat(chunks))
  {
    hide StandsFor, Digest;
    var ctx := new Context();
    ctx.Starts();
    for i := 0 to |chunks|
      invariant ctx.Valid() && fresh(ctx) && fresh(ctx.buffer)
      invariant ctx.message == Concat(chunks[..i])
    {
      ctx.Update(chunks[i]);
      ConcatSnoc(chunks[..i], chunks[i]);
      assert chunks[..i + 1] == chunks[..i] + [chunks[i]];
    }
    assert chunks[..|chunks|] == chunks;
    digest := ctx.Finish();
  }
}
