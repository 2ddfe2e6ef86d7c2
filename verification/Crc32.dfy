/** CRC32.c: the table-driven CRC-32 against the bit-serial shift register of IEEE 802.3. */
module Crc32 {
  import opened Words

  const POLY: word := 0xEDB88320
  const ALL_ONES: word := 0xFFFFFFFF
  const RESIDUE: word := 0xDEBB20E3

  // ---- The specification: a feedback shift register fed one message bit at a time ----

  /** One clock of the reflected register with an incoming message bit. */
  function FeedBit(c: word, bit: bool): word {
    if (c & 1 == 1) != bit then (c >> 1) ^ POLY else c >> 1
  }

  /** The low n bits of w enter the register, least significant bit first. */
  function FeedBits(c: word, w: word, n: nat): word
    decreases n
  {
    if n == 0 then c else FeedBits(FeedBit(c, w & 1 == 1), w >> 1, n - 1)
  }

  /** A whole message enters the register, first octet first. */
  function Register(c: word, data: seq<byte>): word
    decreases |data|
  {
    if data == [] then c else Register(FeedBits(c, data[0] as word, 8), data[1..])
  }

  /** The frame check sequence of a message. */
  function Checksum(data: seq<byte>): word {
    Register(ALL_ONES, data) ^ ALL_ONES
  }

  // ---- The register without input, on which the table rests ----

  function Step(c: word): word {
    if c & 1 == 1 then (c >> 1) ^ POLY else c >> 1
  }

  function Steps(c: word, n: nat): word
    decreases n
  {
    if n == 0 then c else Steps(Step(c), n - 1)
  }

  /** w shifted right n times, one place at a time. */
  function Shr(w: word, n: nat): word
    decreases n
  {
    if n == 0 then w else Shr(w >> 1, n - 1)
  }

  lemma Parity(a: word, b: word)
    ensures a & 1 == 0 || a & 1 == 1
    ensures (a ^ b) & 1 == 1 <==> (a & 1 == 1) != (b & 1 == 1)
    ensures (a ^ b) >> 1 == (a >> 1) ^ (b >> 1)
  {}

  lemma XorShuffle(p: word, a: word, b: word)
    ensures (a ^ p) ^ b == (a ^ b) ^ p
    ensures a ^ (b ^ p) == (a ^ b) ^ p
    ensures (a ^ p) ^ (b ^ p) == a ^ b
    ensures a ^ 0 == a
  {}

  lemma XorCancel(a: word, b: word, p: word)
    requires a ^ p == b ^ p
    ensures a == b
  {}

  lemma StepLinear(a: word, b: word)
    ensures Step(a ^ b) == Step(a) ^ Step(b)
  {
    Parity(a, b);
    Parity(b, a);
    XorShuffle(POLY, a >> 1, b >> 1);
  }

  lemma StepEven(a: word)
    requires a & 1 == 0
    ensures Step(a) == a >> 1
  {}

  lemma TopBit(a: word, b: word)
    ensures (a >> 1) ^ POLY != b >> 1
    ensures a >> 1 == b >> 1 && (a & 1 == 1 <==> b & 1 == 1) ==> a == b
  {}

  lemma StepInjective(a: word, b: word)
    requires Step(a) == Step(b)
    ensures a == b
  {
    TopBit(a, b);
    TopBit(b, a);
    if a & 1 == 1 && b & 1 == 1 {
      XorCancel(a >> 1, b >> 1, POLY);
    }
  }

  lemma {:induction false} StepsInjective(a: word, b: word, n: nat)
    requires Steps(a, n) == Steps(b, n)
    ensures a == b
    decreases n
  {
    if n > 0 {
      StepsInjective(Step(a), Step(b), n - 1);
      StepInjective(a, b);
    }
  }

  /** s is the bitwise sum of a and b. */
  predicate Sum(s: word, a: word, b: word) {
    s == a ^ b
  }

  lemma SumStep(s: word, a: word, b: word)
    requires Sum(s, a, b)
    ensures Sum(Step(s), Step(a), Step(b))
  {
    StepLinear(a, b);
  }

  /** The free-running register is linear, however long it runs. */
  lemma {:induction false} StepsLinear(s: word, a: word, b: word, n: nat)
    requires Sum(s, a, b)
    ensures Sum(Steps(s, n), Steps(a, n), Steps(b, n))
    decreases n
  {
    if n > 0 {
      SumStep(s, a, b);
      StepsLinear(Step(s), Step(a), Step(b), n - 1);
    }
  }

  lemma FeedBitIsStep(c: word, w: word)
    ensures FeedBit(c, w & 1 == 1) ^ (w >> 1) == Step(c ^ w)
  {
    Parity(c, w);
    XorShuffle(POLY, c >> 1, w >> 1);
  }

  /** n message bits can be added to the register in one go before n free-running clocks. */
  lemma {:induction false} FeedBitsAbsorbs(c: word, w: word, n: nat)
    requires Shr(w, n) == 0
    ensures FeedBits(c, w, n) == Steps(c ^ w, n)
    decreases n
  {
    if n == 0 {
      XorShuffle(0, c, 0);
    } else {
      FeedBitIsStep(c, w);
      FeedBitsAbsorbs(FeedBit(c, w & 1 == 1), w >> 1, n - 1);
    }
  }

  lemma {:induction false} StepsAdd(c: word, m: nat, n: nat)
    ensures Steps(c, m + n) == Steps(Steps(c, m), n)
    decreases m
  {
    if m > 0 {
      StepsAdd(Step(c), m - 1, n);
    }
  }

  lemma ShiftTwice(w: word)
    ensures ((w >> 1) >> 1) >> 2 == w >> 4
    ensures (w >> 1) >> 1 == w >> 2
    ensures ((w >> 2) >> 2) == w >> 4
    ensures (w >> 4) >> 4 == w >> 8
  {}

  lemma Shr4(w: word)
    ensures Shr(w, 4) == w >> 4
  {
    ShiftTwice(w);
    ShiftTwice(w >> 2);
    assert Shr(w >> 2, 2) == (w >> 2) >> 2;
    assert Shr(w, 2) == w >> 2;
  }

  lemma Shr8(w: word)
    ensures Shr(w, 8) == w >> 8
  {
    Shr4(w);
    Shr4(w >> 4);
    ShrAdd(w, 4, 4);
    ShiftTwice(w);
  }

  lemma {:induction false} ShrAdd(w: word, m: nat, n: nat)
    ensures Shr(w, m + n) == Shr(Shr(w, m), n)
    decreases m
  {
    if m > 0 {
      ShrAdd(w >> 1, m - 1, n);
    }
  }

  predicate LowZero(h: word, n: nat)
    decreases n
  {
    n == 0 || (h & 1 == 0 && LowZero(h >> 1, n - 1))
  }

  /** A register whose low bits are clear only shifts. */
  lemma {:induction false} StepsOfLowZero(h: word, n: nat)
    requires LowZero(h, n)
    ensures Steps(h, n) == Shr(h, n)
    decreases n
  {
    if n > 0 {
      StepEven(h);
      StepsOfLowZero(h >> 1, n - 1);
    }
  }

  lemma LowBits(h: word)
    requires h & 0xFF == 0
    ensures h & 1 == 0 && (h >> 1) & 0x7F == 0
    ensures (h >> 4) & 0xF == 0 && h & 0xF == 0
  {}

  lemma LowNibble(h: word)
    requires h & 0xF == 0
    ensures LowZero(h, 4)
  {
    assert (h >> 1) & 1 == 0 && (h >> 1 >> 1) & 1 == 0 && (h >> 1 >> 1 >> 1) & 1 == 0 && h & 1 == 0;
    assert LowZero(h >> 1 >> 1, 2);
  }

  lemma StepsOfHigh(h: word)
    requires h & 0xFF == 0
    ensures Steps(h, 8) == h >> 8
  {
    LowBits(h);
    LowNibble(h);
    LowNibble(h >> 4);
    Shr4(h);
    Shr4(h >> 4);
    ShiftTwice(h);
    StepsOfLowZero(h, 4);
    StepsOfLowZero(h >> 4, 4);
    StepsAdd(h, 4, 4);
  }

  lemma OctetSplit(e: word, low: word, high: word, up: word)
    requires low == e & 0xFF && high == e & 0xFFFFFF00 && up == e >> 8
    ensures Sum(e, low, high) && high & 0xFF == 0 && high >> 8 == up
  {}

  /** Why a 256-entry table is enough: only the low octet is transformed, the rest moves down. */
  lemma TableSplit(e: word, low: word, up: word)
    requires low == e & 0xFF && up == e >> 8
    ensures Sum(Steps(e, 8), Steps(low, 8), up)
  {
    var high := e & 0xFFFFFF00;
    OctetSplit(e, low, high, up);
    StepsOfHigh(high);
    StepsLinear(e, low, high, 8);
  }

  lemma OctetOfXor(c: word, w: word, e: word, up: word)
    requires w >> 8 == 0 && e == c ^ w && up == c >> 8
    ensures e >> 8 == up
  {}

  lemma OctetIsSmall(b: byte)
    ensures (b as word) >> 8 == 0
  {}

  /** The table-driven update is eight clocks of the bit-serial register. */
  lemma TableUpdate(c: word, w: word, e: word, low: word, up: word)
    requires w >> 8 == 0 && e == c ^ w && low == e & 0xFF && up == c >> 8
    ensures Sum(FeedBits(c, w, 8), Steps(low, 8), up)
  {
    OctetOfXor(c, w, e, up);
    Shr8(w);
    FeedBitsAbsorb(c, w, e, 8);
    TableSplit(e, low, up);
  }

  lemma FeedBitsAbsorb(c: word, w: word, e: word, n: nat)
    requires Shr(w, n) == 0 && e == c ^ w
    ensures FeedBits(c, w, n) == Steps(e, n)
  {
    FeedBitsAbsorbs(c, w, n);
  }

  // ---- The routine itself ----

  lemma LowOctet(e: word)
    ensures e & 0xFF < 256
  {}

  lemma Predecessor(x: word, y: word)
    requires 0 < x < 256 && y == x - 1
    ensures y < 256 && y < x && y + 1 == x && x as int == y as int + 1
  {}

  /** The word with value i, reached by counting, so that no integer is converted to bits. */
  function Count(i: nat): word {
    if i == 0 then 0 else Count(i - 1) + 1
  }

  lemma {:induction false} CountOfWord(x: word, i: nat)
    requires x < 256 && i == x as int
    ensures Count(i) == x
    decreases i
  {
    if i > 0 {
      var y := x - 1;
      Predecessor(x, y);
      CountOfWord(y, i - 1);
    }
  }

  lemma IndexBound(x: word)
    requires x < 256
    ensures x as int < 256
  {}

  function Index(e: word): (i: nat)
    ensures i < 256 && Count(i) == e & 0xFF
  {
    var x := e & 0xFF;
    LowOctet(e);
    IndexBound(x);
    CountOfWord(x, x as int);
    x as int
  }

  /** What the first n entries of crc_table have to be. */
  function Table(n: nat): (t: seq<word>)
    ensures |t| == n
  {
    if n == 0 then [] else Table(n - 1) + [Steps(Count(n - 1), 8)]
  }

  lemma {:induction false} TableAt(n: nat, i: nat)
    requires i < n
    ensures Table(n)[i] == Steps(Count(i), 8)
  {
    if i < n - 1 {
      TableAt(n - 1, i);
    }
  }

  lemma {:induction false} StepsSnoc(c: word, n: nat)
    ensures Steps(c, n + 1) == Step(Steps(c, n))
    decreases n
  {
    if n > 0 {
      StepsSnoc(Step(c), n - 1);
    }
  }

  lemma {:induction false} RegisterSnoc(c: word, x: seq<byte>, b: byte)
    ensures Register(c, x + [b]) == FeedBits(Register(c, x), b as word, 8)
  {
    RegisterConcat(c, x, [b]);
    assert Register(Register(c, x), [b]) == Register(FeedBits(Register(c, x), b as word, 8), []);
  }

  lemma {:induction false} RegisterConcat(c: word, x: seq<byte>, y: seq<byte>)
    ensures Register(c, x + y) == Register(Register(c, x), y)
    decreases |x|
  {
    if x == [] {
      assert x + y == y;
    } else {
      assert (x + y)[1..] == x[1..] + y;
      RegisterConcat(FeedBits(c, x[0] as word, 8), x[1..], y);
    }
  }

  /** The first loop: the whole table. The counter i is kept as an index and as a word. */
  method FillTable(crc_table: array<word>)
    requires crc_table.Length == 256
    modifies crc_table
    ensures crc_table[..] == Table(crc_table.Length)
  {
    var w: word := 0;
    for i := 0 to crc_table.Length
      invariant w == Count(i)
      invariant crc_table[..i] == Table(i)
    {
      crc_table[i] := Entry(w);
      w := w + 1;
      assert crc_table[..i + 1] == crc_table[..i] + [crc_table[i]];
    }
    assert crc_table[..] == crc_table[..crc_table.Length];
  }

  /** The inner loop: one table entry. */
  method Entry(i: word) returns (crc: word)
    ensures crc == Steps(i, 8)
  {
    crc := i;
    for j := 0 to 8
      invariant crc == Steps(i, j)
    {
      StepsSnoc(i, j);
      crc := if crc & 1 == 1 then (crc >> 1) ^ POLY else crc >> 1;
    }
  }

  lemma SumUnique(r: word, f: word, a: word, b: word)
    requires Sum(r, a, b) && Sum(f, a, b)
    ensures r == f
  {}

  lemma Lookup(c: word, b: byte, w: word, e: word, low: word, up: word, t: word, r: word)
    requires w == b as word && e == c ^ w && low == e & 0xFF && up == c >> 8
    requires t == Steps(low, 8) && Sum(r, t, up)
    ensures r == FeedBits(c, w, 8)
  {
    OctetIsSmall(b);
    TableUpdate(c, w, e, low, up);
    SumUnique(r, FeedBits(c, w, 8), t, up);
  }

  /** The update at the heart of the second loop. */
  method Update(table: array<word>, crc: word, b: byte) returns (r: word)
    requires table.Length == 256 && table[..] == Table(table.Length)
    ensures r == FeedBits(crc, b as word, 8)
  {
    var w := b as word;
    var e := crc ^ w;
    var i := Index(e);
    var t, up := table[i], crc >> 8;
    r := t ^ up;
    ghost var low := e & 0xFF;
    TableAt(table.Length, i);
    Lookup(crc, b, w, e, low, up, t, r);
  }

  /** Fills crc_table and returns the checksum of the first len octets of buf. */
  method Crc32(crc_table: array<word>, buf: array<byte>, len: nat) returns (r: word)
    requires crc_table.Length == 256 && len <= buf.Length
    modifies crc_table
    ensures r == Checksum(buf[..len])
    ensures crc_table[..] == Table(crc_table.Length)
  {
    FillTable(crc_table);
    var crc := ALL_ONES;
    var left, p := len, 0;
    while left != 0
      invariant p + left == len
      invariant crc == Register(ALL_ONES, buf[..p])
      invariant crc_table[..] == Table(crc_table.Length)
    {
      assert buf[..p + 1] == buf[..p] + [buf[p]];
      RegisterSnoc(ALL_ONES, buf[..p], buf[p]);
      crc := Update(crc_table, crc, buf[p]);
      left, p := left - 1, p + 1;
    }
    assert buf[..p] == buf[..len];
    return crc ^ ALL_ONES;
  }

  // ---- What the check sequence is for ----

  /** The octets of a word as they are sent, low octet first, and up to four octets as a word. */
  function LittleEndian(w: word): seq<byte> {
    [(w & 0xFF) as byte, ((w >> 8) & 0xFF) as byte, ((w >> 16) & 0xFF) as byte, ((w >> 24) & 0xFF) as byte]
  }

  function Prepend(b: byte, w: word): word {
    (b as word) | (w << 8)
  }

  function Pack(x: seq<byte>): word
    decreases |x|
  {
    if x == [] then 0 else Prepend(x[0], Pack(x[1..]))
  }

  lemma PrependParts(b: byte, q: word, w: word, h: word, p: word)
    requires q >> 24 == 0 && w == b as word && h == q << 8 && p == Prepend(b, q)
    ensures Sum(p, w, h) && h & 0xFF == 0 && h >> 8 == q
  {}

  lemma PrependRange(b: byte, q: word, p: word)
    requires p == Prepend(b, q)
    ensures q >> 16 == 0 ==> p >> 24 == 0
    ensures q >> 8 == 0 ==> p >> 16 == 0
    ensures q == 0 ==> p >> 8 == 0
  {}

  lemma ThreeOctets(x: seq<byte>)
    requires |x| <= 3
    ensures Pack(x) >> 24 == 0
    ensures |x| <= 2 ==> Pack(x) >> 16 == 0
    ensures |x| <= 1 ==> Pack(x) >> 8 == 0
  {
    if |x| > 0 {
      ThreeOctets(x[1..]);
      PrependRange(x[0], Pack(x[1..]), Pack(x));
    }
  }

  lemma SumAssociates(s: word, c: word, p: word, w: word, h: word, e: word)
    requires Sum(s, c, p) && Sum(p, w, h) && e == c ^ w
    ensures Sum(s, e, h)
  {}

  /** Up to four octets entering the register are one word added to it. */
  lemma {:induction false} RegisterOfFew(c: word, x: seq<byte>, s: word)
    requires |x| <= 4 && Sum(s, c, Pack(x))
    ensures Register(c, x) == Steps(s, 8 * |x|)
    decreases |x|
  {
    if x == [] {
      XorShuffle(0, c, 0);
    } else {
      var w, q := x[0] as word, Pack(x[1..]);
      var h, e := q << 8, c ^ w;
      ThreeOctets(x[1..]);
      PrependParts(x[0], q, w, h, Pack(x));
      SumAssociates(s, c, Pack(x), w, h, e);
      OctetIsSmall(x[0]);
      Shr8(w);
      FeedBitsAbsorb(c, w, e, 8);
      StepsOfHigh(h);
      StepsLinear(s, e, h, 8);
      RegisterOfFew(Steps(e, 8), x[1..], Steps(s, 8));
      StepsAdd(s, 8, 8 * |x[1..]|);
    }
  }

  lemma PrependInjective(b: byte, q: word, b': byte, q': word)
    requires q >> 24 == 0 && q' >> 24 == 0 && Prepend(b, q) == Prepend(b', q')
    ensures b == b' && q == q'
  {}

  lemma {:induction false} PackInjective(x: seq<byte>, y: seq<byte>)
    requires |x| == |y| <= 4 && Pack(x) == Pack(y)
    ensures x == y
    decreases |x|
  {
    if x != [] {
      ThreeOctets(x[1..]);
      ThreeOctets(y[1..]);
      PrependInjective(x[0], Pack(x[1..]), y[0], Pack(y[1..]));
      PackInjective(x[1..], y[1..]);
      assert x == [x[0]] + x[1..] && y == [y[0]] + y[1..];
    }
  }

  lemma XorCancelLeft(c: word, p: word, q: word)
    requires c ^ p == c ^ q
    ensures p == q
  {}

  /** No two register contents are merged by reading the same octets. */
  lemma {:induction false} RegisterInjective(c: word, d: word, data: seq<byte>)
    requires Register(c, data) == Register(d, data)
    ensures c == d
    decreases |data|
  {
    if data != [] {
      var w := data[0] as word;
      RegisterInjective(FeedBits(c, w, 8), FeedBits(d, w, 8), data[1..]);
      OctetIsSmall(data[0]);
      Shr8(w);
      FeedBitsAbsorb(c, w, c ^ w, 8);
      FeedBitsAbsorb(d, w, d ^ w, 8);
      StepsInjective(c ^ w, d ^ w, 8);
      XorCancel(c, d, w);
    }
  }

  lemma RegisterOfThree(c: word, x: seq<byte>, y: seq<byte>, z: seq<byte>)
    ensures Register(c, x + y + z) == Register(Register(Register(c, x), y), z)
  {
    RegisterConcat(c, x + y, z);
    RegisterConcat(c, x, y);
  }

  lemma ChecksumsEqual(a: seq<byte>, b: seq<byte>, r: word, s: word)
    requires r == Register(ALL_ONES, a) && s == Register(ALL_ONES, b) && Checksum(a) == Checksum(b)
    ensures r == s
  {
    XorCancel(r, s, ALL_ONES);
  }

  /** Any change confined to four consecutive octets, wherever it is, changes the checksum. */
  lemma BurstDetected(before: seq<byte>, x: seq<byte>, y: seq<byte>, after: seq<byte>)
    requires |x| == |y| <= 4 && x != y
    ensures Checksum(before + x + after) != Checksum(before + y + after)
  {
    if Checksum(before + x + after) == Checksum(before + y + after) {
      var c := Register(ALL_ONES, before);
      var cx, cy := Register(c, x), Register(c, y);
      RegisterOfThree(ALL_ONES, before, x, after);
      RegisterOfThree(ALL_ONES, before, y, after);
      ChecksumsEqual(before + x + after, before + y + after, Register(cx, after), Register(cy, after));
      RegisterInjective(cx, cy, after);
      FewInjective(c, x, y);
    }
  }

  lemma SumInjective(s: word, c: word, p: word, q: word)
    requires Sum(s, c, p) && Sum(s, c, q)
    ensures p == q
  {
    XorCancelLeft(c, p, q);
  }

  lemma FewInjective(c: word, x: seq<byte>, y: seq<byte>)
    requires |x| == |y| <= 4 && Register(c, x) == Register(c, y)
    ensures x == y
  {
    var s, t := Add(c, Pack(x)), Add(c, Pack(y));
    RegisterOfFew(c, x, s);
    RegisterOfFew(c, y, t);
    StepsInjective(s, t, 8 * |x|);
    SumInjective(s, c, Pack(x), Pack(y));
    PackInjective(x, y);
  }

  function Add(c: word, p: word): (s: word)
    ensures Sum(s, c, p)
  {
    c ^ p
  }

  lemma Reassemble(w: word, b0: byte, b1: byte, b2: byte, b3: byte)
    requires b0 == (w & 0xFF) as byte && b1 == ((w >> 8) & 0xFF) as byte
    requires b2 == ((w >> 16) & 0xFF) as byte && b3 == ((w >> 24) & 0xFF) as byte
    ensures Prepend(b0, Prepend(b1, Prepend(b2, Prepend(b3, 0)))) == w
  {}

  lemma PackFour(b0: byte, b1: byte, b2: byte, b3: byte)
    ensures Pack([b0, b1, b2, b3]) == Prepend(b0, Prepend(b1, Prepend(b2, Prepend(b3, 0))))
  {
    assert [b0, b1, b2, b3][1..] == [b1, b2, b3] && [b1, b2, b3][1..] == [b2, b3] && [b2, b3][1..] == [b3];
    assert Pack([b3]) == Prepend(b3, 0);
    assert Pack([b2, b3]) == Prepend(b2, Pack([b3]));
    assert Pack([b1, b2, b3]) == Prepend(b1, Pack([b2, b3]));
  }

  lemma PackLittleEndian(w: word)
    ensures Pack(LittleEndian(w)) == w
  {
    var x := LittleEndian(w);
    PackFour(x[0], x[1], x[2], x[3]);
    Reassemble(w, x[0], x[1], x[2], x[3]);
  }

  lemma ResidueValue()
    ensures Steps(ALL_ONES, 32) == RESIDUE
  {
    assert Steps(0xFFFFFFFF, 8) == 0x2DFD1072;
    assert Steps(0x2DFD1072, 8) == 0xBE26ED00;
    assert Steps(0xBE26ED00, 8) == 0x00BE26ED;
    assert Steps(0x00BE26ED, 8) == 0xDEBB20E3;
    StepsAdd(0xFFFFFFFF, 8, 24);
    StepsAdd(0x2DFD1072, 8, 16);
    StepsAdd(0xBE26ED00, 8, 8);
  }

  lemma Complement(c: word, p: word, f: word, s: word)
    requires Sum(f, c, ALL_ONES) && Sum(s, c, p)
    ensures s == ALL_ONES ==> p == f
    ensures p == f ==> s == ALL_ONES
  {
    XorTwice(c, p);
    XorTwice(c, ALL_ONES);
  }

  lemma XorTwice(c: word, p: word)
    ensures c ^ (c ^ p) == p
  {}

  lemma ResidueOfFew(c: word, fcs: seq<byte>, f: word)
    requires |fcs| == 4 && Sum(f, c, ALL_ONES)
    ensures Register(c, fcs) == RESIDUE <==> Pack(fcs) == f
  {
    var s := Add(c, Pack(fcs));
    RegisterOfFew(c, fcs, s);
    ResidueIff(s, 8 * |fcs|);
    Complement(c, Pack(fcs), f, s);
  }

  /** The receiver's check: a message followed by four octets leaves the fixed residue in the register
      exactly when those octets are the message's own checksum, low octet first. */
  lemma ResidueCheck(m: seq<byte>, fcs: seq<byte>)
    requires |fcs| == 4
    ensures Register(ALL_ONES, m + fcs) == RESIDUE <==> fcs == LittleEndian(Checksum(m))
  {
    RegisterConcat(ALL_ONES, m, fcs);
    ResidueOfFew(Register(ALL_ONES, m), fcs, Checksum(m));
    LittleEndianIff(fcs, Checksum(m));
  }

  lemma ResidueIff(s: word, n: nat)
    requires n == 32
    ensures Steps(s, n) == RESIDUE <==> s == ALL_ONES
  {
    ResidueValue();
    if Steps(s, n) == RESIDUE {
      StepsInjective(s, ALL_ONES, n);
    }
  }

  lemma LittleEndianIff(x: seq<byte>, f: word)
    requires |x| == 4
    ensures Pack(x) == f <==> x == LittleEndian(f)
  {
    PackLittleEndian(f);
    if Pack(x) == f {
      PackInjective(x, LittleEndian(f));
    }
  }

  lemma FeedAt(c: word, s: seq<byte>, k: nat, w: word, d: word)
    requires k < |s| && w == s[k] as word && FeedBits(c, w, 8) == d
    ensures Register(c, s[k..]) == Register(d, s[k + 1..])
  {
    assert s[k..][1..] == s[k + 1..];
  }

  /** The check value of the algorithm: the checksum of the digits from 1 to 9. */
  lemma CheckValue(s: seq<byte>)
    requires s == [0x31, 0x32, 0x33, 0x34, 0x35, 0x36, 0x37, 0x38, 0x39]
    ensures Checksum(s) == 0xCBF43926
  {
    assert s[0..] == s;
    FeedAt(0xFFFFFFFF, s, 0, 0x31, 0x7C231048);
    FeedAt(0x7C231048, s, 1, 0x32, 0xB0ACBB32);
    FeedAt(0xB0ACBB32, s, 2, 0x33, 0x77B79C2D);
    FeedAt(0x77B79C2D, s, 3, 0x34, 0x641C1F5C);
    FeedAt(0x641C1F5C, s, 4, 0x35, 0x340AC5E3);
    FeedAt(0x340AC5E3, s, 5, 0x36, 0xF68D2C9E);
    FeedAt(0xF68D2C9E, s, 6, 0x37, 0xAFFC9660);
    FeedAt(0xAFFC9660, s, 7, 0x38, 0x651F2550);
    FeedAt(0x651F2550, s, 8, 0x39, 0x340BC6D9);
  }
}
