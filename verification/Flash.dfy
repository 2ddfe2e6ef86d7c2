/**
 * flash_FTFL.c over a flash memory that is an array of bytes: erasing sets a sector to 0xFF, and
 * programming a phrase of eight bytes can only clear bits.
 */
module Flash {
  import opened Words

  /** FLASH_AREA_SIZE and ERASE_SECTOR_SIZE */
  const AREA := 0x10_0000
  const SECTOR := 0x1000

  const WORD := 0x1_0000_0000

  datatype Status = Ok | AccessError | ContentError

  /** What a cell holds after x is programmed over y. */
  function Burn(y: byte, x: byte): byte {
    y & x
  }

  lemma BurnErased(x: byte)
    ensures Burn(0xFF, x) == x
  {}

  lemma BurnSame(x: byte)
    ensures Burn(x, x) == x
  {}

  lemma BurnTwice(y: byte, x: byte)
    ensures Burn(Burn(y, x), x) == Burn(y, x)
  {}

  /** z has no bit that y has not. */
  predicate Within(z: byte, y: byte) {
    z & y == z
  }

  /** Programming raises no bit, and clears just those that x does not have: a bit stays exactly if it is in both. */
  lemma BurnClears(y: byte, x: byte, z: byte)
    ensures Within(Burn(y, x), y) && (Within(z, Burn(y, x)) <==> Within(z, y) && Within(z, x))
  {}

  predicate InSector(addr: nat, i: nat) {
    i / SECTOR == addr / SECTOR
  }

  /** The memory after the sector of addr is erased. */
  function Erased(m: seq<byte>, addr: nat): (r: seq<byte>)
    ensures |r| == |m|
  {
    seq(|m|, i requires 0 <= i < |m| => if InSector(addr, i) then 0xFF else m[i])
  }

  /** The memory after n phrases from src are programmed from addr on. */
  function Burnt(m: seq<byte>, addr: nat, src: nat -> byte, n: nat): (r: seq<byte>)
    ensures |r| == |m|
  {
    seq(|m|, i requires 0 <= i < |m| => if addr <= i < addr + 8 * n then Burn(m[i], src(i - addr)) else m[i])
  }

  /** The memory d bytes further on. */
  function From(src: nat -> byte, d: nat): nat -> byte {
    (i: nat) => src(d + i)
  }

  /** The number of four-byte words the routine counts for sz bytes. */
  function WordCount(sz: nat): nat {
    if sz == 0 then 0 else (sz - 1) / 4 + 1
  }

  /** The counter after k turns; it is an unsigned 32-bit number and goes down by two. */
  function Counter(n: nat, k: nat): nat {
    (n - 2 * k) % WORD
  }

  /** The counter meets zero exactly when it starts even: an odd count runs past zero for ever. */
  lemma CounterMeetsZero(n: nat)
    requires n < WORD
    ensures (exists k: nat :: Counter(n, k) == 0) <==> n % 2 == 0
    ensures n % 2 == 0 ==> Counter(n, n / 2) == 0 && forall k: nat :: k < n / 2 ==> Counter(n, k) != 0
  {
    if n % 2 == 1 {
      forall k: nat
        ensures Counter(n, k) != 0
      {
        CounterParity(n, k);
      }
    } else {
      forall k: nat | k < n / 2
        ensures Counter(n, k) != 0
      {
        assert 0 < n - 2 * k < WORD;
      }
      assert Counter(n, n / 2) == 0;
    }
  }

  lemma CounterParity(n: nat, k: nat)
    ensures Counter(n, k) % 2 == n % 2
  {
    var c := Counter(n, k);
    var q := (n - 2 * k) / WORD;
    assert n - 2 * k == q * WORD + c;
    assert n == 2 * (q * 0x8000_0000 + k) + c;
  }

  /** Sizes the routine writes as intended. */
  predicate Writable(sz: nat) {
    WordCount(sz) % 2 == 0
  }

  /** They are the sizes at most three bytes short of a whole number of phrases. */
  lemma WritableIs(sz: nat)
    ensures Writable(sz) <==> sz % 8 == 0 || sz % 8 >= 5
    ensures Writable(sz) ==> sz <= 8 * (WordCount(sz) / 2) < sz + 4
  {
    if sz > 0 {
      var q, r := (sz - 1) / 8, (sz - 1) % 8;
      assert sz - 1 == 8 * q + r;
      CountOf(sz, q, r);
    }
  }

  lemma CountOf(sz: nat, q: nat, r: nat)
    requires sz == 8 * q + r + 1 && r < 8
    ensures WordCount(sz) == 2 * q + (if r < 4 then 1 else 2)
    ensures WordCount(sz) % 2 == (if r < 4 then 1 else 0) && (r >= 4 ==> WordCount(sz) / 2 == q + 1)
    ensures sz % 8 == if r < 7 then r + 1 else 0
  {
    assert (sz - 1) / 4 == 2 * q + r / 4;
  }

  /** The phrases that reach the memory: the hardware refuses addresses that are unaligned or outside the area. */
  function Phrases(addr: nat, sz: nat): nat {
    var room := if addr % 8 == 0 && addr <= AREA then (AREA - addr) / 8 else 0;
    if sz == 0 then 0
    else if Writable(sz) && WordCount(sz) / 2 <= room then WordCount(sz) / 2
    else room
  }

  lemma PhrasesFit(addr: nat, sz: nat)
    ensures addr % 8 == 0 && addr <= AREA ==> addr + 8 * Phrases(addr, sz) <= AREA
    ensures !(addr % 8 == 0 && addr <= AREA) ==> Phrases(addr, sz) == 0
  {}

  /** One turn of the loop: the counter goes on, and the hardware refuses exactly when no phrase is left. */
  lemma Turn(addr: nat, sz: nat, k: nat)
    requires 0 < sz < WORD && k <= Phrases(addr, sz) && Counter(WordCount(sz), k) != 0
    ensures (Counter(WordCount(sz), k) - 2) % WORD == Counter(WordCount(sz), k + 1)
    ensures addr % 8 == 0 && addr + 8 * k + 8 <= AREA ==> k < Phrases(addr, sz)
    ensures !(addr % 8 == 0 && addr + 8 * k + 8 <= AREA) ==>
      k == Phrases(addr, sz) && !(Writable(sz) && addr % 8 == 0 && addr + 8 * (WordCount(sz) / 2) <= AREA)
  {
    var n := WordCount(sz);
    CounterMeetsZero(n);
    CounterNext(n, k);
  }

  lemma LoopStarts(addr: nat, sz: nat)
    requires sz < WORD
    ensures Phrases(addr, 0) == 0
    ensures sz > 0 ==> (sz - 1) / 4 + 1 == WordCount(sz) == Counter(WordCount(sz), 0)
  {}

  /** When the counter is at zero, everything has been written. */
  lemma LoopEnds(addr: nat, sz: nat, k: nat)
    requires 0 < sz < WORD && k <= Phrases(addr, sz) && Counter(WordCount(sz), k) == 0
    ensures k == Phrases(addr, sz) && Writable(sz) && addr % 8 == 0 && addr + 8 * (WordCount(sz) / 2) <= AREA
  {
    CounterMeetsZero(WordCount(sz));
    WritableIs(sz);
    WordCountAtLeast(sz);
  }

  lemma WordCountAtLeast(sz: nat)
    requires sz > 0
    ensures WordCount(sz) > 0 && (WordCount(sz) % 2 == 0 ==> WordCount(sz) / 2 > 0)
  {}

  lemma CounterNext(n: nat, k: nat)
    ensures (Counter(n, k) - 2) % WORD == Counter(n, k + 1)
  {
    var q := (n - 2 * k) / WORD;
    assert n - 2 * (k + 1) == q * WORD + (Counter(n, k) - 2);
    ModShift(q, Counter(n, k) - 2);
  }

  lemma ModShift(q: int, r: int)
    requires -2 <= r < WORD
    ensures (q * WORD + r) % WORD == r % WORD
  {
    if r < 0 {
      assert q * WORD + r == (q - 1) * WORD + (r + WORD);
    }
  }

  lemma BurntNone(m: seq<byte>, addr: nat, src: nat -> byte)
    ensures Burnt(m, addr, src, 0) == m
  {}

  lemma BurntNext(m: seq<byte>, addr: nat, src: nat -> byte, k: nat)
    ensures Burnt(Burnt(m, addr, src, k), addr + 8 * k, From(src, 8 * k), 1) == Burnt(m, addr, src, k + 1)
  {
    var a, b := Burnt(Burnt(m, addr, src, k), addr + 8 * k, From(src, 8 * k), 1), Burnt(m, addr, src, k + 1);
    hide Burn;
    forall i | 0 <= i < |m|
      ensures a[i] == b[i]
    {}
  }

  /** An odd count of words writes everything from the address to the end of the flash. */
  lemma OverrunReachesEnd(addr: nat, sz: nat)
    requires addr % 8 == 0 && addr <= AREA && !Writable(sz)
    ensures sz > 0 && addr + 8 * Phrases(addr, sz) == AREA
  {
    assert (AREA - addr) % 8 == 0;
  }

  /** The contents after past are those of n phrases programmed one after another. */
  ghost predicate Traced(past: seq<seq<byte>>, past': seq<seq<byte>>, m: seq<byte>, addr: nat, src: nat -> byte, n: nat) {
    && |past'| == |past| + n && past'[..|past|] == past
    && forall j :: |past| <= j < |past'| ==> past'[j] == Burnt(m, addr, src, j - |past| + 1)
  }

  lemma TracedNone(past: seq<seq<byte>>, m: seq<byte>, addr: nat, src: nat -> byte)
    ensures Traced(past, past, m, addr, src, 0)
  {}

  lemma TracedNext(past: seq<seq<byte>>, past': seq<seq<byte>>, m: seq<byte>, addr: nat, src: nat -> byte, n: nat)
    requires Traced(past, past', m, addr, src, n)
    ensures Traced(past, past' + [Burnt(m, addr, src, n + 1)], m, addr, src, n + 1)
  {
    hide Burnt;
    var all := past' + [Burnt(m, addr, src, n + 1)];
    assert all[..|past|] == past'[..|past|];
  }

  class Device {
    var mem: seq<byte>
    /** Every content the memory has had since it was made, oldest first: what an interruption can leave. */
    ghost var past: seq<seq<byte>>

    ghost predicate Valid()
      reads this
    {
      |mem| == AREA && |past| > 0 && past[|past| - 1] == mem
    }

    constructor (m: seq<byte>)
      requires |m| == AREA
      ensures Valid() && mem == m && past == [m]
    {
      mem, past := m, [m];
    }

    /** Flash_SectorErase */
    method SectorErase(addr: nat) returns (status: Status)
      requires Valid()
      modifies this
      ensures Valid()
      ensures status == if addr < AREA && addr % 16 == 0 then Ok else AccessError
      ensures mem == if status.Ok? then Erased(old(mem), addr) else old(mem)
      ensures past == if status.Ok? then old(past) + [mem] else old(past)
    {
      if addr >= AREA || addr % 16 != 0 { return AccessError; }
      mem := Erased(mem, addr);
      past := past + [mem];
      return Ok;
    }

    /** One phrase, with the verdict of the hardware. */
    method Launch(addr: nat, src: nat -> byte) returns (status: Status)
      requires Valid()
      modifies this
      ensures Valid()
      ensures status == if addr % 8 == 0 && addr + 8 <= AREA then Ok else AccessError
      ensures mem == if status.Ok? then Burnt(old(mem), addr, src, 1) else old(mem)
      ensures past == if status.Ok? then old(past) + [mem] else old(past)
    {
      if addr % 8 != 0 || addr + 8 > AREA { return AccessError; }
      mem := Burnt(mem, addr, src, 1);
      past := past + [mem];
      return Ok;
    }

    /** Flash_ByteProgram; src is the memory from the buffer on, since an odd word count reads past its end. */
    method ByteProgram(addr: nat, src: nat -> byte, sz: nat) returns (status: Status)
      requires Valid() && sz < WORD
      modifies this
      ensures Valid()
      ensures mem == Burnt(old(mem), addr, src, Phrases(addr, sz))
      ensures Traced(old(past), past, old(mem), addr, src, Phrases(addr, sz))
      ensures status.ContentError? <==> sz == 0
      ensures sz > 0 ==> (status.Ok? <==> Writable(sz) && addr % 8 == 0 && addr + 8 * (WordCount(sz) / 2) <= AREA)
    {
      hide Phrases, Counter, Traced, Burnt, From, Writable, WordCount;
      LoopStarts(addr, sz);
      BurntNone(mem, addr, src);
      TracedNone(past, mem, addr, src);
      if sz == 0 { return ContentError; }
      status := Ok;
      ghost var m, n, k := mem, WordCount(sz), 0;
      var size, p := (sz - 1) / 4 + 1, 0;
      PhrasesFit(addr, sz);
      while size != 0 && status == Ok
        invariant Valid()
        invariant status.Ok? ==> p == 8 * k && size == Counter(n, k) && k <= Phrases(addr, sz)
        invariant !status.Ok? ==> status.AccessError? && k == Phrases(addr, sz)
        invariant !status.Ok? ==> !(Writable(sz) && addr % 8 == 0 && addr + 8 * (n / 2) <= AREA)
        invariant mem == Burnt(m, addr, src, k)
        invariant Traced(old(past), past, m, addr, src, k)
        decreases status.Ok?, AREA - p
      {
        Turn(addr, sz, k);
        ghost var before := past;
        status := Launch(addr + p, From(src, p));
        size := (size - 2) % WORD;
        if status == Ok {
          BurntNext(m, addr, src, k);
          TracedNext(old(past), before, m, addr, src, k);
          k := k + 1;
        }
        p := p + 8;
      }
      if status == Ok { LoopEnds(addr, sz, k); }
    }
  }
}
