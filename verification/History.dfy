/**
 * What the flash has held at every moment since the loader was started: when it was erased for a file, which boot record
 * that file brought, and when its image was verified. A run may be cut off after any of these contents.
 */
module History {
  import opened Words
  import opened Flash
  import opened Boot
  import Md5

  /** What lies in memory from the start of a buffer on. */
  function Ram(buf: seq<byte>, beyond: nat -> byte): nat -> byte {
    (i: nat) => if i < |buf| then buf[i] else beyond(i - |buf|)
  }

  /** The largest file and the largest image. */
  const MAX_IMAGE := AREA - BOOTLOADER - RECORD

  /** The image in the program area has the hash the record names. */
  ghost predicate Matches(m: seq<byte>, r: Record) {
    && |m| == AREA && OrigImgSize(r) <= MAX_IMAGE
    && Hash(r) == Md5.Digest(m[BOOTLOADER..BOOTLOADER + OrigImgSize(r)])
  }

  lemma MatchesIs(m: seq<byte>, r: Record)
    requires |m| == AREA && OrigImgSize(r) <= MAX_IMAGE
    ensures Matches(m, r) <==> Hash(r) == Md5.Digest(m[BOOTLOADER..BOOTLOADER + OrigImgSize(r)])
  {
    hide Number, Md5.Digest;
  }

  /** The hash does not depend on the record. */
  lemma MatchesBelow(m: seq<byte>, m': seq<byte>, r: Record)
    requires |m| == |m'| == AREA && m[..RECORD_ADDR] == m'[..RECORD_ADDR]
    ensures Matches(m, r) <==> Matches(m', r)
  {
    hide Number, Md5.Digest;
    var n := OrigImgSize(r);
    if n <= MAX_IMAGE {
      assert m[BOOTLOADER..BOOTLOADER + n] == m[..RECORD_ADDR][BOOTLOADER..BOOTLOADER + n];
      assert m'[BOOTLOADER..BOOTLOADER + n] == m'[..RECORD_ADDR][BOOTLOADER..BOOTLOADER + n];
    }
  }

  /** The record is in its place and the image in the program area has the hash the record names. */
  ghost predicate Accepted(m: seq<byte>, r: Record) {
    |m| == AREA && RecordIn(m) == r && Matches(m, r)
  }

  /** What has been accepted is what the start-up check looks for. */
  lemma AcceptedMatches(m: Image, r: Record, beyond: nat -> byte)
    requires Accepted(m, r)
    ensures HashMatches(m, beyond)
  {
    hide Number, Md5.Digest;
    var n := OrigImgSize(r);
    assert ProgramArea(m, beyond, n) == m[BOOTLOADER..BOOTLOADER + n];
  }

  // ---- Erasures ----

  /**
   * The last sector was erased, giving content number at, for a file of the given size with the given first block, in which
   * the given record was found; contents up to number verified - 1 are those before its image was verified.
   */
  datatype Erasure = Erasure(at: nat, size: nat, head: seq<byte>, rec: Record, verified: Option<nat>)

  type Log = seq<Erasure>

  ghost predicate BlankBetween(past: seq<seq<byte>>, a: nat, b: nat)
    requires b <= |past|
  {
    forall k :: a <= k < b ==> |past[k]| == AREA && Blank(past[k])
  }

  /** Some of the six phrases of the record have been written, in order, and nothing else. */
  ghost predicate Recording(m: seq<byte>, m0: seq<byte>, r: Record, beyond: nat -> byte) {
    exists j: nat :: j <= 6 && m == Burnt(m0, RECORD_ADDR, Ram(r, beyond), j)
  }

  /**
   * From an erasure to the next one, or to the given end: until the image is verified the boot record is blank, if the flash
   * routine writes files of that size as intended; and what is verified is an image with the hash its own record names, after
   * which only that record is written.
   */
  ghost predicate Guarded(past: seq<seq<byte>>, e: Erasure, end: nat, beyond: nat -> byte) {
    && e.at < end <= |past|
    && match e.verified
       case None => Writable(e.size) ==> BlankBetween(past, e.at, end)
       case Some(v) =>
         && e.at < v <= end && (Writable(e.size) ==> BlankBetween(past, e.at, v))
         && Matches(past[v - 1], e.rec) && forall k :: v <= k < end ==> Recording(past[k], past[v - 1], e.rec, beyond)
  }

  /** Where the time of an erasure ends: at the next one. */
  function End(past: seq<seq<byte>>, log: Log, j: nat): nat {
    if j + 1 < |log| then log[j + 1].at else |past|
  }

  /** All of this, and: the boot loader is as it always was, and before the first erasure nothing has been written at all. */
  ghost predicate Safe(past: seq<seq<byte>>, low: seq<byte>, log: Log, beyond: nat -> byte) {
    && |past| > 0 && Kept(past, low) && Initial(past, if log == [] then |past| else log[0].at)
    && forall j :: 0 <= j < |log| ==> Guarded(past, log[j], End(past, log, j), beyond)
  }

  ghost predicate Kept(past: seq<seq<byte>>, low: seq<byte>) {
    forall k :: 0 <= k < |past| ==> |past[k]| == AREA && past[k][..BOOTLOADER] == low
  }

  ghost predicate Initial(past: seq<seq<byte>>, n: nat) {
    0 < n <= |past| && forall k :: 0 <= k < n ==> past[k] == past[0]
  }

  lemma SafeStart(m: Image, beyond: nat -> byte)
    ensures Safe([m], m[..BOOTLOADER], [], beyond)
  {}

  lemma GuardedKept(past: seq<seq<byte>>, past': seq<seq<byte>>, e: Erasure, end: nat, beyond: nat -> byte)
    requires Guarded(past, e, end, beyond) && past <= past'
    ensures Guarded(past', e, end, beyond)
  {
    hide Matches, Recording, Writable;
    assert forall k :: 0 <= k < |past| ==> past'[k] == past[k];
  }

  function Last(log: Log): Erasure
    requires log != []
  {
    log[|log| - 1]
  }

  /** The same erasures, with something else said of the last one. */
  function Relast(log: Log, e: Erasure): Log
    requires log != []
  {
    log[..|log| - 1] + [e]
  }

  /** It is enough to look at the last erasure when contents are added. */
  lemma SafeStays(past: seq<seq<byte>>, past': seq<seq<byte>>, low: seq<byte>, log: Log, e: Erasure, beyond: nat -> byte)
    requires Safe(past, low, log, beyond) && log != [] && e.at == Last(log).at
    requires past <= past' && Kept(past', low) && Guarded(past', e, |past'|, beyond)
    ensures Safe(past', low, Relast(log, e), beyond)
  {
    hide Guarded;
    var log' := Relast(log, e);
    forall j | 0 <= j < |log'|
      ensures Guarded(past', log'[j], End(past', log', j), beyond)
    {
      if j < |log| - 1 {
        assert log'[j] == log[j] && End(past', log', j) == End(past, log, j);
        GuardedKept(past, past', log[j], End(past, log, j), beyond);
      }
    }
    assert log'[0].at == log[0].at;
  }

  /** A further erasure ends the time of the one before it. */
  lemma SafeOpens(past: seq<seq<byte>>, past': seq<seq<byte>>, low: seq<byte>, log: Log, e: Erasure, beyond: nat -> byte)
    requires Safe(past, low, log, beyond) && e.at == |past|
    requires past <= past' && Kept(past', low) && Guarded(past', e, |past'|, beyond)
    ensures Safe(past', low, log + [e], beyond)
  {
    hide Guarded;
    var log' := log + [e];
    forall j | 0 <= j < |log'|
      ensures Guarded(past', log'[j], End(past', log', j), beyond)
    {
      if j < |log| {
        assert End(past', log', j) == End(past, log, j);
        GuardedKept(past, past', log[j], End(past, log, j), beyond);
      }
    }
    assert log != [] ==> log'[0] == log[0];
  }

  lemma SafeLast(past: seq<seq<byte>>, low: seq<byte>, log: Log, beyond: nat -> byte)
    requires Safe(past, low, log, beyond)
    ensures |past| > 0 && |past[|past| - 1]| == AREA && past[|past| - 1][..BOOTLOADER] == low
    ensures log != [] && Last(log).verified.None? && Writable(Last(log).size) ==> Blank(past[|past| - 1])
  {
    hide Blank, Matches, Recording, Writable;
    if log != [] {
      assert Guarded(past, log[|log| - 1], End(past, log, |log| - 1), beyond);
    }
  }

  lemma SafeLastGuarded(past: seq<seq<byte>>, low: seq<byte>, log: Log, beyond: nat -> byte)
    requires Safe(past, low, log, beyond) && log != []
    ensures Guarded(past, Last(log), |past|, beyond) && Kept(past, low)
  {
    hide Guarded;
    assert Guarded(past, log[|log| - 1], End(past, log, |log| - 1), beyond);
  }

  /** Nothing of the past is forgotten. */
  predicate Extends(past: seq<seq<byte>>, past': seq<seq<byte>>) {
    past <= past'
  }

  lemma ExtendsSelf(past: seq<seq<byte>>)
    ensures Extends(past, past)
  {}

  lemma ExtendsTwice(a: seq<seq<byte>>, b: seq<seq<byte>>, c: seq<seq<byte>>)
    requires Extends(a, b) && Extends(b, c)
    ensures Extends(a, c)
  {}

  // ---- What the loader does to the flash ----

  lemma SectorBounds(addr: nat, i: nat)
    requires addr % SECTOR == 0
    ensures InSector(addr, i) <==> addr <= i < addr + SECTOR
  {
    var q := addr / SECTOR;
    assert addr == q * SECTOR;
    assert i == i / SECTOR * SECTOR + i % SECTOR;
  }

  lemma ErasedKeeps(m: seq<byte>, addr: nat)
    requires |m| == AREA && addr >= BOOTLOADER && addr % SECTOR == 0
    ensures Erased(m, addr)[..BOOTLOADER] == m[..BOOTLOADER]
    ensures Blank(m) ==> Blank(Erased(m, addr))
  {
    var m' := Erased(m, addr);
    forall i | 0 <= i < BOOTLOADER
      ensures m'[i] == m[i]
    {
      SectorBounds(addr, i);
    }
  }

  /** Erasing the last sector begins the time of a file. */
  lemma SafeErasedLast(past: seq<seq<byte>>, low: seq<byte>, log: Log, beyond: nat -> byte, size: nat, head: seq<byte>, rec: Record)
    requires Safe(past, low, log, beyond)
    ensures Safe(past + [Erased(past[|past| - 1], AREA - SECTOR)], low, log + [Erasure(|past|, size, head, rec, None)], beyond)
  {
    var m := past[|past| - 1];
    SafeLast(past, low, log, beyond);
    var m' := Erased(m, AREA - SECTOR);
    ErasedKeeps(m, AREA - SECTOR);
    forall i | RECORD_ADDR <= i < AREA
      ensures m'[i] == 0xFF
    {
      SectorBounds(AREA - SECTOR, i);
    }
    hide Erased, Writable, Blank;
    SafeOpens(past, past + [m'], low, log, Erasure(|past|, size, head, rec, None), beyond);
  }

  lemma GuardedOne(past: seq<seq<byte>>, e: Erasure, m: Image, beyond: nat -> byte)
    requires Guarded(past, e, |past|, beyond) && e.verified.None? && |past| > 0 && |past[|past| - 1]| == AREA
    requires Blank(past[|past| - 1]) ==> Blank(m)
    ensures Guarded(past + [m], e, |past| + 1, beyond)
  {
    hide Blank, Matches, Recording, Writable;
  }

  lemma KeptOne(past: seq<seq<byte>>, low: seq<byte>, m: Image)
    requires Kept(past, low) && m[..BOOTLOADER] == low
    ensures Kept(past + [m], low)
  {}

  lemma SafeErased(past: seq<seq<byte>>, low: seq<byte>, log: Log, beyond: nat -> byte, addr: nat)
    requires Safe(past, low, log, beyond) && log != [] && Last(log).verified.None? && addr >= BOOTLOADER && addr % SECTOR == 0
    ensures Safe(past + [Erased(past[|past| - 1], addr)], low, log, beyond)
  {
    var m := past[|past| - 1];
    SafeLast(past, low, log, beyond);
    SafeLastGuarded(past, low, log, beyond);
    ErasedKeeps(m, addr);
    hide Erased, Guarded, Blank, Safe, Kept;
    GuardedOne(past, Last(log), Erased(m, addr), beyond);
    KeptOne(past, low, Erased(m, addr));
    SafeStays(past, past + [Erased(m, addr)], low, log, Last(log), beyond);
    assert Relast(log, Last(log)) == log;
  }

  lemma BurntKeeps(m: seq<byte>, addr: nat, src: nat -> byte, n: nat)
    requires |m| == AREA && addr >= BOOTLOADER
    ensures addr <= AREA ==> Burnt(m, addr, src, n)[..addr] == m[..addr]
    ensures Burnt(m, addr, src, n)[..BOOTLOADER] == m[..BOOTLOADER]
    ensures addr + 8 * n <= RECORD_ADDR && Blank(m) ==> Blank(Burnt(m, addr, src, n))
  {
    hide Burn;
  }

  /** The phrases of a chunk that ends before the record do not meet the record. */
  lemma PhrasesStop(addr: nat, sz: nat)
    requires Writable(sz) && addr + sz <= RECORD_ADDR
    ensures Phrases(addr, sz) == 0 || addr + 8 * Phrases(addr, sz) <= RECORD_ADDR
  {
    WritableIs(sz);
    if sz > 0 && addr % 8 == 0 {
      var k := WordCount(sz) / 2;
      assert addr + 8 * k < RECORD_ADDR + 4;
      assert addr == 8 * (addr / 8);
    }
  }

  lemma KeptProgrammed(past: seq<seq<byte>>, past': seq<seq<byte>>, low: seq<byte>, addr: nat, src: nat -> byte, n: nat)
    requires Kept(past, low) && |past| > 0 && addr >= BOOTLOADER
    requires Traced(past, past', past[|past| - 1], addr, src, n)
    ensures past <= past' && Kept(past', low)
  {
    hide Burnt, Blank;
    var m := past[|past| - 1];
    forall k | 0 <= k < |past'|
      ensures |past'[k]| == AREA && past'[k][..BOOTLOADER] == low
    {
      if k < |past| {
        assert past'[k] == past'[..|past|][k] == past[k];
      } else {
        BurntKeeps(m, addr, src, k - |past| + 1);
      }
    }
  }

  /** Programming a chunk of the image. */
  lemma SafeProgrammed(past: seq<seq<byte>>, past': seq<seq<byte>>, low: seq<byte>, log: Log, beyond: nat -> byte,
                       addr: nat, src: nat -> byte, sz: nat)
    requires Safe(past, low, log, beyond) && log != [] && Last(log).verified.None? && addr >= BOOTLOADER
    requires Traced(past, past', past[|past| - 1], addr, src, Phrases(addr, sz))
    requires Writable(Last(log).size) ==> Writable(sz) && addr + sz <= RECORD_ADDR
    ensures Safe(past', low, log, beyond) && Extends(past, past')
  {
    hide Burnt, Blank, Writable, Phrases;
    var m, e := past[|past| - 1], Last(log);
    SafeLastGuarded(past, low, log, beyond);
    KeptProgrammed(past, past', low, addr, src, Phrases(addr, sz));
    if Writable(e.size) {
      PhrasesStop(addr, sz);
      forall k | e.at <= k < |past'|
        ensures |past'[k]| == AREA && Blank(past'[k])
      {
        if k < |past| {
          assert past'[k] == past[k];
        } else {
          BurntKeeps(m, addr, src, k - |past| + 1);
        }
      }
    }
    SafeStays(past, past', low, log, e, beyond);
    assert Relast(log, e) == log;
  }

  lemma NothingProgrammed(past: seq<seq<byte>>, past': seq<seq<byte>>, m: seq<byte>, addr: nat, src: nat -> byte)
    requires Traced(past, past', m, addr, src, Phrases(addr, 0))
    ensures past' == past && Burnt(m, addr, src, Phrases(addr, 0)) == m
  {}

  /** The image is verified: from here on its record may be written. */
  lemma SafeVerified(past: seq<seq<byte>>, low: seq<byte>, log: Log, beyond: nat -> byte)
    requires Safe(past, low, log, beyond) && log != [] && Last(log).verified.None? && Matches(past[|past| - 1], Last(log).rec)
    ensures Safe(past, low, Relast(log, Last(log).(verified := Some(|past|))), beyond)
  {
    hide Matches, Recording, Writable, Blank;
    SafeLastGuarded(past, low, log, beyond);
    SafeStays(past, past, low, log, Last(log).(verified := Some(|past|)), beyond);
  }

  lemma BurntAgain(m: seq<byte>, addr: nat, src: nat -> byte, i: nat, j: nat)
    ensures Burnt(Burnt(m, addr, src, i), addr, src, j) == Burnt(m, addr, src, if i <= j then j else i)
  {
    var a, b := Burnt(Burnt(m, addr, src, i), addr, src, j), Burnt(m, addr, src, if i <= j then j else i);
    forall k | 0 <= k < |m|
      ensures a[k] == b[k]
    {
      if addr <= k {
        BurnTwice(m[k], src(k - addr));
      }
    }
  }

  lemma RecordingAgain(m: seq<byte>, m0: seq<byte>, r: Record, beyond: nat -> byte, n: nat)
    requires Recording(m, m0, r, beyond) && n <= 6
    ensures Recording(Burnt(m, RECORD_ADDR, Ram(r, beyond), n), m0, r, beyond)
  {
    hide Burnt, Ram;
    var i: nat :| i <= 6 && m == Burnt(m0, RECORD_ADDR, Ram(r, beyond), i);
    BurntAgain(m0, RECORD_ADDR, Ram(r, beyond), i, n);
  }

  lemma RecordingNone(m: seq<byte>, r: Record, beyond: nat -> byte)
    ensures Recording(m, m, r, beyond)
  {
    BurntNone(m, RECORD_ADDR, Ram(r, beyond));
    hide Burnt;
  }

  /** Writing the record, for the first time or over itself. */
  lemma SafeRecorded(past: seq<seq<byte>>, past': seq<seq<byte>>, low: seq<byte>, log: Log, beyond: nat -> byte)
    requires Safe(past, low, log, beyond) && log != [] && Last(log).verified.Some?
    requires Traced(past, past', past[|past| - 1], RECORD_ADDR, Ram(Last(log).rec, beyond), 6)
    ensures Safe(past', low, log, beyond) && Extends(past, past')
  {
    hide Burnt, Writable, Blank, Matches, Ram, Recording;
    var m, e, v := past[|past| - 1], Last(log), Last(log).verified.value;
    var src := Ram(e.rec, beyond);
    SafeLastGuarded(past, low, log, beyond);
    KeptProgrammed(past, past', low, RECORD_ADDR, src, 6);
    RecordingNone(past[v - 1], e.rec, beyond);
    forall k | v <= k < |past'|
      ensures Recording(past'[k], past[v - 1], e.rec, beyond)
    {
      if k < |past| {
        assert past'[k] == past[k];
      } else {
        RecordingAgain(m, past[v - 1], e.rec, beyond, k - |past| + 1);
      }
    }
    assert past'[v - 1] == past[v - 1];
    assert forall k :: 0 <= k < |past| ==> past'[k] == past[k];
    SafeStays(past, past', low, log, e, beyond);
    assert Relast(log, e) == log;
  }

  // ---- What is started ----

  /** The erasure in force when the flash had content k. */
  function InForce(log: Log, k: nat): (j: nat)
    requires log != []
    ensures j < |log|
    decreases |log|
  {
    if |log| == 1 || log[|log| - 1].at <= k then |log| - 1 else InForce(log[..|log| - 1], k)
  }

  lemma {:induction false} InForceIs(past: seq<seq<byte>>, log: Log, k: nat)
    requires log != [] && log[0].at <= k < |past|
    ensures log[InForce(log, k)].at <= k < End(past, log, InForce(log, k))
    decreases |log|
  {
    if !(|log| == 1 || log[|log| - 1].at <= k) {
      InForceIs(past, log[..|log| - 1], k);
    }
  }

  /** A record of which too little has been written names no size; otherwise its hash and its size are complete. */
  lemma RecordingStarts(m: Image, m0: Image, r: Record, beyond: nat -> byte)
    requires Blank(m0) && Recording(m, m0, r, beyond)
    ensures m[..RECORD_ADDR] == m0[..RECORD_ADDR]
    ensures Starts(m, beyond) ==> Hash(RecordIn(m)) == Hash(r) && OrigImgSize(RecordIn(m)) == OrigImgSize(r)
  {
    hide Number, Md5.Digest, VectorsWritten;
    var j: nat :| j <= 6 && m == Burnt(m0, RECORD_ADDR, Ram(r, beyond), j);
    var q := RecordIn(m);
    forall i | 0 <= i < 8 * j
      ensures q[i] == r[i]
    {
      BurnErased(r[i]);
    }
    hide Burnt;
    if j < 3 {
      assert q[16] == q[17] == q[18] == q[19] == 0xFF;
      AllOnes(q, 16);
    } else {
      assert q[..16] == r[..16];
      SameNumber(q, r, 16);
    }
  }

  lemma SameNumber(s: seq<byte>, t: seq<byte>, i: nat)
    requires i + 4 <= |s| && i + 4 <= |t| && s[i] == t[i] && s[i + 1] == t[i + 1] && s[i + 2] == t[i + 2] && s[i + 3] == t[i + 3]
    ensures Number(s, i) == Number(t, i)
  {
    hide Octet;
  }

  /**
   * At whatever moment a run is cut off, from the first erasure on: nothing is started unless the image of the file the
   * flash was last erased for has been verified, and then it is that image, with the hash and the size its record names.
   */
  lemma OnlyVerifiedStarts(past: seq<seq<byte>>, low: seq<byte>, log: Log, beyond: nat -> byte, k: nat)
    requires Safe(past, low, log, beyond) && log != [] && log[0].at <= k < |past|
    ensures var e := log[InForce(log, k)];
            && |past[k]| == AREA && past[k][..BOOTLOADER] == low && e.at <= k
            && (Writable(e.size) && Starts(past[k], beyond) ==>
                && e.verified.Some? && e.verified.value <= k && Matches(past[k], e.rec)
                && Hash(RecordIn(past[k])) == Hash(e.rec) && OrigImgSize(RecordIn(past[k])) == OrigImgSize(e.rec))
  {
    hide Starts, Writable, Matches, Blank, Recording, Number;
    var e := log[InForce(log, k)];
    InForceIs(past, log, k);
    assert Guarded(past, e, End(past, log, InForce(log, k)), beyond);
    if Writable(e.size) && Starts(past[k], beyond) {
      if e.verified.None? || k < e.verified.value {
        BlankNeverStarts(past[k], beyond);
      } else {
        var m0 := past[e.verified.value - 1];
        RecordingStarts(past[k], m0, e.rec, beyond);
        MatchesBelow(past[k], m0, e.rec);
      }
    }
  }

  // ---- How the log goes on ----

  /** No erasure is forgotten or changed, but that the image of the last one may have been verified. */
  predicate Later(log: Log, log': Log) {
    && |log| <= |log'|
    && forall j :: 0 <= j < |log| ==>
         log'[j] == log[j] || (j == |log| - 1 && log[j].verified.None? && log'[j] == log[j].(verified := log'[j].verified))
  }

  lemma LaterTwice(a: Log, b: Log, c: Log)
    requires Later(a, b) && Later(b, c)
    ensures Later(a, c)
  {}
}
