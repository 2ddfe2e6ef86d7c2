/** What the variables of Y_Loader.c say about the file being received, between two chunks of it. */
module YSession {
  import opened Words
  import opened Flash
  import opened Boot
  import opened History
  import opened Decoding
  import Cbc

  /**
   * The declared size and what has been taken of the file; whether the encryption flag was set before; the first block and the
   * size of the chunk that made it due; the chunks that made the further blocks due, and what was written for them; the size
   * of the last of these chunks and what lay behind it in the block.
   */
  datatype Job = Job(declared: nat, file: seq<byte>, wasEncrypted: bool, head: seq<byte>, headChunk: nat,
                     got: seq<byte>, plain: seq<byte>, last: nat, under: seq<byte>)

  function Opened(size: nat, wasEncrypted: bool): Job {
    Job(size, [], wasEncrypted, [], 0, [], [], 0, seq(16, _ => 0))
  }

  // A chunk that makes the first block due, one that makes a further block due, and one that does neither.
  function WithHead(j: Job, piece: seq<byte>, head: seq<byte>): Job {
    j.(file := j.file + piece, head := head, headChunk := |piece|)
  }

  function WithNext(j: Job, piece: seq<byte>, out: seq<byte>, under: seq<byte>): Job {
    if piece == [] then j
    else j.(file := j.file + piece, got := j.got + piece, plain := j.plain + out, last := |piece|, under := under)
  }

  function WithLost(j: Job, piece: seq<byte>): Job {
    j.(file := j.file + piece)
  }

  /** Everything taken of the file has been in a block when the block was due. */
  predicate Intact(j: Job) {
    j.headChunk + |j.got| == |j.file|
  }

  // ---- Counters ----

  /** How the counters of a session hang together: all of the declared size is accounted for. */
  predicate Tally(declared: nat, taken: nat, headChunk: nat, written: nat, last: nat, fileRemainder: nat, indxInBlock: nat, blocksCnt: nat) {
    && fileRemainder + taken == declared <= MAX_IMAGE && indxInBlock < HEADER && headChunk <= HEADER
    && headChunk + written + indxInBlock <= taken
    && (fileRemainder > 0 ==> taken % 128 == 0 && indxInBlock % 128 == 0 && written % 128 == 0)
    && (blocksCnt == 0 ==> taken == indxInBlock && written == 0 && headChunk == 0)
    && (blocksCnt > 0 ==> written + HEADER + indxInBlock <= taken || (written == 0 && fileRemainder == 0))
    && last <= written && (written - last) % 128 == 0 && (written > 0 ==> last > 0)
    && (headChunk + written == taken ==>
          && (blocksCnt > 0 ==> headChunk == HEADER || taken == declared == headChunk)
          && (written - last) % HEADER == 0 && last <= HEADER && (fileRemainder > 0 ==> written % HEADER == 0))
  }

  predicate Counts(j: Job, fileRemainder: nat, indxInBlock: nat, blocksCnt: nat) {
    |j.plain| == |j.got| && Tally(j.declared, |j.file|, j.headChunk, |j.got|, j.last, fileRemainder, indxInBlock, blocksCnt)
  }

  lemma CountsOpened(size: nat, wasEncrypted: bool)
    requires size <= MAX_IMAGE
    ensures Counts(Opened(size, wasEncrypted), size, 0, 0) && Intact(Opened(size, wasEncrypted))
  {}

  /** Only the last chunk of a file can have a size the flash routine does not write as intended. */
  lemma ChunkWritable(declared: nat, taken: nat, chunk: nat)
    requires taken + chunk <= declared
    requires chunk % 8 == 0 || (taken % 8 == 0 && taken + chunk == declared)
    ensures Writable(declared) ==> Writable(chunk)
  {
    WritableIs(declared);
    WritableIs(chunk);
    hide Writable;
    if chunk % 8 != 0 {
      AddsWhole(taken, chunk);
    }
  }

  lemma AddsWhole(a: nat, b: nat)
    requires a % 8 == 0
    ensures (a + b) % 8 == b % 8
  {}

  /** A chunk that makes a further block due. */
  lemma TallyNext(declared: nat, taken: nat, headChunk: nat, written: nat, last: nat, fileRemainder: nat, indxInBlock: nat, blocksCnt: nat, chunk: nat)
    requires Tally(declared, taken, headChunk, written, last, fileRemainder, indxInBlock, blocksCnt) && blocksCnt > 0
    requires chunk <= fileRemainder && chunk <= HEADER - indxInBlock
    requires chunk == fileRemainder || (chunk > 0 && indxInBlock + chunk == HEADER)
    ensures Tally(declared, taken + chunk, headChunk, written + chunk, if chunk > 0 then chunk else last, fileRemainder - chunk, 0, blocksCnt + 1)
  {
    if chunk > 0 {
      assert (written + chunk - chunk) % 128 == 0;
    }
    if headChunk + written == taken {
      assert indxInBlock == 0;
      if 0 < chunk < fileRemainder {
        assert chunk == HEADER;
      }
    }
  }

  lemma TallyNextMeans(declared: nat, taken: nat, headChunk: nat, written: nat, last: nat, fileRemainder: nat, indxInBlock: nat, blocksCnt: nat, chunk: nat)
    requires Tally(declared, taken, headChunk, written, last, fileRemainder, indxInBlock, blocksCnt) && blocksCnt > 0
    requires chunk <= fileRemainder && chunk <= HEADER - indxInBlock
    requires chunk == fileRemainder || (chunk > 0 && indxInBlock + chunk == HEADER)
    ensures BOOTLOADER + written + chunk <= RECORD_ADDR && (Writable(declared) ==> Writable(chunk))
    ensures chunk > 0 ==> written % 16 == 0 && written + chunk + HEADER <= declared
    ensures chunk < fileRemainder ==> chunk % 128 == 0
  {
    hide Writable;
    if fileRemainder > 0 {
      Multiples(written);
      Multiples(indxInBlock);
      Multiples(taken);
    }
    ChunkWritable(declared, taken, chunk);
  }

  lemma Multiples(n: nat)
    requires n % 128 == 0
    ensures n % 16 == 0 && n % 8 == 0 && (HEADER - n) % 128 == 0 && (HEADER - n) % 8 == 0
  {
    MultiplesOf(n, n / 128);
    MultiplesOf(HEADER - n, 4 - n / 128);
  }

  lemma MultiplesOf(n: int, q: int)
    requires n == 128 * q
    ensures n % 128 == 0 && n % 16 == 0 && n % 8 == 0
  {
    assert n == 16 * (8 * q);
    assert n == 8 * (16 * q);
  }

  /** A chunk that makes the first block due. */
  lemma TallyFirst(declared: nat, taken: nat, headChunk: nat, written: nat, last: nat, fileRemainder: nat, indxInBlock: nat, chunk: nat)
    requires Tally(declared, taken, headChunk, written, last, fileRemainder, indxInBlock, 0)
    requires chunk <= fileRemainder && chunk <= HEADER - indxInBlock
    requires chunk == fileRemainder || indxInBlock + chunk == HEADER
    ensures Tally(declared, taken + chunk, chunk, 0, 0, fileRemainder - chunk, 0, 1)
    ensures taken == indxInBlock && (chunk == HEADER ==> taken == 0)
  {}

  /** A chunk that does not fill the block. */
  lemma TallyMore(declared: nat, taken: nat, headChunk: nat, written: nat, last: nat, fileRemainder: nat, indxInBlock: nat, blocksCnt: nat, chunk: nat)
    requires Tally(declared, taken, headChunk, written, last, fileRemainder, indxInBlock, blocksCnt)
    requires 0 < chunk < fileRemainder && indxInBlock + chunk < HEADER && chunk % 128 == 0
    ensures Tally(declared, taken + chunk, headChunk, written, last, fileRemainder - chunk, indxInBlock + chunk, blocksCnt)
    ensures headChunk + written < taken + chunk
  {}

  lemma CountsBound(j: Job, fileRemainder: nat, indxInBlock: nat, blocksCnt: nat)
    requires Counts(j, fileRemainder, indxInBlock, blocksCnt)
    ensures indxInBlock < HEADER && fileRemainder + |j.file| == j.declared <= MAX_IMAGE && |j.plain| == |j.got|
    ensures j.headChunk + |j.got| <= |j.file|
    ensures fileRemainder > 0 ==> indxInBlock % 128 == 0 && |j.got| % 16 == 0
    ensures blocksCnt == 0 ==> |j.file| == indxInBlock && j.got == [] && j.headChunk == 0
    ensures Intact(j) ==> indxInBlock == 0
    ensures !Intact(j) && blocksCnt == 0 ==> indxInBlock > 0
  {
    if fileRemainder > 0 {
      Multiples(|j.got|);
    }
  }

  // ---- Contents ----

  /** A header that came in one chunk is the beginning of the file, and if nothing was lost, the rest is what came after it. */
  ghost predicate Faithful(j: Job) {
    j.headChunk == HEADER ==>
      HEADER <= |j.file| && j.head == j.file[..HEADER] && (Intact(j) ==> j.got == j.file[HEADER..])
  }

  /** The boot record found, and the encryption flag. */
  ghost predicate Read(f: Block -> Block, iv: Block, j: Job, r: Record, encrypted: bool) {
    && |j.head| == HEADER && HeaderGood(f, iv, j.head) && r == HeaderRecord(f, iv, j.head)
    && encrypted == (j.wasEncrypted || !HasMagic(j.head))
  }

  /** What has been written is what was in the blocks, decoded. */
  ghost predicate Decoded(f: Block -> Block, iv: Block, j: Job, encrypted: bool) {
    && |j.head| == HEADER && Ends(j.got, j.last, j.under)
    && j.plain == BodyPlain(f, encrypted, BodyChain(iv, j.head), j.got, j.last, j.under)
  }

  /** As long as the file goes on, the chain block is the last ciphertext block. */
  ghost predicate Chained(iv: Block, j: Job, encrypted: bool, chain: seq<byte>, more: bool) {
    encrypted && more ==> |j.head| == HEADER && Cbc.Whole(j.got) && chain == Cbc.NextChain(BodyChain(iv, j.head), j.got)
  }

  lemma FaithfulFirst(j: Job, piece: seq<byte>, head: seq<byte>)
    requires |piece| <= HEADER == |head| && head[..|piece|] == piece && j.got == [] && (|piece| == HEADER ==> j.file == [])
    ensures Faithful(WithHead(j, piece, head))
  {}

  lemma FaithfulNext(j: Job, piece: seq<byte>, out: seq<byte>, under: seq<byte>)
    requires Faithful(j)
    ensures Faithful(WithNext(j, piece, out, under)) && (Intact(WithNext(j, piece, out, under)) <==> Intact(j))
  {
    if j.headChunk == HEADER && piece != [] {
      assert (j.file + piece)[..HEADER] == j.file[..HEADER];
      assert (j.file + piece)[HEADER..] == j.file[HEADER..] + piece;
    }
  }

  lemma FaithfulLost(j: Job, piece: seq<byte>)
    requires Faithful(j) && j.headChunk + |j.got| <= |j.file|
    ensures Faithful(WithLost(j, piece)) && (piece != [] ==> !Intact(WithLost(j, piece)))
  {
    if j.headChunk == HEADER {
      assert (j.file + piece)[..HEADER] == j.file[..HEADER];
      assert piece == [] ==> j.file + piece == j.file;
    }
  }

  lemma DecodedFirst(f: Block -> Block, iv: Block, j: Job, encrypted: bool)
    requires |j.head| == HEADER && j.got == [] && j.plain == [] && j.last == 0 && |j.under| >= 16
    ensures Decoded(f, iv, j, encrypted) && Chained(iv, j, encrypted, BodyChain(iv, j.head), true)
  {}

  /** A further chunk: s is the block with the chunk at its beginning. */
  lemma DecodedNext(f: Block -> Block, iv: Block, j: Job, encrypted: bool, chain: Block, chain': Block, s: seq<byte>, n: nat,
                    out: seq<byte>, more: bool)
    requires Decoded(f, iv, j, encrypted) && 16 <= |s| && n <= |s|
    requires n > 0 ==> Chained(iv, j, encrypted, chain, true) && Cbc.Whole(j.got)
    requires out == Written(f, encrypted, chain, s, n)
    requires more ==> n > 0 && Cbc.Whole(s[..n]) && (encrypted ==> chain' == Cbc.NextChain(chain, s[..n]))
    ensures Decoded(f, iv, WithNext(j, s[..n], out, s[n..]), encrypted)
    ensures Chained(iv, WithNext(j, s[..n], out, s[n..]), encrypted, chain', more)
  {
    hide Written, BodyPlain, BodyChain, HasMagic, Cbc.NextChain, Cbc.Whole;
    if n > 0 {
      var piece, under := s[..n], s[n..];
      hide Ends;
      assert s == piece + under;
      var c := BodyChain(iv, j.head);
      BodyNext(f, encrypted, c, j.got, j.last, j.under, piece, under);
      if !encrypted {
        WrittenClear(f, chain, c, s, n);
      }
      if encrypted && more {
        WholeTwice(j.got, piece);
        Cbc.NextChainSplit(c, j.got, piece);
      }
    }
  }

  lemma WholeTwice(x: seq<byte>, y: seq<byte>)
    requires Cbc.Whole(x) && Cbc.Whole(y)
    ensures Cbc.Whole(x + y)
  {}

  /** Without encryption the chain block does not matter. */
  lemma WrittenClear(f: Block -> Block, c: Block, d: Block, s: seq<byte>, n: nat)
    requires n <= |s| && 16 <= |s|
    ensures Written(f, false, c, s, n) == Written(f, false, d, s, n)
  {}

  // ---- The flash ----

  /** What holds after the first block: the image is being written, or it is verified and recorded. */
  ghost predicate Started(m: seq<byte>, j: Job, programmedSize: nat, r: Record, fileDone: bool, addr: nat, log: Log, fileRemainder: nat) {
    && programmedSize == |j.plain| && Fits(r) && InFlash(m, j.plain)
    && log != [] && Last(log).rec == r && Last(log).size == j.declared && (Last(log).verified.Some? <==> fileDone)
    && (if fileDone then fileRemainder == 0 && addr == RECORD_ADDR && Accepted(m, r)
        else addr == BOOTLOADER + |j.plain| && (fileRemainder > 0 ==> Fresh(m, addr, r)))
  }

  lemma StartedMeans(m: seq<byte>, j: Job, programmedSize: nat, r: Record, fileDone: bool, addr: nat, log: Log, fileRemainder: nat)
    requires Started(m, j, programmedSize, r, fileDone, addr, log, fileRemainder)
    ensures InFlash(m, j.plain) && Fits(r) && log != [] && Last(log).size == j.declared && (Last(log).verified.Some? <==> fileDone)
    ensures Last(log).rec == r && programmedSize == |j.plain|
    ensures if fileDone then addr == RECORD_ADDR && fileRemainder == 0 else addr == BOOTLOADER + |j.plain|
    ensures fileDone ==> Accepted(m, r)
    ensures !fileDone && fileRemainder > 0 ==> Fresh(m, addr, r)
  {}

  lemma StartedFirst(m: seq<byte>, j: Job, r: Record, log: Log, fileRemainder: nat)
    requires |m| == AREA && Fits(r) && Fresh(m, BOOTLOADER, r) && j.plain == []
    requires log != [] && Last(log).rec == r && Last(log).size == j.declared && Last(log).verified.None?
    ensures Started(m, j, 0, r, false, BOOTLOADER, log, fileRemainder)
  {}

  lemma StartedNext(m: seq<byte>, m': seq<byte>, j: Job, j': Job, programmedSize: nat, r: Record, fileDone: bool, addr: nat, log: Log,
                    fileRemainder: nat, chunk: nat)
    requires Started(m, j, programmedSize, r, fileDone, addr, log, fileRemainder)
    requires chunk <= fileRemainder && |j'.plain| == |j.plain| + chunk && j'.declared == j.declared && InFlash(m', j'.plain) && (fileDone ==> m' == m)
    requires |m| == |m'| == AREA && addr + chunk <= AREA && (chunk < fileRemainder && !fileDone ==> m'[addr + chunk..] == m[addr + chunk..])
    ensures Started(m', j', programmedSize + chunk, r, fileDone, addr + chunk, log, fileRemainder - chunk)
  {
    hide Fits, InFlash, Accepted;
    if chunk < fileRemainder && !fileDone {
      FreshAfter(m, m', addr, r, chunk);
    }
  }

  lemma StartedTakes(m: seq<byte>, j: Job, programmedSize: nat, r: Record, fileDone: bool, addr: nat, log: Log, fileRemainder: nat, chunk: nat)
    requires Started(m, j, programmedSize, r, fileDone, addr, log, fileRemainder)
    requires chunk <= fileRemainder && Roomy(r, j.declared)
    requires chunk > 0 ==> |j.plain| % 16 == 0 && |j.plain| + chunk + HEADER <= j.declared
    ensures Takes(m, addr, chunk)
  {
    ErasedEndBound(r);
    hide ErasedEnd, Fits, InFlash, Accepted, Takes, Fresh;
    if chunk > 0 {
      FreshTakes(m, addr, r, chunk);
    } else {
      NothingTakes(m, addr);
    }
  }

  lemma StartedDone(m: seq<byte>, m': seq<byte>, j: Job, programmedSize: nat, r: Record, fileDone: bool, addr: nat, log: Log, log': Log)
    requires Started(m, j, programmedSize, r, fileDone, addr, log, 0)
    requires |m'| == |m| == AREA && m'[..RECORD_ADDR] == m[..RECORD_ADDR] && Accepted(m', r)
    requires log' != [] && Last(log').verified.Some? && Last(log') == Last(log).(verified := Last(log').verified)
    ensures Started(m', j, programmedSize, r, true, RECORD_ADDR, log', 0)
  {
    hide Fits, InFlash, Accepted;
    InFlashBelow(m, m', j.plain);
  }

  lemma FitsMeans(r: Record)
    requires Fits(r)
    ensures OrigImgSize(r) <= MAX_IMAGE
  {}

  /**
   * A header that brought its record on with a file of the size: the block it was in began with the bytes of the packet
   * that made it due, of which there were taken bytes before.
   */
  ghost predicate Brought(e: Erasure, f: Block -> Block, iv: Block, size: nat, taken: nat, data: seq<byte>) {
    && e.size == size && |e.head| == HEADER && HeaderGood(f, iv, e.head) && e.rec == HeaderRecord(f, iv, e.head)
    && taken <= size && taken < HEADER
    && var c := if HEADER <= size then HEADER - taken else size - taken;
       c <= |data| && e.head[..c] == data[..c]
  }
}
