/**
 * Y_Loader.c: the loader that takes a file in Ymodem packets, cuts it into blocks, decrypts them and writes them
 * to the flash. The first block is a header; the boot record in it is written last, when the image is verified.
 */
module YLoader {
  import opened Words
  import opened Flash
  import opened Boot
  import opened History
  import opened Decoding
  import opened YSession
  import opened Ymodem
  import Aes
  import Cbc
  import Md5

  function Min(a: nat, b: nat): nat {
    if a <= b then a else b
  }

  /** ABORT_SESSION, FIRST_PACKET and NEXT_PACKET. */
  datatype Result = Abort | First | Next

  const NOTHING := Track(0, 0, [], false, true)

  /** A file that was taken to its end and accepted, and the contents the flash had had by then. */
  datatype Kept = Kept(job: Job, past: seq<seq<byte>>)

  class Loader {
    const device: Device
    const tables: Aes.Tables
    const block: array<byte>
    const chainBlock: array<byte>
    const iv: Block
    const beyond: nat -> byte

    var bootRec: Record
    var blocksCnt: nat
    var indxInBlock: nat
    var fileRemainder: nat
    var addr: nat
    var programmedSize: nat
    var packetsCnt: nat
    var fileDone: bool
    var bootEncrypted: bool

    /** The contents of the boot loader's own part of the flash. */
    ghost const low: seq<byte>
    /** The file being received. */
    ghost var job: Job
    /** The erasures of the last sector so far. */
    ghost var log: Log
    /** The last file that was accepted. */
    ghost var kept: Kept

    /** The buffers are where they should be. */
    ghost predicate Layout() {
      && tables.Valid() && block.Length == HEADER + 10 && chainBlock.Length == 16 && block != chainBlock
      && block != tables.block1 && block != tables.block2 && block != tables.sBox
      && chainBlock != tables.block1 && chainBlock != tables.block2 && chainBlock != tables.sBox
    }

    /** The block cipher the file was to be encrypted for. */
    ghost function Key(): Block -> Block {
      Cbc.Decipher(tables.key)
    }

    /** What holds at every moment, in and between sessions. */
    ghost predicate Sound()
      reads this`log, device
    {
      Layout() && device.Valid() && Safe(device.past, low, log, beyond)
    }

    lemma SoundMeans()
      requires Sound()
      ensures Layout() && device.Valid() && |device.mem| == AREA && device.mem[..BOOTLOADER] == low
    {
      hide Blank, Writable, Guarded;
      SafeLast(device.past, low, log, beyond);
    }

    /** What has been read of the header and written of the body. */
    ghost predicate Image()
      reads this`job, this`bootRec, this`bootEncrypted
    {
      Faithful(job) && Read(Key(), iv, job, bootRec, bootEncrypted) && Decoded(Key(), iv, job, bootEncrypted)
    }

    /** What holds between packets of a file. */
    ghost predicate Session()
      reads this, device, chainBlock, tables.block1, tables.block2
    {
      && Sound() && packetsCnt > 0 && (fileDone ==> packetsCnt >= 2) && Counts(job, fileRemainder, indxInBlock, blocksCnt)
      && (if blocksCnt == 0 then !fileDone && job.last == 0 && |job.under| >= 16 && bootEncrypted == job.wasEncrypted && (Intact(job) ==> packetsCnt == 1)
          else && tables.Ready() && Image() && Chained(iv, job, bootEncrypted, chainBlock[..], fileRemainder > 0)
               && Started(device.mem, job, programmedSize, bootRec, fileDone, addr, log, fileRemainder))
    }

    constructor (device: Device, tables: Aes.Tables, iv: Block, beyond: nat -> byte)
      requires device.Valid() && tables.Valid() && device.past == [device.mem]
      ensures Sound() && this.device == device && this.tables == tables && log == [] && packetsCnt == 0
      ensures fresh(block) && fresh(chainBlock) && low == device.mem[..BOOTLOADER] && !bootEncrypted
    {
      this.device, this.tables, this.iv, this.beyond := device, tables, iv, beyond;
      block := new byte[HEADER + 10];
      chainBlock := new byte[16];
      bootRec := seq(RECORD, _ => 0);
      blocksCnt, indxInBlock, fileRemainder, addr, programmedSize, packetsCnt := 0, 0, 0, 0, 0, 0;
      fileDone, bootEncrypted := false, false;
      low, log, job := device.mem[..BOOTLOADER], [], Opened(0, false);
      kept := Kept(job, device.past);
      new;
      SafeStart(device.mem, beyond);
    }

    // ---- Blocks ----

    /** Decrypts a chunk at the beginning of the block. */
    method DecryptChunk(len: nat)
      requires Sound() && tables.Ready() && len <= HEADER
      modifies block, chainBlock
      ensures tables.Ready()
      ensures block[..len] == ChunkPlain(Key(), old(chainBlock[..]), old(block[..]), len)
      ensures len > 0 && len % 16 == 0 ==> chainBlock[..] == Cbc.NextChain(old(chainBlock[..]), old(block[..])[..len])
    {
      hide Cbc.Progress, Aes.Tables.Ready, ChunkPlain, Safe, Cbc.NextChain;
      BlocksBound(len, HEADER);
      Cbc.DecryptBlock(tables, block, 0, len, chainBlock);
      ProgressIs(tables.key, old(block[..]), len, old(chainBlock[..]), block[..], chainBlock[..]);
    }

    /** The last sector, with the boot record, is erased first. */
    method EraseLast(ghost head: seq<byte>)
      requires Sound()
      modifies device, this`log
      ensures Sound() && log == old(log) + [Erasure(|old(device.past)|, job.declared, head, bootRec, None)]
      ensures device.mem == Wiped(old(device.mem), 0)
      ensures Extends(old(device.past), device.past)
    {
      hide Safe, Erased, Wiped;
      SoundMeans();
      WipedStart(device.mem);
      SafeErasedLast(device.past, low, log, beyond, job.declared, head, bootRec);
      log := log + [Erasure(|device.past|, job.declared, head, bootRec, None)];
      var _ := device.SectorErase(AREA - SECTOR);
    }

    /** Sector i of the program area. */
    method EraseSector(i: nat, ghost m: seq<byte>)
      requires Sound() && log != [] && Last(log).verified.None? && i < MAX_SECTORS && |m| == AREA && device.mem == Wiped(m, i)
      modifies device
      ensures Sound() && device.mem == Wiped(m, i + 1)
      ensures Extends(old(device.past), device.past)
    {
      hide Safe, Erased, Wiped;
      WipedNext(m, i);
      SafeErased(device.past, low, log, beyond, BOOTLOADER + i * SECTOR);
      var _ := device.SectorErase(BOOTLOADER + i * SECTOR);
    }

    /** Erases the last sector first and then every sector of the image. */
    method EraseForImage(ghost head: seq<byte>)
      requires Sound()
      modifies device, this`log
      ensures Sound() && log == old(log) + [Erasure(|old(device.past)|, job.declared, head, bootRec, None)]
      ensures device.mem == Wiped(old(device.mem), SectorsOf(OrigImgSize(bootRec)))
      ensures Extends(old(device.past), device.past)
    {
      hide Sound, Wiped, Number, Extends;
      SoundMeans();
      EraseLast(head);
      var n := OrigImgSize(bootRec) / SECTOR;
      if OrigImgSize(bootRec) % SECTOR != 0 { n := n + 1; }
      if n >= MAX_SECTORS { n := MAX_SECTORS - 1; }
      for i := 0 to n
        invariant Sound() && device.mem == Wiped(old(device.mem), i)
        invariant log == old(log) + [Erasure(|old(device.past)|, job.declared, head, bootRec, None)]
        invariant Extends(old(device.past), device.past)
      {
        ghost var past := device.past;
        EraseSector(i, old(device.mem));
        ExtendsTwice(old(device.past), past, device.past);
      }
    }

    /** Writes a chunk at the current address and compares. */
    method ProgramChunk(chunk: nat) returns (same: bool)
      requires Sound() && BOOTLOADER <= addr && chunk <= HEADER && addr + chunk <= AREA
      requires chunk > 0 ==> log != [] && Last(log).verified.None?
      requires chunk > 0 && Writable(Last(log).size) ==> Writable(chunk) && addr + chunk <= RECORD_ADDR
      modifies device
      ensures Sound()
      ensures device.mem[..addr] == old(device.mem[..addr])
      ensures same <==> device.mem[addr..addr + chunk] == block[..chunk]
      ensures chunk == 0 ==> device.mem == old(device.mem)
      ensures Takes(old(device.mem), addr, chunk) ==> same
      ensures addr % 8 == 0 && chunk % 8 == 0 ==> device.mem[addr + chunk..] == old(device.mem)[addr + chunk..]
      ensures Extends(old(device.past), device.past)
    {
      hide Safe, Burnt, Phrases, Traced, Takes, Writable, Extends;
      var src := Ram(block[..], beyond);
      var _ := device.ByteProgram(addr, src, chunk);
      if chunk == 0 {
        NothingProgrammed(old(device.past), device.past, old(device.mem), addr, src);
        ExtendsSelf(device.past);
      } else {
        SafeProgrammed(old(device.past), device.past, low, log, beyond, addr, src, chunk);
      }
      BurntKeeps(old(device.mem), addr, src, Phrases(addr, chunk));
      if addr % 8 == 0 && chunk % 8 == 0 { BurntExactly(old(device.mem), addr, src, chunk); }
      if Takes(old(device.mem), addr, chunk) {
        BurntTakes(old(device.mem), addr, src, chunk);
        ReadsBack(device.mem, addr, chunk, block[..], beyond);
      }
      same := device.mem[addr..addr + chunk] == block[..chunk];
    }

    /** The first block of a file: finds the boot record, and if it will do, erases the flash for the image. */
    method HeaderBlock() returns (ok: bool)
      requires Sound()
      modifies this`bootRec, this`bootEncrypted, this`addr, this`programmedSize, this`log
      modifies device, block, chainBlock, tables.block1, tables.block2, tables.sBox
      ensures Sound()
      ensures ok <==> HeaderGood(Key(), iv, old(block[..HEADER]))
      ensures ok ==> tables.Ready() && addr == BOOTLOADER && programmedSize == 0
      ensures ok ==> log == old(log) + [Erasure(|old(device.past)|, job.declared, old(block[..HEADER]), bootRec, None)]
      ensures ok ==> device.mem == Wiped(old(device.mem), SectorsOf(OrigImgSize(bootRec)))
      ensures ok ==> bootRec == HeaderRecord(Key(), iv, old(block[..HEADER]))
      ensures ok ==> bootEncrypted == (old(bootEncrypted) || !HasMagic(old(block[..HEADER])))
      ensures ok ==> chainBlock[..] == BodyChain(iv, old(block[..HEADER]))
      ensures !ok ==> device.past == old(device.past) && device.mem == old(device.mem) && log == old(log)
      ensures old(bootEncrypted) ==> bootEncrypted
      ensures Extends(old(device.past), device.past)
    {
      hide Safe, Number, Wiped, Cbc.Decrypt, Cbc.Decipher, Aes.Tables.Ready, ChunkPlain, Extends;
      ExtendsSelf(device.past);
      ghost var h := block[..HEADER];
      CopyIn(chainBlock, 0, iv);
      assert chainBlock[..] == iv;
      tables.AesInit();
      assert block[..HEADER] == block[..][..HEADER] == h;
      bootRec := block[HEADER - RECORD..HEADER];
      assert bootRec == h[HEADER - RECORD..];
      if MagicVal(bootRec) != MAGIC_TAG {
        ChunkWhole(Key(), chainBlock[..], block[..], HEADER);
        DecryptChunk(HEADER);
        bootRec := block[HEADER - RECORD..HEADER];
        assert bootRec == block[..HEADER][HEADER - RECORD..];
        if MagicVal(bootRec) != MAGIC_TAG { return false; }
        bootEncrypted := true;
      }
      if OrigImgSize(bootRec) > MAX_IMAGE { return false; }
      if CompressFlag(bootRec) != 0 { return false; }
      EraseForImage(h);
      programmedSize := 0;
      addr := BOOTLOADER;
      return true;
    }

    /** A further block: decrypts the chunk if the file is encrypted, writes it and compares. */
    method BodyBlock(chunk: nat) returns (ok: bool, ghost out: seq<byte>)
      requires Sound() && tables.Ready() && chunk <= HEADER && BOOTLOADER <= addr && addr + chunk <= AREA
      requires chunk > 0 ==> log != [] && Last(log).verified.None?
      requires chunk > 0 && Writable(Last(log).size) ==> Writable(chunk) && addr + chunk <= RECORD_ADDR
      modifies this`addr, this`programmedSize, device, block, chainBlock
      ensures Sound() && tables.Ready() && |out| == chunk
      ensures device.mem[..old(addr)] == old(device.mem)[..old(addr)] && (chunk == 0 ==> device.mem == old(device.mem))
      ensures Takes(old(device.mem), old(addr), chunk) ==> ok
      ensures old(addr) % 8 == 0 && chunk % 8 == 0 ==> device.mem[old(addr) + chunk..] == old(device.mem)[old(addr) + chunk..]
      ensures ok ==> addr == old(addr) + chunk && programmedSize == old(programmedSize) + chunk
      ensures ok ==> device.mem[old(addr)..addr] == out
      ensures out == Written(Key(), bootEncrypted, old(chainBlock[..]), old(block[..]), chunk)
      ensures bootEncrypted && chunk > 0 && chunk % 16 == 0 ==> chainBlock[..] == Cbc.NextChain(old(chainBlock[..]), old(block[..])[..chunk])
      ensures Extends(old(device.past), device.past)
    {
      hide Safe, Number, Takes, Cbc.Decrypt, Cbc.Decipher, Cbc.NextChain, Writable, Aes.Tables.Ready, ChunkPlain, Extends;
      if bootEncrypted {
        DecryptChunk(chunk);
      }
      out := block[..chunk];
      assert !bootEncrypted ==> out == old(block[..])[..chunk];
      ok := ProgramChunk(chunk);
      if ok {
        addr := addr + chunk;
        programmedSize := programmedSize + chunk;
      }
    }

    // ---- Chunks ----

    /** The counters after a block that was due: they stay as they are when the session is given up. */
    method Advance(chunk: nat, ok: bool, ghost j: Job)
      requires chunk <= fileRemainder
      modifies this`fileRemainder, this`job, this`indxInBlock, this`blocksCnt
      ensures fileRemainder == old(fileRemainder) - chunk && job == j
      ensures indxInBlock == (if ok then 0 else old(indxInBlock) + chunk) && blocksCnt == old(blocksCnt) + if ok then 1 else 0
    {
      fileRemainder := fileRemainder - chunk;
      indxInBlock := indxInBlock + chunk;
      job := j;
      if ok {
        indxInBlock := 0;
        blocksCnt := blocksCnt + 1;
      }
    }

    /** The flash was erased for this file, and its image has not been verified. */
    ghost predicate Pending()
      reads this`job, this`bootRec, this`log
    {
      log != [] && Last(log).rec == bootRec && Last(log).size == job.declared && Last(log).verified.None?
    }

    /** A block could not be used: the header is none, or the flash did not take the chunk, for which it had not been erased. */
    ghost predicate Turned()
      reads this`job, this`bootRec, this`bootEncrypted, this`log
    {
      && |job.head| == HEADER && Faithful(job)
      && (HeaderGood(Key(), iv, job.head) ==> Read(Key(), iv, job, bootRec, bootEncrypted) && !Roomy(bootRec, job.declared) && Pending())
    }

    /** The due first block, of which chunk bytes have just been moved. */
    method FirstBlock(chunk: nat, ghost piece: seq<byte>) returns (ok: bool)
      requires Session() && blocksCnt == 0 && chunk == |piece| <= fileRemainder && chunk <= HEADER && block[..chunk] == piece
      requires chunk == fileRemainder || indxInBlock + chunk == HEADER
      requires chunk <= HEADER - indxInBlock
      modifies this`indxInBlock, this`blocksCnt, this`bootRec, this`bootEncrypted, this`addr, this`job, this`fileRemainder
      modifies this`programmedSize, this`log
      modifies device, block, chainBlock, tables.block1, tables.block2, tables.sBox
      ensures Sound() && job == WithHead(old(job), piece, old(block[..HEADER])) && fileRemainder == old(fileRemainder) - chunk
      ensures if ok then Session() && blocksCnt > 0 else Turned()
      ensures if ok then log == old(log) + [Erasure(|old(device.past)|, job.declared, job.head, bootRec, None)] else log == old(log)
      ensures ok ==> HeaderGood(Key(), iv, job.head) && bootRec == HeaderRecord(Key(), iv, job.head)
      ensures old(bootEncrypted) ==> bootEncrypted
      ensures Extends(old(device.past), device.past)
    {
      hide Sound, Tally, Decoded, Chained, Started, Fresh, HeaderGood, Number, Fits, Wiped, BodyChain, HeaderRecord, HasMagic, MagicVal;
      hide Cbc.Decipher, Aes.Tables.Ready, Faithful, Extends;
      SoundMeans();
      ghost var j, h := job, block[..HEADER];
      TallyFirst(j.declared, |j.file|, j.headChunk, |j.got|, j.last, fileRemainder, indxInBlock, chunk);
      CountsBound(j, fileRemainder, indxInBlock, 0);
      ghost var m := device.mem;
      assert h[..chunk] == piece;
      FaithfulFirst(j, piece, h);
      ok := HeaderBlock();
      Advance(chunk, ok, WithHead(j, piece, h));
      if ok {
        HeaderMeans(Key(), iv, h);
        WipedFresh(m, bootRec);
        StartedFirst(device.mem, job, bootRec, log, fileRemainder);
        DecodedFirst(Key(), iv, job, bootEncrypted);
        ChainedLess(iv, job, bootEncrypted, chainBlock[..], fileRemainder > 0);
      }
    }

    /** Writes a chunk behind what is in the flash already. */
    method WriteBlock(chunk: nat, ghost s: seq<byte>, ghost c: seq<byte>) returns (ok: bool, ghost out: seq<byte>)
      requires Sound() && tables.Ready() && InFlash(device.mem, job.plain) && chunk <= HEADER && BOOTLOADER + |job.plain| + chunk <= RECORD_ADDR
      requires if fileDone then addr == RECORD_ADDR && chunk == 0 else addr == BOOTLOADER + |job.plain|
      requires chunk > 0 ==> log != [] && Last(log).verified.None? && (Writable(Last(log).size) ==> Writable(chunk))
      requires s == block[..] && c == chainBlock[..]
      modifies this`addr, this`programmedSize, device, block, chainBlock
      ensures Sound() && tables.Ready() && |out| == chunk
      ensures ok ==> InFlash(device.mem, job.plain + out) && addr == old(addr) + chunk && programmedSize == old(programmedSize) + chunk
      ensures (chunk == 0 ==> device.mem == old(device.mem)) && |device.mem| == AREA
      ensures Takes(old(device.mem), old(addr), chunk) ==> ok
      ensures old(addr) % 8 == 0 && chunk % 8 == 0 ==> device.mem[old(addr) + chunk..] == old(device.mem)[old(addr) + chunk..]
      ensures out == Written(Key(), bootEncrypted, c, s, chunk)
      ensures bootEncrypted && chunk > 0 && chunk % 16 == 0 ==> chainBlock[..] == Cbc.NextChain(c, s[..chunk])
      ensures Extends(old(device.past), device.past)
    {
      hide Sound, InFlash, Number, Takes, Writable, Written, Extends, Cbc.NextChain, Cbc.Decipher, Aes.Tables.Ready;
      SoundMeans();
      InFlashMeans(device.mem, job.plain);
      ok, out := BodyBlock(chunk);
      SoundMeans();
      if ok {
        if chunk == 0 {
          assert job.plain + out == job.plain;
        } else {
          InFlashAppend(old(device.mem), device.mem, job.plain, out);
        }
      }
    }

    /** What a due further block finds. */
    lemma BeforeNext(chunk: nat)
      requires Session() && blocksCnt > 0 && chunk <= fileRemainder && chunk <= HEADER - indxInBlock
      requires chunk == fileRemainder || (chunk > 0 && indxInBlock + chunk == HEADER)
      ensures Layout() && |device.mem| == AREA && fileRemainder + |job.file| == job.declared
      ensures BOOTLOADER + |job.plain| + chunk <= RECORD_ADDR && (Writable(job.declared) ==> Writable(chunk))
      ensures chunk < fileRemainder ==> addr % 8 == 0 && chunk % 8 == 0
      ensures InFlash(device.mem, job.plain) && log != [] && Last(log).size == job.declared && (Last(log).verified.Some? <==> fileDone)
      ensures Last(log).rec == bootRec
      ensures if fileDone then addr == RECORD_ADDR && fileRemainder == 0 else addr == BOOTLOADER + |job.plain|
      ensures Roomy(bootRec, job.declared) || fileDone ==> Takes(device.mem, addr, chunk)
      ensures |job.plain| == |job.got| && Faithful(job) && job.headChunk + |job.got| <= |job.file|
    {
      hide InFlash, Started, Takes, Fresh, Roomy, Number, Fits, Writable, Safe, Cbc.Decipher, Aes.Tables.Ready;
      hide Accepted, ErasedEnd, Md5.Digest, Decoded, Read, Chained, Tally, Faithful;
      SoundMeans();
      CountsBound(job, fileRemainder, indxInBlock, blocksCnt);
      TallyNextMeans(job.declared, |job.file|, job.headChunk, |job.got|, job.last, fileRemainder, indxInBlock, blocksCnt, chunk);
      StartedMeans(device.mem, job, programmedSize, bootRec, fileDone, addr, log, fileRemainder);
      if Roomy(bootRec, job.declared) {
        StartedTakes(device.mem, job, programmedSize, bootRec, fileDone, addr, log, fileRemainder, chunk);
      }
      NothingTakes(device.mem, addr);
      if chunk < fileRemainder {
        Aligned(|job.plain|, chunk);
      }
    }

    /** The counters after a further block that could be written. */
    method Settle(chunk: nat, ghost j: Job)
      requires Sound() && tables.Ready() && packetsCnt > 0 && (fileDone ==> packetsCnt >= 2) && chunk <= fileRemainder
      requires Counts(j, fileRemainder - chunk, 0, blocksCnt + 1)
      requires Faithful(j) && Read(Key(), iv, j, bootRec, bootEncrypted) && Decoded(Key(), iv, j, bootEncrypted)
      requires Chained(iv, j, bootEncrypted, chainBlock[..], fileRemainder - chunk > 0)
      requires Started(device.mem, j, programmedSize, bootRec, fileDone, addr, log, fileRemainder - chunk)
      modifies this`indxInBlock, this`blocksCnt, this`job, this`fileRemainder
      ensures Session() && blocksCnt > 0 && job == j && fileRemainder == old(fileRemainder) - chunk
    {
      hide Sound, Counts, Started, Aes.Tables.Ready, Decoded, Read, Chained, Faithful, Cbc.Decipher;
      SoundMeans();
      Advance(chunk, true, j);
    }

    /** The counters after a further block that the flash did not take. */
    method Lose(chunk: nat, ghost piece: seq<byte>)
      requires Sound() && chunk <= fileRemainder && !Roomy(bootRec, job.declared) && Pending()
      requires Read(Key(), iv, job, bootRec, bootEncrypted) && Faithful(job) && job.headChunk + |job.got| <= |job.file|
      modifies this`indxInBlock, this`blocksCnt, this`job, this`fileRemainder
      ensures Sound() && Turned() && job == WithLost(old(job), piece) && fileRemainder == old(fileRemainder) - chunk
    {
      hide Sound, Roomy, Read, Faithful, HeaderGood, Cbc.Decipher;
      FaithfulLost(job, piece);
      NextRead(Key(), iv, job, WithLost(job, piece), bootRec, bootEncrypted);
      Advance(chunk, false, WithLost(job, piece));
    }

    /** A due further block, of which chunk bytes have just been moved. */
    method NextBlock(chunk: nat, ghost s: seq<byte>, ghost piece: seq<byte>) returns (ok: bool)
      requires Session() && blocksCnt > 0 && chunk == |piece| <= fileRemainder && chunk <= HEADER && s == block[..] && piece == s[..chunk]
      requires chunk == fileRemainder || (chunk > 0 && indxInBlock + chunk == HEADER)
      requires chunk <= HEADER - indxInBlock
      modifies this`indxInBlock, this`blocksCnt, this`addr, this`programmedSize, this`job, this`fileRemainder
      modifies device, block, chainBlock
      ensures Sound() && fileRemainder == old(fileRemainder) - chunk && job.file == old(job.file) + piece
      ensures job.declared == old(job.declared) && job.wasEncrypted == old(job.wasEncrypted) && job.headChunk == old(job.headChunk)
      ensures if ok then Session() && blocksCnt > 0 && (Intact(job) <==> old(Intact(job))) else Turned() && !fileDone
      ensures Extends(old(device.past), device.past)
    {
      hide Sound, Counts, InFlash, Started, Takes, Fresh, Roomy, Number, Writable, Written, Cbc.Decipher, Aes.Tables.Ready;
      hide Decoded, Read, Chained, Tally, Faithful, HeaderGood, Safe, WithNext, Intact, Extends;
      ghost var m, j, c := device.mem, job, chainBlock[..];
      ghost var start, size := addr, programmedSize;
      BeforeNext(chunk);
      ghost var out;
      ok, out := WriteBlock(chunk, s, c);
      if ok {
        NextHolds(Key(), iv, j, bootEncrypted, c, chainBlock[..], s, chunk, out, fileRemainder, indxInBlock, blocksCnt, bootRec);
        ghost var j' := WithNext(j, piece, out, s[chunk..]);
        StartedNext(m, device.mem, j, j', size, bootRec, fileDone, start, log, fileRemainder, chunk);
        Settle(chunk, j');
      } else {
        Lose(chunk, piece);
      }
    }

    /** A chunk after which the block is not due yet: the next chunk will be moved over it. */
    method KeepChunk(chunk: nat, ghost piece: seq<byte>)
      requires Session() && 0 < chunk == |piece| < fileRemainder && indxInBlock + chunk < HEADER && chunk % 128 == 0
      modifies this`indxInBlock, this`job, this`fileRemainder
      ensures Session() && job == WithLost(old(job), piece) && !Intact(job)
      ensures fileRemainder == old(fileRemainder) - chunk && indxInBlock == old(indxInBlock) + chunk
    {
      hide Sound, Counts, Started, Decoded, Read, Chained, Faithful, Aes.Tables.Ready, Cbc.Decipher, Intact;
      SoundMeans();
      CountsLost(job, piece, fileRemainder, indxInBlock, blocksCnt);
      if blocksCnt > 0 {
        LostHolds(Key(), iv, job, bootEncrypted, chainBlock[..], bootRec, piece);
        StartedLost(device.mem, job, programmedSize, bootRec, fileDone, addr, log, fileRemainder, piece);
      }
      indxInBlock := indxInBlock + chunk;
      fileRemainder := fileRemainder - chunk;
      job := WithLost(job, piece);
    }

    /** A chunk has been moved to the block: if the block is due, it is written. */
    method Place(chunk: nat, ghost rest: seq<byte>) returns (ok: bool)
      requires Session() && 0 < |rest| <= 1024 && |rest| % 128 == 0
      requires chunk == ChunkSize(indxInBlock, |rest|, fileRemainder) && block[..chunk] == rest[..chunk]
      modifies this`indxInBlock, this`fileRemainder, this`blocksCnt, this`job, this`bootRec, this`bootEncrypted, this`addr
      modifies this`programmedSize, this`log
      modifies device, block, chainBlock, tables.block1, tables.block2, tables.sBox
      ensures Sound() && fileRemainder == old(fileRemainder) - chunk
      ensures job.file == old(job.file) + rest[..chunk] && SameFile(job, old(job))
      ensures if ok then Session() && (fileRemainder == 0 ==> blocksCnt > 0) else Turned() && !fileDone
      ensures ok ==> (Intact(job) <==> old(Intact(job)) && Due(old(indxInBlock), chunk, fileRemainder))
      ensures ok && fileRemainder > 0 && blocksCnt == 0 ==> chunk == |rest|
      ensures old(blocksCnt) > 0 ==> log == old(log) && job.headChunk == old(job.headChunk)
      ensures old(blocksCnt) == 0 ==> log == old(log) || Adds(old(log), log, Key(), iv, job.declared, |old(job.file)|, rest)
      ensures old(blocksCnt) == 0 && Due(old(indxInBlock), chunk, fileRemainder) ==> job.headChunk == chunk
      ensures old(bootEncrypted) ==> bootEncrypted
      ensures Extends(old(device.past), device.past)
    {
      hide Safe, Sound, Tally, InFlash, Decoded, Chained, Number, Fits, HeaderGood, HeaderRecord, Roomy, Accepted, Started;
      hide Aes.Tables.Ready, Cbc.Decipher, Faithful, Read, Intact, Brought, Extends;
      ExtendsSelf(device.past);
      CountsBound(job, fileRemainder, indxInBlock, blocksCnt);
      SoundMeans();
      ghost var piece, s := rest[..chunk], block[..];
      assert s[..chunk] == piece;
      if chunk == fileRemainder || indxInBlock + chunk == HEADER {
        if blocksCnt == 0 {
          FirstIntact(job, piece, block[..HEADER]);
          BroughtBy(job, fileRemainder, indxInBlock, piece, block[..HEADER], rest);
          ok := FirstBlock(chunk, piece);
        } else {
          ok := NextBlock(chunk, s, piece);
        }
      } else {
        ChunkMultiple(indxInBlock, |rest|, chunk);
        KeepChunk(chunk, piece);
        ok := true;
      }
    }

    /** One turn of the packing loop: moves a chunk of the packet to the block, and if the block is due, writes it. */
    method Chunk(rest: seq<byte>) returns (chunk: nat, ok: bool)
      requires Session() && 0 < |rest| <= 1024 && |rest| % 128 == 0
      modifies this`indxInBlock, this`fileRemainder, this`blocksCnt, this`job, this`bootRec, this`bootEncrypted, this`addr
      modifies this`programmedSize, this`log
      modifies device, block, chainBlock, tables.block1, tables.block2, tables.sBox
      ensures Sound() && chunk == ChunkSize(old(indxInBlock), |rest|, old(fileRemainder)) && fileRemainder == old(fileRemainder) - chunk
      ensures job.file == old(job.file) + rest[..chunk] && SameFile(job, old(job))
      ensures if ok then Session() && (fileRemainder == 0 ==> blocksCnt > 0) else Turned() && !fileDone
      ensures ok ==> (Intact(job) <==> old(Intact(job)) && Due(old(indxInBlock), chunk, fileRemainder))
      ensures ok && fileRemainder > 0 && blocksCnt == 0 ==> chunk == |rest|
      ensures old(blocksCnt) > 0 ==> log == old(log) && job.headChunk == old(job.headChunk)
      ensures old(blocksCnt) == 0 ==> log == old(log) || Adds(old(log), log, Key(), iv, job.declared, |old(job.file)|, rest)
      ensures old(blocksCnt) == 0 && Due(old(indxInBlock), chunk, fileRemainder) ==> job.headChunk == chunk
      ensures old(bootEncrypted) ==> bootEncrypted
      ensures Extends(old(device.past), device.past)
    {
      hide Session, Sound, Turned, Adds, Intact, Extends;
      SessionMeans();
      chunk := HEADER - indxInBlock;
      if chunk > |rest| { chunk := |rest|; }
      if chunk > fileRemainder { chunk := fileRemainder; }
      MoveIn(rest[..chunk]);
      ok := Place(chunk, rest);
    }

    /** memcpy to the beginning of the block, wherever the index stands. */
    method MoveIn(piece: seq<byte>)
      requires Session() && |piece| <= HEADER
      modifies block
      ensures Session() && block[..|piece|] == piece
    {
      hide Sound, Counts, Started, Decoded, Read, Chained, Faithful, Aes.Tables.Ready, Cbc.Decipher;
      SoundMeans();
      CopyIn(block, 0, piece);
    }

    lemma SessionMeans()
      requires Session()
      ensures Layout() && indxInBlock < HEADER && fileRemainder + |job.file| == job.declared <= MAX_IMAGE && packetsCnt > 0
      ensures Intact(job) ==> indxInBlock == 0
      ensures fileRemainder > 0 ==> indxInBlock % 128 == 0 && !fileDone
      ensures blocksCnt == 0 ==> |job.file| == indxInBlock && !fileDone
      ensures blocksCnt > 0 && Intact(job) && job.declared >= HEADER ==> job.headChunk == HEADER
      ensures fileDone ==> packetsCnt >= 2
    {
      hide Sound, Started, Decoded, Read, Chained, Faithful, Aes.Tables.Ready, Cbc.Decipher, Tally, Intact;
      SoundMeans();
      CountsBound(job, fileRemainder, indxInBlock, blocksCnt);
      if blocksCnt > 0 {
        StartedMeans(device.mem, job, programmedSize, bootRec, fileDone, addr, log, fileRemainder);
        IntactHead(job, fileRemainder, indxInBlock, blocksCnt);
      }
    }

    // ---- The end of a file ----

    /** Finish_file_program: verifies the image and only then writes the boot record. */
    method FinishFileProgram() returns (success: bool)
      requires Sound() && OrigImgSize(bootRec) <= MAX_IMAGE && log != [] && Last(log).rec == bootRec
      modifies device, this`log, this`addr
      ensures Sound() && device.mem[..RECORD_ADDR] == old(device.mem)[..RECORD_ADDR]
      ensures packetsCnt < 2 || !Matches(old(device.mem), bootRec) ==>
        !success && device.past == old(device.past) && device.mem == old(device.mem) && log == old(log) && addr == old(addr)
      ensures packetsCnt >= 2 && Matches(old(device.mem), bootRec) ==> addr == RECORD_ADDR && log == Verified(old(log), |old(device.past)|)
      ensures success ==> packetsCnt >= 2 && Matches(old(device.mem), bootRec) && Accepted(device.mem, bootRec)
      ensures packetsCnt >= 2 && Matches(old(device.mem), bootRec) && (Blank(old(device.mem)) || RecordIn(old(device.mem)) == bootRec) ==> success
      ensures Extends(old(device.past), device.past)
    {
      hide Safe, Number, Md5.Digest, Md5.StandsFor, Burnt, Phrases, Traced, Matches, Takes, Blank, Recording, Extends;
      ExtendsSelf(device.past);
      MatchesIs(device.mem, bootRec);
      if packetsCnt < 2 { return false; }
      var image := device.mem[BOOTLOADER..BOOTLOADER + OrigImgSize(bootRec)];
      var md5sum := HashOf(image);
      if Hash(bootRec) != md5sum { return false; }
      Verify();
      addr := RECORD_ADDR;
      success := WriteRecord();
      MatchesBelow(old(device.mem), device.mem, bootRec);
    }

    method HashOf(image: seq<byte>) returns (md5sum: seq<byte>)
      requires |image| < AREA
      ensures md5sum == Md5.Digest(image)
    {
      hide Md5.Digest, Md5.StandsFor;
      var ctx := new Md5.Context();
      ctx.Starts();
      ctx.Update(image);
      assert ctx.message == image;
      md5sum := ctx.Finish();
    }

    /** The image matches: its record may be written. */
    ghost method Verify()
      requires Sound() && log != [] && Last(log).rec == bootRec && Matches(device.mem, bootRec)
      modifies this`log
      ensures Sound() && log == Verified(old(log), |device.past|) && log != [] && Last(log).rec == bootRec && Last(log).verified.Some?
    {
      hide Safe, Matches;
      if Last(log).verified.None? {
        SafeVerified(device.past, low, log, beyond);
        log := Relast(log, Last(log).(verified := Some(|device.past|)));
      }
    }

    /** Writes the record and compares. */
    method WriteRecord() returns (same: bool)
      requires Sound() && log != [] && Last(log).rec == bootRec && Last(log).verified.Some? && addr == RECORD_ADDR
      modifies device
      ensures Sound() && device.mem[..RECORD_ADDR] == old(device.mem)[..RECORD_ADDR]
      ensures same <==> RecordIn(device.mem) == bootRec
      ensures Blank(old(device.mem)) || RecordIn(old(device.mem)) == bootRec ==> same
      ensures Extends(old(device.past), device.past)
    {
      hide Safe, Burnt, Phrases, Traced, Takes, Blank, Recording, Extends;
      SoundMeans();
      ghost var m := device.mem;
      var src := Ram(bootRec, beyond);
      SixPhrases();
      var _ := device.ByteProgram(addr, src, RECORD);
      SafeRecorded(old(device.past), device.past, low, log, beyond);
      BurntKeeps(m, addr, src, Phrases(addr, RECORD));
      RecordRead(m, device.mem, bootRec, beyond);
      same := device.mem[addr..addr + RECORD] == bootRec;
      assert device.mem[addr..addr + RECORD] == RecordIn(device.mem);
    }

    /** The file is complete, but the image does not have the hash its record names, or came in too few packets. */
    ghost predicate Refuted(cnt: nat)
      reads this`job, this`bootRec, this`log, device
    {
      && Pending() && InFlash(device.mem, job.plain) && (Intact(job) ==> LastIs(|job.got|, job.last))
      && (cnt < 2 || !Matches(device.mem, bootRec))
    }

    /** The file is complete and was not accepted. */
    ghost predicate Declined(cnt: nat)
      reads this`job, this`bootRec, this`bootEncrypted, this`fileRemainder, this`log, device
    {
      Image() && fileRemainder == 0 && (!Writable(job.declared) || Refuted(cnt))
    }

    /** What the end of a file finds: until the image is verified the record is blank, afterwards it is in its place. */
    lemma BeforeEnd()
      requires Session() && blocksCnt > 0
      ensures |device.mem| == AREA && OrigImgSize(bootRec) <= MAX_IMAGE && log != [] && Last(log).rec == bootRec && Image()
      ensures InFlash(device.mem, job.plain) && (Last(log).verified.Some? <==> fileDone) && Last(log).size == job.declared
      ensures Intact(job) ==> LastIs(|job.got|, job.last)
      ensures !fileDone && Writable(job.declared) ==> Blank(device.mem)
      ensures fileDone ==> packetsCnt >= 2 && RecordIn(device.mem) == bootRec && Matches(device.mem, bootRec)
    {
      IntactLast(job, fileRemainder, indxInBlock, blocksCnt);
      hide Number, Tally, Blank, Writable, Fresh, Safe, LastIs, Intact, Aes.Tables.Ready, Cbc.Decipher, Started, Faithful, Read, Decoded, Chained, Matches, Fits, Guarded;
      StartedMeans(device.mem, job, programmedSize, bootRec, fileDone, addr, log, fileRemainder);
      FitsMeans(bootRec);
      SoundMeans();
      SafeLast(device.past, low, log, beyond);
    }

    /** Verifies and records the image when the file is complete. */
    method Complete() returns (success: bool)
      requires Session() && blocksCnt > 0 && fileRemainder == 0
      modifies this`log, this`addr, this`fileDone, this`kept, device
      ensures Sound() && Later(old(log), log) && |log| == |old(log)|
      ensures success ==> Session() && fileDone && Snapshot()
      ensures !success ==> Declined(packetsCnt) && !old(fileDone)
      ensures Extends(old(device.past), device.past)
    {
      hide Session, Sound, Image, InFlash, Matches, Number, Blank, Writable, Standing, Started, Accepted, Intact, LastIs, Extends, Snapshot;
      BeforeEnd();
      SessionMeans();
      ghost var m, start, was, before := device.mem, addr, fileDone, log;
      Rest();
      success := FinishFileProgram();
      VerifiedLater(before, |old(device.past)|);
      if success {
        Mark(m, start, was, before);
      }
    }

    /** The part of a session that its end does not change. */
    ghost predicate Standing()
      reads this`packetsCnt, this`blocksCnt, this`job, this`fileRemainder, this`indxInBlock, this`bootRec, this`bootEncrypted
      reads chainBlock, tables.block1, tables.block2
    {
      && packetsCnt > 0 && blocksCnt > 0 && Counts(job, fileRemainder, indxInBlock, blocksCnt)
      && tables.Ready() && Image() && Chained(iv, job, bootEncrypted, chainBlock[..], fileRemainder > 0)
    }

    lemma Rest()
      requires Session() && blocksCnt > 0
      ensures Sound() && Standing() && Started(device.mem, job, programmedSize, bootRec, fileDone, addr, log, fileRemainder)
    {
      hide Sound, Counts, Started, Aes.Tables.Ready, Image, Chained, Cbc.Decipher;
    }

    /** The file being received is the last one that was accepted, and nothing has been written since. */
    ghost predicate Snapshot()
      reads this`kept, this`job, device
    {
      kept == Kept(job, device.past)
    }

    /** The image is verified and recorded. */
    method Mark(ghost m: seq<byte>, ghost start: nat, ghost was: bool, ghost before: Log)
      requires Sound() && Standing() && packetsCnt >= 2 && fileRemainder == 0 && addr == RECORD_ADDR
      requires Started(m, job, programmedSize, bootRec, was, start, before, 0) && |m| == AREA
      requires device.mem[..RECORD_ADDR] == m[..RECORD_ADDR] && Accepted(device.mem, bootRec)
      requires before != [] && (exists n :: log == Verified(before, n))
      modifies this`fileDone, this`kept
      ensures Session() && fileDone && Snapshot()
    {
      hide Sound, Counts, Started, Aes.Tables.Ready, Image, Chained, Accepted, Cbc.Decipher;
      SoundMeans();
      StartedDone(m, device.mem, job, programmedSize, bootRec, was, start, before, log);
      fileDone := true;
      kept := Kept(job, device.past);
    }

    // ---- Packets ----

    /** A turn of the packing loop, with what follows it when the file is complete; ok means that every due block was written. */
    method PackOne(data: seq<byte>, p: nat, ghost f: seq<byte>) returns (chunk: nat, result: Result, ghost ok: bool)
      requires Session() && p < |data| <= 1024 && (|data| - p) % 128 == 0 && job.file == f + data[..p] && (blocksCnt == 0 ==> p == 0)
      modifies this`indxInBlock, this`fileRemainder, this`blocksCnt, this`job, this`bootRec, this`bootEncrypted, this`addr
      modifies this`programmedSize, this`log, this`fileDone, this`kept
      modifies device, block, chainBlock, tables.block1, tables.block2, tables.sBox
      ensures Sound() && SameFile(job, old(job)) && (result == Abort || result == Next)
      ensures chunk == ChunkSize(old(indxInBlock), |data| - p, old(fileRemainder)) && fileRemainder == old(fileRemainder) - chunk
      ensures p + chunk <= |data| && job.file == f + data[..p + chunk]
      ensures ok ==> (Intact(job) <==> old(Intact(job)) && Due(old(indxInBlock), chunk, fileRemainder))
      ensures result == Next ==> ok && Session() && (fileRemainder == 0 ==> fileDone && Snapshot())
      ensures result == Next && fileRemainder > 0 && blocksCnt == 0 ==> p + chunk == |data|
      ensures result == Abort ==> !old(fileDone) && if ok then Declined(packetsCnt) else Turned()
      ensures old(blocksCnt) > 0 ==> job.headChunk == old(job.headChunk)
      ensures old(blocksCnt) == 0 && Due(old(indxInBlock), chunk, fileRemainder) ==> job.headChunk == chunk
      ensures Goes(old(log), log, old(blocksCnt) == 0, Key(), iv, job.declared, |f|, data)
      ensures old(bootEncrypted) ==> bootEncrypted
      ensures Extends(old(device.past), device.past)
    {
      hide Sound, Session, Turned, Declined, Adds, Brought, Intact, Cbc.Decipher, ChunkSize, Extends, Snapshot;
      SessionMeans();
      ghost var a := log;
      var fits;
      chunk, fits := Chunk(data[p..]);
      ok := fits;
      ChunkFits(old(indxInBlock), |data| - p, old(fileRemainder));
      Appended(f, data, p, chunk);
      assert p == 0 ==> data[p..] == data && f + data[..p] == f;
      ghost var b, past := log, device.past;
      GoesOn(a, b, old(blocksCnt) == 0, Key(), iv, job.declared, |f|, data);
      if !fits { return chunk, Abort, ok; }
      if fileRemainder == 0 {
        var success := Complete();
        ExtendsTwice(old(device.past), past, device.past);
        GoesLater(a, b, log, old(blocksCnt) == 0, Key(), iv, job.declared, |f|, data);
        return chunk, if success then Next else Abort, ok;
      }
      return chunk, Next, ok;
    }

    /** A turn of the packing loop seen from the packet: p bytes of it have been taken before. */
    method PackTurn(data: seq<byte>, p: nat, ghost j: Job, ghost r: nat, ghost a: Log, ghost first: bool)
      returns (chunk: nat, result: Result, ghost ok: bool)
      requires Session() && (|data| == 128 || |data| == 1024) && Packing(j, job, data, p, r, fileRemainder, blocksCnt)
      requires Goes(a, log, first, Key(), iv, j.declared, |j.file|, data) && (p == 0 ==> log == a && (blocksCnt == 0 <==> first))
      modifies this`indxInBlock, this`fileRemainder, this`blocksCnt, this`job, this`bootRec, this`bootEncrypted, this`addr
      modifies this`programmedSize, this`log, this`fileDone, this`kept
      modifies device, block, chainBlock, tables.block1, tables.block2, tables.sBox
      ensures Sound() && TakenBy(j, job, data, r) && (result == Abort || result == Next)
      ensures result == Next ==> Session() && (fileDone <==> fileRemainder == 0) && p + chunk <= |data|
      ensures result == Next && (fileRemainder == 0 || p + chunk == |data|) ==> TakenAll(j, job, data, r) && fileRemainder == r - Min(|data|, r)
      ensures result == Next && fileRemainder > 0 ==> chunk > 0 && !old(fileDone) && (Intact(job) ==> blocksCnt > 0)
      ensures result == Next && fileRemainder > 0 && p + chunk < |data| ==> Packing(j, job, data, p + chunk, r, fileRemainder, blocksCnt)
      ensures result == Abort ==> !old(fileDone) && if ok then Declined(packetsCnt) && TakenAll(j, job, data, r) && |data| >= r else Turned()
      ensures Goes(a, log, first, Key(), iv, j.declared, |j.file|, data)
      ensures old(bootEncrypted) ==> bootEncrypted
      ensures Extends(old(device.past), device.past) && (result == Next && fileRemainder == 0 ==> Snapshot())
    {
      hide Sound, Session, Turned, Declined, Goes, Intact, Key, ChunkSize, Packing, TakenBy, TakenAll, Due, Extends, Snapshot;
      SessionMeans();
      PackingMeans(j, job, data, p, r, fileRemainder, blocksCnt);
      ghost var b, k, indx, cnt, rest := log, job, indxInBlock, blocksCnt, fileRemainder;
      chunk, result, ok := PackOne(data, p, j.file);
      PackingOn(j, k, job, data, p, r, indx, chunk, rest, cnt, blocksCnt);
      if p > 0 { GoesTwice(a, b, log, first, Key(), iv, j.declared, |j.file|, data); }
      if result == Abort {
        DeclinedMeans(packetsCnt);
      } else {
        SessionMeans();
      }
    }

    /** Ymodem_pack_prg_to_FLASH: cuts the data of a packet into blocks and writes them. */
    method PackPrgToFlash(data: seq<byte>) returns (result: Result, ghost ok: bool)
      requires Session() && (|data| == 128 || |data| == 1024)
      modifies this`indxInBlock, this`fileRemainder, this`blocksCnt, this`job, this`bootRec, this`bootEncrypted, this`addr
      modifies this`programmedSize, this`log, this`fileDone, this`packetsCnt, this`kept
      modifies device, block, chainBlock, tables.block1, tables.block2, tables.sBox
      ensures Sound() && TakenBy(old(job), job, data, old(fileRemainder)) && (result == Abort || result == Next)
      ensures result == Next ==> Session() && (fileDone <==> fileRemainder == 0) && packetsCnt == old(packetsCnt) + if fileDone then 0 else 1
      ensures result == Next && fileDone ==> Snapshot()
      ensures result == Next ==> TakenAll(old(job), job, data, old(fileRemainder))
      ensures result == Abort ==>
        !old(fileDone) && if ok then Declined(old(packetsCnt)) && TakenAll(old(job), job, data, old(fileRemainder)) && |data| >= old(fileRemainder)
                          else Turned()
      ensures Goes(old(log), log, old(blocksCnt) == 0, Key(), iv, job.declared, |old(job.file)|, data)
      ensures old(bootEncrypted) ==> bootEncrypted
      ensures Extends(old(device.past), device.past)
    {
      hide Sound, Session, Turned, Declined, Goes, Intact, Key, Packing, TakenBy, TakenAll, Extends, Snapshot;
      SessionMeans();
      ExtendsSelf(device.past);
      ghost var j, r, a, first, n := job, fileRemainder, log, blocksCnt == 0, packetsCnt;
      PackingStarts(j, data, r, blocksCnt);
      GoesNowhere(a, first, Key(), iv, j.declared, |j.file|, data);
      var p := 0;
      while true
        invariant Session() && Packing(j, job, data, p, r, fileRemainder, blocksCnt) && packetsCnt == n && p < |data|
        invariant p == 0 ==> log == a && (blocksCnt == 0 <==> first) && fileDone == old(fileDone)
        invariant p > 0 ==> !old(fileDone)
        invariant Goes(a, log, first, Key(), iv, j.declared, |j.file|, data) && Extends(old(device.past), device.past)
        invariant old(bootEncrypted) ==> bootEncrypted
        decreases |data| - p
      {
        var chunk, res;
        ghost var past := device.past;
        chunk, res, ok := PackTurn(data, p, j, r, a, first);
        TakenSame(j, job, data, r);
        ExtendsTwice(old(device.past), past, device.past);
        if res == Abort || fileRemainder == 0 { return res, ok; }
        p := p + chunk;
        if p == |data| { break; }
      }
      CountPacket();
      return Next, true;
    }

    lemma DeclinedMeans(cnt: nat)
      ensures Declined(cnt) ==> fileRemainder == 0
    {}

    /** The packet has been taken as a whole and the file goes on. */
    method CountPacket()
      requires Session() && fileRemainder > 0 && (Intact(job) ==> blocksCnt > 0)
      modifies this`packetsCnt
      ensures Session() && packetsCnt == old(packetsCnt) + 1 && !fileDone
    {
      hide Sound, Counts, Started, Chained, Image, Aes.Tables.Ready, Cbc.Decipher;
      SessionMeans();
      packetsCnt := packetsCnt + 1;
    }

    // ---- Sessions ----

    /** The session stands where the events have brought it. */
    ghost predicate Follows(t: Track)
      reads this, device, chainBlock, tables.block1, tables.block2
    {
      && Sound() && packetsCnt == t.cnt && fileDone == t.done && (t.done ==> Snapshot())
      && (if t.cnt == 0 then !t.done
          else Session() && job.declared == t.size && job.file == t.data && (Intact(job) <==> t.intact))
    }

    /** A data packet that was refused: what had been taken then, and why it was. */
    ghost predicate RefusedData(t: Track, data: seq<byte>)
      reads this`job, this`bootRec, this`bootEncrypted, this`fileRemainder, this`log, device
    {
      var u := Take(t, data);
      && job.declared == t.size && t.data <= job.file <= u.data && !t.done
      && (t.intact && (u.intact || t.data != []) && t.size >= HEADER ==> job.headChunk == HEADER)
      && (Turned() || (Declined(t.cnt) && u.done && job.file == u.data && (Intact(job) <==> u.intact)))
    }

    /** Ymodem_packets_processing: the first packet of a session names the file, the others carry it. */
    method PacketsProcessing(packet: Packet, ghost t: Track) returns (result: Result)
      requires Follows(t)
      modifies this, device, block, chainBlock, tables.block1, tables.block2, tables.sBox
      ensures Sound()
      ensures result == First ==> t.cnt == 0 && !Unfit(t, packet) && Follows(Track(1, DeclaredSize(Data(packet)), [], false, true))
      ensures result == First ==> job.wasEncrypted == bootEncrypted == old(bootEncrypted)
      ensures result == Next ==> t.cnt > 0 && !Unfit(t, packet) && Follows(Take(t, Data(packet)))
      ensures result == Abort ==> Unfit(t, packet) || (t.cnt > 0 && RefusedData(t, Data(packet)))
      ensures t.cnt > 0 ==> job.wasEncrypted == old(job.wasEncrypted)
      ensures if t.cnt > 0 then Goes(old(log), log, true, Key(), iv, t.size, |t.data|, Data(packet)) else log == old(log)
      ensures t.cnt == 0 || Unfit(t, packet) ==> device.past == old(device.past) && device.mem == old(device.mem) && kept == old(kept)
      ensures old(bootEncrypted) ==> bootEncrypted
      ensures Extends(old(device.past), device.past)
    {
      hide Session, Sound, DeclaredSize, Goes, Turned, Declined, TakenBy, TakenAll, Intact, Take, Key, Extends;
      ExtendsSelf(device.past);
      GoesNowhere(log, true, Key(), iv, t.size, |t.data|, Data(packet));
      if packet[0] == SOH && packet[1] == 0 && packet[2] == 0xFF && packet[3] == 0 && packet[4] == 0 { return Abort; }
      if packetsCnt == 0 {
        var fileSize := ReadHeader(Data(packet));
        if fileSize > MAX_IMAGE { return Abort; }
        Open(fileSize);
        return First;
      } else {
        SessionMeans();
        ghost var a, j, r, first := log, job, fileRemainder, blocksCnt == 0;
        ghost var ok;
        result, ok := PackPrgToFlash(Data(packet));
        TakenSame(j, job, Data(packet), r);
        GoesFirst(a, log, first, Key(), iv, t.size, |t.data|, Data(packet));
        TakeIs(t, j, job, Data(packet), r);
        if result == Next { SessionMeans(); }
      }
    }

    /** A new file. */
    method Open(fileSize: nat)
      requires Sound() && packetsCnt == 0 && !fileDone && fileSize <= MAX_IMAGE
      modifies this`blocksCnt, this`indxInBlock, this`fileRemainder, this`packetsCnt, this`job
      ensures Session() && packetsCnt == 1 && !fileDone && job == Opened(fileSize, bootEncrypted) && Intact(job)
    {
      hide Sound;
      CountsOpened(fileSize, bootEncrypted);
      hide Tally;
      job := Opened(fileSize, bootEncrypted);
      blocksCnt, indxInBlock, fileRemainder := 0, 0, fileSize;
      packetsCnt := packetsCnt + 1;
    }

    /** The end of a file: a new one may follow. */
    method EndFile(ghost t: Track) returns (done: bool)
      requires Follows(t)
      modifies this`fileDone, this`packetsCnt
      ensures Follows(Follow(t, EndOfFile)) && done == t.done
    {
      hide Sound, Counts, Started, Image, Chained, Aes.Tables.Ready, Cbc.Decipher, Intact;
      done := fileDone;
      if fileDone {
        fileDone := false;
        packetsCnt := 0;
      }
    }

    /** A new run, or the end of one. */
    method Restart()
      requires Sound()
      modifies this`packetsCnt, this`fileDone
      ensures Follows(NOTHING)
    {
      hide Sound;
      packetsCnt := 0;
      fileDone := false;
    }

    /** The event after those that were handled ended the run with a data packet that was refused. */
    ghost predicate Refused(events: seq<Event>)
      reads this`job, this`bootRec, this`bootEncrypted, this`fileRemainder, this`log, device
    {
      events != [] &&
      var t, e := FollowAll(NOTHING, events[..|events| - 1]), events[|events| - 1];
      e.Received? && t.cnt > 0 && IsNumber(e.packet, t.cnt) && RefusedData(t, Data(e.packet))
    }

    /** What the last data packet of a run left in the flash is still there. */
    ghost predicate AtRest(b: Before, rest: Rest)
      reads this`kept, device
    {
      match rest
      case Untouched => device.past == b.past
      case Left(t, first) => kept.past == device.past && LeftIn(kept.job, device.mem, t) && (first ==> kept.job.wasEncrypted == b.flag)
      case Busy => true
    }

    /** Where the events of a run have brought the loader. */
    ghost predicate Running(b: Before, events: seq<Event>)
      reads this, device, chainBlock, tables.block1, tables.block2
    {
      && Follows(FollowAll(NOTHING, events)) && Grown(b.log, log, Key(), iv, events) && Extends(b.past, device.past)
      && (b.flag ==> bootEncrypted) && (Single(events) ==> FlagKept(b.flag, FollowAll(NOTHING, events).cnt))
      && AtRest(b, RestAfter(events))
    }

    /** How a run ended: the flash is safe, and if it was a data packet that ended it, it is known why. */
    ghost predicate Ended(b: Before, events: seq<Event>)
      reads this`job, this`bootRec, this`bootEncrypted, this`fileRemainder, this`log, this`kept, device
    {
      && Sound() && events != [] && Grown(b.log, log, Key(), iv, events) && Extends(b.past, device.past) && (b.flag ==> bootEncrypted)
      && (if Stops(events) then AtRest(b, RestAfter(events)) else Refused(events))
      && (Single(events[..|events| - 1]) && FollowAll(NOTHING, events[..|events| - 1]).cnt > 0 ==> job.wasEncrypted == b.flag)
    }

    /** The encryption flag as the session found it. */
    ghost predicate FlagKept(flag: bool, cnt: nat)
      reads this`job, this`bootEncrypted
    {
      if cnt > 0 then job.wasEncrypted == flag else bootEncrypted == flag
    }

    lemma RunningMeans(b: Before, events: seq<Event>)
      requires Running(b, events)
      ensures Sound() && Follows(FollowAll(NOTHING, events)) && Grown(b.log, log, Key(), iv, events)
      ensures packetsCnt == FollowAll(NOTHING, events).cnt && fileDone == FollowAll(NOTHING, events).done
    {
      hide Session, Sound, FollowAll, Grown, Single, Extends, AtRest, Snapshot;
    }

    /** An event that changes nothing, or stops the run. */
    lemma Quiet(b: Before, events: seq<Event>, e: Event)
      requires Running(b, events)
      ensures e.Error? || e.Timeout? ==> Running(b, events + [e])
      ensures e.Received? && !IsNumber(e.packet, packetsCnt) ==> Running(b, events + [e])
      ensures Stops(events + [e]) && !e.Received? ==> Ended(b, events + [e])
    {
      hide Session, Sound, FollowAll, Grown, Single, Stops, Refused, Take, DeclaredSize, Extends, AtRest, RestAfter, Snapshot;
      FollowOne(NOTHING, events, e);
      SingleIs(events, e);
      RestIs(events, e);
      GrownOn(b.log, log, Key(), iv, events, e);
    }

    /** A file that is done has left in the flash what it should. */
    lemma Keeps(b: Before, t: Track, first: bool)
      requires Follows(t) && t.done && (first ==> job.wasEncrypted == b.flag)
      ensures AtRest(b, Left(t, first))
    {
      hide Session, Sound, Accepted, HeaderRecord, Stored, HashMatches, Intact;
      TwoPackets(t);
      if t.intact && t.size >= HEADER && t.cnt > 0 {
        Delivered(t);
      }
    }

    /** One packet: it is answered, and may end the run. */
    method OnPacket(packet: Packet, ghost events: seq<Event>, ghost b: Before) returns (sent: seq<byte>, ended: bool, first: bool)
      requires Running(b, events)
      modifies this, device, block, chainBlock, tables.block1, tables.block2, tables.sBox
      ensures if ended then sent == [CA, CA] && Ended(b, events + [Received(packet)])
              else Running(b, events + [Received(packet)]) && !Stops(events + [Received(packet)])
      ensures !ended ==> sent == Reply(FollowAll(NOTHING, events), Received(packet))
      ensures !ended ==> (first <==> FollowAll(NOTHING, events).cnt == 0 && packet[1] == 0)
    {
      hide Sound, Session, Follow, Follows, DeclaredSize, Take, Grown, Key, FollowAll, Unfit, Single, Extends, RestAfter, AtRest, Ended, Running, Stops;
      ghost var t, e := FollowAll(NOTHING, events), Received(packet);
      RunningMeans(b, events);
      Quiet(b, events, e);
      EventIs(events, e);
      if packet[1] != (packetsCnt % 0x100) as byte {
        return [NAK], false, false;
      }
      var result := TakePacket(packet, events, b);
      if result == Abort {
        return [CA, CA], true, false;
      }
      return if result == First then [ACK, CRC16] else [ACK], false, result == First;
    }

    /** A packet with the number expected. */
    method TakePacket(packet: Packet, ghost events: seq<Event>, ghost b: Before) returns (result: Result)
      requires Running(b, events) && IsNumber(packet, FollowAll(NOTHING, events).cnt)
      modifies this, device, block, chainBlock, tables.block1, tables.block2, tables.sBox
      ensures result == Abort ==> Ended(b, events + [Received(packet)])
      ensures result != Abort ==> Running(b, events + [Received(packet)]) && !Unfit(FollowAll(NOTHING, events), packet)
      ensures result != Abort ==> (result == First <==> FollowAll(NOTHING, events).cnt == 0)
    {
      hide Sound, Session, Follow, Follows, DeclaredSize, Take, RefusedData, Goes, Grown, Key, FollowAll, Unfit, Single, Extends, RestAfter, LeftIn, Stops;
      ghost var t, a, e, past := FollowAll(NOTHING, events), log, Received(packet), device.past;
      RunningMeans(b, events);
      FollowOne(NOTHING, events, e);
      SingleIs(events, e);
      RestIs(events, e);
      EventIs(events, e);
      UnfitIs(t, packet);
      result := PacketsProcessing(packet, t);
      GrownBy(b.log, a, log, Key(), iv, events, packet);
      ExtendsTwice(b.past, past, device.past);
      if result == Abort {
        Restart();
      } else if result == Next && Take(t, Data(packet)).done {
        Keeps(b, Take(t, Data(packet)), Single(events));
      }
    }

    /** The end of a file: a new one may follow. */
    method OnEndOfFile(ghost events: seq<Event>, ghost b: Before) returns (sent: seq<byte>)
      requires Running(b, events)
      modifies this`fileDone, this`packetsCnt
      ensures Running(b, events + [EndOfFile]) && sent == Reply(FollowAll(NOTHING, events), EndOfFile)
    {
      hide Sound, Session, Follow, Follows, Grown, Key, FollowAll, Single, Extends, RestAfter, AtRest;
      RunningMeans(b, events);
      FollowOne(NOTHING, events, EndOfFile);
      SingleIs(events, EndOfFile);
      RestIs(events, EndOfFile);
      GrownOn(b.log, log, Key(), iv, events, EndOfFile);
      var done := EndFile(FollowAll(NOTHING, events));
      sent := if done then [NAK] else [ACK, CRC16];
    }

    /** One turn of the loop of Ymodem_programmator. */
    method OnEvent(e: Event, errors: nat, sessionBegin: bool, ghost events: seq<Event>, ghost b: Before)
      returns (reply: seq<byte>, stop: bool, errors': nat, sessionBegin': bool)
      requires Running(b, events) && NoneStops(events) && errors == Errors(events) && sessionBegin == Begun(events)
      modifies this, device, block, chainBlock, tables.block1, tables.block2, tables.sBox
      ensures stop ==> Ended(b, events + [e]) && reply == if e.Cancelled? then [0x06] else [0x18, 0x18]
      ensures e.Error? ==> (stop <==> errors + (if sessionBegin then 1 else 0) > 5)
      ensures !stop ==> Running(b, events + [e]) && NoneStops(events + [e]) && Replies(events + [e]) == Replies(events) + reply
      ensures !stop ==> reply == Reply(FollowAll(NOTHING, events), e)
      ensures !stop ==> errors' == Errors(events + [e]) && sessionBegin' == Begun(events + [e])
    {
      hide Sound, Session, Follow, FollowAll, Running, Ended, Stops, NoneStops, Replies, Errors, Begun, Reply, IsPacket, IsNumber, Unfit, Extends;
      EventIs(events, e);
      Quiet(b, events, e);
      RunningMeans(b, events);
      reply, stop, errors', sessionBegin' := [CRC16], false, 0, sessionBegin;
      match e
      case Received(packet) =>
        var first;
        reply, stop, first := OnPacket(packet, events, b);
        sessionBegin' := sessionBegin || first;
      case EndOfFile =>
        reply := OnEndOfFile(events, b);
      case Cancelled =>
        reply, stop := [ACK], true;
      case UserAbort =>
        reply, stop := [CA, CA], true;
      case Error =>
        errors' := if sessionBegin then errors + 1 else errors;
        if errors' > MAX_ERRORS {
          reply, stop := [CA, CA], true;
        }
      case Timeout =>
        errors' := errors;
    }

    /** A run begins. */
    method StartRun() returns (sent: seq<byte>)
      requires Sound()
      modifies this`packetsCnt, this`fileDone
      ensures sent == Replies([]) && Running(Before(log, bootEncrypted, device.past), [])
      ensures NoneStops([]) && Errors([]) == 0 && !Begun([])
    {
      hide Sound, Running;
      Restart();
      RunStarts(log, Key(), iv);
      RunningStarts(Before(log, bootEncrypted, device.past));
      return [CRC16];
    }

    /**
     * Ymodem_programmator over the events of a run. It ends at the first event that stops it, or at a data packet that is
     * refused; until then every event is answered and the session is where the events have brought it. What a file that is
     * done has left in the flash stays there until a further data packet is taken, also when the run ends meanwhile.
     */
    method Programmator(events: seq<Event>) returns (sent: seq<byte>, ended: bool, handled: nat)
      requires Sound()
      modifies this, device, block, chainBlock, tables.block1, tables.block2, tables.sBox
      ensures Sound() && handled <= |events| && Extends(old(device.past), device.past)
      ensures var b := Before(old(log), old(bootEncrypted), old(device.past));
              if ended then handled > 0 && Ended(b, events[..handled]) && NoneStops(events[..handled - 1])
              else handled == |events| && Running(b, events) && NoneStops(events)
      ensures sent == if ended then Replies(events[..handled - 1]) + if events[handled - 1].Cancelled? then [ACK] else [CA, CA]
                      else Replies(events)
      ensures !ended ==> Count(sent, ACK) == Packets(events, true) + FileEnds(events, false)
      ensures !ended ==> Count(sent, NAK) == Packets(events, false) + FileEnds(events, true)
    {
      hide Sound, Session, Follow, FollowAll, Running, Ended, Stops, NoneStops, Replies, Errors, Begun, Reply, IsPacket, IsNumber, Unfit, Extends;
      ghost var b := Before(log, bootEncrypted, device.past);
      var errors, sessionBegin := 0, false;
      sent := StartRun();
      for i := 0 to |events|
        invariant Running(b, events[..i]) && NoneStops(events[..i])
        invariant sent == Replies(events[..i]) && errors == Errors(events[..i]) && sessionBegin == Begun(events[..i])
      {
        assert events[..i + 1] == events[..i] + [events[i]] && events[..i + 1 - 1] == events[..i];
        var reply, stop;
        reply, stop, errors, sessionBegin := OnEvent(events[i], errors, sessionBegin, events[..i], b);
        EndedMeans(b, events[..i + 1], stop);
        sent := sent + reply;
        if stop { return sent, true, i + 1; }
      }
      assert events[..|events|] == events;
      EndedMeans(b, events, false);
      AcksAreTaken(events);
      return sent, false, |events|;
    }

    lemma RunningStarts(b: Before)
      requires Follows(NOTHING) && b == Before(log, bootEncrypted, device.past)
      ensures Running(b, [])
    {
      hide Follows;
      RunStarts(b.log, Key(), iv);
    }

    lemma EndedMeans(b: Before, events: seq<Event>, ended: bool)
      requires if ended then Ended(b, events) else Running(b, events)
      ensures Sound() && Extends(b.past, device.past)
    {
      hide Sound, Session, Extends, AtRest;
    }

    // ---- What a file leaves in the flash ----

    /** A file is decrypted if the encryption flag was set, or if its header shows no magic number. */
    ghost predicate Encrypted(j: Job, f: seq<byte>)
      requires |f| >= HEADER
    {
      j.wasEncrypted || !HasMagic(f[..HEADER])
    }

    /** The program area holds the body of the file, decoded, as far as the block routine decrypts it. */
    ghost predicate Stored(j: Job, m: seq<byte>, f: seq<byte>) {
      && |m| == AREA && HEADER <= |f| && BOOTLOADER + |f| - HEADER <= RECORD_ADDR
      && Ends(f[HEADER..], j.last, j.under) && LastIs(|f| - HEADER, j.last)
      && m[BOOTLOADER..BOOTLOADER + |f| - HEADER] ==
         BodyPlain(Key(), Encrypted(j, f), BodyChain(iv, f[..HEADER]), f[HEADER..], j.last, j.under)
    }

    /** What a file that is done has left in the flash. */
    ghost predicate LeftIn(j: Job, m: seq<byte>, t: Track) {
      && j.declared == t.size && j.file == t.data && t.cnt >= 2
      && (t.intact && t.size >= HEADER ==>
            HEADER <= |t.data| && Stored(j, m, t.data) && Accepted(m, HeaderRecord(Key(), iv, t.data[..HEADER])))
    }

    /**
     * Once the header is taken, what remains, the chunk that completed the header and what is written make up the declared
     * size if and only if every data packet was a long one or brought all that remained. Otherwise something was lost.
     */
    lemma Balance(t: Track)
      requires Follows(t) && t.cnt > 0 && blocksCnt > 0
      ensures fileRemainder + job.headChunk + programmedSize <= t.size
      ensures fileRemainder + job.headChunk + programmedSize == t.size <==> t.intact
      ensures t.intact && t.size >= HEADER ==> job.headChunk == HEADER
      ensures t.done && t.size >= HEADER ==> (job.headChunk == HEADER && programmedSize == t.size - HEADER <==> t.intact)
    {
      hide Number, Safe, Cbc.Decipher, HasMagic, MagicVal, HeaderRecord, BodyPlain, BodyChain, Accepted, InFlash, Fresh, Fits, Read, Decoded, Chained;
      IntactHead(job, fileRemainder, indxInBlock, blocksCnt);
    }

    /** A file that came intact and is done is in the flash, with its boot record, and would be started. */
    lemma Delivered(t: Track)
      requires Follows(t) && t.cnt > 0 && t.done && t.intact && t.size >= HEADER
      ensures |t.data| == t.size && Stored(job, device.mem, t.data) && bootEncrypted == Encrypted(job, t.data) && device.mem[..BOOTLOADER] == low
      ensures Accepted(device.mem, HeaderRecord(Key(), iv, t.data[..HEADER])) && HashMatches(device.mem, beyond)
    {
      hide Number, Safe, Cbc.Decipher, HasMagic, MagicVal, HeaderGood, HeaderRecord, BodyPlain, BodyChain, Matches, HashMatches, Tally, Chained;
      hide Aes.Tables.Ready, Intact, Ends, LastIs, Fits, Fresh, RecordIn;
      SoundMeans();
      SessionMeans();
      CountsBound(job, fileRemainder, indxInBlock, blocksCnt);
      IntactLast(job, fileRemainder, indxInBlock, blocksCnt);
      AcceptedMatches(device.mem, bootRec, beyond);
    }

    /** A file refused for its hash is in the flash all the same, but nothing would be started. */
    lemma NotAccepted(cnt: nat)
      requires Sound() && Declined(cnt) && Writable(job.declared) && Intact(job) && job.headChunk == HEADER
      ensures Stored(job, device.mem, job.file) && bootRec == HeaderRecord(Key(), iv, job.file[..HEADER]) && !Starts(device.mem, beyond)
      ensures cnt < 2 || !Matches(device.mem, bootRec)
    {
      hide Number, Safe, Cbc.Decipher, HasMagic, MagicVal, HeaderGood, HeaderRecord, BodyPlain, BodyChain, Matches, Ends, LastIs, Fits, Starts;
      hide Intact;
      PendingNeverStarts();
      InFlashMeans(device.mem, job.plain);
    }

    /** As long as the image of a file has not been verified, nothing would be started. */
    lemma PendingNeverStarts()
      requires Sound() && Pending() && Writable(job.declared)
      ensures |device.mem| == AREA && !Starts(device.mem, beyond)
    {
      hide Guarded, Starts, Writable, Blank;
      SafeLast(device.past, low, log, beyond);
      BlankNeverStarts(device.mem, beyond);
    }

    /** At whatever moment a run is cut off, nothing is started but an image that was verified against the record of its own file. */
    lemma OnlyVerified(k: nat)
      requires Sound() && log != [] && log[0].at <= k < |device.past|
      ensures var e, m := log[InForce(log, k)], device.past[k];
              && |m| == AREA && m[..BOOTLOADER] == low
              && (Writable(e.size) && Starts(m, beyond) ==>
                  && e.verified.Some? && e.verified.value <= k && Matches(m, e.rec)
                  && Hash(RecordIn(m)) == Hash(e.rec) && OrigImgSize(RecordIn(m)) == OrigImgSize(e.rec))
    {
      hide Safe, Starts, Writable, Matches, Number;
      OnlyVerifiedStarts(device.past, low, log, beyond, k);
    }

    /** A plain file is written as it was sent, unless the encryption flag is still set from an earlier file: then it is decrypted. */
    lemma PlainFile(j: Job, m: seq<byte>, f: seq<byte>)
      requires Stored(j, m, f) && HasMagic(f[..HEADER])
      ensures !j.wasEncrypted ==> m[BOOTLOADER..BOOTLOADER + |f| - HEADER] == f[HEADER..]
      ensures j.wasEncrypted && Cbc.Whole(f[HEADER..]) ==> m[BOOTLOADER..BOOTLOADER + |f| - HEADER] == Cbc.Decrypt(Key(), iv, f[HEADER..])
    {
      hide HasMagic, Cbc.Decipher;
      if j.wasEncrypted && Cbc.Whole(f[HEADER..]) {
        BodyWhole(Key(), iv, f[HEADER..], j.last, j.under);
      }
    }

    /** Of an encrypted file the whole ciphertext blocks are decrypted, and the rest only if it is alone in its chunk. */
    lemma EncryptedBody(j: Job, m: seq<byte>, f: seq<byte>)
      requires Stored(j, m, f) && Encrypted(j, f)
      ensures m[BOOTLOADER..BOOTLOADER + |f| - HEADER] == Deciphered(Key(), BodyChain(iv, f[..HEADER]), f[HEADER..], j.under)
    {
      hide HasMagic, Cbc.Decipher, BodyPlain, BodyChain, Deciphered, LastIs, Ends;
      DecipheredIs(Key(), BodyChain(iv, f[..HEADER]), f[HEADER..], j.last, j.under);
    }

    // ---- Whole transfers ----

    /** A file that does not fit one packet, with a good header, of a size that goes with the flash and with its image. */
    ghost predicate Good(f: seq<byte>) {
      |f| > 1024 && HeaderGood(Key(), iv, f[..HEADER]) && Roomy(HeaderRecord(Key(), iv, f[..HEADER]), |f|) && Writable(|f|)
    }

    /** The file was taken to its end, but the image it left in the flash does not have the hash its header names. */
    ghost predicate WrongHash(f: seq<byte>)
      reads this`job, device
    {
      Stored(job, device.mem, f) && !Matches(device.mem, HeaderRecord(Key(), iv, f[..HEADER])) && !Starts(device.mem, beyond)
    }

    /** Of such a file a packet is refused for one reason only. */
    lemma WhyRefused(t: Track, data: seq<byte>, f: seq<byte>)
      requires Sound() && RefusedData(t, data) && Good(f) && |data| <= 1024 && t.cnt > 0 && (t.cnt == 1 ==> t.data == [] || t.done)
      requires var u := Take(t, data); u.intact && u.size == |f| && u.data <= f && (u.done ==> u.data == f)
      ensures Take(t, data).data == f && WrongHash(f)
    {
      hide Number, Sound, HeaderGood, HeaderRecord, Roomy, Writable, Matches, Starts, Decoded, InFlash, Intact, Pending, LastIs, Stored, HasMagic;
      assert job.file[..HEADER] == f[..HEADER];
      NotAccepted(t.cnt);
    }

    lemma RefusedMeans(events: seq<Event>)
      requires Refused(events)
      ensures events != []
      ensures var t, e := FollowAll(NOTHING, events[..|events| - 1]), events[|events| - 1];
              && e.Received? && t.cnt > 0 && IsNumber(e.packet, t.cnt) && RefusedData(t, Data(e.packet)) && FollowAll(NOTHING, events) == Take(t, Data(e.packet))
    {
      hide RefusedData, Take;
    }

    lemma NotRefused(header: Packet)
      ensures !Refused([Received(header)])
    {
      hide RefusedData;
      assert [Received(header)][..0] == [];
    }

    lemma EndedFacts(b: Before, events: seq<Event>)
      requires Ended(b, events)
      ensures Sound() && events != [] && (Stops(events) || Refused(events)) && (Stops(events) ==> AtRest(b, RestAfter(events)))
      ensures Single(events[..|events| - 1]) && FollowAll(NOTHING, events[..|events| - 1]).cnt > 0 ==> job.wasEncrypted == b.flag
    {
      hide Sound, Refused, Stops, Single, FollowAll, Grown, Extends, AtRest;
    }

    lemma RunningFacts(b: Before, events: seq<Event>)
      requires Running(b, events)
      ensures (b.flag ==> bootEncrypted) && Follows(FollowAll(NOTHING, events)) && AtRest(b, RestAfter(events))
      ensures Single(events) && FollowAll(NOTHING, events).cnt > 0 ==> job.wasEncrypted == b.flag
    {
      hide Follows, Single, FollowAll, Grown, Extends, AtRest;
    }

    /** The file is in the flash, decoded and accepted; it is the last one that was, and nothing has been written since. */
    ghost predicate Arrived(f: seq<byte>, flag: bool)
      reads this`kept, device
    {
      && kept.past == device.past && kept.job.wasEncrypted == flag && |f| > 1024 && Stored(kept.job, device.mem, f)
      && Accepted(device.mem, HeaderRecord(Key(), iv, f[..HEADER])) && HashMatches(device.mem, beyond)
    }

    lemma RestArrived(b: Before, t: Track, f: seq<byte>)
      requires AtRest(b, Left(t, true)) && t.intact && (t.cnt >= 2 && t.intact ==> t.size > 1024) && t.data == f
      requires t.done ==> |t.data| == t.size
      ensures t.done ==> Arrived(f, b.flag)
    {
      hide Stored, HeaderRecord, HashMatches, Matches, RecordIn;
      if t.done {
        AcceptedMatches(device.mem, HeaderRecord(Key(), iv, f[..HEADER]), beyond);
      }
    }

    /** All events of a transfer have been handled, and none of those after it that were handled brought data. */
    lemma TransferRests(b: Before, all: seq<Event>, n: nat, k: nat, f: seq<byte>)
      requires n <= k <= |all| && NoneStops(all[..n]) && Single(all[..n]) && Tail(FollowAll(NOTHING, all[..n]), all[n..k])
      requires AtRest(b, RestAfter(all[..k]))
      requires var v := FollowAll(NOTHING, all[..n]); v.done && v.intact && v.data == f
      ensures Arrived(f, b.flag)
    {
      hide AtRest, Arrived, NoneStops, Single, FollowAll, RestAfter, Tail;
      TrackMeans(all[..n]);
      RestOfDone(all[..n]);
      RestTail(all[..n], all[n..k]);
      assert all[..n] + all[n..k] == all[..k];
      RestArrived(b, FollowAll(NOTHING, all[..n]), f);
    }

    /** What comes after a file cannot be refused for its data. */
    lemma TailRefuses(head: seq<Event>, tail: seq<Event>)
      requires tail != [] && Tail(FollowAll(NOTHING, head), tail) && (Stops(head + tail) || Refused(head + tail))
      ensures Stops(head + tail)
    {
      hide Stops, Refused, FollowAll, Unfit, Take, Tail;
      var h, e := head + tail[..|tail| - 1], tail[|tail| - 1];
      assert h + [e] == head + tail;
      FollowAllConcat(NOTHING, head, tail[..|tail| - 1]);
      LastOfTail(FollowAll(NOTHING, head), tail);
      EventIs(h, e);
      if Refused(h + [e]) {
        RefusedMeans(h + [e]);
        assert (h + [e])[..|h + [e]| - 1] == h;
        UnfitIs(FollowAll(NOTHING, h), e.packet);
      }
    }

    /**
     * A whole transfer: the header packet, the packets of the file with whatever is sent in between, and then any events that
     * bring no further data, the end of the file, errors, a header packet or the end of the run among them. If the file is done
     * by intact packets, it is in the flash, decoded and accepted, and stays so, also when the run ends. A good file that
     * comes in intact packets is given up only because an event stops the run, or because all of it is in the flash and does
     * not have the hash its header names.
     */
    method Transfer(header: Packet, events: seq<Event>, tail: seq<Event>, ghost f: seq<byte>) returns (sent: seq<byte>, ended: bool, handled: nat)
      requires Sound() && header[1] == 0 && !Unfit(NOTHING, header) && DeclaredSize(Data(header)) == |f|
      requires Transfers(Track(1, |f|, [], false, true), events, f) && Tail(FollowAll(Track(1, |f|, [], false, true), events), tail)
      modifies this, device, block, chainBlock, tables.block1, tables.block2, tables.sBox
      ensures Sound() && Extends(old(device.past), device.past)
      ensures 0 < handled <= |events| + 1 + |tail| && (!ended ==> handled == |events| + 1 + |tail|)
      ensures var all := [Received(header)] + events + tail;
              && NoneStops(all[..handled - 1]) && (!ended ==> NoneStops(all) && Follows(FollowAll(NOTHING, all)))
              && (if ended && handled <= |events| + 1 then
                    var u := FollowAll(NOTHING, all[..handled]);
                    && u.size == |f| && u.data <= f && job.wasEncrypted == old(bootEncrypted)
                    && (Stops(all[..handled]) || (Good(f) && u.intact ==> u.data == f && WrongHash(f)))
                    && (var v := FollowAll(NOTHING, all[..handled - 1]);
                        Stops(all[..handled]) && v.done && v.intact ==> Arrived(f, old(bootEncrypted)))
                  else
                    var u := FollowAll(NOTHING, all[..|events| + 1]);
                    && u.size == |f| && u.data <= f && (ended ==> Stops(all[..handled]))
                    && (u.done && u.intact ==> u.data == f && Arrived(f, old(bootEncrypted))))
    {
      hide Sound, Follows, Running, Ended, Refused, RefusedData, Good, WrongHash, Arrived, AtRest, FollowAll, Stops, NoneStops, RestAfter, Tail, Extends;
      hide Transfers, Single, Take, Replies, DeclaredSize, Unfit;
      var all := [Received(header)] + events + tail;
      ghost var b, n := Before(log, bootEncrypted, device.past), |events| + 1;
      sent, ended, handled := Programmator(all);
      Parts(header, events, tail, handled);
      if !ended { NoneBefore(all); }
      if ended && handled <= n {
        Broken(b, header, events, f, handled);
      } else {
        Finished(b, header, events, tail, f, ended, handled);
      }
    }

    /** The run ended in the middle of the file. */
    lemma Broken(b: Before, header: Packet, events: seq<Event>, f: seq<byte>, k: nat)
      requires header[1] == 0 && !Unfit(NOTHING, header) && DeclaredSize(Data(header)) == |f|
      requires Transfers(Track(1, |f|, [], false, true), events, f) && 0 < k <= |events| + 1
      requires Ended(b, ([Received(header)] + events)[..k])
      ensures var all := [Received(header)] + events;
              var u := FollowAll(NOTHING, all[..k]);
              && u.size == |f| && u.data <= f && job.wasEncrypted == b.flag
              && (Stops(all[..k]) || (Good(f) && u.intact ==> u.data == f && WrongHash(f)))
              && (var v := FollowAll(NOTHING, all[..k - 1]);
                  Stops(all[..k]) && v.done && v.intact && NoneStops(all[..k - 1]) ==> Arrived(f, b.flag))
    {
      hide Arrived, NoneStops;
      hide Sound, Ended, Refused, RefusedData, Good, WrongHash, AtRest, FollowAll, Stops, RestAfter, Transfers, Single, Take, DeclaredSize, Unfit;
      var all := [Received(header)] + events;
      var es := all[..k];
      assert all[..k - 1] == es[..k - 1];
      EndedFacts(b, es);
      HeaderStays(header, events);
      NotRefused(header);
      InTransfer(header, events, f, k - 1);
      InTransfer(header, events, f, k);
      if !Stops(es) && Good(f) && FollowAll(NOTHING, es).intact {
        RefusedMeans(es);
        TrackMeans(es[..k - 1]);
        WhyRefused(FollowAll(NOTHING, es[..k - 1]), Data(es[k - 1].packet), f);
      }
      if Stops(es) && FollowAll(NOTHING, es[..k - 1]).done && FollowAll(NOTHING, es[..k - 1]).intact && NoneStops(es[..k - 1]) {
        StopIsTail(es);
        assert all[k - 1..k] == [es[k - 1]];
        TransferRests(b, all, k - 1, k, f);
      }
    }

    /** All of the file was handled. */
    lemma Finished(b: Before, header: Packet, events: seq<Event>, tail: seq<Event>, f: seq<byte>, ended: bool, k: nat)
      requires header[1] == 0 && !Unfit(NOTHING, header) && DeclaredSize(Data(header)) == |f|
      requires Transfers(Track(1, |f|, [], false, true), events, f) && Tail(FollowAll(Track(1, |f|, [], false, true), events), tail)
      requires |events| + 1 <= k <= |events| + 1 + |tail| && (ended ==> k > |events| + 1)
      requires var all := [Received(header)] + events + tail;
               if ended then Ended(b, all[..k]) && NoneStops(all[..k - 1]) else Running(b, all[..k]) && NoneStops(all[..k])
      ensures var all := [Received(header)] + events + tail;
              var u := FollowAll(NOTHING, all[..|events| + 1]);
              && u.size == |f| && u.data <= f && (ended ==> Stops(all[..k])) && (!ended ==> Follows(FollowAll(NOTHING, all[..k])))
              && (u.done && u.intact ==> u.data == f && Arrived(f, b.flag))
    {
      hide Sound, Follows, Running, Ended, Refused, RefusedData, Arrived, AtRest, FollowAll, Stops, NoneStops, RestAfter, Tail;
      hide Transfers, Single, Take, DeclaredSize, Unfit;
      var all, n := [Received(header)] + events + tail, |events| + 1;
      var es := all[..k];
      InTransfer(header, events, f, n);
      FollowsHeader(header, events, f);
      assert ([Received(header)] + events)[..n] == [Received(header)] + events == all[..n];
      TailPrefix(FollowAll(NOTHING, all[..n]), tail, k - n);
      assert all[n..k] == tail[..k - n];
      if ended {
        EndedFacts(b, es);
        assert es[..k - 1] == all[..k - 1];
        assert es == all[..n] + tail[..k - n];
        TailRefuses(all[..n], tail[..k - n]);
        NonePrefix(all[..k - 1], n);
        assert all[..k - 1][..n] == all[..n];
      } else {
        RunningFacts(b, es);
        NonePrefix(es, n);
        assert es[..n] == all[..n];
      }
      if FollowAll(NOTHING, all[..n]).done && FollowAll(NOTHING, all[..n]).intact {
        TransferRests(b, all, n, k, f);
      }
    }

    /** A good file of which something was taken intact is not refused before its end, whatever the size of the packet. */
    lemma ShortTaken(t: Track, data: seq<byte>, f: seq<byte>)
      requires Good(f) && RefusedData(t, data) && t.intact && t.data != [] && t.size == |f| && Take(t, data).data <= f
      ensures Take(t, data).done
    {
      hide Number, HeaderGood, HeaderRecord, Roomy, Writable, Decoded, InFlash, Intact, Pending, HasMagic, Refuted, Take;
      assert job.file[..HEADER] == f[..HEADER];
    }

    /**
     * A session with a short packet: the first 1024 bytes of a file in a long packet and the next 128 in a short one. The loader
     * has taken all of them, but what remains, the chunk that completed the header and what is written do not make up the size
     * any more.
     */
    method Lossy()
      requires Sound()
      modifies this, device, block, chainBlock, tables.block1, tables.block2, tables.sBox
      ensures Session() && job.declared == 2048 && job.file == Sample()[..1152] && blocksCnt > 0
      ensures fileRemainder + job.headChunk + programmedSize < 2048
    {
      hide Sound, Session, Follows, Running, Ended, FollowAll, Extends;
      SampleRun();
      ghost var b := Before(log, bootEncrypted, device.past);
      var events := SampleEvents();
      assert events[..3] == events;
      var _, ended, handled := Programmator(events);
      if ended {
        SampleGoesOn(b, handled);
      } else {
        RunningFacts(b, events);
        FollowsSession(Track(3, 2048, Sample()[..1152], false, false));
        Balance(Track(3, 2048, Sample()[..1152], false, false));
      }
    }

    lemma SampleGoesOn(b: Before, k: nat)
      requires 0 < k <= 3
      ensures !Ended(b, SampleEvents()[..k])
    {
      hide Ended, RefusedData, Refused, FollowAll, Stops, Good, AtRest, Take;
      var es := SampleEvents();
      if Ended(b, es[..k]) {
        SampleRun();
        SampleIsGood();
        assert es[..k][..k - 1] == es[..k - 1];
        EndedFacts(b, es[..k]);
        RefusedMeans(es[..k]);
        if k == 2 {
          WhyRefused(Track(1, 2048, [], false, true), Sample()[..1024], Sample());
        } else if k == 3 {
          ShortTaken(Track(2, 2048, Sample()[..1024], false, true), Sample()[1024..1152], Sample());
        }
      }
    }

    lemma SampleIsGood()
      ensures Good(Sample())
    {
      SampleGood(Key(), iv);
      hide HeaderGood, HeaderRecord, Roomy, Writable;
    }

    lemma FollowsSession(t: Track)
      requires Follows(t) && t.cnt > 0
      ensures Session() && job.declared == t.size && job.file == t.data && (blocksCnt == 0 ==> |t.data| < HEADER)
    {
      hide Session, Sound, Snapshot;
      SessionMeans();
    }

    /**
     * The encryption flag outlives its file: after an encrypted file that fits its first packet, and so is refused, the flag is
     * set, and it still is when the next file is opened, which is then decrypted whether it is encrypted or not.
     */
    method FlagStays(data: Packet)
      requires Sound() && |data| == 1029 && data[1] == 1
      requires HeaderGood(Key(), iv, Data(data)[..HEADER]) && !HasMagic(Data(data)[..HEADER])
      modifies this, device, block, chainBlock, tables.block1, tables.block2, tables.sBox
      ensures Session() && packetsCnt == 1 && job.declared == HEADER && bootEncrypted && job.wasEncrypted
    {
      hide Sound, Session, Ended, Running, HeaderGood, HasMagic, DeclaredSize, Follows, Single, FollowAll;
      SmallDeclares();
      SmallRun(data);
      SetFlag(data);
      ghost var b := Before(log, bootEncrypted, device.past);
      var events := [Received(SMALL)];
      assert events[..1] == events;
      var _, ended, handled := Programmator(events);
      if ended {
        NotAtOnce(b, events, handled, data);
      } else {
        RunningFacts(b, events);
        OpenedMeans(events);
      }
    }

    /** The first of the two files. */
    method SetFlag(data: Packet)
      requires Sound() && |data| == 1029 && data[1] == 1
      requires HeaderGood(Key(), iv, Data(data)[..HEADER]) && !HasMagic(Data(data)[..HEADER])
      modifies this, device, block, chainBlock, tables.block1, tables.block2, tables.sBox
      ensures Sound() && bootEncrypted
    {
      hide Sound, Session, Ended, Running, Refused, RefusedData, HeaderGood, HasMagic, DeclaredSize, Stops, Take, Follows, Single, FollowAll;
      SmallRun(data);
      ghost var b := Before(log, bootEncrypted, device.past);
      var events := [Received(SMALL), Received(data)];
      assert events[..2] == events && events[..1] == [Received(SMALL)];
      var _, ended, handled := Programmator(events);
      if ended {
        NotAtOnce(b, events, handled, data);
        EndedFacts(b, events[..handled]);
        RefusedMeans(events);
        FlagOf(Data(data));
      } else {
        RunningFacts(b, events);
        TwoPackets(FollowAll(NOTHING, events));
      }
    }

    lemma NotAtOnce(b: Before, events: seq<Event>, k: nat, data: Packet)
      requires 0 < k <= |events| && events[0] == Received(SMALL) && Ended(b, events[..k]) && |data| == 1029 && data[1] == 1
      ensures k > 1
    {
      hide Refused, Stops, FollowAll, Ended, Single;
      if k == 1 {
        assert events[..k] == [Received(SMALL)];
        SmallRun(data);
        NotRefused(SMALL);
        EndedFacts(b, [Received(SMALL)]);
      }
    }

    /** A refused packet of 1024 bytes for a file of 512 leaves the flag set, if they begin with an encrypted header. */
    lemma FlagOf(data: seq<byte>)
      requires |data| == 1024 && RefusedData(Track(1, HEADER, [], false, true), data)
      requires HeaderGood(Key(), iv, data[..HEADER]) && !HasMagic(data[..HEADER])
      ensures bootEncrypted
    {
      hide HeaderGood, HasMagic, HeaderRecord, Roomy, Refuted, Pending, Intact, Decoded, Writable, Take;
      TakeSmall(data);
      assert job.file <= data[..HEADER] && job.headChunk == HEADER;
      SamePrefix(job.file, data);
    }

    lemma TwoPackets(t: Track)
      requires Follows(t)
      ensures t.done ==> t.cnt >= 2
    {
      hide Session, Sound;
      if t.cnt > 0 { SessionMeans(); }
    }

    lemma OpenedMeans(events: seq<Event>)
      requires Follows(FollowAll(NOTHING, events))
      ensures var t := FollowAll(NOTHING, events); t.cnt > 0 ==> Session() && packetsCnt == t.cnt && job.declared == t.size
    {
      hide Session, Sound, FollowAll;
    }
  }

  lemma ReadsBack(m: seq<byte>, addr: nat, chunk: nat, buf: seq<byte>, beyond: nat -> byte)
    requires addr + chunk <= |m| && chunk <= |buf|
    requires forall i :: addr <= i < addr + chunk ==> m[i] == Ram(buf, beyond)(i - addr)
    ensures m[addr..addr + chunk] == buf[..chunk]
  {}

  lemma ProgressIs(key: seq<byte>, s: seq<byte>, len: nat, chain: seq<byte>, b: seq<byte>, c: seq<byte>)
    requires Cbc.Progress(key, s, 0, Cbc.Blocks(len), chain, b, c) && len <= |s| && 16 <= |s|
    ensures |key| == 32 && |chain| == 16 && len <= |b| && b[..len] == ChunkPlain(Cbc.Decipher(key), chain, s, len)
    ensures len > 0 && len % 16 == 0 ==> c == Cbc.NextChain(chain, s[..len])
  {
    hide Cbc.Decrypt, Cbc.Decipher, Cbc.NextChain;
    var k := 16 * Cbc.Blocks(len);
    assert s[0..0 + k] == s[..k];
  }

  lemma Aligned(n: nat, chunk: nat)
    requires n % 16 == 0 && chunk % 128 == 0
    ensures (BOOTLOADER + n) % 8 == 0 && chunk % 8 == 0
  {
    MultiplesOf(chunk, chunk / 128);
    assert n == 16 * (n / 16) && BOOTLOADER + n == 8 * (0x1000 + 2 * (n / 16));
  }

  lemma CountsLost(j: Job, piece: seq<byte>, fileRemainder: nat, indxInBlock: nat, blocksCnt: nat)
    requires Counts(j, fileRemainder, indxInBlock, blocksCnt)
    requires 0 < |piece| < fileRemainder && indxInBlock + |piece| < HEADER && |piece| % 128 == 0
    ensures Counts(WithLost(j, piece), fileRemainder - |piece|, indxInBlock + |piece|, blocksCnt) && !Intact(WithLost(j, piece))
    ensures j.headChunk + |j.got| <= |j.file|
  {
    TallyMore(j.declared, |j.file|, j.headChunk, |j.got|, j.last, fileRemainder, indxInBlock, blocksCnt, |piece|);
  }

  lemma LostHolds(f: Block -> Block, iv: Block, j: Job, encrypted: bool, chain: seq<byte>, r: Record, piece: seq<byte>)
    requires Faithful(j) && Read(f, iv, j, r, encrypted) && Decoded(f, iv, j, encrypted) && Chained(iv, j, encrypted, chain, true)
    requires j.headChunk + |j.got| <= |j.file|
    ensures var j' := WithLost(j, piece);
            Faithful(j') && Read(f, iv, j', r, encrypted) && Decoded(f, iv, j', encrypted) && Chained(iv, j', encrypted, chain, true)
  {
    FaithfulLost(j, piece);
    hide Faithful, HeaderGood, HeaderRecord, BodyPlain, BodyChain, Cbc.NextChain, HasMagic;
  }

  lemma StartedLost(m: seq<byte>, j: Job, programmedSize: nat, r: Record, fileDone: bool, addr: nat, log: Log, fileRemainder: nat, piece: seq<byte>)
    requires Started(m, j, programmedSize, r, fileDone, addr, log, fileRemainder) && |piece| < fileRemainder
    ensures Started(m, WithLost(j, piece), programmedSize, r, fileDone, addr, log, fileRemainder - |piece|)
  {
    hide Fits, InFlash, Accepted, Fresh;
  }

  /** How much of a packet is moved to the block in one turn. */
  function ChunkSize(indxInBlock: nat, rest: nat, fileRemainder: nat): nat
    requires indxInBlock <= HEADER
  {
    Min(Min(HEADER - indxInBlock, rest), fileRemainder)
  }

  /** After a chunk the block is full, or nothing remains of the file. */
  predicate Due(indxInBlock: nat, chunk: nat, fileRemainder: nat) {
    fileRemainder == 0 || indxInBlock + chunk == HEADER
  }

  predicate SameFile(j: Job, k: Job) {
    j.declared == k.declared && j.wasEncrypted == k.wasEncrypted
  }

  /** One erasure more, for a file whose first block began with the data. */
  ghost predicate Adds(log: Log, log': Log, f: Block -> Block, iv: Block, size: nat, taken: nat, data: seq<byte>) {
    |log'| == |log| + 1 && log <= log' && Brought(Last(log'), f, iv, size, taken, data)
  }

  lemma ChunkMultiple(indxInBlock: nat, rest: nat, chunk: nat)
    requires rest % 128 == 0 && chunk == rest
    ensures chunk % 128 == 0
  {}

  /** A first block is intact if nothing has been moved to the block before. */
  lemma FirstIntact(j: Job, piece: seq<byte>, head: seq<byte>)
    requires j.headChunk == 0 && j.got == []
    ensures Intact(WithHead(j, piece, head)) <==> Intact(j)
  {}

  lemma BroughtBy(j: Job, fileRemainder: nat, indxInBlock: nat, piece: seq<byte>, head: seq<byte>, rest: seq<byte>)
    requires Counts(j, fileRemainder, indxInBlock, 0) && piece <= rest && |head| == HEADER
    requires |piece| == ChunkSize(indxInBlock, |rest|, fileRemainder) && head[..|piece|] == piece && Due(indxInBlock, |piece|, fileRemainder - |piece|)
    ensures forall f, iv, r, at :: HeaderGood(f, iv, head) && r == HeaderRecord(f, iv, head) ==>
              Brought(Erasure(at, j.declared, head, r, None), f, iv, j.declared, |j.file|, rest)
  {
    hide HeaderGood, HeaderRecord;
  }

  /** The image of the last erasure is verified, if it has not been before. */
  ghost function Verified(log: Log, n: nat): Log
    requires log != []
  {
    if Last(log).verified.None? then Relast(log, Last(log).(verified := Some(n))) else log
  }

  lemma VerifiedLater(log: Log, n: nat)
    requires log != []
    ensures Later(log, Verified(log, n)) && |Verified(log, n)| == |log| && Later(log, log)
  {}

  lemma SixPhrases()
    ensures Phrases(RECORD_ADDR, RECORD) == 6
  {}

  /** The record is read back if its cells were erased, or held it already. */
  lemma RecordRead(m: Image, m': Image, r: Record, beyond: nat -> byte)
    requires m' == Burnt(m, RECORD_ADDR, Ram(r, beyond), Phrases(RECORD_ADDR, RECORD))
    ensures Blank(m) || RecordIn(m) == r ==> RecordIn(m') == r
  {
    SixPhrases();
    hide Phrases;
    if Blank(m) || RecordIn(m) == r {
      forall i | 0 <= i < RECORD
        ensures RecordIn(m')[i] == r[i]
      {
        BurnErased(r[i]);
        BurnSame(r[i]);
        assert RecordIn(m)[i] == m[RECORD_ADDR + i];
      }
    }
  }

  lemma ChunkFits(indxInBlock: nat, rest: nat, fileRemainder: nat)
    requires indxInBlock <= HEADER
    ensures ChunkSize(indxInBlock, rest, fileRemainder) <= rest
  {}

  lemma Appended(f: seq<byte>, data: seq<byte>, p: nat, n: nat)
    requires p + n <= |data|
    ensures f + data[..p] + data[p..][..n] == f + data[..p + n]
  {
    assert data[..p] + data[p..][..n] == data[..p + n];
  }

  /** The log after a packet: there is at most one more erasure, and only if the packet made the first block due. */
  ghost predicate Goes(log: Log, log': Log, first: bool, f: Block -> Block, iv: Block, size: nat, taken: nat, data: seq<byte>) {
    && Later(log, log') && |log'| <= |log| + 1
    && (|log'| > |log| ==> first && Brought(Last(log'), f, iv, size, taken, data))
  }

  lemma GoesOn(log: Log, log': Log, first: bool, f: Block -> Block, iv: Block, size: nat, taken: nat, data: seq<byte>)
    requires log' == log || (first && Adds(log, log', f, iv, size, taken, data))
    ensures Goes(log, log', first, f, iv, size, taken, data)
  {
    hide Brought;
  }

  lemma GoesLater(a: Log, b: Log, c: Log, first: bool, f: Block -> Block, iv: Block, size: nat, taken: nat, data: seq<byte>)
    requires Goes(a, b, first, f, iv, size, taken, data) && Later(b, c) && |b| == |c|
    ensures Goes(a, c, first, f, iv, size, taken, data)
  {
    hide HeaderGood, HeaderRecord;
    LaterTwice(a, b, c);
  }

  lemma IntactLast(j: Job, fileRemainder: nat, indxInBlock: nat, blocksCnt: nat)
    requires Counts(j, fileRemainder, indxInBlock, blocksCnt)
    ensures Intact(j) ==> LastIs(|j.got|, j.last)
  {}

  lemma IntactHead(j: Job, fileRemainder: nat, indxInBlock: nat, blocksCnt: nat)
    requires Counts(j, fileRemainder, indxInBlock, blocksCnt) && blocksCnt > 0
    ensures Intact(j) && j.declared >= HEADER ==> j.headChunk == HEADER
  {}

  /** The packet is a long one, or brings all that remains. */
  predicate Whole(data: seq<byte>, remains: nat) {
    |data| == 1024 || |data| >= remains
  }

  /** What has been taken of a file after a packet, or a part of it. */
  predicate TakenBy(j: Job, j': Job, data: seq<byte>, r: nat) {
    && SameFile(j', j) && j.file <= j'.file <= j.file + data[..Min(|data|, r)]
    && (Intact(j) && (Whole(data, r) || j.file != []) && j.declared >= HEADER ==> j'.headChunk == HEADER)
  }

  /** All of the packet has been taken, or all that remained; a short packet that does not end the file is not taken intact. */
  predicate TakenAll(j: Job, j': Job, data: seq<byte>, r: nat) {
    j'.file == j.file + data[..Min(|data|, r)] && (Intact(j') <==> Intact(j) && Whole(data, r))
  }

  lemma TakenSame(j: Job, j': Job, data: seq<byte>, r: nat)
    requires TakenBy(j, j', data, r)
    ensures SameFile(j', j)
  {}

  /** p bytes of a packet have been taken, and there are more. */
  predicate Packing(j: Job, j': Job, data: seq<byte>, p: nat, r: nat, fileRemainder: nat, blocksCnt: nat) {
    && p < |data| && (|data| - p) % 128 == 0 && SameFile(j', j) && fileRemainder + p == r && j'.file == j.file + data[..p]
    && |j.file| + r == j.declared && (|j.file| == 0 || j.declared < HEADER || !Intact(j) || j.headChunk == HEADER)
    && (p > 0 ==> blocksCnt > 0 && fileRemainder > 0 && |data| == 1024)
    && (p == 0 ==> j'.headChunk == j.headChunk)
    && (Intact(j') <==> Intact(j)) && (Intact(j') ==> p % HEADER == 0)
    && (Intact(j) && j.declared >= HEADER && blocksCnt > 0 ==> j'.headChunk == HEADER)
  }

  lemma PackingStarts(j: Job, data: seq<byte>, r: nat, blocksCnt: nat)
    requires (|data| == 128 || |data| == 1024) && |j.file| + r == j.declared
    requires blocksCnt > 0 && Intact(j) && j.declared >= HEADER ==> j.headChunk == HEADER
    requires blocksCnt == 0 && Intact(j) ==> |j.file| == 0
    ensures Packing(j, j, data, 0, r, r, blocksCnt)
  {
    assert j.file + data[..0] == j.file;
  }

  lemma PackingMeans(j: Job, k: Job, data: seq<byte>, p: nat, r: nat, fileRemainder: nat, blocksCnt: nat)
    requires Packing(j, k, data, p, r, fileRemainder, blocksCnt)
    ensures p < |data| && (|data| - p) % 128 == 0 && SameFile(k, j) && k.file == j.file + data[..p] && (p > 0 ==> blocksCnt > 0)
    ensures fileRemainder + p == r
  {
    hide Intact;
  }

  /** What a turn of the loop does to the account of what has been taken. */
  lemma PackingOn(j: Job, k: Job, k': Job, data: seq<byte>, p: nat, r: nat, indxInBlock: nat, chunk: nat, rest: nat, cnt: nat, cnt': nat)
    requires Packing(j, k, data, p, r, rest, cnt) && (|data| == 128 || |data| == 1024) && indxInBlock < HEADER
    requires (rest > 0 ==> indxInBlock % 128 == 0) && (Intact(k) ==> indxInBlock == 0) && (cnt == 0 ==> |k.file| == indxInBlock)
    requires chunk == ChunkSize(indxInBlock, |data| - p, rest) && SameFile(k', k)
    requires p + chunk <= |data| && k'.file == j.file + data[..p + chunk]
    requires if cnt > 0 then k'.headChunk == k.headChunk else Due(indxInBlock, chunk, rest - chunk) ==> k'.headChunk == chunk
    ensures TakenBy(j, k', data, r) && chunk <= rest
    ensures rest == chunk ==> |data| >= r
    ensures chunk < rest ==> chunk > 0
    ensures (Intact(k') <==> Intact(k) && Due(indxInBlock, chunk, rest - chunk)) && (rest == chunk || p + chunk == |data|) ==>
              TakenAll(j, k', data, r) && rest - chunk == r - Min(|data|, r)
    ensures (Intact(k') <==> Intact(k) && Due(indxInBlock, chunk, rest - chunk)) && chunk < rest && p + chunk < |data| && cnt' > 0 ==>
              Packing(j, k', data, p + chunk, r, rest - chunk, cnt')
    ensures (Intact(k') <==> Intact(k) && Due(indxInBlock, chunk, rest - chunk)) && chunk < rest && Intact(k') ==> indxInBlock + chunk == HEADER
  {
    hide Intact;
    TurnIs(|data|, p, r, indxInBlock, chunk);
    Prefixes(j.file, data, p + chunk, r);
  }

  /** A turn of the loop by its numbers. */
  lemma TurnIs(size: nat, p: nat, r: nat, indxInBlock: nat, chunk: nat)
    requires p < size && (size - p) % 128 == 0 && p <= r && (size == 1024 || (size == 128 && p == 0)) && indxInBlock < HEADER
    requires chunk == ChunkSize(indxInBlock, size - p, r - p) && (r > p ==> indxInBlock % 128 == 0)
    ensures p + chunk <= size && p + chunk <= r
    ensures p + chunk < r ==> chunk > 0 && (size - (p + chunk)) % 128 == 0
    ensures p + chunk < r && indxInBlock == 0 && size == 1024 && p % HEADER == 0 ==> chunk == HEADER && (p + chunk) % HEADER == 0
    ensures p + chunk < r && size == 128 ==> chunk == 128
    ensures p == 0 && indxInBlock == 0 && size == 1024 && r >= HEADER ==> chunk == HEADER
    ensures size == 128 && p + chunk == r ==> size >= r
  {
    if p + chunk < r {
      Multiples(indxInBlock);
      MultiplesOf(size - p, (size - p) / 128);
      if chunk == HEADER - indxInBlock {
        Differ(size - p, chunk);
      }
    }
  }

  lemma Differ(a: nat, b: nat)
    requires a % 128 == 0 && b % 128 == 0
    ensures (a - b) % 128 == 0
  {
    assert a - b == 128 * (a / 128 - b / 128);
  }

  lemma Prefixes(f: seq<byte>, data: seq<byte>, n: nat, r: nat)
    requires n <= |data| && n <= r
    ensures f <= f + data[..n] <= f + data[..Min(|data|, r)]
    ensures n == r || n == |data| ==> f + data[..n] == f + data[..Min(|data|, r)]
  {}

  lemma GoesNowhere(log: Log, first: bool, f: Block -> Block, iv: Block, size: nat, taken: nat, data: seq<byte>)
    ensures Goes(log, log, first, f, iv, size, taken, data)
  {}

  lemma GoesTwice(a: Log, b: Log, c: Log, first: bool, f: Block -> Block, iv: Block, size: nat, taken: nat, data: seq<byte>)
    requires Goes(a, b, first, f, iv, size, taken, data) && Goes(b, c, false, f, iv, size, taken, data)
    ensures Goes(a, c, first, f, iv, size, taken, data)
  {
    hide HeaderGood, HeaderRecord;
    LaterTwice(a, b, c);
  }

  // ---- Events ----

  /** A first packet or a packet without a file that ends the run. */
  predicate Unfit(t: Track, packet: Packet) {
    IsNull(packet) || (t.cnt == 0 && DeclaredSize(Data(packet)) > MAX_IMAGE)
  }

  /** A first packet has been taken. */
  predicate Begun(events: seq<Event>)
    decreases |events|
  {
    events != [] && (Begun(events[..|events| - 1]) ||
      var t, e := FollowAll(NOTHING, events[..|events| - 1]), events[|events| - 1];
      e.Received? && t.cnt == 0 && IsNumber(e.packet, 0))
  }

  /** The errors since the last thing that was received, as far as a session has begun. */
  function Errors(events: seq<Event>): nat
    decreases |events|
  {
    if events == [] then 0 else
      match events[|events| - 1]
      case Error => Errors(events[..|events| - 1]) + if Begun(events[..|events| - 1]) then 1 else 0
      case Timeout => Errors(events[..|events| - 1])
      case _ => 0
  }

  /** The last event ends the run, whatever is in the flash. */
  predicate Stops(events: seq<Event>) {
    events != [] &&
    match events[|events| - 1]
    case Cancelled => true
    case UserAbort => true
    case Error => Errors(events) > MAX_ERRORS
    case Received(packet) =>
      var t := FollowAll(NOTHING, events[..|events| - 1]);
      IsNumber(packet, t.cnt) && Unfit(t, packet)
    case _ => false
  }

  /** None of the events ends the run. */
  predicate NoneStops(events: seq<Event>)
    decreases |events|
  {
    events == [] || (NoneStops(events[..|events| - 1]) && !Stops(events))
  }

  /** What is answered to an event that does not end the run. */
  function Reply(t: Track, e: Event): seq<byte> {
    match e
    case Received(packet) => if !IsNumber(packet, t.cnt) then [NAK] else if t.cnt == 0 then [ACK, CRC16] else [ACK]
    case EndOfFile => if t.done then [NAK] else [ACK, CRC16]
    case _ => [CRC16]
  }

  function Replies(events: seq<Event>): seq<byte>
    decreases |events|
  {
    if events == [] then [CRC16] else
      Replies(events[..|events| - 1]) + Reply(FollowAll(NOTHING, events[..|events| - 1]), events[|events| - 1])
  }

  /** The packets among the events that are taken, or those that are not, as they have another number than the one expected. */
  function Packets(events: seq<Event>, taken: bool): nat
    decreases |events|
  {
    if events == [] then 0 else
      var es, e := events[..|events| - 1], events[|events| - 1];
      Packets(es, taken) + if e.Received? && IsNumber(e.packet, FollowAll(NOTHING, es).cnt) == taken then 1 else 0
  }

  /** The ends of files that come when a file is done, or when none is. */
  function FileEnds(events: seq<Event>, done: bool): nat
    decreases |events|
  {
    if events == [] then 0 else
      var es, e := events[..|events| - 1], events[|events| - 1];
      FileEnds(es, done) + if e.EndOfFile? && FollowAll(NOTHING, es).done == done then 1 else 0
  }

  /** How often a byte was sent. */
  function Count(sent: seq<byte>, b: byte): nat
    decreases |sent|
  {
    if sent == [] then 0 else Count(sent[..|sent| - 1], b) + if sent[|sent| - 1] == b then 1 else 0
  }

  lemma CountMore(sent: seq<byte>, x: byte, y: byte, b: byte)
    ensures Count(sent + [x], b) == Count(sent, b) + if x == b then 1 else 0
    ensures Count(sent + [x, y], b) == Count(sent, b) + (if x == b then 1 else 0) + if y == b then 1 else 0
  {
    assert (sent + [x])[..|sent|] == sent;
    assert (sent + [x, y])[..|sent| + 1] == sent + [x];
  }

  lemma ReplyCounts(sent: seq<byte>, t: Track, e: Event, b: byte)
    requires b == ACK || b == NAK
    ensures Count(sent + Reply(t, e), b) == Count(sent, b) +
              if (e.Received? && IsNumber(e.packet, t.cnt) == (b == ACK)) || (e.EndOfFile? && t.done == (b == NAK)) then 1 else 0
  {
    hide IsNumber, IsPacket, Count;
    var r := Reply(t, e);
    CountMore(sent, r[0], CRC16, b);
    assert r == [r[0]] || r == [r[0], CRC16];
  }

  /** Every packet that is taken is acknowledged and no other is; besides them only the end of a file out of turn is. */
  lemma {:induction false} AcksAreTaken(events: seq<Event>)
    ensures Count(Replies(events), ACK) == Packets(events, true) + FileEnds(events, false)
    ensures Count(Replies(events), NAK) == Packets(events, false) + FileEnds(events, true)
    decreases |events|
  {
    hide FollowAll, IsPacket, IsNumber, Reply, Count;
    if events == [] {
      CountMore([], CRC16, CRC16, ACK);
      CountMore([], CRC16, CRC16, NAK);
      CountNone();
    } else {
      var es, e := events[..|events| - 1], events[|events| - 1];
      AcksAreTaken(es);
      ReplyCounts(Replies(es), FollowAll(NOTHING, es), e, ACK);
      ReplyCounts(Replies(es), FollowAll(NOTHING, es), e, NAK);
    }
  }

  lemma CountNone()
    ensures Count([], ACK) == 0 && Count([], NAK) == 0 && [] + [CRC16] == [CRC16]
  {}

  /** A data packet brought the erasure on. */
  ghost predicate ShownBy(e: Erasure, f: Block -> Block, iv: Block, t: Track, event: Event) {
    event.Received? && t.cnt > 0 && IsNumber(event.packet, t.cnt) && Brought(e, f, iv, t.size, |t.data|, Data(event.packet))
  }

  ghost predicate Shown(e: Erasure, f: Block -> Block, iv: Block, events: seq<Event>) {
    exists i :: 0 <= i < |events| && ShownBy(e, f, iv, FollowAll(NOTHING, events[..i]), events[i])
  }

  /** No erasure has been forgotten, and the new ones are those the events brought on. */
  ghost predicate Grown(before: Log, log: Log, f: Block -> Block, iv: Block, events: seq<Event>) {
    Later(before, log) && forall j :: |before| <= j < |log| ==> Shown(log[j], f, iv, events)
  }

  lemma GrownOn(before: Log, log: Log, f: Block -> Block, iv: Block, events: seq<Event>, e: Event)
    requires Grown(before, log, f, iv, events)
    ensures Grown(before, log, f, iv, events + [e])
  {
    hide ShownBy;
    var es := events + [e];
    forall j | |before| <= j < |log|
      ensures Shown(log[j], f, iv, es)
    {
      assert Shown(log[j], f, iv, events);
      var i :| 0 <= i < |events| && ShownBy(log[j], f, iv, FollowAll(NOTHING, events[..i]), events[i]);
      assert es[..i] == events[..i] && es[i] == events[i];
    }
  }

  lemma GrownBy(before: Log, a: Log, log: Log, f: Block -> Block, iv: Block, events: seq<Event>, packet: Packet)
    requires Grown(before, a, f, iv, events) && IsNumber(packet, FollowAll(NOTHING, events).cnt)
    requires var t := FollowAll(NOTHING, events);
             if t.cnt > 0 then Goes(a, log, true, f, iv, t.size, |t.data|, Data(packet)) else log == a
    ensures Grown(before, log, f, iv, events + [Received(packet)])
  {
    hide Brought, Shown, FollowAll;
    var e := Received(packet);
    var es := events + [e];
    GrownOn(before, a, f, iv, events, e);
    LaterTwice(before, a, a);
    if FollowAll(NOTHING, events).cnt > 0 {
      LaterTwice(before, a, log);
      if |log| > |a| {
        ShownLast(Last(log), f, iv, events, packet);
      }
      forall j | |before| <= j < |log|
        ensures Shown(log[j], f, iv, es)
      {
        if j < |a| {
          ShownVerified(a[j], log[j], f, iv, es);
        }
      }
    }
  }

  lemma ShownLast(e: Erasure, f: Block -> Block, iv: Block, events: seq<Event>, packet: Packet)
    requires var t := FollowAll(NOTHING, events);
             t.cnt > 0 && IsNumber(packet, t.cnt) && Brought(e, f, iv, t.size, |t.data|, Data(packet))
    ensures Shown(e, f, iv, events + [Received(packet)])
  {
    hide Brought, FollowAll;
    var es := events + [Received(packet)];
    assert es[..|events|] == events && es[|events|] == Received(packet);
    assert ShownBy(e, f, iv, FollowAll(NOTHING, es[..|events|]), es[|events|]);
  }

  lemma ShownVerified(e: Erasure, e': Erasure, f: Block -> Block, iv: Block, events: seq<Event>)
    requires Shown(e, f, iv, events) && e' == e.(verified := e'.verified)
    ensures Shown(e', f, iv, events)
  {
    hide HeaderGood, HeaderRecord;
    var i :| 0 <= i < |events| && ShownBy(e, f, iv, FollowAll(NOTHING, events[..i]), events[i]);
    assert ShownBy(e', f, iv, FollowAll(NOTHING, events[..i]), events[i]);
  }

  lemma RunStarts(log: Log, f: Block -> Block, iv: Block)
    ensures Grown(log, log, f, iv, []) && FollowAll(NOTHING, []) == NOTHING
    ensures Replies([]) == [CRC16] && Errors([]) == 0 && !Begun([]) && Single([]) && NoneStops([])
  {}

  /** What an event does, as far as it does not depend on the flash. */
  lemma EventIs(es: seq<Event>, e: Event)
    ensures var t := FollowAll(NOTHING, es);
            && Replies(es + [e]) == Replies(es) + Reply(t, e)
            && Errors(es + [e]) == (if e.Error? then Errors(es) + (if Begun(es) then 1 else 0) else if e.Timeout? then Errors(es) else 0)
            && (NoneStops(es + [e]) <==> NoneStops(es) && !Stops(es + [e]))
            && Begun(es + [e]) == (Begun(es) || (e.Received? && t.cnt == 0 && e.packet[1] == 0))
            && Stops(es + [e]) == (e.Cancelled? || e.UserAbort? || (e.Error? && Errors(es + [e]) > MAX_ERRORS)
                                   || (e.Received? && IsNumber(e.packet, t.cnt) && Unfit(t, e.packet)))
            && (!e.Received? ==> FollowAll(NOTHING, es + [e]) == if e.EndOfFile? then Follow(t, e) else t)
            && (e.EndOfFile? ==> Reply(t, e) == if t.done then [NAK] else [ACK, CRC16])
            && (e.Error? || e.Timeout? ==> Reply(t, e) == [CRC16])
  {
    hide FollowAll, Take, DeclaredSize;
    assert (es + [e])[..|es|] == es;
    FollowOne(NOTHING, es, e);
  }

  /** No file has been ended, so there is one session at most. */
  predicate Single(events: seq<Event>)
    decreases |events|
  {
    events == [] || (Single(events[..|events| - 1]) &&
      !(events[|events| - 1].EndOfFile? && FollowAll(NOTHING, events[..|events| - 1]).done))
  }

  lemma SingleIs(es: seq<Event>, e: Event)
    ensures Single(es + [e]) <==> Single(es) && !(e.EndOfFile? && FollowAll(NOTHING, es).done)
    ensures var t := FollowAll(NOTHING, es); !t.done ==> Follow(t, EndOfFile) == t
    ensures e.Received? && IsNumber(e.packet, FollowAll(NOTHING, es).cnt) ==> FollowAll(NOTHING, es + [e]).cnt > 0
    ensures e.Received? && !IsNumber(e.packet, FollowAll(NOTHING, es).cnt) ==> FollowAll(NOTHING, es + [e]) == FollowAll(NOTHING, es)
  {
    hide FollowAll, DeclaredSize;
    assert (es + [e])[..|es|] == es;
    FollowOne(NOTHING, es, e);
  }

  /** What a run has done to the flash: nothing yet, or it has brought a file to its end, or one is under way. */
  datatype Rest = Untouched | Left(t: Track, first: bool) | Busy

  /** The log, the encryption flag and the contents of the flash before a run. */
  datatype Before = Before(log: Log, flag: bool, past: seq<seq<byte>>)

  /** It is the last data packet that says so. */
  function RestAfter(events: seq<Event>): Rest
    decreases |events|
  {
    if events == [] then Untouched else
      var es, e := events[..|events| - 1], events[|events| - 1];
      var t := FollowAll(NOTHING, es);
      if !Loads(t, e) then RestAfter(es)
      else if Take(t, Data(e.packet)).done then Left(Take(t, Data(e.packet)), Single(es)) else Busy
  }

  lemma RestIs(es: seq<Event>, e: Event)
    ensures var t := FollowAll(NOTHING, es);
            RestAfter(es + [e]) == if !Loads(t, e) then RestAfter(es)
                                   else if Take(t, Data(e.packet)).done then Left(Take(t, Data(e.packet)), Single(es)) else Busy
  {
    hide FollowAll, Take, Single;
    assert (es + [e])[..|es|] == es;
  }

  lemma UnfitIs(t: Track, packet: Packet)
    ensures Loads(t, Received(packet)) <==> IsNumber(packet, t.cnt) && t.cnt > 0 && !Unfit(t, packet)
  {}

  /** While a file is done, it is the one its last data packet left. */
  lemma {:induction false} RestOfDone(events: seq<Event>)
    requires NoneStops(events) && Single(events) && FollowAll(NOTHING, events).done
    ensures RestAfter(events) == Left(FollowAll(NOTHING, events), true)
    decreases |events|
  {
    hide DeclaredSize, Errors;
    var es, e := events[..|events| - 1], events[|events| - 1];
    var t := FollowAll(NOTHING, es);
    assert es + [e] == events;
    RestIs(es, e);
    FollowOne(NOTHING, es, e);
    TrackMeans(es);
    if !Loads(t, e) {
      RestOfDone(es);
    }
  }

  lemma {:induction false} RestTail(head: seq<Event>, tail: seq<Event>)
    requires Tail(FollowAll(NOTHING, head), tail)
    ensures RestAfter(head + tail) == RestAfter(head)
    decreases |tail|
  {
    hide FollowAll, Take;
    if tail == [] {
      assert head + tail == head;
    } else {
      var es, e := tail[..|tail| - 1], tail[|tail| - 1];
      RestTail(head, es);
      FollowAllConcat(NOTHING, head, es);
      RestIs(head + es, e);
      assert head + es + [e] == head + tail;
    }
  }

  lemma {:induction false} NonePrefix(events: seq<Event>, n: nat)
    requires NoneStops(events) && n <= |events|
    ensures NoneStops(events[..n])
    decreases |events|
  {
    hide Stops;
    if n < |events| {
      NonePrefix(events[..|events| - 1], n);
      assert events[..|events| - 1][..n] == events[..n];
    } else {
      assert events[..n] == events;
    }
  }

  lemma Parts(header: Packet, events: seq<Event>, tail: seq<Event>, k: nat)
    requires 0 < k <= |events| + 1 + |tail|
    ensures var all, a := [Received(header)] + events + tail, [Received(header)] + events;
            && (k <= |events| + 1 ==> all[..k] == a[..k] && all[..k - 1] == a[..k - 1])
            && all[..|events| + 1] == a && (k == |all| ==> all[..k] == all)
  {}

  lemma StopIsTail(events: seq<Event>)
    requires events != [] && Stops(events)
    ensures Tail(FollowAll(NOTHING, events[..|events| - 1]), [events[|events| - 1]])
  {
    var es, e := events[..|events| - 1], events[|events| - 1];
    assert es + [e] == events && [e][..0] == [];
    EventIs(es, e);
    if e.Received? {
      UnfitIs(FollowAll(NOTHING, es), e.packet);
    }
    hide FollowAll, Stops, Unfit;
    assert FollowAll(FollowAll(NOTHING, es), []) == FollowAll(NOTHING, es) by { EmptyFollow(FollowAll(NOTHING, es)); }
  }

  lemma EmptyFollow(t: Track)
    ensures FollowAll(t, []) == t
  {}

  lemma LastOfTail(t: Track, tail: seq<Event>)
    requires Tail(t, tail) && tail != []
    ensures !Loads(FollowAll(t, tail[..|tail| - 1]), tail[|tail| - 1])
  {}

  lemma NoneBefore(events: seq<Event>)
    requires NoneStops(events) && events != []
    ensures NoneStops(events[..|events| - 1])
  {}

  /** What is always true of a session: a file of which more than one packet was taken intact does not fit one packet. */
  lemma {:induction false} TrackMeans(events: seq<Event>)
    ensures var t := FollowAll(NOTHING, events);
            && (t.cnt > 0 ==> |t.data| <= t.size) && (t.done ==> t.cnt > 0 && |t.data| == t.size)
            && (t.cnt == 1 ==> t.data == [] || t.done) && (t.cnt >= 2 && t.intact ==> t.size > 1024)
    decreases |events|
  {
    hide DeclaredSize;
    if events != [] {
      TrackMeans(events[..|events| - 1]);
    }
  }

  lemma HeaderStays(header: Packet, events: seq<Event>)
    requires header[1] == 0 && !Unfit(NOTHING, header)
    ensures var all := [Received(header)] + events;
            all[..0] == [] && all[..1] == [Received(header)] && !Stops([Received(header)]) && FollowAll(NOTHING, []) == NOTHING
  {
    hide Unfit;
    assert [Received(header)][..0] == [];
  }

  /** Wherever a transfer stands, what was taken is the beginning of the file. */
  lemma InTransfer(header: Packet, events: seq<Event>, f: seq<byte>, k: nat)
    requires header[1] == 0 && DeclaredSize(Data(header)) == |f| && Transfers(Track(1, |f|, [], false, true), events, f)
    requires 0 < k <= |events| + 1
    ensures var all := [Received(header)] + events;
            var u := FollowAll(NOTHING, all[..k]);
            u.cnt > 0 && u.size == |f| && u.data <= f && (u.done ==> u.data == f) && Single(all[..k])
  {
    hide DeclaredSize, Transfers;
    var t := Track(1, |f|, [], false, true);
    TransfersPrefix(t, events, f, k - 1);
    TakenInOrder(t, events[..k - 1], f);
    FollowsHeader(header, events[..k - 1], f);
    SingleTransfer(header, events[..k - 1], f);
    assert ([Received(header)] + events)[..k] == [Received(header)] + events[..k - 1];
  }

  lemma FollowsHeader(header: Packet, events: seq<Event>, f: seq<byte>)
    requires header[1] == 0 && DeclaredSize(Data(header)) == |f|
    ensures FollowAll(NOTHING, [Received(header)] + events) == FollowAll(Track(1, |f|, [], false, true), events)
  {
    hide DeclaredSize, FollowAll;
    var all := [Received(header)] + events;
    assert all[0] == Received(header) && all[1..] == events;
    FollowAllSplit(NOTHING, all);
  }

  lemma {:induction false} SingleTransfer(header: Packet, events: seq<Event>, f: seq<byte>)
    requires header[1] == 0 && DeclaredSize(Data(header)) == |f| && Transfers(Track(1, |f|, [], false, true), events, f)
    ensures Single([Received(header)] + events)
    decreases |events|
  {
    hide DeclaredSize, FollowAll, Single;
    RunStarts([], b => b, seq(16, _ => 0));
    if events == [] {
      SingleIs([], Received(header));
      assert [] + [Received(header)] == [Received(header)] + events;
    } else {
      var es, e := events[..|events| - 1], events[|events| - 1];
      SingleTransfer(header, es, f);
      FollowsHeader(header, es, f);
      SingleIs([Received(header)] + es, e);
      assert [Received(header)] + es + [e] == [Received(header)] + events;
    }
  }

  /** A file of 512 bytes in one packet. */
  lemma SmallRun(data: Packet)
    requires |data| == 1029 && data[1] == 1
    ensures var es := [Received(SMALL), Received(data)];
            && FollowAll(NOTHING, es[..1]) == Track(1, HEADER, [], false, true) && FollowAll(NOTHING, es).done && FollowAll(NOTHING, es).cnt == 1
            && !Stops(es) && !Stops([Received(SMALL)]) && FollowAll(NOTHING, [Received(SMALL)]) == Track(1, HEADER, [], false, true)
            && Single([Received(SMALL)]) && es[..2 - 1] == es[..1]
  {
    hide DeclaredSize, FollowAll;
    SmallDeclares();
    RunStarts([], b => b, seq(16, _ => 0));
    var a := [Received(SMALL)];
    assert [] + a == a && a[..0] == [];
    FollowOne(NOTHING, [], Received(SMALL));
    SingleIs([], Received(SMALL));
    var es := [Received(SMALL), Received(data)];
    assert es == a + [Received(data)] && es[..1] == a;
    FollowOne(NOTHING, a, Received(data));
  }

  lemma TakeSmall(data: seq<byte>)
    requires |data| == 1024
    ensures Take(Track(1, HEADER, [], false, true), data) == Track(1, HEADER, data[..HEADER], true, true)
  {
    assert [] + data[..HEADER] == data[..HEADER];
  }

  lemma SamePrefix(f: seq<byte>, data: seq<byte>)
    requires HEADER <= |data| && f <= data[..HEADER]
    ensures |f| >= HEADER ==> f[..HEADER] == data[..HEADER]
  {}

  function SampleLong(): Packet {
    [STX, 1, 0xFE] + Sample()[..1024] + [0, 0]
  }

  function SampleShort(): Packet {
    [SOH, 2, 0xFD] + Sample()[1024..1152] + [0, 0]
  }

  function SampleEvents(): seq<Event> {
    [Received(Large()), Received(SampleLong()), Received(SampleShort())]
  }

  lemma SampleRun()
    ensures var es := SampleEvents();
            && FollowAll(NOTHING, es[..0]) == NOTHING && FollowAll(NOTHING, es[..1]) == Track(1, 2048, [], false, true)
            && FollowAll(NOTHING, es[..2]) == Track(2, 2048, Sample()[..1024], false, true)
            && FollowAll(NOTHING, es) == Track(3, 2048, Sample()[..1152], false, false)
            && es[..1] == [Received(Large())] && !Stops(es[..1]) && !Stops(es[..2]) && !Stops(es) && es[..3] == es
    ensures Data(SampleLong()) == Sample()[..1024] && Data(SampleShort()) == Sample()[1024..1152]
    ensures Take(Track(1, 2048, [], false, true), Sample()[..1024]) == Track(2, 2048, Sample()[..1024], false, true)
    ensures Take(Track(2, 2048, Sample()[..1024], false, true), Sample()[1024..1152]) == Track(3, 2048, Sample()[..1152], false, false)
  {
    hide DeclaredSize, FollowAll, Sample, Large, SampleLong, SampleShort, Take, Stops, Unfit, IsNull;
    RunStarts([], b => b, seq(16, _ => 0));
    SamplePieces();
    SampleTakes();
    SampleFirst();
    var es := SampleEvents();
    var a, b, c := [Received(Large())], Received(SampleLong()), Received(SampleShort());
    assert es[..0] == [] && es[..1] == a && es[..2] == a + [b] && es == a + [b] + [c] && es[..3] == es;
    SampleNext(a, SampleLong());
    SampleNext(a + [b], SampleShort());
  }

  lemma SampleFirst()
    ensures var a := [Received(Large())]; FollowAll(NOTHING, a) == Track(1, 2048, [], false, true) && !Stops(a)
  {
    hide DeclaredSize, FollowAll, IsNull;
    LargeDeclares();
    RunStarts([], b => b, seq(16, _ => 0));
    var a := [Received(Large())];
    assert [] + a == a && a[..0] == [];
    FollowOne(NOTHING, [], Received(Large()));
  }

  /** A further packet with data. */
  lemma SampleNext(es: seq<Event>, p: Packet)
    requires var t := FollowAll(NOTHING, es); t.cnt > 0 && IsNumber(p, t.cnt) && !IsNull(p)
    ensures FollowAll(NOTHING, es + [Received(p)]) == Take(FollowAll(NOTHING, es), Data(p)) && !Stops(es + [Received(p)])
  {
    hide FollowAll, Take, IsNull, IsNumber, DeclaredSize;
    FollowOne(NOTHING, es, Received(p));
    EventIs(es, Received(p));
  }

  lemma SampleTakes()
    ensures Take(Track(1, 2048, [], false, true), Sample()[..1024]) == Track(2, 2048, Sample()[..1024], false, true)
    ensures Take(Track(2, 2048, Sample()[..1024], false, true), Sample()[1024..1152]) == Track(3, 2048, Sample()[..1152], false, false)
  {
    hide Sample;
    SamplePieces();
  }

  lemma SamplePieces()
    ensures Data(SampleLong()) == Sample()[..1024] && Data(SampleShort()) == Sample()[1024..1152]
    ensures SampleLong()[1] == 1 && SampleShort()[1] == 2 && !IsNull(SampleLong()) && !IsNull(SampleShort())
    ensures [] + Sample()[..1024][..1024] == Sample()[..1024] && Sample()[..1024] + Sample()[1024..1152][..128] == Sample()[..1152]
  {
    hide Sample;
  }

  /** For every block cipher there are such packets. */
  lemma SomePacket(f: Block -> Block, iv: Block)
    ensures exists p: Packet :: |p| == 1029 && p[1] == 1 && HeaderGood(f, iv, Data(p)[..HEADER]) && !HasMagic(Data(p)[..HEADER])
  {
    hide HeaderGood, HasMagic, CipherHeader;
    var p: Packet := [STX, 1, 0xFE] + CipherHeader(f) + Zeros(514);
    assert Data(p)[..HEADER] == CipherHeader(f);
    CipherHeaderGood(f, iv);
    assert |p| == 1029 && p[1] == 1 && HeaderGood(f, iv, Data(p)[..HEADER]) && !HasMagic(Data(p)[..HEADER]);
  }

  lemma FollowOne(t: Track, events: seq<Event>, e: Event)
    ensures FollowAll(t, events + [e]) == Follow(FollowAll(t, events), e) && (events + [e])[..|events|] == events
    ensures e.Received? && !IsNumber(e.packet, FollowAll(t, events).cnt) ==> FollowAll(t, events + [e]) == FollowAll(t, events)
    ensures e.Error? || e.Timeout? ==> FollowAll(t, events + [e]) == FollowAll(t, events)
    ensures e.Received? && IsNumber(e.packet, FollowAll(t, events).cnt) ==>
      FollowAll(t, events + [e]) == if FollowAll(t, events).cnt == 0 then Track(1, DeclaredSize(Data(e.packet)), [], false, true)
                                    else Take(FollowAll(t, events), Data(e.packet))
  {
    assert (events + [e])[..|events|] == events;
    hide Take, DeclaredSize;
  }

  lemma GoesFirst(log: Log, log': Log, first: bool, f: Block -> Block, iv: Block, size: nat, taken: nat, data: seq<byte>)
    requires Goes(log, log', first, f, iv, size, taken, data)
    ensures Goes(log, log', true, f, iv, size, taken, data)
  {
    hide Brought;
  }

  /** A packet taken by the loader is taken by the model. */
  lemma TakeIs(t: Track, j: Job, j': Job, data: seq<byte>, r: nat)
    requires t.size == j.declared && t.data == j.file && r + |j.file| == j.declared && (Intact(j) <==> t.intact)
    requires TakenBy(j, j', data, r)
    ensures var u := Take(t, data);
            && u.size == t.size && t.data <= j'.file <= u.data
            && (u.intact <==> t.intact && Whole(data, r)) && (t.intact && (u.intact || t.data != []) && t.size >= HEADER ==> j'.headChunk == HEADER)
            && u.done == (|data| >= r) && u.cnt == t.cnt + (if |data| >= r then 0 else 1)
            && (TakenAll(j, j', data, r) ==> j'.file == u.data && (Intact(j') <==> u.intact) && (|j'.file| == j.declared <==> u.done))
  {
    hide Intact;
  }

  lemma HeaderMeans(f: Block -> Block, iv: Block, h: seq<byte>)
    requires |h| == HEADER && HeaderGood(f, iv, h)
    ensures Fits(HeaderRecord(f, iv, h))
  {}

  lemma ChainedLess(iv: Block, j: Job, encrypted: bool, chain: seq<byte>, more: bool)
    requires Chained(iv, j, encrypted, chain, true)
    ensures Chained(iv, j, encrypted, chain, more)
  {}

  lemma InFlashMeans(m: seq<byte>, p: seq<byte>)
    requires InFlash(m, p)
    ensures |m| == AREA && BOOTLOADER + |p| <= RECORD_ADDR
  {}

  lemma CountsNext(j: Job, piece: seq<byte>, out: seq<byte>, under: seq<byte>, fileRemainder: nat, indxInBlock: nat, blocksCnt: nat)
    requires Counts(j, fileRemainder, indxInBlock, blocksCnt) && blocksCnt > 0 && |out| == |piece|
    requires |piece| <= fileRemainder && |piece| <= HEADER - indxInBlock
    requires |piece| == fileRemainder || (|piece| > 0 && indxInBlock + |piece| == HEADER)
    ensures Counts(WithNext(j, piece, out, under), fileRemainder - |piece|, 0, blocksCnt + 1)
  {
    TallyNext(j.declared, |j.file|, j.headChunk, |j.got|, j.last, fileRemainder, indxInBlock, blocksCnt, |piece|);
    hide Tally;
  }

  /** All that is said of the file still holds after a further block. */
  lemma NextHolds(f: Block -> Block, iv: Block, j: Job, encrypted: bool, chain: Block, chain': Block, s: seq<byte>, chunk: nat, out: seq<byte>,
                  fileRemainder: nat, indxInBlock: nat, blocksCnt: nat, r: Record)
    requires 16 <= |s| && chunk <= |s| && chunk <= fileRemainder && chunk <= HEADER - indxInBlock && blocksCnt > 0
    requires chunk == fileRemainder || (chunk > 0 && indxInBlock + chunk == HEADER)
    requires Counts(j, fileRemainder, indxInBlock, blocksCnt) && Faithful(j) && Read(f, iv, j, r, encrypted)
    requires Decoded(f, iv, j, encrypted) && Chained(iv, j, encrypted, chain, fileRemainder > 0)
    requires out == Written(f, encrypted, chain, s, chunk)
    requires encrypted && chunk > 0 && chunk % 16 == 0 ==> chain' == Cbc.NextChain(chain, s[..chunk])
    ensures var j' := WithNext(j, s[..chunk], out, s[chunk..]);
            && Counts(j', fileRemainder - chunk, 0, blocksCnt + 1) && Faithful(j') && (Intact(j') <==> Intact(j))
            && j'.file == j.file + s[..chunk] && j'.plain == j.plain + out && j'.declared == j.declared
            && j'.wasEncrypted == j.wasEncrypted && j'.headChunk == j.headChunk
            && Read(f, iv, j', r, encrypted) && Decoded(f, iv, j', encrypted)
            && Chained(iv, j', encrypted, chain', fileRemainder - chunk > 0)
  {
    hide Written, Decoded, Chained, Read, Faithful, Tally, Cbc.NextChain;
    var j' := WithNext(j, s[..chunk], out, s[chunk..]);
    if chunk == 0 {
      assert j.file + s[..chunk] == j.file && j.plain + out == j.plain;
    }
    CountsBound(j, fileRemainder, indxInBlock, blocksCnt);
    TallyNextMeans(j.declared, |j.file|, j.headChunk, |j.got|, j.last, fileRemainder, indxInBlock, blocksCnt, chunk);
    CountsNext(j, s[..chunk], out, s[chunk..], fileRemainder, indxInBlock, blocksCnt);
    NextRead(f, iv, j, j', r, encrypted);
    FaithfulNext(j, s[..chunk], out, s[chunk..]);
    DecodedNext(f, iv, j, encrypted, chain, chain', s, chunk, out, fileRemainder - chunk > 0);
  }

  lemma NextRead(f: Block -> Block, iv: Block, j: Job, j': Job, r: Record, encrypted: bool)
    requires Read(f, iv, j, r, encrypted) && j'.head == j.head && j'.wasEncrypted == j.wasEncrypted
    ensures Read(f, iv, j', r, encrypted) && |j'.head| == HEADER
  {}
}
