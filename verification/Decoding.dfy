/**
 * What a file means to Y_Loader.c: its first block holds a boot record and says whether the file is encrypted; the chunks
 * of the body after it are decrypted block by block where they lie.
 */
module Decoding {
  import opened Words
  import opened Flash
  import opened Boot
  import opened History
  import Aes
  import AesCipher
  import Cbc

  type Block = AesCipher.Block

  /** HEADER_BLOCK_SZ */
  const HEADER := 512

  // ---- The header ----

  predicate HasMagic(header: seq<byte>)
    requires |header| == HEADER
  {
    MagicVal(header[HEADER - RECORD..]) == MAGIC_TAG
  }

  /** The boot record of a header block, which is decrypted unless it shows the magic number as it is. */
  ghost function HeaderRecord(f: Block -> Block, iv: Block, header: seq<byte>): Record
    requires |header| == HEADER
  {
    hide HasMagic;
    (if HasMagic(header) then header else Cbc.Decrypt(f, iv, header))[HEADER - RECORD..]
  }

  /** The chain block the body starts with. */
  function BodyChain(iv: Block, header: seq<byte>): Block
    requires |header| == HEADER
  {
    hide HasMagic;
    if HasMagic(header) then iv else Cbc.NextChain(iv, header)
  }

  /** The images the loader takes. */
  predicate Fits(r: Record) {
    OrigImgSize(r) <= MAX_IMAGE && CompressFlag(r) == 0
  }

  /** The header shows a boot record the loader accepts. */
  ghost predicate HeaderGood(f: Block -> Block, iv: Block, header: seq<byte>)
    requires |header| == HEADER
  {
    MagicVal(HeaderRecord(f, iv, header)) == MAGIC_TAG && Fits(HeaderRecord(f, iv, header))
  }

  // ---- The body ----

  lemma BlocksBound(n: nat, size: nat)
    requires n <= size && 16 <= size
    ensures 16 * Cbc.Blocks(n) <= size
  {}

  /**
   * What n bytes at the beginning of a block become in it: its whole ciphertext blocks are decrypted, but at least one is,
   * with whatever lies behind the bytes; the rest is left as it is.
   */
  ghost function ChunkPlain(f: Block -> Block, chain: Block, s: seq<byte>, n: nat): (p: seq<byte>)
    requires n <= |s| && 16 <= |s|
    ensures |p| == n
  {
    BlocksBound(n, |s|);
    (Cbc.Decrypt(f, chain, s[..16 * Cbc.Blocks(n)]) + s[16 * Cbc.Blocks(n)..])[..n]
  }

  /** What is written for a chunk. */
  ghost function Written(f: Block -> Block, encrypted: bool, chain: Block, s: seq<byte>, n: nat): (p: seq<byte>)
    requires n <= |s| && 16 <= |s|
    ensures |p| == n
  {
    if encrypted then ChunkPlain(f, chain, s, n) else s[..n]
  }

  /** The last chunk of a body is of a size that leaves whole ciphertext blocks before it, and something lies behind it. */
  predicate Ends(body: seq<byte>, last: nat, under: seq<byte>) {
    last <= |body| && (|body| - last) % 16 == 0 && 16 <= last + |under|
  }

  /** What is written for a body with a last chunk of the given size, behind which lies something else in the block. */
  ghost function BodyPlain(f: Block -> Block, encrypted: bool, chain: Block, body: seq<byte>, last: nat, under: seq<byte>): (p: seq<byte>)
    requires Ends(body, last, under)
    ensures |p| == |body|
  {
    if !encrypted then body
    else if last == 0 then Cbc.Decrypt(f, chain, body)
    else
      var w := body[..|body| - last];
      Cbc.Decrypt(f, chain, w) + ChunkPlain(f, Cbc.NextChain(chain, w), body[|w|..] + under, last)
  }

  lemma ChunkWhole(f: Block -> Block, chain: Block, s: seq<byte>, n: nat)
    requires 0 < n <= |s| && 16 <= |s| && n % 16 == 0
    ensures ChunkPlain(f, chain, s, n) == Cbc.Decrypt(f, chain, s[..n])
  {
    hide Cbc.Decrypt;
    assert 16 * Cbc.Blocks(n) == n;
  }

  /** A body of whole ciphertext blocks is decrypted as one. */
  lemma BodyWhole(f: Block -> Block, chain: Block, body: seq<byte>, last: nat, under: seq<byte>)
    requires Ends(body, last, under) && Cbc.Whole(body)
    ensures BodyPlain(f, true, chain, body, last, under) == Cbc.Decrypt(f, chain, body)
  {
    hide Cbc.Decrypt, ChunkPlain;
    if last > 0 {
      var w, x := body[..|body| - last], body[|body| - last..];
      assert body == w + x && (x + under)[..last] == x;
      ChunkWhole(f, Cbc.NextChain(chain, w), x + under, last);
      Cbc.DecryptSplit(f, chain, w, x);
    }
  }

  /**
   * Of a body of another size the whole ciphertext blocks are decrypted and the rest is left as it was received, unless the
   * last chunk is shorter than a ciphertext block: then it is decrypted with what happens to lie behind it.
   */
  lemma BodyOdd(f: Block -> Block, chain: Block, body: seq<byte>, last: nat, under: seq<byte>)
    requires Ends(body, last, under) && !Cbc.Whole(body)
    ensures var q := |body| - |body| % 16;
            BodyPlain(f, true, chain, body, last, under) == Cbc.Decrypt(f, chain, body[..q]) +
              if last >= 16 then body[q..]
              else Cbc.Decrypt(f, Cbc.NextChain(chain, body[..q]), (body[q..] + under)[..16])[..|body| % 16]
  {
    hide Cbc.Decrypt, ChunkPlain;
    var q := |body| - |body| % 16;
    var w, x := body[..|body| - last], body[|body| - last..];
    SameRest(|body|, last);
    if last >= 16 {
      var k := last - last % 16;
      ChunkLong(f, Cbc.NextChain(chain, w), x, under, k);
      Cut(body, |w|, k);
      Cbc.DecryptSplit(f, chain, w, x[..k]);
    } else {
      assert w == body[..q] && x == body[q..];
      ChunkShort(f, Cbc.NextChain(chain, w), x + under, last);
    }
  }

  lemma Cut(s: seq<byte>, i: nat, k: nat)
    requires i + k <= |s|
    ensures s[..i + k] == s[..i] + s[i..][..k] && s[i..][k..] == s[i + k..]
  {}

  lemma SameRest(n: nat, last: nat)
    requires last <= n && (n - last) % 16 == 0
    ensures n % 16 == last % 16
  {
    assert n == 16 * ((n - last) / 16 + last / 16) + last % 16;
  }

  lemma ChunkLong(f: Block -> Block, chain: Block, x: seq<byte>, under: seq<byte>, k: nat)
    requires 16 <= |x| && k == |x| - |x| % 16
    ensures ChunkPlain(f, chain, x + under, |x|) == Cbc.Decrypt(f, chain, x[..k]) + x[k..]
  {
    hide Cbc.Decrypt;
    assert k == 16 * Cbc.Blocks(|x|);
    var s := x + under;
    assert s[..k] == x[..k];
    var p := Cbc.Decrypt(f, chain, x[..k]);
    assert (p + s[k..])[..|x|] == p + x[k..];
  }

  lemma ChunkShort(f: Block -> Block, chain: Block, s: seq<byte>, n: nat)
    requires n < 16 <= |s|
    ensures ChunkPlain(f, chain, s, n) == Cbc.Decrypt(f, chain, s[..16])[..n]
  {
    hide Cbc.Decrypt;
    assert Cbc.Blocks(n) == 1;
  }

  /** The last chunk of a body that is cut into blocks from its beginning. */
  predicate LastIs(n: nat, last: nat) {
    last <= n && last <= HEADER && (n - last) % HEADER == 0 && (n > 0 ==> last > 0)
  }

  lemma LastChunk(n: nat, last: nat)
    requires LastIs(n, last) && n % 16 != 0
    ensures last == n % HEADER
  {
    var q := (n - last) / HEADER;
    HeadersAreWhole(q);
    if last < HEADER {
      Remainder(n, q, last);
    }
  }

  lemma HeadersAreWhole(q: nat)
    ensures (HEADER * q + HEADER) % 16 == 0
  {
    assert HEADER * q + HEADER == 16 * (32 * q + 32);
  }

  lemma Remainder(n: nat, q: nat, last: nat)
    requires n == HEADER * q + last && last < HEADER
    ensures n % HEADER == last
  {}

  /** An encrypted body that came block by block, after what the routine decrypts of it. */
  ghost function Deciphered(f: Block -> Block, chain: Block, body: seq<byte>, under: seq<byte>): seq<byte> {
    var q := |body| - |body| % 16;
    if |body| % 16 == 0 then Cbc.Decrypt(f, chain, body)
    else if |body| % HEADER >= 16 || |body[q..] + under| < 16 then Cbc.Decrypt(f, chain, body[..q]) + body[q..]
    else Cbc.Decrypt(f, chain, body[..q]) + Cbc.Decrypt(f, Cbc.NextChain(chain, body[..q]), (body[q..] + under)[..16])[..|body| % 16]
  }

  lemma DecipheredIs(f: Block -> Block, chain: Block, body: seq<byte>, last: nat, under: seq<byte>)
    requires Ends(body, last, under) && LastIs(|body|, last)
    ensures BodyPlain(f, true, chain, body, last, under) == Deciphered(f, chain, body, under)
  {
    hide Cbc.Decrypt, BodyPlain;
    if |body| % 16 == 0 {
      BodyWhole(f, chain, body, last, under);
    } else {
      LastChunk(|body|, last);
      BodyOdd(f, chain, body, last, under);
      SameRest(|body|, last);
      assert last < 16 ==> |body| % 16 == last;
    }
  }

  /** A further chunk behind whole ciphertext blocks. */
  lemma BodyNext(f: Block -> Block, encrypted: bool, chain: Block, body: seq<byte>, last: nat, under: seq<byte>,
                 piece: seq<byte>, under': seq<byte>)
    requires Ends(body, last, under) && Cbc.Whole(body) && piece != [] && 16 <= |piece| + |under'|
    ensures Ends(body + piece, |piece|, under')
    ensures var c := if encrypted then Cbc.NextChain(chain, body) else chain;
            BodyPlain(f, encrypted, chain, body + piece, |piece|, under') ==
              BodyPlain(f, encrypted, chain, body, last, under) + Written(f, encrypted, c, piece + under', |piece|)
  {
    if encrypted {
      BodyWhole(f, chain, body, last, under);
      assert (body + piece)[..|body|] == body && (body + piece)[|body|..] == piece;
    } else {
      assert (piece + under')[..|piece|] == piece;
    }
  }

  // ---- Files ----

  /** An encrypted file, header and body encrypted as one, comes out in clear. */
  lemma EncryptedFile(key: seq<byte>, iv: Block, clear: seq<byte>, last: nat, under: seq<byte>)
    requires |key| == 32 && |clear| >= HEADER && Cbc.Whole(clear)
    requires var c := Cbc.Encrypt(Cbc.Encipher(key), iv, clear);
             !HasMagic(c[..HEADER]) && Ends(c[HEADER..], last, under)
    ensures var file := Cbc.Encrypt(Cbc.Encipher(key), iv, clear);
            var h := file[..HEADER];
            && HeaderRecord(Cbc.Decipher(key), iv, h) == clear[HEADER - RECORD..HEADER]
            && BodyPlain(Cbc.Decipher(key), true, BodyChain(iv, h), file[HEADER..], last, under) == clear[HEADER..]
  {
    hide Cbc.Encrypt, Cbc.Decrypt, Cbc.Encipher, Cbc.Decipher, Cbc.NextChain, HasMagic;
    var file := Cbc.Encrypt(Cbc.Encipher(key), iv, clear);
    var h, body := file[..HEADER], file[HEADER..];
    Cbc.AesRoundTrip(key, iv, clear);
    assert file == h + body;
    Cbc.DecryptSplit(Cbc.Decipher(key), iv, h, body);
    var p, q := Cbc.Decrypt(Cbc.Decipher(key), iv, h), Cbc.Decrypt(Cbc.Decipher(key), Cbc.NextChain(iv, h), body);
    assert clear == p + q && p == clear[..HEADER] && q == clear[HEADER..];
    BodyWhole(Cbc.Decipher(key), BodyChain(iv, h), body, last, under);
  }

  // ---- A header that must be encrypted ----

  /** The last block of a record of no size, not compressed, with the magic number. */
  const RECORD_END: Block := [0, 0, 0, 0, 0, 0, 0, 0, 0, 0, 0, 0, 0x11, 0x33, 0x55, 0xAA]

  function Zeros(n: nat): (s: seq<byte>)
    ensures |s| == n
  {
    seq(n, _ => 0)
  }

  /** A header made backwards for any block cipher: each block is chosen so that the next one decrypts as wanted. */
  ghost function CipherHeader(f: Block -> Block): (h: seq<byte>)
    ensures |h| == HEADER
  {
    var c := AesCipher.AddRoundKey(f(Zeros(16)), RECORD_END);
    Zeros(464) + AesCipher.AddRoundKey(f(c), Zeros(16)) + c + Zeros(16)
  }

  lemma Cancels(x: Block, y: Block)
    ensures AesCipher.AddRoundKey(x, AesCipher.AddRoundKey(x, y)) == y
  {
    forall i | 0 <= i < 16
      ensures AesCipher.AddRoundKey(x, AesCipher.AddRoundKey(x, y))[i] == y[i]
    {
      PlusCancels(x[i], y[i]);
    }
  }

  lemma PlusCancels(a: byte, b: byte)
    ensures AesCipher.Plus(a, AesCipher.Plus(a, b)) == b
  {}

  /** How it decrypts. */
  lemma CipherHeaderEnd(f: Block -> Block, iv: Block)
    ensures Cbc.Decrypt(f, iv, CipherHeader(f))[480..496] == Zeros(16) && Cbc.Decrypt(f, iv, CipherHeader(f))[496..] == RECORD_END
    ensures CipherHeader(f)[496..] == Zeros(16)
  {
    hide Cbc.Decrypt, AesCipher.AddRoundKey;
    var h := CipherHeader(f);
    var z, c := Zeros(16), AesCipher.AddRoundKey(f(Zeros(16)), RECORD_END);
    var b := AesCipher.AddRoundKey(f(c), z);
    assert h[..480] == Zeros(464) + b && h[480..496] == c && h[496..] == z && h[..496] == Zeros(464) + b + c;
    assert h == h[..480] + c + z && h == h[..496] + z + [];
    assert Cbc.NextChain(iv, h[..480]) == b && Cbc.NextChain(iv, h[..496]) == c;
    Cbc.DecryptAt(f, iv, h[..480], c, z);
    Cbc.DecryptAt(f, iv, h[..496], z, []);
    Cancels(f(c), z);
    Cancels(f(z), RECORD_END);
    assert Cbc.Decrypt(f, iv, h)[496..] == Cbc.Decrypt(f, iv, h)[496..512];
  }

  /** For every block cipher there is a header the loader accepts and takes for encrypted. */
  lemma CipherHeaderGood(f: Block -> Block, iv: Block)
    ensures !HasMagic(CipherHeader(f)) && HeaderGood(f, iv, CipherHeader(f))
  {
    hide Cbc.Decrypt, AesCipher.AddRoundKey, Octet, CipherHeader;
    CipherHeaderEnd(f, iv);
    var h := CipherHeader(f);
    var p := Cbc.Decrypt(f, iv, h);
    var r := p[HEADER - RECORD..];
    assert r[16..32] == p[480..496] && r[32..] == p[496..];
    assert h[HEADER - RECORD..][32..] == h[496..];
    EndOf(h[HEADER - RECORD..], Zeros(16));
    EndOf(r, RECORD_END);
    assert r[16] == r[16..32][0] && r[17] == r[16..32][1] && r[18] == r[16..32][2] && r[19] == r[16..32][3];
    NumberOf(r, 16, 0, 0, 0, 0);
    Octets();
  }

  lemma EndOf(r: Record, e: Block)
    requires r[32..] == e
    ensures CompressFlag(r) == Number(e, 4) && MagicVal(r) == Number(e, 12)
    ensures Number(Zeros(16), 12) == 0 && Number(RECORD_END, 4) == 0 && Number(RECORD_END, 12) == MAGIC_TAG
  {
    hide Octet;
    assert forall k :: 32 <= k < RECORD ==> r[k] == e[k - 32];
    NumberOf(r, 36, e[4], e[5], e[6], e[7]);
    NumberOf(r, 44, e[12], e[13], e[14], e[15]);
    NumberOf(e, 4, e[4], e[5], e[6], e[7]);
    NumberOf(e, 12, e[12], e[13], e[14], e[15]);
    NumberOf(Zeros(16), 12, 0, 0, 0, 0);
    NumberOf(RECORD_END, 4, 0, 0, 0, 0);
    NumberOf(RECORD_END, 12, 0x11, 0x33, 0x55, 0xAA);
    Octets();
  }

  lemma NumberOf(s: seq<byte>, i: nat, a: byte, b: byte, c: byte, d: byte)
    requires i + 4 <= |s| && s[i] == a && s[i + 1] == b && s[i + 2] == c && s[i + 3] == d
    ensures Number(s, i) == Octet(a) + 0x100 * Octet(b) + 0x1_0000 * Octet(c) + 0x100_0000 * Octet(d)
  {
    hide Octet;
  }

  lemma Octets()
    ensures Octet(0) == 0 && Octet(1) == 1 && Octet(0x11) == 0x11 && Octet(0x33) == 0x33 && Octet(0x55) == 0x55 && Octet(0xAA) == 0xAA
  {}

  // ---- A plain file ----

  /** A record for an image of one byte, not compressed, with the magic number. */
  function SampleRecord(): seq<byte> {
    Zeros(16) + [1, 0, 0, 0, 0, 0, 0, 0, 0, 0, 0, 0, 0, 0, 0, 0] + RECORD_END
  }

  /** A plain file of 2048 bytes. */
  function Sample(): (f: seq<byte>)
    ensures |f| == 2048
  {
    Zeros(464) + SampleRecord() + Zeros(1536)
  }

  lemma SampleGood(f: Block -> Block, iv: Block)
    ensures HasMagic(Sample()[..HEADER]) && HeaderGood(f, iv, Sample()[..HEADER])
    ensures Roomy(HeaderRecord(f, iv, Sample()[..HEADER]), 2048) && Writable(2048)
  {
    hide Octet, Number, SampleRecord;
    SampleFields();
    var h := Sample()[..HEADER];
    assert h[HEADER - RECORD..] == SampleRecord();
    WritableIs(2048);
  }

  lemma SampleFields()
    ensures |SampleRecord()| == RECORD
    ensures MagicVal(SampleRecord()) == MAGIC_TAG && CompressFlag(SampleRecord()) == 0 && OrigImgSize(SampleRecord()) == 1
  {
    hide Number;
    var r := SampleRecord();
    assert r[32..] == RECORD_END;
    EndOf(r, RECORD_END);
    NumberOf(r, 16, 1, 0, 0, 0);
    Octets();
  }

  // ---- The program area ----

  /** The sectors of the program area. */
  const MAX_SECTORS := (AREA - BOOTLOADER) / SECTOR

  /** The sectors erased from the program area on; the last sector of the flash is never among them, since it is erased first. */
  function SectorsOf(size: nat): nat {
    var n := size / SECTOR + (if size % SECTOR != 0 then 1 else 0);
    if n >= MAX_SECTORS then MAX_SECTORS - 1 else n
  }

  /** The flash after the last sector and n sectors of the program area are erased. */
  function Wiped(m: seq<byte>, n: nat): (r: seq<byte>)
    ensures |r| == |m|
  {
    seq(|m|, i requires 0 <= i < |m| =>
      if i >= AREA - SECTOR || BOOTLOADER <= i < BOOTLOADER + n * SECTOR then 0xFF else m[i])
  }

  lemma WipedStart(m: seq<byte>)
    requires |m| == AREA
    ensures Erased(m, AREA - SECTOR) == Wiped(m, 0)
  {
    var a, b := Erased(m, AREA - SECTOR), Wiped(m, 0);
    forall i | 0 <= i < |m|
      ensures a[i] == b[i]
    {
      SectorBounds(AREA - SECTOR, i);
    }
  }

  lemma WipedNext(m: seq<byte>, n: nat)
    requires |m| == AREA
    ensures Erased(Wiped(m, n), BOOTLOADER + n * SECTOR) == Wiped(m, n + 1)
  {
    hide InSector;
    var a, b := Erased(Wiped(m, n), BOOTLOADER + n * SECTOR), Wiped(m, n + 1);
    forall i | 0 <= i < |m|
      ensures a[i] == b[i]
    {
      SectorBounds(BOOTLOADER + n * SECTOR, i);
    }
  }

  /** Every byte an image of the size meets is erased, and nothing of the boot loader is. */
  lemma WipedCovers(m: seq<byte>, size: nat, i: nat)
    requires |m| == AREA && size <= MAX_IMAGE && i < AREA
    ensures BOOTLOADER <= i < BOOTLOADER + size ==> Wiped(m, SectorsOf(size))[i] == 0xFF
    ensures i < BOOTLOADER ==> Wiped(m, SectorsOf(size))[i] == m[i]
    ensures i >= RECORD_ADDR ==> Wiped(m, SectorsOf(size))[i] == 0xFF
  {
    var q, r := size / SECTOR, size % SECTOR;
    assert size == q * SECTOR + r;
  }

  /** The end of the sectors erased for an image; when they reach the last sector, that is erased as well. */
  function ErasedEnd(r: Record): nat {
    if SectorsOf(OrigImgSize(r)) == MAX_SECTORS - 1 then AREA else BOOTLOADER + SectorsOf(OrigImgSize(r)) * SECTOR
  }

  lemma ErasedEndBound(r: Record)
    ensures ErasedEnd(r) <= AREA
  {
    hide Number;
  }

  /** Everything from an address to the end of the erased sectors is still erased. */
  ghost predicate Fresh(m: seq<byte>, from: nat, r: Record) {
    |m| == AREA && forall i :: from <= i < ErasedEnd(r) && i < AREA ==> m[i] == 0xFF
  }

  /** The body of a file of the declared size goes into the sectors erased for its image. */
  predicate Roomy(r: Record, declared: nat) {
    BOOTLOADER + declared <= HEADER + ErasedEnd(r)
  }

  /** A chunk can be written there: nothing is to be written, or the cells are erased. */
  ghost predicate Takes(m: seq<byte>, addr: nat, chunk: nat) {
    chunk == 0 || (addr % 8 == 0 && addr + chunk <= |m| && forall i :: addr <= i < addr + chunk ==> m[i] == 0xFF)
  }

  lemma WipedFresh(m: seq<byte>, r: Record)
    requires |m| == AREA
    ensures Fresh(Wiped(m, SectorsOf(OrigImgSize(r))), BOOTLOADER, r)
  {
    hide Number;
  }

  /** The phrases written cover the chunk, and no more if it is a whole number of them. */
  lemma PhrasesCover(addr: nat, sz: nat)
    requires addr % 8 == 0 && addr + sz <= AREA
    ensures sz <= 8 * Phrases(addr, sz)
    ensures sz % 8 == 0 ==> 8 * Phrases(addr, sz) == sz
  {
    if sz > 0 {
      WritableIs(sz);
      assert 8 * ((AREA - addr) / 8) == AREA - addr;
      if sz % 8 == 0 {
        assert WordCount(sz) / 2 <= (AREA - addr) / 8;
      }
    }
  }

  lemma BurntTakes(m: seq<byte>, addr: nat, src: nat -> byte, sz: nat)
    requires |m| == AREA && addr + sz <= AREA && Takes(m, addr, sz)
    ensures forall i :: addr <= i < addr + sz ==> Burnt(m, addr, src, Phrases(addr, sz))[i] == src(i - addr)
  {
    if sz > 0 {
      PhrasesCover(addr, sz);
      hide Phrases;
      var r := Burnt(m, addr, src, Phrases(addr, sz));
      forall i | addr <= i < addr + sz
        ensures r[i] == src(i - addr)
      {
        BurnErased(src(i - addr));
      }
    }
  }

  lemma BurntExactly(m: seq<byte>, addr: nat, src: nat -> byte, sz: nat)
    requires |m| == AREA && addr + sz <= AREA && addr % 8 == 0 && sz % 8 == 0
    ensures Burnt(m, addr, src, Phrases(addr, sz))[addr + sz..] == m[addr + sz..]
  {
    PhrasesCover(addr, sz);
    hide Phrases;
  }

  lemma FreshTakes(m: seq<byte>, from: nat, r: Record, chunk: nat)
    requires Fresh(m, from, r) && from % 8 == 0 && from + chunk <= ErasedEnd(r) <= AREA
    ensures Takes(m, from, chunk)
  {
    hide ErasedEnd;
  }

  lemma FreshAfter(m: seq<byte>, m': seq<byte>, from: nat, r: Record, chunk: nat)
    requires Fresh(m, from, r) && |m'| == AREA && from + chunk <= AREA && m'[from + chunk..] == m[from + chunk..]
    ensures Fresh(m', from + chunk, r)
  {
    hide ErasedEnd;
    forall i | from + chunk <= i < ErasedEnd(r) && i < AREA
      ensures m'[i] == 0xFF
    {
      assert m'[i] == m'[from + chunk..][i - (from + chunk)];
    }
  }

  lemma NothingTakes(m: seq<byte>, addr: nat)
    ensures Takes(m, addr, 0)
  {}

  /** The program area begins with what has been written. */
  ghost predicate InFlash(m: seq<byte>, plain: seq<byte>) {
    |m| == AREA && BOOTLOADER + |plain| <= RECORD_ADDR && m[BOOTLOADER..BOOTLOADER + |plain|] == plain
  }

  lemma InFlashBelow(m: seq<byte>, m': seq<byte>, plain: seq<byte>)
    requires InFlash(m, plain) && |m'| == AREA && m'[..RECORD_ADDR] == m[..RECORD_ADDR]
    ensures InFlash(m', plain)
  {
    assert m'[BOOTLOADER..BOOTLOADER + |plain|] == m'[..RECORD_ADDR][BOOTLOADER..BOOTLOADER + |plain|];
    assert m[BOOTLOADER..BOOTLOADER + |plain|] == m[..RECORD_ADDR][BOOTLOADER..BOOTLOADER + |plain|];
  }

  /** A piece is written behind what is there. */
  lemma InFlashAppend(m: seq<byte>, m': seq<byte>, p: seq<byte>, q: seq<byte>)
    requires InFlash(m, p) && |m'| == AREA && BOOTLOADER + |p + q| <= RECORD_ADDR
    requires m'[..BOOTLOADER + |p|] == m[..BOOTLOADER + |p|] && m'[BOOTLOADER + |p|..BOOTLOADER + |p + q|] == q
    ensures InFlash(m', p + q)
  {
    assert m'[BOOTLOADER..BOOTLOADER + |p|] == m'[..BOOTLOADER + |p|][BOOTLOADER..] == p;
    assert m'[BOOTLOADER..BOOTLOADER + |p + q|] == p + q;
  }

  /**
   * A chunk of an odd number of words runs on to the end of the flash: the boot record stays blank exactly if
   * the memory behind the buffer happens to hold blank bytes there.
   */
  lemma OverrunMeetsRecord(m: seq<byte>, addr: nat, src: nat -> byte, sz: nat)
    requires |m| == AREA && Blank(m) && addr % 8 == 0 && addr <= RECORD_ADDR && sz < WORD && !Writable(sz)
    ensures Blank(Burnt(m, addr, src, Phrases(addr, sz))) <==>
            forall k: nat :: RECORD_ADDR - addr <= k < AREA - addr ==> src(k) == 0xFF
  {
    OverrunReachesEnd(addr, sz);
    var r := Burnt(m, addr, src, Phrases(addr, sz));
    forall k: nat | RECORD_ADDR - addr <= k < AREA - addr
      ensures r[addr + k] == src(k)
    {
      BurnErased(src(k));
    }
    hide Burnt;
    if Blank(r) {
      forall k: nat | RECORD_ADDR - addr <= k < AREA - addr
        ensures src(k) == 0xFF
      {
        assert r[addr + k] == 0xFF;
      }
    } else {
      var i :| RECORD_ADDR <= i < AREA && r[i] != 0xFF;
      assert r[addr + (i - addr)] == src(i - addr);
    }
  }
}
