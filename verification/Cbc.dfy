/** Y_Loader.c, Decrypt_block: cipher block chaining with the chain block kept between calls. */
module Cbc {
  import opened Words
  import opened Gf256
  import opened AesCipher
  import opened Aes

  // ---- SP 800-38A section 6.2 ----

  /** s consists of whole blocks. */
  predicate Whole(s: seq<byte>) {
    |s| % 16 == 0
  }

  ghost function Encrypt(f: Block -> Block, chain: Block, p: seq<byte>): (c: seq<byte>)
    requires Whole(p)
    ensures |c| == |p|
    decreases |p|
  {
    if p == [] then []
    else
      var c := f(AddRoundKey(p[..16], chain));
      c + Encrypt(f, c, p[16..])
  }

  ghost function Decrypt(f: Block -> Block, chain: Block, c: seq<byte>): (p: seq<byte>)
    requires Whole(c)
    ensures |p| == |c|
    decreases |c|
  {
    if c == [] then []
    else AddRoundKey(f(c[..16]), chain) + Decrypt(f, c[..16], c[16..])
  }

  /** The chain block after a ciphertext. */
  function NextChain(chain: Block, c: seq<byte>): Block
    requires Whole(c)
  {
    if c == [] then chain else c[|c| - 16..]
  }

  /** Decryption undoes encryption under the same initial chain block, for any block cipher. */
  lemma {:induction false} DecryptEncrypt(f: Block -> Block, g: Block -> Block, chain: Block, p: seq<byte>)
    requires Whole(p) && forall x :: g(f(x)) == x
    ensures Decrypt(g, chain, Encrypt(f, chain, p)) == p
    decreases |p|
  {
    hide AddRoundKey;
    if p != [] {
      var x := AddRoundKey(p[..16], chain);
      assert g(f(x)) == x;
      AddRoundKeyUndone(p[..16], chain);
      DecryptEncrypt(f, g, f(x), p[16..]);
      var e := Encrypt(f, chain, p);
      assert e[..16] == f(x) && e[16..] == Encrypt(f, f(x), p[16..]);
      assert p == p[..16] + p[16..];
    }
  }

  lemma DecryptCons(f: Block -> Block, chain: Block, b: Block, rest: seq<byte>)
    requires Whole(rest)
    ensures Whole(b + rest)
    ensures Decrypt(f, chain, b + rest) == AddRoundKey(f(b), chain) + Decrypt(f, b, rest)
  {
    hide AddRoundKey;
    assert (b + rest)[..16] == b && (b + rest)[16..] == rest;
  }

  lemma NextChainSplit(chain: Block, x: seq<byte>, y: seq<byte>)
    requires Whole(x) && Whole(y)
    ensures NextChain(chain, x + y) == NextChain(NextChain(chain, x), y)
  {
    if y == [] {
      assert x + y == x;
    } else {
      assert (x + y)[|x + y| - 16..] == y[|y| - 16..];
    }
  }

  /** Decrypting in two calls with the chain block carried over is decrypting in one. */
  lemma {:induction false} DecryptSplit(f: Block -> Block, chain: Block, x: seq<byte>, y: seq<byte>)
    requires Whole(x) && Whole(y)
    ensures Decrypt(f, chain, x + y) == Decrypt(f, chain, x) + Decrypt(f, NextChain(chain, x), y)
    decreases |x|
  {
    if x == [] {
      assert x + y == y;
    } else {
      var b, x' := x[..16], x[16..];
      assert x == b + x';
      assert x + y == b + (x' + y);
      NextChainSplit(chain, b, x');
      hide AddRoundKey, Decrypt;
      DecryptCons(f, chain, b, x' + y);
      DecryptCons(f, chain, b, x');
      DecryptSplit(f, b, x', y);
      Associative(AddRoundKey(f(b), chain), Decrypt(f, b, x'), Decrypt(f, NextChain(b, x'), y));
    }
  }

  lemma Associative(a: seq<byte>, b: seq<byte>, c: seq<byte>)
    ensures a + (b + c) == (a + b) + c
  {}

  function Concat(chunks: seq<seq<byte>>): seq<byte> {
    if chunks == [] then [] else chunks[0] + Concat(chunks[1..])
  }

  predicate AllWhole(chunks: seq<seq<byte>>) {
    forall i :: 0 <= i < |chunks| ==> Whole(chunks[i])
  }

  /** What a series of calls leaves in its buffers. */
  ghost function Session(f: Block -> Block, chain: Block, chunks: seq<seq<byte>>): seq<byte>
    requires AllWhole(chunks)
    decreases |chunks|
  {
    if chunks == [] then []
    else Decrypt(f, chain, chunks[0]) + Session(f, NextChain(chain, chunks[0]), chunks[1..])
  }

  lemma {:induction false} ConcatWhole(chunks: seq<seq<byte>>)
    requires AllWhole(chunks)
    ensures Whole(Concat(chunks))
    decreases |chunks|
  {
    if chunks != [] {
      ConcatWhole(chunks[1..]);
    }
  }

  /** However a ciphertext is cut into whole-block calls, together they decrypt it as one. */
  lemma {:induction false} SessionIsOneShot(f: Block -> Block, chain: Block, chunks: seq<seq<byte>>)
    requires AllWhole(chunks)
    ensures Whole(Concat(chunks)) && Session(f, chain, chunks) == Decrypt(f, chain, Concat(chunks))
    decreases |chunks|
  {
    ConcatWhole(chunks);
    if chunks != [] {
      ConcatWhole(chunks[1..]);
      SessionIsOneShot(f, NextChain(chain, chunks[0]), chunks[1..]);
      DecryptSplit(f, chain, chunks[0], Concat(chunks[1..]));
    }
  }

  /** Block k of the plaintext depends on ciphertext blocks k - 1 and k only. */
  lemma {:induction false} DecryptAt(f: Block -> Block, chain: Block, before: seq<byte>, b: Block, after: seq<byte>)
    requires Whole(before) && Whole(after)
    ensures Decrypt(f, chain, before + b + after)[|before|..|before| + 16] == AddRoundKey(f(b), NextChain(chain, before))
  {
    hide AddRoundKey, Decrypt;
    DecryptSplit(f, chain, before, b + after);
    assert before + b + after == before + (b + after);
    DecryptCons(f, NextChain(chain, before), b, after);
    var p, q, r := Decrypt(f, chain, before), AddRoundKey(f(b), NextChain(chain, before)), Decrypt(f, b, after);
    assert (p + (q + r))[|before|..|before| + 16] == q;
  }

  // ---- The routine ----

  /** Decryption of one block with a key. */
  ghost function Decipher(key: seq<byte>): Block -> Block
    requires |key| == 32
  {
    c => AesCipher.InvCipher(c, ExpandedKey(key))
  }

  ghost function Encipher(key: seq<byte>): Block -> Block
    requires |key| == 32
  {
    c => AesCipher.Cipher(c, ExpandedKey(key))
  }

  /** With the same key and initial chain block, what the loader decrypts is what was encrypted. */
  lemma AesRoundTrip(key: seq<byte>, chain: Block, p: seq<byte>)
    requires |key| == 32 && Whole(p)
    ensures Decrypt(Decipher(key), chain, Encrypt(Encipher(key), chain, p)) == p
  {
    hide AesCipher.InvCipher, AesCipher.Cipher, ExpandedKey;
    forall x: Block
      ensures Decipher(key)(Encipher(key)(x)) == x
    {
      InvCipherUndoesCipher(x, ExpandedKey(key));
    }
    DecryptEncrypt(Encipher(key), Decipher(key), chain, p);
  }

  /** The number of blocks a call touches: the loop tests its length only after the first block. */
  function Blocks(len: int): nat {
    if len < 32 then 1 else len / 16
  }

  lemma DecryptSnoc(f: Block -> Block, chain: Block, x: seq<byte>, b: Block)
    requires Whole(x)
    ensures Whole(x + b) && NextChain(chain, x + b) == b
    ensures Decrypt(f, chain, x + b) == Decrypt(f, chain, x) + AddRoundKey(f(b), NextChain(chain, x))
  {
    hide AddRoundKey, Decrypt;
    DecryptSplit(f, chain, x, b);
    DecryptCons(f, NextChain(chain, x), b, []);
    assert b + [] == b;
    DecryptNone(f, b);
  }

  lemma DecryptNone(f: Block -> Block, chain: Block)
    ensures Decrypt(f, chain, []) == []
  {}

  lemma SpliceTail(s: seq<byte>, o: nat, t: seq<byte>, p: nat, n: nat)
    requires o + |t| == p && p + n <= |s|
    ensures Splice(s, o, t)[p..p + n] == s[p..p + n]
  {
    var r := Splice(s, o, t);
    assert r[p..p + n] == r[o + |t|..][..n];
    assert s[p..p + n] == s[o + |t|..][..n];
  }

  /** n blocks of s from o on are decrypted in b, starting from the given chain block; c is the chain block reached. */
  ghost predicate Progress(key: seq<byte>, s: seq<byte>, o: nat, n: nat, chain: seq<byte>, b: seq<byte>, c: seq<byte>) {
    && |key| == 32 && |chain| == 16 && o + 16 * n <= |s|
    && b == Splice(s, o, Decrypt(Decipher(key), chain, s[o..o + 16 * n]))
    && c == NextChain(chain, s[o..o + 16 * n])
  }

  lemma ProgressStart(key: seq<byte>, s: seq<byte>, o: nat, chain: seq<byte>)
    requires |key| == 32 && |chain| == 16 && o <= |s|
    ensures Progress(key, s, o, 0, chain, s, chain)
  {}

  /** d is block y decrypted after chain block c. */
  ghost predicate OneBlock(key: seq<byte>, y: Block, c: Block, d: Block) {
    |key| == 32 && d == AddRoundKey(Decipher(key)(y), c)
  }

  lemma DecryptedIs(t: Tables, y: Block, c: Block)
    requires t.Valid()
    ensures OneBlock(t.key, y, c, t.Decrypted(y, c))
  {}

  lemma ProgressStep(key: seq<byte>, s: seq<byte>, o: nat, n: nat, chain: seq<byte>, b: seq<byte>, c: Block,
                     y: Block, d: Block, b': seq<byte>)
    requires Progress(key, s, o, n, chain, b, c) && o + 16 * n + 16 <= |s| == |b|
    requires y == b[o + 16 * n..o + 16 * n + 16] && OneBlock(key, y, c, d) && b' == Splice(b, o + 16 * n, d)
    ensures Progress(key, s, o, n + 1, chain, b', y)
  {
    hide Splice, Decrypt, AddRoundKey, Decipher;
    var x := s[o..o + 16 * n];
    var f := Decipher(key);
    var p := Decrypt(f, chain, x);
    SpliceTail(s, o, p, o + 16 * n, 16);
    DecryptSnoc(f, chain, x, y);
    assert s[o..o + 16 * (n + 1)] == x + y;
    SpliceTwice(s, o, p, d);
  }

  /** Decrypts in place the whole blocks of a call, carrying the chain block in and out. */
  method DecryptBlock(t: Tables, buf: array<byte>, o: nat, len: int, chainBlock: array<byte>)
    requires t.Ready() && chainBlock.Length == 16 && buf != chainBlock
    requires buf != t.block1 && buf != t.block2 && chainBlock != t.block1 && chainBlock != t.block2
    requires o + 16 * Blocks(len) <= buf.Length
    modifies buf, chainBlock
    ensures t.Ready()
    ensures Progress(t.key, old(buf[..]), o, Blocks(len), old(chainBlock[..]), buf[..], chainBlock[..])
  {
    hide Progress, OneBlock, Splice, HoldsInvSBox, ExpandedKey, Tables.Decrypted;
    ghost var s, chain := buf[..], chainBlock[..];
    ghost var n := 0;
    var p, rest := o, len;
    ProgressStart(t.key, s, o, chain);
    while true
      invariant t.Ready() && p == o + 16 * n && rest == len - 16 * n && n < Blocks(len)
      invariant Progress(t.key, s, o, n, chain, buf[..], chainBlock[..])
      decreases rest
    {
      ghost var b, c, y := buf[..], chainBlock[..], buf[p..p + 16];
      DecryptedIs(t, y, c);
      t.AesDecrypt(buf, p, chainBlock);
      ProgressStep(t.key, s, o, n, chain, b, c, y, t.Decrypted(y, c), buf[..]);
      p, rest, n := p + 16, rest - 16, n + 1;
      if rest < 16 { break; }
    }
  }
}
