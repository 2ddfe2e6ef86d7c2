/** The digests of the messages "" and "abc" of RFC 1321, appendix A.5, step by step. */
module Md5Vectors {
  import opened Words
  import opened Md5

  /** One step from given registers r, which writes e. */
  lemma Turn(x: seq<word>, i: nat, round: nat, k: nat, n: word, t: word, r: Regs, e: word)
    requires |x| == 16 && i < 64 && round == i / 16 && IsStep(i, k, n, t) && r == Steps(INIT, x, i)
    requires Mixed(r.a, Aux(round, r.b, r.c, r.d), r.b, x[k], t, n) == e
    ensures Steps(INIT, x, i + 1) == Regs(r.d, e, r.b, r.c)
  {
    StepIs(INIT, x, i, r.a, r.b, r.c, r.d, k, n, t);
  }

  /** A block of a message of less than four octets: only its first word and the word with the length are not zero. */
  predicate Short(x: seq<word>, first: word, bits: word) {
    |x| == 16 && x[0] == first && x[14] == bits && forall k :: 0 < k < 16 && k != 14 ==> x[k] == 0
  }

  lemma FewOctets(n: nat, k: nat)
    requires n < 0x100 && k > 0
    ensures LittleEndian(n, k) == [n as byte] + Zeros(k - 1)
  {
    ZeroOctets(k - 1);
  }

  lemma {:induction false} ZeroOctets(k: nat)
    ensures LittleEndian(0, k) == Zeros(k)
    decreases k
  {
    if k > 0 {
      ZeroOctets(k - 1);
    }
  }

  lemma ShortPadded(m: seq<byte>)
    requires |m| < 4
    ensures Padded(m) == m + [0x80] + Zeros(55 - |m|) + ([(8 * |m|) as byte] + Zeros(7))
  {
    hide LittleEndian;
    FewOctets(8 * |m|, 8);
  }

  lemma ShortWords(m: seq<byte>, b0: byte, b1: byte, b2: byte, b3: byte)
    requires |m| < 4 && m + [0x80] + Zeros(3 - |m|) == [b0, b1, b2, b3]
    ensures |Padded(m)| == 64
    ensures Short(WordsOf(Padded(m)), Word(b0, b1, b2, b3), Word((8 * |m|) as byte, 0, 0, 0))
  {
    hide Padded, Word;
    var b := Padded(m);
    ShortPadded(m);
    assert b[..4] == [b0, b1, b2, b3];
    ZeroWord();
  }

  lemma ZeroWord()
    ensures Word(0, 0, 0, 0) == 0
  {}

  // ---- the empty message ----

  lemma Empty1(x: seq<word>)
    requires Short(x, 0x80, 0) && Steps(INIT, x, 0) == Regs(0x67452301, 0xEFCDAB89, 0x98BADCFE, 0x10325476)
    ensures Steps(INIT, x, 16) == Regs(0xF56C7CF1, 0xD6819C6A, 0x5AA53F75, 0x374943A7)
  {
    hide Steps, IsStep;
    Constants1A();
    Constants1B();
    Turn(x, 0, 0, 0, 7, 0xD76AA478, Regs(0x67452301, 0xEFCDAB89, 0x98BADCFE, 0x10325476), 0xA5202774);
    Turn(x, 1, 0, 1, 12, 0xE8C7B756, Regs(0x10325476, 0xA5202774, 0xEFCDAB89, 0x98BADCFE), 0xF59592DD);
    Turn(x, 2, 0, 2, 17, 0x242070DB, Regs(0x98BADCFE, 0xF59592DD, 0xA5202774, 0xEFCDAB89), 0xE7F06B23);
    Turn(x, 3, 0, 3, 22, 0xC1BDCEEE, Regs(0xEFCDAB89, 0xE7F06B23, 0xF59592DD, 0xA5202774), 0x1B163203);
    Turn(x, 4, 0, 4, 7, 0xF57C0FAF, Regs(0xA5202774, 0x1B163203, 0xE7F06B23, 0xF59592DD), 0x32033344);
    Turn(x, 5, 0, 5, 12, 0x4787C62A, Regs(0xF59592DD, 0x32033344, 0x1B163203, 0xE7F06B23), 0x2F35D494);
    Turn(x, 6, 0, 6, 17, 0xA8304613, Regs(0xE7F06B23, 0x2F35D494, 0x32033344, 0x1B163203), 0xF5B158DB);
    Turn(x, 7, 0, 7, 22, 0xFD469501, Regs(0x1B163203, 0xF5B158DB, 0x2F35D494, 0x32033344), 0x9BC13CE9);
    Turn(x, 8, 0, 8, 7, 0x698098D8, Regs(0x32033344, 0x9BC13CE9, 0xF5B158DB, 0x2F35D494), 0x3893B991);
    Turn(x, 9, 0, 9, 12, 0x8B44F7AF, Regs(0x2F35D494, 0x3893B991, 0x9BC13CE9, 0xF5B158DB), 0xFCE4A312);
    Turn(x, 10, 0, 10, 17, 0xFFFF5BB1, Regs(0xF5B158DB, 0xFCE4A312, 0x3893B991, 0x9BC13CE9), 0xE1EF0576);
    Turn(x, 11, 0, 11, 22, 0x895CD7BE, Regs(0x9BC13CE9, 0xE1EF0576, 0xFCE4A312, 0x3893B991), 0x70768A29);
    Turn(x, 12, 0, 12, 7, 0x6B901122, Regs(0x3893B991, 0x70768A29, 0xE1EF0576, 0xFCE4A312), 0xF56C7CF1);
    Turn(x, 13, 0, 13, 12, 0xFD987193, Regs(0xFCE4A312, 0xF56C7CF1, 0x70768A29, 0xE1EF0576), 0x374943A7);
    Turn(x, 14, 0, 14, 17, 0xA679438E, Regs(0xE1EF0576, 0x374943A7, 0xF56C7CF1, 0x70768A29), 0x5AA53F75);
    Turn(x, 15, 0, 15, 22, 0x49B40821, Regs(0x70768A29, 0x5AA53F75, 0x374943A7, 0xF56C7CF1), 0xD6819C6A);
  }

  lemma Empty2(x: seq<word>)
    requires Short(x, 0x80, 0) && Steps(INIT, x, 16) == Regs(0xF56C7CF1, 0xD6819C6A, 0x5AA53F75, 0x374943A7)
    ensures Steps(INIT, x, 32) == Regs(0x13707036, 0xA2205F1F, 0x1C31C384, 0xAE7813DB)
  {
    hide Steps, IsStep;
    Constants2A();
    Constants2B();
    Turn(x, 16, 1, 1, 5, 0xF61E2562, Regs(0xF56C7CF1, 0xD6819C6A, 0x5AA53F75, 0x374943A7), 0x1C7D7513);
    Turn(x, 17, 1, 6, 9, 0xC040B340, Regs(0x374943A7, 0x1C7D7513, 0xD6819C6A, 0x5AA53F75), 0x7BD57A3A);
    Turn(x, 18, 1, 11, 14, 0x265E5A51, Regs(0x5AA53F75, 0x7BD57A3A, 0x1C7D7513, 0xD6819C6A), 0xC095F13A);
    Turn(x, 19, 1, 0, 20, 0xE9B6C7AA, Regs(0xD6819C6A, 0xC095F13A, 0x7BD57A3A, 0x1C7D7513), 0xBD782E17);
    Turn(x, 20, 1, 5, 5, 0xD62F105D, Regs(0x1C7D7513, 0xBD782E17, 0xC095F13A, 0x7BD57A3A), 0x3D1E3E6C);
    Turn(x, 21, 1, 10, 9, 0x02441453, Regs(0x7BD57A3A, 0x3D1E3E6C, 0xBD782E17, 0xC095F13A), 0x68B7B3E3);
    Turn(x, 22, 1, 15, 14, 0xD8A1E681, Regs(0xC095F13A, 0x68B7B3E3, 0x3D1E3E6C, 0xBD782E17), 0xEB41643E);
    Turn(x, 23, 1, 4, 20, 0xE7D3FBC8, Regs(0xBD782E17, 0xEB41643E, 0x68B7B3E3, 0x3D1E3E6C), 0xE422531A);
    Turn(x, 24, 1, 9, 5, 0x21E1CDE6, Regs(0x3D1E3E6C, 0xE422531A, 0xEB41643E, 0x68B7B3E3), 0x306EC122);
    Turn(x, 25, 1, 14, 9, 0xC33707D6, Regs(0x68B7B3E3, 0x306EC122, 0xE422531A, 0xEB41643E), 0xD28C77C2);
    Turn(x, 26, 1, 3, 14, 0xF4D50D87, Regs(0xEB41643E, 0xD28C77C2, 0x306EC122, 0xE422531A), 0xA3C663DA);
    Turn(x, 27, 1, 8, 20, 0x455A14ED, Regs(0xE422531A, 0xA3C663DA, 0xD28C77C2, 0x306EC122), 0xA0572807);
    Turn(x, 28, 1, 13, 5, 0xA9E3E905, Regs(0x306EC122, 0xA0572807, 0xA3C663DA, 0xD28C77C2), 0x13707036);
    Turn(x, 29, 1, 2, 9, 0xFCEFA3F8, Regs(0xD28C77C2, 0x13707036, 0xA0572807, 0xA3C663DA), 0xAE7813DB);
    Turn(x, 30, 1, 7, 14, 0x676F02D9, Regs(0xA3C663DA, 0xAE7813DB, 0x13707036, 0xA0572807), 0x1C31C384);
    Turn(x, 31, 1, 12, 20, 0x8D2A4C8A, Regs(0xA0572807, 0x1C31C384, 0xAE7813DB, 0x13707036), 0xA2205F1F);
  }

  lemma Empty3(x: seq<word>)
    requires Short(x, 0x80, 0) && Steps(INIT, x, 32) == Regs(0x13707036, 0xA2205F1F, 0x1C31C384, 0xAE7813DB)
    ensures Steps(INIT, x, 48) == Regs(0x3F55EDFD, 0xCA7D2DBD, 0x68D84EA2, 0x22A31F54)
  {
    hide Steps, IsStep;
    Constants3A();
    Constants3B();
    Turn(x, 32, 2, 5, 4, 0xFFFA3942, Regs(0x13707036, 0xA2205F1F, 0x1C31C384, 0xAE7813DB), 0xDF63EAA1);
    Turn(x, 33, 2, 8, 11, 0x8771F681, Regs(0xAE7813DB, 0xDF63EAA1, 0xA2205F1F, 0x1C31C384), 0xC3689F5B);
    Turn(x, 34, 2, 11, 16, 0x6D9D6122, Regs(0x1C31C384, 0xC3689F5B, 0xDF63EAA1, 0xA2205F1F), 0x12F3E755);
    Turn(x, 35, 2, 14, 23, 0xFDE5380C, Regs(0xA2205F1F, 0x12F3E755, 0xC3689F5B, 0xDF63EAA1), 0x004B6669);
    Turn(x, 36, 2, 1, 4, 0xA4BEEA44, Regs(0xDF63EAA1, 0x004B6669, 0x12F3E755, 0xC3689F5B), 0x5F7A9B2E);
    Turn(x, 37, 2, 4, 11, 0x4BDECFA9, Regs(0xC3689F5B, 0x5F7A9B2E, 0x004B6669, 0x12F3E755), 0xABC34E16);
    Turn(x, 38, 2, 7, 16, 0xF6BB4B60, Regs(0x12F3E755, 0xABC34E16, 0x5F7A9B2E, 0x004B6669), 0x91CA4CB7);
    Turn(x, 39, 2, 10, 23, 0xBEBFBC70, Regs(0x004B6669, 0x91CA4CB7, 0xABC34E16, 0x5F7A9B2E), 0xC5DC8C15);
    Turn(x, 40, 2, 13, 4, 0x289B7EC6, Regs(0x5F7A9B2E, 0xC5DC8C15, 0x91CA4CB7, 0xABC34E16), 0x4497169D);
    Turn(x, 41, 2, 0, 11, 0xEAA127FA, Regs(0xABC34E16, 0x4497169D, 0xC5DC8C15, 0x91CA4CB7), 0x76FD93D4);
    Turn(x, 42, 2, 3, 16, 0xD4EF3085, Regs(0x91CA4CB7, 0x76FD93D4, 0x4497169D, 0xC5DC8C15), 0xFD95F243);
    Turn(x, 43, 2, 6, 23, 0x04881D05, Regs(0xC5DC8C15, 0xFD95F243, 0x76FD93D4, 0x4497169D), 0x0FE32453);
    Turn(x, 44, 2, 9, 4, 0xD9D4D039, Regs(0x4497169D, 0x0FE32453, 0xFD95F243, 0x76FD93D4), 0x3F55EDFD);
    Turn(x, 45, 2, 12, 11, 0xE6DB99E5, Regs(0x76FD93D4, 0x3F55EDFD, 0x0FE32453, 0xFD95F243), 0x22A31F54);
    Turn(x, 46, 2, 15, 16, 0x1FA27CF8, Regs(0xFD95F243, 0x22A31F54, 0x3F55EDFD, 0x0FE32453), 0x68D84EA2);
    Turn(x, 47, 2, 2, 23, 0xC4AC5665, Regs(0x0FE32453, 0x68D84EA2, 0x22A31F54, 0x3F55EDFD), 0xCA7D2DBD);
  }

  lemma Empty4(x: seq<word>)
    requires Short(x, 0x80, 0) && Steps(INIT, x, 48) == Regs(0x3F55EDFD, 0xCA7D2DBD, 0x68D84EA2, 0x22A31F54)
    ensures Steps(INIT, x, 64) == Regs(0x7246FAD3, 0x14E45506, 0xFF4EA3EB, 0x6E10A476)
  {
    hide Steps, IsStep;
    Constants4A();
    Constants4B();
    Turn(x, 48, 3, 0, 6, 0xF4292244, Regs(0x3F55EDFD, 0xCA7D2DBD, 0x68D84EA2, 0x22A31F54), 0x93AA2577);
    Turn(x, 49, 3, 7, 10, 0x432AFF97, Regs(0x22A31F54, 0x93AA2577, 0xCA7D2DBD, 0x68D84EA2), 0x1688DC85);
    Turn(x, 50, 3, 14, 15, 0xAB9423A7, Regs(0x68D84EA2, 0x1688DC85, 0x93AA2577, 0xCA7D2DBD), 0xCD85B8CB);
    Turn(x, 51, 3, 5, 21, 0xFC93A039, Regs(0xCA7D2DBD, 0xCD85B8CB, 0x1688DC85, 0x93AA2577), 0x561E0689);
    Turn(x, 52, 3, 12, 6, 0x655B59C3, Regs(0x93AA2577, 0x561E0689, 0xCD85B8CB, 0x1688DC85), 0x5625A114);
    Turn(x, 53, 3, 3, 10, 0x8F0CCC92, Regs(0x1688DC85, 0x5625A114, 0x561E0689, 0xCD85B8CB), 0x3450F42B);
    Turn(x, 54, 3, 10, 15, 0xFFEFF47D, Regs(0xCD85B8CB, 0x3450F42B, 0x5625A114, 0x561E0689), 0x392AD0D0);
    Turn(x, 55, 3, 1, 21, 0x85845DD1, Regs(0x561E0689, 0x392AD0D0, 0x3450F42B, 0x5625A114), 0x1E77FA61);
    Turn(x, 56, 3, 8, 6, 0x6FA87E4F, Regs(0x5625A114, 0x1E77FA61, 0x392AD0D0, 0x3450F42B), 0x474A9C8C);
    Turn(x, 57, 3, 15, 10, 0xFE2CE6E0, Regs(0x3450F42B, 0x474A9C8C, 0x1E77FA61, 0x392AD0D0), 0xDFCE00BC);
    Turn(x, 58, 3, 6, 15, 0xA3014314, Regs(0x392AD0D0, 0xDFCE00BC, 0x474A9C8C, 0x1E77FA61), 0x36594B14);
    Turn(x, 59, 3, 13, 21, 0x4E0811A1, Regs(0x1E77FA61, 0x36594B14, 0xDFCE00BC, 0x474A9C8C), 0x30130182);
    Turn(x, 60, 3, 4, 6, 0xF7537E82, Regs(0x474A9C8C, 0x30130182, 0x36594B14, 0xDFCE00BC), 0x7246FAD3);
    Turn(x, 61, 3, 11, 10, 0xBD3AF235, Regs(0xDFCE00BC, 0x7246FAD3, 0x30130182, 0x36594B14), 0x6E10A476);
    Turn(x, 62, 3, 2, 15, 0x2AD7D2BB, Regs(0x36594B14, 0x6E10A476, 0x7246FAD3, 0x30130182), 0xFF4EA3EB);
    Turn(x, 63, 3, 9, 21, 0xEB86D391, Regs(0x30130182, 0xFF4EA3EB, 0x6E10A476, 0x7246FAD3), 0x14E45506);
  }

  lemma EmptyCompressed(b: Block)
    requires var x := WordsOf(b); Short(x, 0x80, 0)
    ensures Compress(INIT, b) == Regs(0xD98C1DD4, 0x04B2008F, 0x980980E9, 0x7E42F8EC)
  {
    hide Steps, WordsOf, Word;
    var x := WordsOf(b);
    StepsNone(INIT, x);
    Empty1(x);
    Empty2(x);
    Empty3(x);
    Empty4(x);
  }

  /** The digest of the empty message. */
  lemma DigestOfEmpty()
    ensures Digest([]) ==
            [0xD4, 0x1D, 0x8C, 0xD9, 0x8F, 0x00, 0xB2, 0x04, 0xE9, 0x80, 0x09, 0x98, 0xEC, 0xF8, 0x42, 0x7E]
  {
    hide Compress, Fold, WordsOf, Padded;
    ShortWords([], 0x80, 0x00, 0x00, 0x00);
    var b := Padded([]);
    FoldOne(INIT, b);
    EmptyCompressed(b);
  }

  // ---- "abc" ----

  lemma Abc1(x: seq<word>)
    requires Short(x, 0x80636261, 24) && Steps(INIT, x, 0) == Regs(0x67452301, 0xEFCDAB89, 0x98BADCFE, 0x10325476)
    ensures Steps(INIT, x, 16) == Regs(0xDDA9B9A6, 0x72AFF2E0, 0xE396856B, 0xA1051895)
  {
    hide Steps, IsStep;
    Constants1A();
    Constants1B();
    Turn(x, 0, 0, 0, 7, 0xD76AA478, Regs(0x67452301, 0xEFCDAB89, 0x98BADCFE, 0x10325476), 0xD6D117B4);
    Turn(x, 1, 0, 1, 12, 0xE8C7B756, Regs(0x10325476, 0xD6D117B4, 0xEFCDAB89, 0x98BADCFE), 0x344A8432);
    Turn(x, 2, 0, 2, 17, 0x242070DB, Regs(0x98BADCFE, 0x344A8432, 0xD6D117B4, 0xEFCDAB89), 0x2F6FBD72);
    Turn(x, 3, 0, 3, 22, 0xC1BDCEEE, Regs(0xEFCDAB89, 0x2F6FBD72, 0x344A8432, 0xD6D117B4), 0x7AD956F2);
    Turn(x, 4, 0, 4, 7, 0xF57C0FAF, Regs(0xD6D117B4, 0x7AD956F2, 0x2F6FBD72, 0x344A8432), 0xC73741EF);
    Turn(x, 5, 0, 5, 12, 0x4787C62A, Regs(0x344A8432, 0xC73741EF, 0x7AD956F2, 0x2F6FBD72), 0x8BAC3051);
    Turn(x, 6, 0, 6, 17, 0xA8304613, Regs(0x2F6FBD72, 0x8BAC3051, 0xC73741EF, 0x7AD956F2), 0x207DC67B);
    Turn(x, 7, 0, 7, 22, 0xFD469501, Regs(0x7AD956F2, 0x207DC67B, 0x8BAC3051, 0xC73741EF), 0x928D99F6);
    Turn(x, 8, 0, 8, 7, 0x698098D8, Regs(0xC73741EF, 0x928D99F6, 0x207DC67B, 0x8BAC3051), 0x854B3712);
    Turn(x, 9, 0, 9, 12, 0x8B44F7AF, Regs(0x8BAC3051, 0x854B3712, 0x928D99F6, 0x207DC67B), 0x74E2F284);
    Turn(x, 10, 0, 10, 17, 0xFFFF5BB1, Regs(0x207DC67B, 0x74E2F284, 0x854B3712, 0x928D99F6), 0x3020401C);
    Turn(x, 11, 0, 11, 22, 0x895CD7BE, Regs(0x928D99F6, 0x3020401C, 0x74E2F284, 0x854B3712), 0x5ED49596);
    Turn(x, 12, 0, 12, 7, 0x6B901122, Regs(0x854B3712, 0x5ED49596, 0x3020401C, 0x74E2F284), 0xDDA9B9A6);
    Turn(x, 13, 0, 13, 12, 0xFD987193, Regs(0x74E2F284, 0xDDA9B9A6, 0x5ED49596, 0x3020401C), 0xA1051895);
    Turn(x, 14, 0, 14, 17, 0xA679438E, Regs(0x3020401C, 0xA1051895, 0xDDA9B9A6, 0x5ED49596), 0xE396856B);
    Turn(x, 15, 0, 15, 22, 0x49B40821, Regs(0x5ED49596, 0xE396856B, 0xA1051895, 0xDDA9B9A6), 0x72AFF2E0);
  }

  lemma Abc2(x: seq<word>)
    requires Short(x, 0x80636261, 24) && Steps(INIT, x, 16) == Regs(0xDDA9B9A6, 0x72AFF2E0, 0xE396856B, 0xA1051895)
    ensures Steps(INIT, x, 32) == Regs(0x790A77FB, 0x726342D3, 0xA62884AA, 0x9F47E4F8)
  {
    hide Steps, IsStep;
    Constants2A();
    Constants2B();
    Turn(x, 16, 1, 1, 5, 0xF61E2562, Regs(0xDDA9B9A6, 0x72AFF2E0, 0xE396856B, 0xA1051895), 0x3E9E9126);
    Turn(x, 17, 1, 6, 9, 0xC040B340, Regs(0xA1051895, 0x3E9E9126, 0x72AFF2E0, 0xE396856B), 0x4A1D804E);
    Turn(x, 18, 1, 11, 14, 0x265E5A51, Regs(0xE396856B, 0x4A1D804E, 0x3E9E9126, 0x72AFF2E0), 0xE25E1652);
    Turn(x, 19, 1, 0, 20, 0xE9B6C7AA, Regs(0x72AFF2E0, 0xE25E1652, 0x4A1D804E, 0x3E9E9126), 0xB5B204E4);
    Turn(x, 20, 1, 5, 5, 0xD62F105D, Regs(0x3E9E9126, 0xB5B204E4, 0xE25E1652, 0x4A1D804E), 0x59A8FFDA);
    Turn(x, 21, 1, 10, 9, 0x02441453, Regs(0x4A1D804E, 0x59A8FFDA, 0xB5B204E4, 0xE25E1652), 0x6D002F1E);
    Turn(x, 22, 1, 15, 14, 0xD8A1E681, Regs(0xE25E1652, 0x6D002F1E, 0x59A8FFDA, 0xB5B204E4), 0xABFC7920);
    Turn(x, 23, 1, 4, 20, 0xE7D3FBC8, Regs(0xB5B204E4, 0xABFC7920, 0x6D002F1E, 0x59A8FFDA), 0x47092C07);
    Turn(x, 24, 1, 9, 5, 0x21E1CDE6, Regs(0x59A8FFDA, 0x47092C07, 0xABFC7920, 0x6D002F1E), 0xB7F268CF);
    Turn(x, 25, 1, 14, 9, 0xC33707D6, Regs(0x6D002F1E, 0xB7F268CF, 0x47092C07, 0xABFC7920), 0x09388EFF);
    Turn(x, 26, 1, 3, 14, 0xF4D50D87, Regs(0xABFC7920, 0x09388EFF, 0xB7F268CF, 0x47092C07), 0xFE1623B1);
    Turn(x, 27, 1, 8, 20, 0x455A14ED, Regs(0x47092C07, 0xFE1623B1, 0x09388EFF, 0xB7F268CF), 0x786ACB8F);
    Turn(x, 28, 1, 13, 5, 0xA9E3E905, Regs(0xB7F268CF, 0x786ACB8F, 0xFE1623B1, 0x09388EFF), 0x790A77FB);
    Turn(x, 29, 1, 2, 9, 0xFCEFA3F8, Regs(0x09388EFF, 0x790A77FB, 0x786ACB8F, 0xFE1623B1), 0x9F47E4F8);
    Turn(x, 30, 1, 7, 14, 0x676F02D9, Regs(0xFE1623B1, 0x9F47E4F8, 0x790A77FB, 0x786ACB8F), 0xA62884AA);
    Turn(x, 31, 1, 12, 20, 0x8D2A4C8A, Regs(0x786ACB8F, 0xA62884AA, 0x9F47E4F8, 0x790A77FB), 0x726342D3);
  }

  lemma Abc3(x: seq<word>)
    requires Short(x, 0x80636261, 24) && Steps(INIT, x, 32) == Regs(0x790A77FB, 0x726342D3, 0xA62884AA, 0x9F47E4F8)
    ensures Steps(INIT, x, 48) == Regs(0x7F2E507B, 0x7BEB9700, 0x8FAE6399, 0x99D9679D)
  {
    hide Steps, IsStep;
    Constants3A();
    Constants3B();
    Turn(x, 32, 2, 5, 4, 0xFFFA3942, Regs(0x790A77FB, 0x726342D3, 0xA62884AA, 0x9F47E4F8), 0xB3707EBF);
    Turn(x, 33, 2, 8, 11, 0x8771F681, Regs(0x9F47E4F8, 0xB3707EBF, 0x726342D3, 0xA62884AA), 0x60127B2E);
    Turn(x, 34, 2, 11, 16, 0x6D9D6122, Regs(0xA62884AA, 0x60127B2E, 0xB3707EBF, 0x726342D3), 0x8D212FF5);
    Turn(x, 35, 2, 14, 23, 0xFDE5380C, Regs(0x726342D3, 0x8D212FF5, 0x60127B2E, 0xB3707EBF), 0x3B0875C7);
    Turn(x, 36, 2, 1, 4, 0xA4BEEA44, Regs(0xB3707EBF, 0x3B0875C7, 0x8D212FF5, 0x60127B2E), 0x21B117B9);
    Turn(x, 37, 2, 4, 11, 0x4BDECFA9, Regs(0x60127B2E, 0x21B117B9, 0x3B0875C7, 0x8D212FF5), 0x6E7429D5);
    Turn(x, 38, 2, 7, 16, 0xF6BB4B60, Regs(0x8D212FF5, 0x6E7429D5, 0x21B117B9, 0x3B0875C7), 0x3575227E);
    Turn(x, 39, 2, 10, 23, 0xBEBFBC70, Regs(0x3B0875C7, 0x3575227E, 0x6E7429D5, 0x21B117B9), 0x5A2F5EA5);
    Turn(x, 40, 2, 13, 4, 0x289B7EC6, Regs(0x21B117B9, 0x5A2F5EA5, 0x3575227E, 0x6E7429D5), 0x11DE1779);
    Turn(x, 41, 2, 0, 11, 0xEAA127FA, Regs(0x6E7429D5, 0x11DE1779, 0x5A2F5EA5, 0x3575227E), 0xFADCAA38);
    Turn(x, 42, 2, 3, 16, 0xD4EF3085, Regs(0x3575227E, 0xFADCAA38, 0x11DE1779, 0x5A2F5EA5), 0x31C465CA);
    Turn(x, 43, 2, 6, 23, 0x04881D05, Regs(0x5A2F5EA5, 0x31C465CA, 0xFADCAA38, 0x11DE1779), 0x4C6124F4);
    Turn(x, 44, 2, 9, 4, 0xD9D4D039, Regs(0x11DE1779, 0x4C6124F4, 0x31C465CA, 0xFADCAA38), 0x7F2E507B);
    Turn(x, 45, 2, 12, 11, 0xE6DB99E5, Regs(0xFADCAA38, 0x7F2E507B, 0x4C6124F4, 0x31C465CA), 0x99D9679D);
    Turn(x, 46, 2, 15, 16, 0x1FA27CF8, Regs(0x31C465CA, 0x99D9679D, 0x7F2E507B, 0x4C6124F4), 0x8FAE6399);
    Turn(x, 47, 2, 2, 23, 0xC4AC5665, Regs(0x4C6124F4, 0x8FAE6399, 0x99D9679D, 0x7F2E507B), 0x7BEB9700);
  }

  lemma Abc4(x: seq<word>)
    requires Short(x, 0x80636261, 24) && Steps(INIT, x, 48) == Regs(0x7F2E507B, 0x7BEB9700, 0x8FAE6399, 0x99D9679D)
    ensures Steps(INIT, x, 64) == Regs(0x310ADE8F, 0xC08226B3, 0xE484B9D8, 0x624D8CB2)
  {
    hide Steps, IsStep;
    Constants4A();
    Constants4B();
    Turn(x, 48, 3, 0, 6, 0xF4292244, Regs(0x7F2E507B, 0x7BEB9700, 0x8FAE6399, 0x99D9679D), 0x7B201DF8);
    Turn(x, 49, 3, 7, 10, 0x432AFF97, Regs(0x99D9679D, 0x7B201DF8, 0x7BEB9700, 0x8FAE6399), 0xF4E8E96E);
    Turn(x, 50, 3, 14, 15, 0xAB9423A7, Regs(0x8FAE6399, 0xF4E8E96E, 0x7B201DF8, 0x7BEB9700), 0xB298CEFD);
    Turn(x, 51, 3, 5, 21, 0xFC93A039, Regs(0x7BEB9700, 0xB298CEFD, 0xF4E8E96E, 0x7B201DF8), 0x8BF025C4);
    Turn(x, 52, 3, 12, 6, 0x655B59C3, Regs(0x7B201DF8, 0x8BF025C4, 0xB298CEFD, 0xF4E8E96E), 0x06CC5E8A);
    Turn(x, 53, 3, 3, 10, 0x8F0CCC92, Regs(0xF4E8E96E, 0x06CC5E8A, 0x8BF025C4, 0xB298CEFD), 0x5B0D97AA);
    Turn(x, 54, 3, 10, 15, 0xFFEFF47D, Regs(0xB298CEFD, 0x5B0D97AA, 0x06CC5E8A, 0x8BF025C4), 0x7D632DD0);
    Turn(x, 55, 3, 1, 21, 0x85845DD1, Regs(0x8BF025C4, 0x7D632DD0, 0x5B0D97AA, 0x06CC5E8A), 0x3BFA2C27);
    Turn(x, 56, 3, 8, 6, 0x6FA87E4F, Regs(0x06CC5E8A, 0x3BFA2C27, 0x7D632DD0, 0x5B0D97AA), 0x7F81CC35);
    Turn(x, 57, 3, 15, 10, 0xFE2CE6E0, Regs(0x5B0D97AA, 0x7F81CC35, 0x3BFA2C27, 0x7D632DD0), 0x094454AB);
    Turn(x, 58, 3, 6, 15, 0xA3014314, Regs(0x7D632DD0, 0x094454AB, 0x7F81CC35, 0x3BFA2C27), 0x4F9DBE3F);
    Turn(x, 59, 3, 13, 21, 0x4E0811A1, Regs(0x3BFA2C27, 0x4F9DBE3F, 0x094454AB, 0x7F81CC35), 0x7327D604);
    Turn(x, 60, 3, 4, 6, 0xF7537E82, Regs(0x7F81CC35, 0x7327D604, 0x4F9DBE3F, 0x094454AB), 0x310ADE8F);
    Turn(x, 61, 3, 11, 10, 0xBD3AF235, Regs(0x094454AB, 0x310ADE8F, 0x7327D604, 0x4F9DBE3F), 0x624D8CB2);
    Turn(x, 62, 3, 2, 15, 0x2AD7D2BB, Regs(0x4F9DBE3F, 0x624D8CB2, 0x310ADE8F, 0x7327D604), 0xE484B9D8);
    Turn(x, 63, 3, 9, 21, 0xEB86D391, Regs(0x7327D604, 0xE484B9D8, 0x624D8CB2, 0x310ADE8F), 0xC08226B3);
  }

  lemma AbcCompressed(b: Block)
    requires var x := WordsOf(b); Short(x, 0x80636261, 24)
    ensures Compress(INIT, b) == Regs(0x98500190, 0xB04FD23C, 0x7D3F96D6, 0x727FE128)
  {
    hide Steps, WordsOf, Word;
    var x := WordsOf(b);
    StepsNone(INIT, x);
    Abc1(x);
    Abc2(x);
    Abc3(x);
    Abc4(x);
  }

  /** The digest of "abc". */
  lemma DigestOfAbc()
    ensures Digest([0x61, 0x62, 0x63]) ==
            [0x90, 0x01, 0x50, 0x98, 0x3C, 0xD2, 0x4F, 0xB0, 0xD6, 0x96, 0x3F, 0x7D, 0x28, 0xE1, 0x7F, 0x72]
  {
    hide Compress, Fold, WordsOf, Padded;
    ShortWords([0x61, 0x62, 0x63], 0x61, 0x62, 0x63, 0x80);
    var b := Padded([0x61, 0x62, 0x63]);
    FoldOne(INIT, b);
    AbcCompressed(b);
  }
}
