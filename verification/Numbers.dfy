/** Numbers written as text, and Y_Loader.c, Str2Int, which reads them back. */
module Numbers {
  import opened Words

  const WORD := 0x1_0000_0000

  // ---- Digits ----

  predicate IsDecimal(c: char) {
    '0' <= c <= '9'
  }

  predicate IsHex(c: char) {
    IsDecimal(c) || 'A' <= c <= 'F' || 'a' <= c <= 'f'
  }

  /** The character the printer uses for a digit. */
  function DigitChar(d: nat): (c: char)
    requires d < 16
    ensures IsHex(c) && DigitValue(c) == d && (d < 10 ==> IsDecimal(c))
  {
    if d < 10 then '0' + d as char else 'A' + (d - 10) as char
  }

  /** CONVERTHEX, which on decimal digits is CONVERTDEC. */
  function DigitValue(c: char): (d: nat)
    requires IsHex(c)
    ensures d < 16 && (IsDecimal(c) ==> d < 10)
  {
    if IsDecimal(c) then (c - '0') as nat
    else if 'A' <= c <= 'F' then (c - 'A') as nat + 10
    else (c - 'a') as nat + 10
  }

  /** The digits are these, in either case, and no others. */
  lemma HexDigits(c: char, k: nat)
    requires k < 16
    ensures IsHex("0123456789abcdef"[k]) && DigitValue("0123456789abcdef"[k]) == k
    ensures IsHex("0123456789ABCDEF"[k]) && DigitValue("0123456789ABCDEF"[k]) == k
    ensures IsHex(c) ==> var d := DigitValue(c); c == "0123456789abcdef"[d] || c == "0123456789ABCDEF"[d]
  {}

  predicate AllHex(s: string) {
    forall i :: 0 <= i < |s| ==> IsHex(s[i])
  }

  predicate AllDecimal(s: string) {
    forall i :: 0 <= i < |s| ==> IsDecimal(s[i])
  }

  /** The number a string of digits stands for, most significant first. */
  function Value(s: string, radix: nat): nat
    requires AllHex(s)
    decreases |s|
  {
    if s == "" then 0 else Value(s[..|s| - 1], radix) * radix + DigitValue(s[|s| - 1])
  }

  /** A number in positional notation without leading zeros. */
  function Digits(n: nat, radix: nat): (s: string)
    requires 2 <= radix <= 16
    ensures |s| > 0 && AllHex(s) && (radix <= 10 ==> AllDecimal(s))
    decreases n
  {
    if n < radix then [DigitChar(n)] else
      Quotient(n, radix);
      Digits(n / radix, radix) + [DigitChar(n % radix)]
  }

  lemma Quotient(n: nat, r: nat)
    requires r >= 2
    ensures n % r < r && n == n / r * r + n % r
    ensures n > 0 ==> n / r < n
  {
    DivMod(n, r);
    AtLeastTwice(n / r, r);
  }

  lemma DivMod(n: nat, r: nat)
    requires r > 0
    ensures n % r < r && n == n / r * r + n % r
  {}

  lemma AtLeastTwice(q: nat, r: nat)
    requires r >= 2
    ensures q * r >= 2 * q
  {}

  function Pow(b: nat, e: nat): nat
    decreases e
  {
    if e == 0 then 1 else b * Pow(b, e - 1)
  }

  lemma {:induction false} ValueOfDigits(n: nat, radix: nat)
    requires 2 <= radix <= 16
    ensures Value(Digits(n, radix), radix) == n
    decreases n
  {
    var s := Digits(n, radix);
    if n < radix {
      assert s[..0] == "";
    } else {
      assert s[..|s| - 1] == Digits(n / radix, radix);
      Quotient(n, radix);
      ValueOfDigits(n / radix, radix);
    }
  }

  lemma DivideBound(n: nat, r: nat, p: nat)
    requires r > 0 && n < r * p
    ensures n / r < p
  {}

  /** The number of digits of a number. */
  lemma {:induction false} DigitsLength(n: nat, radix: nat, k: nat)
    requires 2 <= radix <= 16 && k > 0 && n < Pow(radix, k)
    ensures |Digits(n, radix)| <= k
    decreases k
  {
    if n >= radix {
      assert k > 1;
      DivideBound(n, radix, Pow(radix, k - 1));
      DigitsLength(n / radix, radix, k - 1);
    }
  }

  lemma {:induction false} ValueOfZeros(k: nat, s: string, radix: nat)
    requires AllHex(s)
    ensures AllHex(Repeat('0', k) + s) && Value(Repeat('0', k) + s, radix) == Value(s, radix)
    decreases |s|, k
  {
    var t := Repeat('0', k) + s;
    if |s| > 0 {
      assert t[..|t| - 1] == Repeat('0', k) + s[..|s| - 1];
      ValueOfZeros(k, s[..|s| - 1], radix);
    } else if k > 0 {
      assert t[..k - 1] == Repeat('0', k - 1) + s;
      ValueOfZeros(k - 1, s, radix);
    } else {
      assert t == s;
    }
  }

  function Repeat(c: char, k: int): (s: string)
    ensures |s| == if k < 0 then 0 else k
    ensures forall i :: 0 <= i < |s| ==> s[i] == c
  {
    seq(if k < 0 then 0 else k, _ => c)
  }

  // ---- Str2Int ----

  predicate IsX(c: char) { c == 'x' || c == 'X' }
  predicate IsK(c: char) { c == 'k' || c == 'K' }
  predicate IsM(c: char) { c == 'm' || c == 'M' }

  predicate HasPrefix(s: string) {
    |s| >= 2 && s[0] == '0' && IsX(s[1])
  }

  /** The number of decimal digits at the front. */
  function Leading(s: string): (n: nat)
    ensures n <= |s| && AllDecimal(s[..n]) && (n < |s| ==> !IsDecimal(s[n]))
    decreases |s|
  {
    if s == "" || !IsDecimal(s[0]) then 0 else
      var n := Leading(s[1..]);
      assert s[..n + 1] == [s[0]] + s[1..][..n];
      n + 1
  }

  /**
   * What a string means: 0x and one to eight hexadecimal digits; or up to ten decimal digits; or one to ten decimal
   * digits and a multiplier letter, whatever follows it. All modulo the word size.
   */
  function Parse(s: string): Option<nat> {
    if HasPrefix(s) then
      var t := s[2..];
      if 1 <= |t| <= 8 && AllHex(t) then Some(Value(t, 16) % WORD) else None
    else
      var n := Leading(s);
      var v := Value(s[..n], 10);
      if n > 10 then None
      else if n == |s| then Some(v % WORD)
      else if n == 0 then None
      else if IsK(s[n]) then Some(v * 0x400 % WORD)
      else if IsM(s[n]) then Some(v * 0x10_0000 % WORD)
      else None
  }

  lemma {:induction false} LeadingAtLeast(s: string, i: nat)
    requires i <= |s| && AllDecimal(s[..i])
    ensures Leading(s) >= i
    decreases i
  {
    if i > 0 {
      assert s[0] == s[..i][0];
      assert s[1..][..i - 1] == s[..i][1..];
      LeadingAtLeast(s[1..], i - 1);
    }
  }

  lemma {:induction false} LeadingIs(s: string, i: nat)
    requires i <= |s| && AllDecimal(s[..i]) && (i < |s| ==> !IsDecimal(s[i]))
    ensures Leading(s) == i
    decreases i
  {
    if i > 0 {
      assert s[0] == s[..i][0];
      assert s[1..][..i - 1] == s[..i][1..];
      LeadingIs(s[1..], i - 1);
    }
  }

  /** Reading one more digit modulo the word size. */
  lemma NextDigit(t: string, c: char, radix: nat, val: nat)
    requires AllHex(t) && IsHex(c) && val == Value(t, radix) % WORD
    ensures AllHex(t + [c])
    ensures (val * radix + DigitValue(c)) % WORD == Value(t + [c], radix) % WORD
  {
    hide Value, DigitValue, IsHex;
    ValueMore(t, c, radix);
    Wrapped(Value(t, radix), radix, DigitValue(c));
  }

  lemma ValueMore(t: string, c: char, radix: nat)
    requires AllHex(t) && IsHex(c)
    ensures AllHex(t + [c]) && Value(t + [c], radix) == Value(t, radix) * radix + DigitValue(c)
  {
    hide DigitValue, IsHex;
    assert (t + [c])[..|t|] == t;
  }

  lemma Wrapped(v: nat, k: nat, d: nat)
    ensures (v % WORD * k + d) % WORD == (v * k + d) % WORD
  {
    var q := v / WORD;
    calc {
      v * k + d;
    ==
      (q * WORD + v % WORD) * k + d;
    ==
      q * k * WORD + (v % WORD * k + d);
    }
    WrapsAway(q * k, v % WORD * k + d);
  }

  lemma WrapsAway(q: nat, r: nat)
    ensures (q * WORD + r) % WORD == r % WORD
  {
    assert (q * WORD + r) == (q + r / WORD) * WORD + r % WORD;
  }

  /** The character at an index of a string in memory, which ends with a zero character. */
  function At(s: string, i: nat): char {
    if i < |s| then s[i] else '\0'
  }

  lemma ValueOfNone(s: string, radix: nat)
    ensures Value(s[..0], radix) == 0
  {
    assert s[..0] == "";
  }

  /** The loop over hexadecimal digits. */
  method HexLoop(s: string, before: nat) returns (res: nat, intnum: nat)
    requires HasPrefix(s) && |s| > 2 && '\0' !in s
    ensures Parse(s).None? ==> res == 0 && intnum == before
    ensures Parse(s).Some? ==> res == 1 && intnum == Parse(s).value
  {
    var i, val := 2, 0;
    res, intnum := 0, before;
    while i < 11
      invariant 2 <= i <= 11 && i <= |s| && AllHex(s[2..i])
      invariant val == Value(s[2..i], 16) % WORD
      invariant res == 0 && intnum == before
    {
      if At(s, i) == '\0' {
        assert s[2..i] == s[2..];
        return 1, val;
      }
      if IsHex(At(s, i)) {
        NextDigit(s[2..i], s[i], 16, val);
        assert s[2..i + 1] == s[2..i] + [s[i]];
        val := (val * 16 + DigitValue(At(s, i))) % WORD;
      } else {
        assert s[2..][i - 2] == s[i];
        return 0, before;
      }
      i := i + 1;
    }
  }

  /** The loop over decimal digits. */
  method DecimalLoop(s: string, before: nat) returns (res: nat, intnum: nat)
    requires !HasPrefix(s) && '\0' !in s
    ensures Parse(s).None? ==> res == 0 && intnum == before
    ensures Parse(s).Some? ==> res == 1 && intnum == Parse(s).value
  {
    hide Value, DigitValue;
    assert Value(s[..0], 10) == 0 by { ValueOfNone(s, 10); }
    var i, val := 0, 0;
    res, intnum := 0, before;
    while i < 11
      invariant i <= 11 && i <= |s| && AllDecimal(s[..i]) && AllHex(s[..i])
      invariant val == Value(s[..i], 10) % WORD
      invariant res == 0 && intnum == before
    {
      ghost var v := Value(s[..i], 10);
      if At(s, i) == '\0' {
        LeadingIs(s, i);
        return 1, val;
      } else if (At(s, i) == 'k' || At(s, i) == 'K') && i > 0 {
        LeadingIs(s, i);
        Wrapped(v, 0x400, 0);
        return 1, val * 0x400 % WORD;
      } else if (At(s, i) == 'm' || At(s, i) == 'M') && i > 0 {
        LeadingIs(s, i);
        Wrapped(v, 0x10_0000, 0);
        return 1, val * 0x10_0000 % WORD;
      } else if IsDecimal(At(s, i)) {
        NextDigit(s[..i], s[i], 10, val);
        assert s[..i + 1] == s[..i] + [s[i]];
        val := (val * 10 + DigitValue(At(s, i))) % WORD;
      } else {
        LeadingIs(s, i);
        return 0, before;
      }
      i := i + 1;
    }
    LeadingAtLeast(s, 11);
  }

  /** The number is stored and 1 returned exactly when the string has a meaning; otherwise nothing is stored. */
  method Str2Int(s: string, before: nat) returns (res: nat, intnum: nat)
    requires '\0' !in s
    ensures Parse(s).None? ==> res == 0 && intnum == before
    ensures Parse(s).Some? ==> res == 1 && intnum == Parse(s).value
  {
    if At(s, 0) == '0' && (At(s, 1) == 'x' || At(s, 1) == 'X') {
      if At(s, 2) == '\0' { return 0, before; }
      res, intnum := HexLoop(s, before);
    } else {
      res, intnum := DecimalLoop(s, before);
    }
  }
}
