/** printf.c: the numeric conversions of printk, proved against positional notation and against Str2Int. */
module Printf {
  import opened Words
  import opened Numbers

  datatype Flags = Flags(minus: bool, plus: bool, space: bool, zero: bool, pound: bool)

  const PLAIN := Flags(false, false, false, false, false)

  // ---- What the conversions are to print ----

  /** The sign of %d, if there is one. */
  function Sign(n: int, f: Flags): string {
    if n < 0 then "-" else if f.plus then "+" else if f.space then " " else ""
  }

  /** What %d puts before the digits: zeros go between sign and digits, spaces before both. */
  function SignedLead(n: int, f: Flags, width: nat): string {
    var sign := Sign(n, f);
    var gap := width - (|Digits(Abs(n), 10)| + |sign|);
    if f.zero then sign + Repeat('0', gap) else if f.minus then sign else Repeat(' ', gap) + sign
  }

  /** What a conversion puts after the digits: spaces, if it is adjusted to the left and nothing was put before. */
  function Trail(f: Flags, width: nat, used: nat): string {
    if f.minus && !f.zero then Repeat(' ', width - used) else ""
  }

  /** %d */
  function Signed(n: int, f: Flags, width: nat): string {
    var digits := Digits(Abs(n), 10);
    SignedLead(n, f, width) + digits + Trail(f, width, |digits| + |Sign(n, f)|)
  }

  function UnsignedLead(len: nat, f: Flags, width: nat): string {
    if f.zero then Repeat('0', width - len) else if f.minus then "" else Repeat(' ', width - len)
  }

  /** %u, %o, %b and %p */
  function Unsigned(n: nat, radix: nat, f: Flags, width: nat): string
    requires 2 <= radix <= 16
  {
    var digits := Digits(n, radix);
    UnsignedLead(|digits|, f, width) + digits + Trail(f, width, |digits|)
  }

  function Prefix(f: Flags): string {
    if f.pound then "0x" else ""
  }

  /** What %x puts before the digits; the width of zero padding does not count the prefix. */
  function HexLead(len: nat, f: Flags, width: nat): string {
    var prefix := Prefix(f);
    if f.zero then prefix + Repeat('0', width - len)
    else if f.minus then prefix
    else Repeat(' ', width - (len + |prefix|)) + prefix
  }

  /** %x */
  function Hex(n: nat, f: Flags, width: nat): string {
    var digits := Digits(n, 16);
    HexLead(|digits|, f, width) + digits + Trail(f, width, |digits| + |Prefix(f)|)
  }

  /** A number fills the width it is given, if it is not longer. */
  lemma SignedLength(n: int, f: Flags, width: nat)
    ensures var least := |Digits(Abs(n), 10)| + |Sign(n, f)|;
            |Signed(n, f, width)| == if least < width then width else least
  {}

  // ---- They are read back ----

  lemma ParseDecimal(s: string, n: nat)
    requires |s| > 0 && AllDecimal(s) && AllHex(s) && Value(s, 10) == n < WORD
    ensures Parse(s) == if |s| <= 10 then Some(n) else None
  {
    hide Value, Leading;
    assert s[..|s|] == s;
    LeadingIs(s, |s|);
    assert |s| < 2 || IsDecimal(s[1]);
  }

  lemma ParseHex(t: string, n: nat)
    requires |t| > 0 && AllHex(t) && Value(t, 16) == n < WORD
    ensures Parse("0x" + t) == if |t| <= 8 then Some(n) else None
  {
    hide Value, Leading;
    var s := "0x" + t;
    assert s[0] == '0' && s[1] == 'x';
    assert s[2..] == t;
  }

  lemma Padded(n: nat, radix: nat, k: int)
    requires 2 <= radix <= 16
    ensures AllHex(Repeat('0', k) + Digits(n, radix)) && Value(Repeat('0', k) + Digits(n, radix), radix) == n
    ensures radix <= 10 ==> AllDecimal(Repeat('0', k) + Digits(n, radix))
  {
    var j := |Repeat('0', k)|;
    assert Repeat('0', k) == Repeat('0', j);
    ValueOfDigits(n, radix);
    ValueOfZeros(j, Digits(n, radix), radix);
  }

  /** What %u prints under zero padding, Str2Int reads back exactly if the width is at most ten. */
  lemma DecimalRoundTrip(n: nat, width: nat)
    requires n < WORD
    ensures Parse(Unsigned(n, 10, PLAIN.(zero := true), width)) == if width <= 10 then Some(n) else None
  {
    hide Digits, Parse;
    TenDigits(n);
    Padded(n, 10, width - |Digits(n, 10)|);
    var s := Repeat('0', width - |Digits(n, 10)|) + Digits(n, 10);
    assert s + "" == s;
    ParseDecimal(s, n);
  }

  /** What %u prints without padding is read back for every number. */
  lemma PlainRoundTrip(n: nat)
    requires n < WORD
    ensures Parse(Unsigned(n, 10, PLAIN, 0)) == Some(n)
  {
    DecimalRoundTrip(n, 0);
    assert Unsigned(n, 10, PLAIN, 0) == Digits(n, 10) == Unsigned(n, 10, PLAIN.(zero := true), 0);
  }

  /** What %x prints with its prefix under zero padding is read back exactly if the width is at most eight. */
  lemma HexRoundTrip(n: nat, width: nat)
    requires n < WORD
    ensures Parse(Hex(n, PLAIN.(zero := true, pound := true), width)) == if width <= 8 then Some(n) else None
  {
    hide Digits, Parse;
    EightDigits(n);
    var k := width - |Digits(n, 16)|;
    Padded(n, 16, k);
    ParseHex(Repeat('0', k) + Digits(n, 16), n);
    Joined("0x", Repeat('0', k), Digits(n, 16), "");
    var s := "0x" + (Repeat('0', k) + Digits(n, 16));
    assert s + "" == s;
  }

  /** Digits weigh less in radix ten than in radix sixteen. */
  lemma {:induction false} RadixOrder(s: string)
    requires AllHex(s)
    ensures Value(s, 10) <= Value(s, 16)
    ensures |s| > 1 && Value(s[..|s| - 1], 16) > 0 ==> Value(s, 10) < Value(s, 16)
    decreases |s|
  {
    if |s| > 0 {
      RadixOrder(s[..|s| - 1]);
    }
  }

  /** What %x prints without its prefix is taken as decimal, so only the numbers below ten are read back. */
  lemma BareHex(n: nat)
    requires n < WORD
    ensures Parse(Hex(n, PLAIN, 0)) == Some(n) <==> n < 10
  {
    var s := Digits(n, 16);
    assert Hex(n, PLAIN, 0) == s;
    ValueOfDigits(n, 16);
    EightDigits(n);
    if n < 10 {
      assert s == [DigitChar(n)] && s[..0] == "";
      assert Value(s, 10) == Value(s[..0], 10) * 10 + n;
      ParseDecimal(s, n);
    } else if AllDecimal(s) {
      RadixOrder(s);
      BareHexLonger(n);
      ParseDecimal(s, Value(s, 10));
    } else {
      BareHexLetters(s, n);
    }
  }

  lemma BareHexLonger(n: nat)
    requires n >= 10 && AllDecimal(Digits(n, 16))
    ensures |Digits(n, 16)| > 1 && Value(Digits(n, 16)[..|Digits(n, 16)| - 1], 16) > 0
  {
    var s := Digits(n, 16);
    LastDigit(n, 16);
    assert s[..|s| - 1] == Digits(n / 16, 16);
    ValueOfDigits(n / 16, 16);
  }

  lemma BareHexLetters(s: string, n: nat)
    requires AllHex(s) && !AllDecimal(s)
    ensures Parse(s).None?
  {
    var i := Leading(s);
    assert s[..|s|] == s;
    assert IsHex(s[i]);
    assert |s| < 2 || IsHex(s[1]);
  }

  /** What %d prints stands for the number, the least one included; Str2Int reads back exactly those that are not negative. */
  lemma SignedRoundTrip(n: int)
    requires -0x8000_0000 <= n < 0x8000_0000
    ensures n < 0 ==> var s := Signed(n, PLAIN, 0); s[0] == '-' && AllHex(s[1..]) && Value(s[1..], 10) == -n
    ensures Parse(Signed(n, PLAIN, 0)) == if n < 0 then None else Some(n)
  {
    hide Digits, Value;
    var s, digits := Signed(n, PLAIN, 0), Digits(Abs(n), 10);
    ValueOfDigits(Abs(n), 10);
    if n < 0 {
      assert s == "-" + digits;
      assert s[1..] == digits;
    } else {
      PlainRoundTrip(n);
      assert s == digits == Unsigned(n, 10, PLAIN, 0);
    }
  }

  lemma TenDigits(n: nat)
    requires n < WORD
    ensures |Digits(n, 10)| <= 10
  {
    assert Pow(10, 2) == 100 && Pow(10, 4) == 10_000;
    assert Pow(10, 6) == 1_000_000 && Pow(10, 8) == 100_000_000 && Pow(10, 10) == 10_000_000_000;
    DigitsLength(n, 10, 10);
  }

  lemma EightDigits(n: nat)
    requires n < WORD
    ensures |Digits(n, 16)| <= 8
  {
    assert Pow(16, 2) == 0x100 && Pow(16, 4) == 0x1_0000;
    assert Pow(16, 6) == 0x100_0000 && Pow(16, 8) == WORD;
    DigitsLength(n, 16, 8);
  }

  // ---- The conversions as they are carried out ----

  /** Where the characters go; every one is counted. */
  class Output {
    var text: string
    var count: nat

    ghost predicate Valid()
      reads this
    {
      count == |text|
    }

    constructor ()
      ensures Valid() && text == ""
    {
      text, count := "", 0;
    }

    /** printk_putc */
    method Put(c: char)
      requires Valid()
      modifies this
      ensures Valid() && text == old(text) + [c]
    {
      text, count := text + [c], count + 1;
    }

    method PutAll(s: string)
      requires Valid()
      modifies this
      ensures Valid() && text == old(text) + s
    {
      for i := 0 to |s|
        invariant Valid() && text == old(text) + s[..i]
      {
        Put(s[i]);
      }
    }

    /** printk_pad_zero and printk_pad_space */
    method Pad(c: char, curlen: int, fieldWidth: int)
      requires Valid()
      modifies this
      ensures Valid() && text == old(text) + Repeat(c, fieldWidth - curlen)
    {
      var i := curlen;
      while i < fieldWidth
        invariant curlen <= i && (i <= fieldWidth || i == curlen)
        invariant Valid() && text == old(text) + Repeat(c, i - curlen)
      {
        Put(c);
        i := i + 1;
      }
    }

    /** The digits were written backwards behind a zero character; they are sent from the last one down to it. */
    method PutBackwards(vstr: array<char>, vlen: nat, ghost digits: string)
      requires Valid() && HoldsBackwards(vstr[..], vlen, digits)
      modifies this
      ensures Valid() && text == old(text) + digits
    {
      var p := vlen;
      while vstr[p] != '\0'
        invariant 0 <= p <= vlen && Valid() && text == old(text) + digits[..vlen - p]
        decreases p
      {
        Put(vstr[p]);
        p := p - 1;
      }
      assert p == 0;
      assert digits[..vlen] == digits;
    }
  }

  /** The buffer holds a zero character and after it the digits, last one first. */
  ghost predicate HoldsBackwards(buf: seq<char>, vlen: nat, digits: string) {
    && vlen == |digits| < |buf| && buf[0] == '\0' && '\0' !in digits
    && forall i :: 1 <= i <= vlen ==> buf[i] == digits[vlen - i]
  }

  lemma {:induction false} PowMonotone(b: nat, c: nat, k: nat)
    requires b <= c
    ensures Pow(b, k) <= Pow(c, k)
    decreases k
  {
    if k > 0 {
      PowMonotone(b, c, k - 1);
      Products(b, c, Pow(b, k - 1), Pow(c, k - 1));
    }
  }

  lemma Products(b: nat, c: nat, x: nat, y: nat)
    requires b <= c && x <= y
    ensures b * x <= c * y
  {}

  /** A 32-bit number has at most 32 digits, whatever the radix. */
  lemma DigitsFit(n: nat, radix: nat)
    requires 2 <= radix <= 16 && n < WORD
    ensures |Digits(n, radix)| <= 32 && '\0' !in Digits(n, radix)
  {
    PowOfTwo();
    PowMonotone(2, radix, 32);
    DigitsLength(n, radix, 32);
  }

  lemma PowOfTwo()
    ensures Pow(2, 32) == WORD
  {
    assert Pow(2, 8) == 0x100;
    assert Pow(2, 16) == 0x1_0000;
    assert Pow(2, 24) == 0x100_0000;
  }

  /** buf holds the digits read off so far, and the magnitude m is still to be done. */
  ghost predicate Partly(buf: seq<char>, nlen: nat, m: nat, radix: nat, digits: string)
    requires 2 <= radix <= 16
  {
    var rest := if m == 0 then "" else Digits(m, radix);
    && |digits| == |rest| + nlen && nlen < |buf| && buf[0] == '\0' && digits[..|rest|] == rest
    && forall i :: 1 <= i <= nlen ==> buf[i] == digits[|digits| - i]
  }

  lemma PartlyNext(buf: seq<char>, nlen: nat, m: nat, radix: nat, digits: string)
    requires 2 <= radix <= 16 && m > 0 && |digits| + 1 < |buf|
    requires Partly(buf, nlen, m, radix, digits)
    ensures nlen + 1 < |buf| && m % radix < 16
    ensures Partly(buf[nlen + 1 := DigitChar(m % radix)], nlen + 1, m / radix, radix, digits)
  {
    var rest := Digits(m, radix);
    Quotient(m, radix);
    LastDigit(m, radix);
    hide Digits, DigitChar;
    var r := |rest| - 1;
    assert rest[r] == digits[..r + 1][r] == digits[r];
    assert digits[..r] == digits[..r + 1][..r] == rest[..r];
  }

  /** The last digit is the remainder, and what is before it is the quotient. */
  lemma LastDigit(m: nat, radix: nat)
    requires 2 <= radix <= 16 && m > 0
    ensures m % radix < 16
    ensures var s := Digits(m, radix);
            s[|s| - 1] == DigitChar(m % radix) && s[..|s| - 1] == if m / radix == 0 then "" else Digits(m / radix, radix)
  {
    Quotient(m, radix);
    if m >= radix {
      AtLeastOne(m, radix);
    } else {
      Below(m, radix);
    }
  }

  lemma AtLeastOne(m: nat, r: nat)
    requires 0 < r <= m
    ensures m / r > 0
  {}

  lemma Below(m: nat, r: nat)
    requires m < r
    ensures m / r == 0 && m % r == m
  {}

  /** printk_mknumstr: digits of the magnitude; a negative number is not negated, its remainders are. */
  method MkNumStr(numstr: array<char>, n: int, neg: bool, radix: nat) returns (nlen: nat)
    requires 2 <= radix <= 16 && numstr.Length == 256
    requires if neg then -0x8000_0000 <= n < 0x8000_0000 && radix <= 10 else 0 <= n < WORD
    modifies numstr
    ensures HoldsBackwards(numstr[..], nlen, Digits(Abs(n), radix))
  {
    hide TruncDiv;
    ghost var digits := Digits(Abs(n), radix);
    DigitsFit(Abs(n), radix);
    nlen := 0;
    numstr[0] := '\0';
    if n == 0 {
      numstr[1] := '0';
      return 1;
    }
    if neg {
      var a := n;
      while a != 0
        invariant Partly(numstr[..], nlen, Abs(a), radix, digits)
        decreases Abs(a)
      {
        var b := TruncDiv(a, radix);
        var c := a - b * radix;
        TruncIs(a, radix);
        PartlyNext(numstr[..], nlen, Abs(a), radix, digits);
        numstr[nlen + 1] := '0' + (if c < 0 then -c else c) as char;
        a := b;
        nlen := nlen + 1;
      }
    } else {
      var ua := n;
      while ua != 0
        invariant ua >= 0 && Partly(numstr[..], nlen, ua, radix, digits)
      {
        var ub := ua / radix;
        var uc := ua - ub * radix;
        Quotient(ua, radix);
        PartlyNext(numstr[..], nlen, ua, radix, digits);
        numstr[nlen + 1] := if uc < 10 then uc as char + '0' else (uc - 10) as char + 'A';
        ua := ub;
        nlen := nlen + 1;
      }
    }
  }

  lemma TruncIs(a: int, radix: nat)
    requires 2 <= radix <= 10
    ensures Abs(TruncDiv(a, radix)) == Abs(a) / radix
    ensures Abs(a - TruncDiv(a, radix) * radix) == Abs(a) % radix < radix
    ensures a != 0 ==> Abs(TruncDiv(a, radix)) < Abs(a)
  {
    Quotient(Abs(a), radix);
  }

  lemma Joined(o: string, a: string, b: string, c: string)
    ensures o + a + b + c == o + (a + b + c) && o + a + b == o + (a + b)
  {}

  lemma HoldsLength(buf: seq<char>, vlen: nat, digits: string)
    requires HoldsBackwards(buf, vlen, digits)
    ensures vlen == |digits|
  {}

  /** The %d conversion. */
  method PrintSigned(out: Output, n: int, f: Flags, fieldWidth: nat)
    requires out.Valid() && -0x8000_0000 <= n < 0x8000_0000
    modifies out
    ensures out.Valid() && out.text == old(out.text) + Signed(n, f, fieldWidth)
  {
    hide HoldsBackwards, Digits;
    var vstr := new char[256];
    var vlen := MkNumStr(vstr, n, true, 10);
    ghost var o, digits := out.text, Digits(Abs(n), 10);
    HoldsLength(vstr[..], vlen, digits);
    var last := vlen;
    var schar := if n < 0 then "-" else if f.plus then "+" else if f.space then " " else "";
    vlen := vlen + |schar|;
    if f.zero {
      out.PutAll(schar);
      out.Pad('0', vlen, fieldWidth);
      Joined(o, schar, Repeat('0', fieldWidth - vlen), "");
      vlen := fieldWidth;
    } else if !f.minus {
      out.Pad(' ', vlen, fieldWidth);
      out.PutAll(schar);
      Joined(o, Repeat(' ', fieldWidth - vlen), schar, "");
    } else {
      out.PutAll(schar);
    }
    assert out.text == o + SignedLead(n, f, fieldWidth);
    Finish(out, vstr, last, digits, f, vlen, fieldWidth);
    Joined(o, SignedLead(n, f, fieldWidth), digits, Trail(f, fieldWidth, |digits| + |schar|));
  }

  /** What all conversions end with. */
  method Finish(out: Output, vstr: array<char>, last: nat, ghost digits: string, f: Flags, vlen: nat, fieldWidth: nat)
    requires out.Valid() && HoldsBackwards(vstr[..], last, digits)
    requires f.zero ==> vlen == fieldWidth
    modifies out
    ensures out.Valid() && out.text == old(out.text) + digits + Trail(f, fieldWidth, vlen)
  {
    hide HoldsBackwards;
    out.PutBackwards(vstr, last, digits);
    if f.minus {
      out.Pad(' ', vlen, fieldWidth);
    }
  }

  /** The %u, %o, %b and %p conversions. */
  method PrintUnsigned(out: Output, n: nat, radix: nat, f: Flags, fieldWidth: nat)
    requires out.Valid() && n < WORD && 2 <= radix <= 16
    modifies out
    ensures out.Valid() && out.text == old(out.text) + Unsigned(n, radix, f, fieldWidth)
  {
    hide HoldsBackwards, Digits;
    var vstr := new char[256];
    var vlen := MkNumStr(vstr, n, false, radix);
    ghost var o, digits := out.text, Digits(n, radix);
    HoldsLength(vstr[..], vlen, digits);
    var last := vlen;
    if f.zero {
      out.Pad('0', vlen, fieldWidth);
      vlen := fieldWidth;
    } else if !f.minus {
      out.Pad(' ', vlen, fieldWidth);
    }
    assert out.text == o + UnsignedLead(|digits|, f, fieldWidth);
    Finish(out, vstr, last, digits, f, vlen, fieldWidth);
    Joined(o, UnsignedLead(|digits|, f, fieldWidth), digits, Trail(f, fieldWidth, |digits|));
  }

  /** The %x conversion. */
  method PrintHex(out: Output, n: nat, f: Flags, fieldWidth: nat)
    requires out.Valid() && n < WORD
    modifies out
    ensures out.Valid() && out.text == old(out.text) + Hex(n, f, fieldWidth)
  {
    hide HoldsBackwards, Digits;
    var vstr := new char[256];
    var vlen := MkNumStr(vstr, n, false, 16);
    ghost var o, digits := out.text, Digits(n, 16);
    HoldsLength(vstr[..], vlen, digits);
    var last := vlen;
    var dschar := false;
    if f.zero {
      if f.pound {
        out.PutAll("0x");
        dschar := true;
      }
      out.Pad('0', vlen, fieldWidth);
      Joined(o, Prefix(f), Repeat('0', fieldWidth - vlen), "");
      vlen := fieldWidth;
    } else if !f.minus {
      if f.pound { vlen := vlen + 2; }
      out.Pad(' ', vlen, fieldWidth);
      Joined(o, Repeat(' ', fieldWidth - vlen), Prefix(f), "");
      if f.pound {
        out.PutAll("0x");
        dschar := true;
      }
    }
    if f.pound && !dschar {
      out.PutAll("0x");
      vlen := vlen + 2;
    }
    assert out.text == o + HexLead(|digits|, f, fieldWidth);
    Finish(out, vstr, last, digits, f, vlen, fieldWidth);
    Joined(o, HexLead(|digits|, f, fieldWidth), digits, Trail(f, fieldWidth, |digits| + |Prefix(f)|));
  }
}
