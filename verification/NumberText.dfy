/**
 Printing of unsigned and signed integers backwards into a fixed buffer, and the parser that reads
 them back.  Numbers have 64 bits.  A C string is the sequence of its characters; reading just past
 them yields the terminating NUL.
 */
module NumberText {
  import opened Common

  const U2S_BUFSIZE: nat := 65

  // ------------------------------------------------------------------ digits

  /** Entry d of the digit tables. */
  function DigitChar(d: nat, upper: bool): char
    requires d < 36
  {
    if d < 10 then '0' + d as char else (if upper then 'A' else 'a') + (d - 10) as char
  }

  /** The value of a digit or letter; 99, above every base, for any other character. */
  function DigitValue(c: char): nat {
    if '0' <= c <= '9' then (c - '0') as nat
    else if 'A' <= c <= 'Z' then 10 + (c - 'A') as nat
    else if 'a' <= c <= 'z' then 10 + (c - 'a') as nat
    else 99
  }

  /** The numeral of x, most significant digit first. */
  function Digits(x: nat, base: nat, upper: bool): (s: string)
    requires 2 <= base <= 36
    ensures |s| > 0
  {
    if x < base then [DigitChar(x, upper)]
    else Digits(x / base, base, upper) + [DigitChar(x % base, upper)]
  }

  lemma DigitRoundTrip(d: nat, upper: bool)
    requires d < 36
    ensures DigitValue(DigitChar(d, upper)) == d
    ensures d > 0 ==> DigitChar(d, upper) != '0'
  {
  }

  function Pow(b: nat, n: nat): nat { if n == 0 then 1 else b * Pow(b, n - 1) }

  /** A number of n binary digits has at most n digits in any base. */
  lemma {:induction false} DigitsFit(x: nat, base: nat, upper: bool, n: nat)
    requires 2 <= base <= 36 && n > 0 && x < Pow(2, n)
    ensures |Digits(x, base, upper)| <= n
  {
    if x >= base {
      assert x == base * (x / base) + x % base;
      MulLe(2, base, x / base);
      assert n > 1;
      DigitsFit(x / base, base, upper, n - 1);
    }
  }

  lemma PowersOfTwo()
    ensures Pow(2, 64) == RANGE
  {
    assert Pow(2, 4) == 16;
    PowAdd(2, 4, 4);
    assert Pow(2, 8) == 256;
    PowAdd(2, 8, 8);
    assert Pow(2, 16) == 0x1_0000;
    PowAdd(2, 16, 16);
    assert Pow(2, 32) == 0x1_0000_0000;
    PowAdd(2, 32, 32);
  }

  lemma Fits64(x: nat, base: nat, upper: bool)
    requires 2 <= base <= 36 && x < RANGE
    ensures |Digits(x, base, upper)| <= 64
  {
    PowersOfTwo();
    DigitsFit(x, base, upper, 64);
  }

  lemma {:induction false} PowAdd(b: nat, m: nat, n: nat)
    ensures Pow(b, m + n) == Pow(b, m) * Pow(b, n)
  {
    if m > 0 {
      PowAdd(b, m - 1, n);
      assert b * (Pow(b, m - 1) * Pow(b, n)) == b * Pow(b, m - 1) * Pow(b, n);
    }
  }

  /** In base 8 and above, two places of the buffer stay free in front of the number. */
  lemma {:induction false} DigitsFit8(x: nat, base: nat, upper: bool, n: nat)
    requires 8 <= base <= 36 && n > 0 && x < Pow(8, n)
    ensures |Digits(x, base, upper)| <= n
  {
    if x >= base {
      assert x == base * (x / base) + x % base;
      MulLe(8, base, x / base);
      assert n > 1;
      DigitsFit8(x / base, base, upper, n - 1);
    }
  }

  lemma Fits22(x: nat, base: nat, upper: bool)
    requires 8 <= base <= 36 && x < RANGE
    ensures |Digits(x, base, upper)| <= 22
  {
    assert Pow(8, 3) == 512 && Pow(8, 1) == 8;
    PowAdd(8, 3, 2);
    PowAdd(8, 5, 5);
    PowAdd(8, 10, 1);
    PowAdd(8, 11, 11);
    DigitsFit8(x, base, upper, 22);
  }

  /** A numeral of several digits is a shorter one and a digit. */
  lemma DigitsStep(x: nat, base: nat, upper: bool) returns (q: nat, r: nat)
    requires 2 <= base <= x && base <= 36
    ensures 0 < q < x && r < base && x == q * base + r
    ensures Digits(x, base, upper) == Digits(q, base, upper) + [DigitChar(r, upper)]
  {
    q, r := x / base, x % base;
    assert x == base * q + r;
    MulLe(2, base, q);
  }

  /** Only zero starts with a zero. */
  lemma {:induction false} LeadingDigit(x: nat, base: nat, upper: bool)
    requires 2 <= base <= 36
    ensures DigitValue(Digits(x, base, upper)[0]) < base
    ensures Digits(x, base, upper)[0] == '0' <==> x == 0
    ensures x == 0 ==> |Digits(x, base, upper)| == 1
  {
    if x < base {
      DigitRoundTrip(x, upper);
    } else {
      var q, r := DigitsStep(x, base, upper);
      LeadingDigit(q, base, upper);
      var t := Digits(q, base, upper);
      assert (t + [DigitChar(r, upper)])[0] == t[0];
    }
  }

  // ------------------------------------------------------------------ printing

  /** u2s: the digits end at the last place of the buffer, before the NUL; start is where they begin. */
  method U2s(x0: nat, base: nat, upper: bool, buf: array<char>) returns (start: nat, slen: nat)
    requires 2 <= base <= 36 && x0 < RANGE && buf.Length >= U2S_BUFSIZE
    modifies buf
    ensures start <= 64 && slen == 64 - start && buf[64] == '\0'
    ensures buf[start..64] == Digits(x0, base, upper)
    ensures buf[..start] == old(buf[..start]) && buf[65..] == old(buf[65..])
  {
    Fits64(x0, base, upper);
    var x: nat := x0;
    var i := U2S_BUFSIZE - 1;
    buf[i] := '\0';
    ghost var done := "";
    while true
      invariant 0 < i <= 64 && x < RANGE && buf[64] == '\0'
      invariant Digits(x, base, upper) + done == Digits(x0, base, upper)
      invariant |done| == 64 - i && buf[i..64] == done
      invariant buf[..i] == old(buf[..i]) && buf[65..] == old(buf[65..])
      decreases x
    {
      i := i - 1;
      var d := if base == 10 then x % 10 else if base == 16 then x % 16 else x % base;
      var rest := if base == 10 then x / 10 else if base == 16 then x / 16 else x / base;
      buf[i] := DigitChar(d, upper);
      LastDigitOff(x, base, upper, done);
      assert buf[i..64] == [DigitChar(d, upper)] + done;
      Quotient(x, base);
      done := [DigitChar(d, upper)] + done;
      x := rest;
      if x == 0 {
        break;
      }
    }
    return i, U2S_BUFSIZE - 1 - i;
  }

  lemma LastDigitOff(x: nat, base: nat, upper: bool, done: string)
    requires 2 <= base <= 36
    ensures Digits(x, base, upper) + done
      == (if x < base then "" else Digits(x / base, base, upper)) + ([DigitChar(x % base, upper)] + done)
  {
    Regroup(if x < base then "" else Digits(x / base, base, upper), [DigitChar(x % base, upper)], done);
    Quotient(x, base);
  }

  lemma Regroup(a: string, b: string, c: string)
    ensures (a + b) + c == a + (b + c) && "" + b == b
  {
  }

  lemma Quotient(x: nat, base: nat)
    requires base >= 2
    ensures x / base == 0 <==> x < base
    ensures x / base <= x && (x > 0 ==> x / base < x) && (x < base ==> x % base == x)
  {
    assert x == base * (x / base) + x % base;
    MulLe(2, base, x / base);
  }

  /** o2s: octal, with a leading zero in the alternate form. */
  method O2s(x: nat, alt: bool, buf: array<char>) returns (start: nat, slen: nat)
    requires x < RANGE && buf.Length >= U2S_BUFSIZE
    modifies buf
    ensures start <= 64 && slen == 64 - start && buf[64] == '\0'
    ensures buf[start..64] == Octal(x, alt) && buf[65..] == old(buf[65..])
  {
    Fits22(x, 8, false);
    LeadingDigit(x, 8, false);
    start, slen := U2s(x, 8, false, buf);
    ghost var text := buf[start..64];
    if alt && buf[start] != '0' {
      start := start - 1;
      slen := slen + 1;
      buf[start] := '0';
      assert buf[start..64] == ['0'] + text;
    }
  }

  /** x2s: hexadecimal, with 0x in front in the alternate form. */
  method X2s(x: nat, alt: bool, upper: bool, buf: array<char>) returns (start: nat, slen: nat)
    requires x < RANGE && buf.Length >= U2S_BUFSIZE
    modifies buf
    ensures start <= 64 && slen == 64 - start && buf[64] == '\0'
    ensures buf[start..64] == Hex(x, alt, upper) && buf[65..] == old(buf[65..])
  {
    Fits22(x, 16, upper);
    start, slen := U2s(x, 16, upper, buf);
    ghost var text := buf[start..64];
    if alt {
      start := start - 2;
      slen := slen + 2;
      buf[start] := '0';
      buf[start + 1] := if upper then 'X' else 'x';
      assert buf[start..64] == ['0', if upper then 'X' else 'x'] + text;
    }
  }

  /** d2s: decimal with a sign; `sign` is what a number that is not negative gets in front, a minus
      standing for nothing. */
  method D2s(x: int, sign: char, buf: array<char>) returns (start: nat, slen: nat)
    requires -0x8000_0000_0000_0000 <= x < 0x8000_0000_0000_0000 && sign in {'-', ' ', '+'}
    requires buf.Length >= U2S_BUFSIZE
    modifies buf
    ensures start <= 64 && slen == 64 - start && buf[64] == '\0'
    ensures buf[start..64] == Decimal(x, sign) && buf[65..] == old(buf[65..])
  {
    var neg := x < 0;
    var y := if neg then -x else x;
    Fits22(y, 10, false);
    start, slen := U2s(y, 10, false, buf);
    ghost var text := buf[start..64];
    var c := if neg then '-' else sign;
    if c != '-' || neg {
      start := start - 1;
      slen := slen + 1;
      buf[start] := c;
      assert buf[start..64] == [c] + text;
    }
  }

  function Octal(x: nat, alt: bool): string {
    if alt && x > 0 then "0" + Digits(x, 8, false) else Digits(x, 8, false)
  }

  function Hex(x: nat, alt: bool, upper: bool): string {
    if alt then ['0', if upper then 'X' else 'x'] + Digits(x, 16, upper) else Digits(x, 16, upper)
  }

  function Decimal(x: int, sign: char): string {
    if x < 0 then "-" + Digits(-x, 10, false)
    else if sign == '-' then Digits(x, 10, false)
    else [sign] + Digits(x, 10, false)
  }

  // ------------------------------------------------------------------ parsing

  datatype Errno = NoError | Invalid | OutOfRange

  /** What malloc_strtoumax returns, where it leaves endptr, and errno. */
  datatype Parsed = Parsed(ret: nat, end: nat, err: Errno)

  /** The character at p of the C string s. */
  function At(s: string, p: nat): char { if p < |s| then s[p] else '\0' }

  predicate IsSpace(c: char) { c == ' ' || '\U{9}' <= c <= '\U{d}' }

  function Skip(s: string, p: nat): (r: nat)
    requires p <= |s|
    ensures p <= r <= |s| && !IsSpace(At(s, r))
    decreases |s| - p
  {
    if p < |s| && IsSpace(s[p]) then Skip(s, p + 1) else p
  }

  /** The base after the prefix, and where the digits start; None for a zero that ends the number. */
  datatype Prefix = Zero | Number(p: nat, b: nat)

  function ReadPrefix(s: string, p: nat, b: nat): (prefix: Prefix)
    requires p <= |s|
    ensures prefix.Number? ==> prefix.p <= |s|
  {
    if At(s, p) != '0' then Number(p, if b == 0 then 10 else b)
    else
      var c := At(s, p + 1);
      if '0' <= c <= '7' then
        var b' := if b == 0 then 8 else b;
        Number(if b' == 8 then p + 1 else p, b')
      else if c == 'x' || c == 'X' then
        if DigitValue(At(s, p + 2)) < 16 then
          var b' := if b == 0 then 16 else b;
          Number(if b' == 16 then p + 2 else p, b')
        else Number(p, if b == 0 then 10 else b)
      else Zero
  }

  /** ret *= b; ret += d; */
  function Accumulate(ret: nat, b: nat, d: nat): (r: nat)
    ensures r < RANGE
  {
    (ret * b % RANGE + d) % RANGE
  }

  /** The conversion loop, in 64 bits, with the source's test for overflow. */
  function Convert(s: string, p: nat, b: nat, ret: nat): (r: Parsed)
    requires p <= |s| && ret < RANGE
    ensures p <= r.end <= |s| && r.ret < RANGE
    decreases |s| - p
  {
    if p == |s| || DigitValue(s[p]) >= b then Parsed(ret, p, NoError)
    else
      var next := Accumulate(ret, b, DigitValue(s[p]));
      if next < ret then Parsed(RANGE - 1, p, OutOfRange) else Convert(s, p + 1, b, next)
  }

  function Negated(ret: nat): nat
    requires ret < RANGE
  {
    if ret == 0 then 0 else RANGE - ret
  }

  /** malloc_strtoumax from the digits on; ns is where the text starts behind spaces and sign. */
  function Finish(s: string, ns: nat, neg: bool, prefix: Prefix): Parsed
    requires prefix.Number? ==> prefix.p <= |s|
  {
    match prefix
    case Zero => Parsed(0, ns + 1, NoError)
    case Number(q, b) =>
      var r := Convert(s, q, b, 0);
      if r.err.OutOfRange? then Parsed(r.ret, if r.end == ns then 0 else r.end, OutOfRange)
      else if r.end == ns then Parsed(RANGE - 1, 0, Invalid)
      else Parsed(if neg then Negated(r.ret) else r.ret, r.end, NoError)
  }

  /** malloc_strtoumax */
  function Parse(s: string, base: int): Parsed {
    if base < 0 || base == 1 || base > 36 then Parsed(RANGE - 1, 0, Invalid)
    else
      var p := Skip(s, 0);
      var neg := At(s, p) == '-';
      var ns := if neg || At(s, p) == '+' then p + 1 else p;
      Finish(s, ns, neg, ReadPrefix(s, ns, base))
  }

  /** malloc_strtoumax as the source runs it: a position that moves and an accumulator. */
  method StrToUMax(s: string, base: int) returns (ret: nat, end: nat, err: Errno)
    ensures Parsed(ret, end, err) == Parse(s, base)
  {
    var p: nat := 0;
    if base < 0 || base == 1 || base > 36 {
      return RANGE - 1, 0, Invalid;
    }
    var b: nat := base;
    var neg := false;
    while p < |s| && IsSpace(s[p])
      invariant p <= |s| && Skip(s, p) == Skip(s, 0)
    {
      p := p + 1;
    }
    if At(s, p) == '-' {
      neg := true;
      p := p + 1;
    } else if At(s, p) == '+' {
      p := p + 1;
    }
    var ns := p;
    var zero;
    zero, p, b := TakePrefix(s, p, b);
    if zero {
      return 0, p, NoError;
    }
    ret, p, err := ConvertLoop(s, p, b);
    if err.OutOfRange? {
      return ret, if p == ns then 0 else p, err;
    }
    if neg {
      ret := Negated(ret);
    }
    if p == ns {
      return RANGE - 1, 0, Invalid;
    }
    return ret, p, NoError;
  }

  /** The prefix of the digits; `zero` when a lone zero ends the number, and p is then behind it. */
  method TakePrefix(s: string, p0: nat, base: nat) returns (zero: bool, p: nat, b: nat)
    requires p0 <= |s| && base <= 36
    ensures ReadPrefix(s, p0, base) == if zero then Zero else Number(p, b)
    ensures b <= 36 && (zero ==> p == p0 + 1) && p <= |s|
  {
    zero, p, b := false, p0, base;
    if At(s, p) == '0' {
      var c := At(s, p + 1);
      if '0' <= c <= '7' {
        b := if b == 0 then 8 else b;
        p := if b == 8 then p + 1 else p;
      } else if c == 'x' || c == 'X' {
        if DigitValue(At(s, p + 2)) < 16 {
          b := if b == 0 then 16 else b;
          p := if b == 16 then p + 2 else p;
        }
      } else {
        return true, p + 1, b;
      }
    }
    b := if b == 0 then 10 else b;
  }

  method ConvertLoop(s: string, q: nat, b: nat) returns (ret: nat, p: nat, err: Errno)
    requires q <= |s| && b <= 36
    ensures Parsed(ret, p, err) == Convert(s, q, b, 0)
  {
    ret, p := 0, q;
    while DigitValue(At(s, p)) < b
      invariant q <= p <= |s| && ret < RANGE && Convert(s, q, b, 0) == Convert(s, p, b, ret)
      decreases |s| - p
    {
      var pret := ret;
      ret := ret * b % RANGE;
      ret := (ret + DigitValue(s[p])) % RANGE;
      assert ret == Accumulate(pret, b, DigitValue(s[p]));
      if ret < pret {
        return RANGE - 1, p, OutOfRange;
      }
      p := p + 1;
    }
    err := NoError;
  }

  // ------------------------------------------------------------------ round trips

  /** Converting a numeral that stands at p arrives behind it with its value. */
  lemma {:induction false} ConvertDigits(s: string, p: nat, x: nat, base: nat, upper: bool)
    requires 2 <= base <= 36 && x < RANGE
    requires p + |Digits(x, base, upper)| <= |s|
    requires s[p..p + |Digits(x, base, upper)|] == Digits(x, base, upper)
    ensures Convert(s, p, base, 0) == Convert(s, p + |Digits(x, base, upper)|, base, x)
    decreases x
  {
    if x < base {
      var d := Digits(x, base, upper);
      DigitRoundTrip(x, upper);
      assert s[p] == s[p..p + |d|][0];
      OneDigit(0, base, x);
      ConvertOne(s, p, base, 0, x);
    } else {
      var q, r := DigitsStep(x, base, upper);
      var t, c := Digits(q, base, upper), DigitChar(r, upper);
      SliceParts(s, p, t, c);
      DigitRoundTrip(r, upper);
      ConvertDigits(s, p, q, base, upper);
      OneDigit(q, base, r);
      ConvertOne(s, p + |t|, base, q, x);
    }
  }

  lemma SliceParts(s: string, p: nat, t: string, c: char)
    requires p + |t| + 1 <= |s| && s[p..p + |t| + 1] == t + [c]
    ensures s[p..p + |t|] == t && s[p + |t|] == c
  {
    assert s[p..p + |t| + 1][..|t|] == s[p..p + |t|];
    assert s[p + |t|] == s[p..p + |t| + 1][|t|];
  }

  lemma ConvertOne(s: string, p: nat, b: nat, ret: nat, next: nat)
    requires p < |s| && DigitValue(s[p]) < b && ret <= next < RANGE
    requires next == Accumulate(ret, b, DigitValue(s[p]))
    ensures Convert(s, p, b, ret) == Convert(s, p + 1, b, next)
  {
  }

  lemma OneDigit(q: nat, base: nat, r: nat)
    requires base >= 1 && q * base + r < RANGE
    ensures Accumulate(q, base, r) == q * base + r >= q
  {
    MulLe(1, base, q);
  }

  /** A numeral at the end of the string is read to its end, whatever stands before it. */
  lemma ConvertLast(pre: string, x: nat, base: nat, upper: bool)
    requires 2 <= base <= 36 && x < RANGE
    ensures var s := pre + Digits(x, base, upper);
      Convert(s, |pre|, base, 0) == Parsed(x, |s|, NoError)
  {
    var d := Digits(x, base, upper);
    assert (pre + d)[|pre|..|pre| + |d|] == d;
    ConvertDigits(pre + d, |pre|, x, base, upper);
  }

  /** What comes first in a numeral is neither a space nor a sign. */
  lemma PlainStart(x: nat, base: nat, upper: bool)
    requires 2 <= base <= 36
    ensures var c := Digits(x, base, upper)[0]; !IsSpace(c) && c != '-' && c != '+'
  {
    LeadingDigit(x, base, upper);
  }

  /** Parsing undoes u2s in every base, for every 64-bit number, and consumes the whole string. */
  lemma ParsePrinted(x: nat, base: nat, upper: bool)
    requires 2 <= base <= 36 && x < RANGE
    ensures var s := Digits(x, base, upper); Parse(s, base) == Parsed(x, |s|, NoError)
  {
    var s := Digits(x, base, upper);
    LeadingDigit(x, base, upper);
    PlainStart(x, base, upper);
    ConvertLast("", x, base, upper);
    assert "" + s == s;
  }

  /** With base 0 it undoes the decimal form and the alternate octal and hexadecimal forms. */
  lemma ParseByPrefix(x: nat, upper: bool)
    requires x < RANGE
    ensures var s := Digits(x, 10, false); Parse(s, 0) == Parsed(x, |s|, NoError)
    ensures var s := Octal(x, true); Parse(s, 0) == Parsed(x, |s|, NoError)
    ensures var s := Hex(x, true, upper); Parse(s, 0) == Parsed(x, |s|, NoError)
  {
    ParseDecimal(x);
    ParseOctal(x);
    ParseHex(x, upper);
  }

  lemma ParseDecimal(x: nat)
    requires x < RANGE
    ensures var s := Digits(x, 10, false); Parse(s, 0) == Parsed(x, |s|, NoError)
  {
    LeadingDigit(x, 10, false);
    PlainStart(x, 10, false);
    ConvertLast("", x, 10, false);
    assert "" + Digits(x, 10, false) == Digits(x, 10, false);
  }

  lemma ParseOctal(x: nat)
    requires x < RANGE
    ensures var s := Octal(x, true); Parse(s, 0) == Parsed(x, |s|, NoError)
  {
    LeadingDigit(x, 8, false);
    if x > 0 {
      var d := Digits(x, 8, false);
      var s := "0" + d;
      assert s[1] == d[0];
      SmallDigit(d[0]);
      ConvertLast("0", x, 8, false);
    }
  }

  lemma SmallDigit(c: char)
    requires DigitValue(c) < 8
    ensures '0' <= c <= '7'
  {
  }

  lemma ParseHex(x: nat, upper: bool)
    requires x < RANGE
    ensures var s := Hex(x, true, upper); Parse(s, 0) == Parsed(x, |s|, NoError)
  {
    LeadingDigit(x, 16, upper);
    var d := Digits(x, 16, upper);
    var pre := ['0', if upper then 'X' else 'x'];
    assert (pre + d)[2] == d[0];
    ConvertLast(pre, x, 16, upper);
  }

  /** A signed number printed by d2s parses to its 64-bit pattern. */
  lemma ParseSigned(x: int, sign: char)
    requires -0x8000_0000_0000_0000 <= x < 0x8000_0000_0000_0000 && sign in {'-', ' ', '+'}
    ensures var s := Decimal(x, sign);
      Parse(s, 10) == Parsed(if x < 0 then RANGE + x else x, |s|, NoError)
  {
    var y := if x < 0 then -x else x;
    var d := Digits(y, 10, false);
    LeadingDigit(y, 10, false);
    PlainStart(y, 10, false);
    if x < 0 || sign != '-' {
      var pre := [if x < 0 then '-' else sign];
      assert (pre + d)[1] == d[0] && (|d| > 1 ==> (pre + d)[2] == d[1]);
      ConvertLast(pre, y, 10, false);
      if x >= 0 && sign == ' ' {
        assert Skip(pre + d, 1) == 1;
      }
    } else {
      ConvertLast("", y, 10, false);
      assert "" + d == d;
    }
  }

  // ------------------------------------------------------------------ numbers inside a text

  predicate Spaces(ws: string) { forall i :: 0 <= i < |ws| ==> IsSpace(ws[i]) }

  /** A sign in front of the digits, or none. */
  predicate Sign(sign: string) { sign in {"", "-", "+"} }

  /** The text before the digits that makes base b of the base argument. */
  predicate Form(pre: string, base: int, b: nat) {
    || (pre == "" && 2 <= b <= 36 && (base == b || (base == 0 && b == 10)))
    || (pre == "0" && b == 8 && (base == 0 || base == 8))
    || ((pre == "0x" || pre == "0X") && b == 16 && (base == 0 || base == 16))
  }

  /** What follows a number in base b: nothing, or a text that does not start with a digit. */
  predicate Ends(tail: string, b: nat) { tail == "" || DigitValue(tail[0]) >= b }

  /** The text behind a zero that makes it the prefix of a hexadecimal number. */
  predicate StartsHex(tail: string) {
    |tail| >= 2 && (tail[0] == 'x' || tail[0] == 'X') && DigitValue(tail[1]) < 16
  }

  /** A bare zero read as the prefix of a hexadecimal number. */
  predicate TakenForHex(pre: string, x: nat, tail: string, base: int) {
    pre == "" && x == 0 && StartsHex(tail) && (base == 0 || base == 16)
  }

  lemma {:induction false} SkipSpaces(ws: string, rest: string, i: nat)
    requires Spaces(ws) && i <= |ws| && (rest == "" || !IsSpace(rest[0]))
    ensures Skip(ws + rest, i) == |ws|
    decreases |ws| - i
  {
    if i < |ws| {
      SkipSpaces(ws, rest, i + 1);
    }
  }

  /** A numeral in the middle of a text is read up to the first character that is no digit. */
  lemma ConvertWithin(pre: string, x: nat, base: nat, upper: bool, tail: string)
    requires 2 <= base <= 36 && x < RANGE && Ends(tail, base)
    ensures var d := Digits(x, base, upper);
      Convert(pre + d + tail, |pre|, base, 0) == Parsed(x, |pre + d|, NoError)
  {
    var d := Digits(x, base, upper);
    var s := pre + d + tail;
    assert s[|pre|..|pre| + |d|] == d;
    ConvertDigits(s, |pre|, x, base, upper);
    assert tail != "" ==> s[|pre + d|] == tail[0];
  }

  /** Spaces and a sign are passed over, and the rest is read by prefix and digits. */
  lemma ParseFront(ws: string, sign: string, rest: string, base: int)
    requires Spaces(ws) && Sign(sign) && (base == 0 || 2 <= base <= 36)
    requires sign == "" && rest != "" ==> !IsSpace(rest[0]) && rest[0] != '-' && rest[0] != '+'
    ensures var s, ns := ws + sign + rest, |ws + sign|;
      Parse(s, base) == Finish(s, ns, sign == "-", ReadPrefix(s, ns, base))
  {
    var s := ws + sign + rest;
    assert s == ws + (sign + rest);
    SkipSpaces(ws, sign + rest, 0);
    FrontAt(ws, sign, rest);
  }

  lemma FrontAt(ws: string, sign: string, rest: string)
    requires Sign(sign)
    ensures At(ws + sign + rest, |ws|) == if sign == "" then At(rest, 0) else sign[0]
  {
  }

  /** The prefix of a numeral written in one of the forms. */
  lemma FormPrefix(front: string, pre: string, x: nat, b: nat, upper: bool, tail: string, base: int)
    requires Form(pre, base, b) && Ends(tail, b)
    ensures var d := Digits(x, b, upper);
      var s := front + pre + d + tail;
      ReadPrefix(s, |front|, base) ==
        if TakenForHex(pre, x, tail, base) then Number(|front| + 2, 16)
        else if pre == "" && x == 0 && !AfterZero(At(tail, 0)) then Zero
        else Number(|front + pre|, b)
  {
    var d := Digits(x, b, upper);
    var s := front + pre + d + tail;
    LeadingDigit(x, b, upper);
    assert s[|front + pre|] == d[0];
    if pre == "" {
      if x == 0 {
        forall i: nat ensures At(s, |front| + 1 + i) == At(tail, i) {
        }
        assert At(s, |front| + 1) == At(tail, 0) by { assert At(s, |front| + 1 + 0) == At(tail, 0); }
        assert At(s, |front| + 2) == At(tail, 1) by { assert At(s, |front| + 1 + 1) == At(tail, 1); }
      }
    } else {
      assert s[|front|] == pre[0] && (|pre| == 2 ==> s[|front| + 1] == pre[1]);
      if pre == "0" {
        SmallDigit(d[0]);
      }
    }
  }

  /** A numeral behind its prefix gives its value and ends at its last digit. */
  lemma FinishWithin(front: string, pre: string, x: nat, b: nat, upper: bool, tail: string, neg: bool)
    requires 2 <= b <= 36 && x < RANGE && Ends(tail, b)
    ensures var d := Digits(x, b, upper);
      Finish(front + pre + d + tail, |front|, neg, Number(|front + pre|, b))
        == Parsed(if neg then Negated(x) else x, |front + pre + d|, NoError)
  {
    ConvertWithin(front + pre, x, b, upper, tail);
  }

  /** A prefix of two characters is never left with the position behind its zero. */
  lemma FinishHex(s: string, ns: nat, neg: bool)
    requires ns + 2 <= |s|
    ensures var r := Finish(s, ns, neg, Number(ns + 2, 16)); r.err.NoError? ==> r.end >= ns + 2
  {
  }

  lemma FinishForm(front: string, pre: string, x: nat, b: nat, upper: bool, tail: string, base: int, neg: bool)
    requires Form(pre, base, b) && x < RANGE && Ends(tail, b)
    ensures var d := Digits(x, b, upper);
      var s := front + pre + d + tail;
      Finish(s, |front|, neg, ReadPrefix(s, |front|, base))
        == Parsed(if neg then (RANGE - x) % RANGE else x, |front + pre + d|, NoError)
      <==> !TakenForHex(pre, x, tail, base)
  {
    FormPrefix(front, pre, x, b, upper, tail, base);
    LeadingDigit(x, b, upper);
    if TakenForHex(pre, x, tail, base) {
      FinishHex(front + pre + Digits(x, b, upper) + tail, |front|, neg);
    } else {
      FinishWithin(front, pre, x, b, upper, tail, neg);
    }
  }

  lemma ParseIsFinish(ws: string, sign: string, pre: string, d: string, tail: string, base: int)
    requires Spaces(ws) && Sign(sign) && (base == 0 || 2 <= base <= 36)
    requires d != "" && !IsSpace(d[0]) && d[0] != '-' && d[0] != '+'
    requires pre == "" || pre[0] == '0'
    ensures var s, front := (ws + sign) + pre + d + tail, ws + sign;
      Parse(s, base) == Finish(s, |front|, sign == "-", ReadPrefix(s, |front|, base))
  {
    var rest := pre + d + tail;
    assert rest[0] == if pre == "" then d[0] else pre[0];
    assert (ws + sign) + pre + d + tail == ws + sign + rest;
    ParseFront(ws, sign, rest, base);
  }

  /** White space, a sign, a number in any base or form, and a text behind it that does not start with
      a digit: the answer is the number, as its 64-bit pattern, and the position just behind it.  The
      exception is a zero whose tail makes it the prefix of a hexadecimal number. */
  lemma ParseWithin(ws: string, sign: string, pre: string, x: nat, b: nat, upper: bool, tail: string, base: int)
    requires Spaces(ws) && Sign(sign) && Form(pre, base, b) && x < RANGE && Ends(tail, b)
    ensures var number := ws + sign + pre + Digits(x, b, upper);
      Parse(number + tail, base)
        == Parsed(if sign == "-" then (RANGE - x) % RANGE else x, |number|, NoError)
      <==> !TakenForHex(pre, x, tail, base)
  {
    var d, front := Digits(x, b, upper), ws + sign;
    PlainStart(x, b, upper);
    LeadingDigit(x, b, upper);
    ParseIsFinish(ws, sign, pre, d, tail, base);
    FinishForm(front, pre, x, b, upper, tail, base, sign == "-");
  }

  predicate BadBase(base: int) { base < 0 || base == 1 || base > 36 }

  /** The error for no number at all, with the end at the start of the text, comes exactly for a base
      out of range and for a text without a digit behind space and sign. */
  lemma InvalidExactly(ws: string, sign: string, rest: string, base: int)
    requires Spaces(ws) && Sign(sign)
    requires sign == "" && rest != "" ==> !IsSpace(rest[0]) && rest[0] != '-' && rest[0] != '+'
    ensures var r := Parse(ws + sign + rest, base);
      && (r == Parsed(RANGE - 1, 0, Invalid) <==> r.err.Invalid?)
      && (r.err.Invalid? <==> BadBase(base) || Ends(rest, if base == 0 then 10 else base))
  {
    if !BadBase(base) {
      var s, ns := ws + sign + rest, |ws + sign|;
      assert rest != "" ==> s[ns] == rest[0];
      ParseFront(ws, sign, rest, base);
    }
  }

  // ------------------------------------------------------------------ where parsing goes wrong

  function Zeros(k: nat): (z: string)
    ensures |z| == k && forall i :: 0 <= i < k ==> z[i] == '0'
  {
    seq(k, _ => '0')
  }

  lemma {:induction false} ConvertZeros(s: string, p: nat, k: nat, base: nat)
    requires base >= 2 && p <= k <= |s| && forall i :: p <= i < k ==> s[i] == '0'
    ensures Convert(s, p, base, 0) == Convert(s, k, base, 0)
    decreases k - p
  {
    if p < k {
      ConvertOne(s, p, base, 0, 0);
      ConvertZeros(s, p + 1, k, base);
    }
  }

  /** The digits after which a single leading zero is harmless. */
  predicate AfterZero(c: char) { '0' <= c <= '7' || c == 'x' || c == 'X' }

  /** A numeral padded with k zeros is read to its end exactly when it is not a single zero put
      before an 8, a 9 or a letter other than x: that zero is taken for the whole number. */
  lemma ParsePadded(x: nat, base: nat, upper: bool, k: nat)
    requires 2 <= base <= 36 && x < RANGE
    ensures var d := Digits(x, base, upper);
      Parse(Zeros(k) + d, base) == Parsed(x, k + |d|, NoError) <==> k != 1 || AfterZero(d[0])
  {
    var d := Digits(x, base, upper);
    var s := Zeros(k) + d;
    ConvertLast(Zeros(k), x, base, upper);
    LeadingDigit(x, base, upper);
    if k == 0 {
      ParsePrinted(x, base, upper);
      assert s == d;
    } else {
      assert s[0] == '0' && s[1] == if k == 1 then d[0] else '0';
      assert Skip(s, 0) == 0;
      ConvertZeros(s, 0, k, base);
      ConvertZeros(s, 1, k, base);
    }
  }

  /** The decimal string 08 reads as 0, up to the 8. */
  lemma ZeroEightIsZero()
    ensures Parse("08", 10) == Parsed(0, 1, NoError)
    ensures Parse("0a", 16) == Parsed(0, 1, NoError)
  {
  }

  /** A numeral that its last digit takes beyond 64 bits is reported exactly when the truncated
      value is smaller than what stood there before; else the truncated value is the answer. */
  lemma OverflowCaught(x: nat, base: nat, r: nat, upper: bool, tail: string)
    requires 2 <= base <= 36 && 0 < x < RANGE && r < base && x * base + r >= RANGE && Ends(tail, base)
    ensures var d, n := Digits(x, base, upper), (x * base + r) % RANGE;
      Parse(d + [DigitChar(r, upper)] + tail, base)
        == if n < x then Parsed(RANGE - 1, |d|, OutOfRange) else Parsed(n, |d| + 1, NoError)
  {
    var d := Digits(x, base, upper);
    var s := d + [DigitChar(r, upper)] + tail;
    LeadingDigit(x, base, upper);
    PlainStart(x, base, upper);
    assert s[|d|] == DigitChar(r, upper) && (tail != "" ==> s[|d| + 1] == tail[0]);
    assert s[0..0 + |d|] == d && s[0] == d[0];
    ConvertDigits(s, 0, x, base, upper);
    DigitRoundTrip(r, upper);
    ModStep(x * base, r);
  }

  /** The number that a string of digits stands for, of any length and in either case. */
  function Value(ds: string, b: nat): nat {
    if ds == "" then 0 else Value(ds[..|ds| - 1], b) * b + DigitValue(ds[|ds| - 1])
  }

  predicate AllDigits(ds: string, b: nat) { forall i :: 0 <= i < |ds| ==> DigitValue(ds[i]) < b }

  /** With digit k the truncated value becomes smaller. */
  predicate Falls(ds: string, b: nat, k: nat) {
    k < |ds| && Value(ds[..k + 1], b) % RANGE < Value(ds[..k], b) % RANGE
  }

  /** What is read from digit k on, as long as the truncated value has not fallen. */
  ghost predicate ReadsTo(r: Parsed, start: nat, ds: string, b: nat, k: nat)
    requires k <= |ds|
  {
    match r.err
    case OutOfRange =>
      && k <= r.end - start < |ds| && r.ret == RANGE - 1 && Falls(ds, b, r.end - start)
      && forall j: nat :: k <= j < r.end - start ==> !Falls(ds, b, j)
    case NoError =>
      && r.end == start + |ds| && r.ret == Value(ds, b) % RANGE
      && forall j: nat :: k <= j < |ds| ==> !Falls(ds, b, j)
    case Invalid => false
  }

  /** The text has these digits at `start`, and then no more. */
  predicate DigitsAt(s: string, start: nat, ds: string, b: nat) {
    && AllDigits(ds, b) && start + |ds| <= |s|
    && (forall i :: 0 <= i < |ds| ==> s[start + i] == ds[i])
    && (start + |ds| < |s| ==> DigitValue(s[start + |ds|]) >= b)
  }

  lemma {:induction false} ConvertAny(s: string, start: nat, ds: string, b: nat, k: nat)
    requires DigitsAt(s, start, ds, b) && k <= |ds|
    ensures ReadsTo(Convert(s, start + k, b, Value(ds[..k], b) % RANGE), start, ds, b, k)
    decreases |ds| - k
  {
    if k == |ds| {
      assert ds[..k] == ds;
    } else {
      ConvertNext(s, start, ds, b, k);
      if !Falls(ds, b, k) {
        ConvertAny(s, start, ds, b, k + 1);
        ReadsOn(Convert(s, start + k + 1, b, Value(ds[..k + 1], b) % RANGE), start, ds, b, k);
      }
    }
  }

  lemma ReadsOn(r: Parsed, start: nat, ds: string, b: nat, k: nat)
    requires k < |ds| && !Falls(ds, b, k) && ReadsTo(r, start, ds, b, k + 1)
    ensures ReadsTo(r, start, ds, b, k)
  {
  }

  lemma ConvertNext(s: string, start: nat, ds: string, b: nat, k: nat)
    requires DigitsAt(s, start, ds, b) && k < |ds|
    ensures Convert(s, start + k, b, Value(ds[..k], b) % RANGE)
      == if Falls(ds, b, k) then Parsed(RANGE - 1, start + k, OutOfRange)
         else Convert(s, start + k + 1, b, Value(ds[..k + 1], b) % RANGE)
  {
    assert s[start + k] == ds[k];
    ValueStep(ds, b, k);
    ConvertStep(s, start + k, b, Value(ds[..k], b));
  }

  lemma ValueStep(ds: string, b: nat, k: nat)
    requires k < |ds|
    ensures Value(ds[..k + 1], b) == Value(ds[..k], b) * b + DigitValue(ds[k])
  {
    assert ds[..k + 1][..k] == ds[..k];
  }

  lemma ConvertStep(s: string, p: nat, b: nat, v: nat)
    requires p < |s| && DigitValue(s[p]) < b
    ensures var next := (v * b + DigitValue(s[p])) % RANGE;
      Convert(s, p, b, v % RANGE)
        == if next < v % RANGE then Parsed(RANGE - 1, p, OutOfRange) else Convert(s, p + 1, b, next)
  {
    AccumulateWraps(v, b, DigitValue(s[p]));
  }

  lemma AccumulateWraps(v: nat, b: nat, d: nat)
    ensures Accumulate(v % RANGE, b, d) == (v * b + d) % RANGE
  {
    var q, y := v / RANGE, v % RANGE;
    assert v == q * RANGE + y;
    assert v * b == (q * b) * RANGE + y * b;
    Shifted(q * b, y * b);
    ModStep(y * b, d);
    ModStep(v * b, d);
  }

  lemma Shifted(k: nat, y: nat)
    ensures (k * RANGE + y) % RANGE == y % RANGE
  {
  }

  /** Any numeral that does not start with a zero, however long: the range error comes exactly at the
      first digit with which the value, truncated to 64 bits, becomes smaller; if there is none, the
      answer is the truncated value, with the end behind the last digit. */
  lemma ParseAny(ds: string, tail: string, base: nat)
    requires 2 <= base <= 36 && ds != "" && ds[0] != '0' && AllDigits(ds, base) && Ends(tail, base)
    ensures ReadsTo(Parse(ds + tail, base), 0, ds, base, 0)
  {
    var s := ds + tail;
    assert s[0] == ds[0] && Skip(s, 0) == 0;
    PlainParse(s, base);
    FinishAny(s, ds, base);
  }

  lemma PlainParse(s: string, base: nat)
    requires 2 <= base <= 36 && s != "" && s[0] != '0' && DigitValue(s[0]) < base
    ensures Parse(s, base) == Finish(s, 0, false, Number(0, base))
  {
  }

  lemma FinishAny(s: string, ds: string, base: nat)
    requires 2 <= base <= 36 && ds != "" && DigitsAt(s, 0, ds, base)
    ensures ReadsTo(Finish(s, 0, false, Number(0, base)), 0, ds, base, 0)
  {
    assert ds[..0] == "";
    ConvertAny(s, 0, ds, base, 0);
  }

  /** A number of 64 bits never falls. */
  lemma {:induction false} SmallNeverFalls(ds: string, b: nat, k: nat)
    requires b >= 1 && Value(ds, b) < RANGE && k < |ds|
    ensures !Falls(ds, b, k)
    decreases |ds|
  {
    var n := |ds| - 1;
    ValueGrows(Value(ds[..n], b), b, DigitValue(ds[n]));
    if k == n {
      assert ds[..k + 1] == ds;
    } else {
      SmallNeverFalls(ds[..n], b, k);
      assert ds[..n][..k + 1] == ds[..k + 1] && ds[..n][..k] == ds[..k];
    }
  }

  lemma ValueGrows(v: nat, b: nat, d: nat)
    requires b >= 1
    ensures v <= v * b + d
  {
    MulLe(1, b, v);
  }

  /** So a hexadecimal number of 65 bits, all ones, parses without an error. */
  lemma OverflowMissed(x: nat)
    requires x == 0x1FFF_FFFF_FFFF_FFFF
    ensures var s := Digits(x, 16, false) + "f"; Parse(s, 16) == Parsed(RANGE - 1, |s|, NoError)
  {
    assert x * 16 + 15 == RANGE + (RANGE - 1);
    assert (x * 16 + 15) % RANGE == RANGE - 1;
    OverflowCaught(x, 16, 15, false, "");
    assert Digits(x, 16, false) + "f" == Digits(x, 16, false) + [DigitChar(15, false)] + "";
  }
}
