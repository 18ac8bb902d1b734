// The number conversions of sched/lib/printfmt.c and strtol of sched/lib/string.c, a printer and a
// parser: what reads back, and what does not.
module Numbers {
  import opened Strings
  import opened Word32

  predicate Base(b: nat) { 2 <= b <= 16 }

  // ---------------------------------------------------------------- printnum

  function DigitChar(d: nat): char
    requires d < 16
  {
    "0123456789abcdef"[d]
  }

  function Digits(n: nat, base: nat): (s: string)
    requires Base(base)
    ensures s != ""
  {
    if n >= base then Digits(n / base, base) + [DigitChar(n % base)] else [DigitChar(n)]
  }

  function Fill(c: char, n: int): (s: string)
    ensures |s| == (if n > 0 then n else 0) && forall i :: 0 <= i < |s| ==> s[i] == c
  {
    seq(if n > 0 then n else 0, _ => c)
  }

  // What printnum writes: padding on the left up to the width, then all digits.
  function Printed(n: nat, base: nat, width: int, padc: char): (s: string)
    requires Base(base)
    ensures |s| == if width > |Digits(n, base)| then width else |Digits(n, base)|
  {
    Fill(padc, width - |Digits(n, base)|) + Digits(n, base)
  }

  lemma PrintedStep(n: nat, base: nat, width: int, padc: char)
    requires Base(base) && n >= base
    ensures Printed(n, base, width, padc) == Printed(n / base, base, width - 1, padc) + [DigitChar(n % base)]
  {
    hide DigitChar, Fill;
    var more, digit := Digits(n / base, base), [DigitChar(n % base)];
    assert Digits(n, base) == more + digit;
    var pad := Fill(padc, width - |Digits(n, base)|);
    assert pad + (more + digit) == pad + more + digit;
  }

  lemma FillStep(c: char, n: nat)
    ensures Fill(c, n + 1) == Fill(c, n) + [c]
  {
  }

  // The padding loop of printnum.
  method PutPadding(out: string, width: int, padc: char) returns (r: string)
    ensures r == out + Fill(padc, width - 1)
  {
    hide Fill;
    r := out;
    var w := width - 1;
    ghost var put := 0;
    while w > 0
      invariant put >= 0 && r == out + Fill(padc, put)
      invariant if width > 1 then w >= 0 && put + w == width - 1 else put == 0
    {
      FillStep(padc, put);
      r := r + [padc];
      put := put + 1;
      w := w - 1;
    }
    assert |Fill(padc, width - 1)| == |Fill(padc, put)|;
    assert Fill(padc, width - 1) == Fill(padc, put);
  }

  method Printnum(out: string, num: nat, base: nat, width: int, padc: char) returns (r: string)
    requires Base(base)
    ensures r == out + Printed(num, base, width, padc)
    decreases num
  {
    hide DigitChar, Fill, Printed, Digits;
    Quotient(num, base);
    if num >= base {
      PrintedStep(num, base, width, padc);
      r := Printnum(out, num / base, base, width - 1, padc);
      Associates(out, Printed(num / base, base, width - 1, padc), [DigitChar(num % base)]);
    } else {
      OneDigit(num, base, width, padc);
      r := PutPadding(out, width, padc);
      Associates(out, Fill(padc, width - 1), [DigitChar(num % base)]);
    }
    r := r + [DigitChar(num % base)];
  }

  lemma Quotient(n: nat, base: nat)
    requires Base(base)
    ensures n == n / base * base + n % base && n % base < base
    ensures n >= base ==> n / base < n
    ensures n < base ==> n % base == n
  {
  }

  lemma OneDigit(n: nat, base: nat, width: int, padc: char)
    requires Base(base) && n < base
    ensures n % base == n && Printed(n, base, width, padc) == Fill(padc, width - 1) + [DigitChar(n)]
  {
  }

  // The integer cases of vprintfmt.
  function FormatD(n: int, width: int, padc: char): string {
    if n < 0 then "-" + Printed(-n, 10, width, padc) else Printed(n, 10, width, padc)
  }

  function FormatP(n: nat, width: int, padc: char): string { "0x" + Printed(n, 16, width, padc) }

  // ---------------------------------------------------------------- strtol

  // The value of a character as a digit of any base, 36 for others.
  function DigitValue(c: char): (d: nat) {
    if '0' <= c <= '9' then c as nat - '0' as nat
    else if 'a' <= c <= 'z' then c as nat - 'a' as nat + 10
    else if 'A' <= c <= 'Z' then c as nat - 'A' as nat + 10
    else 36
  }

  function SkipBlanks(s: string, i: nat): (j: nat)
    requires i <= |s|
    ensures i <= j <= |s|
    decreases |s| - i
  {
    if i < |s| && (s[i] == ' ' || s[i] == '\t') then SkipBlanks(s, i + 1) else i
  }

  // The digit loop from i on with val so far: the value and where it stops.
  function Scan(s: string, i: nat, base: nat, val: int): (r: (int, nat))
    requires i <= |s|
    ensures i <= r.1 <= |s|
    decreases |s| - i
  {
    if i < |s| && DigitValue(s[i]) < base && DigitValue(s[i]) < 36 then
      Scan(s, i + 1, base, Wrap32(val * base + DigitValue(s[i])))
    else (val, i)
  }

  predicate HexPrefix(s: string, i: nat) { i + 1 < |s| && s[i] == '0' && s[i + 1] == 'x' }

  // Where the digits start, and in which base they are read.
  function Prefix(s: string, i: nat, base: nat): (r: (nat, nat))
    requires i <= |s|
    ensures i <= r.0 <= |s|
  {
    if (base == 0 || base == 16) && HexPrefix(s, i) then (i + 2, 16)
    else if base == 0 && i < |s| && s[i] == '0' then (i + 1, 8)
    else if base == 0 then (i, 10)
    else (i, base)
  }

  function Strtol(s: string, base: nat): (int, nat) {
    var i := SkipBlanks(s, 0);
    var neg := i < |s| && s[i] == '-';
    var j := if i < |s| && (s[i] == '+' || s[i] == '-') then i + 1 else i;
    var (k, b) := Prefix(s, j, base);
    var (val, end) := Scan(s, k, b, 0);
    (if neg then Wrap32(-val) else val, end)
  }

  // strtol as it runs.
  method StrtolLoop(s: string, base0: nat) returns (val: int, end: nat)
    ensures (val, end) == Strtol(s, base0)
  {
    hide DigitValue, Wrap32;
    var base := base0;
    var neg := false;
    end := 0;
    while end < |s| && (s[end] == ' ' || s[end] == '\t')
      invariant 0 <= end <= |s| && SkipBlanks(s, 0) == SkipBlanks(s, end)
    {
      end := end + 1;
    }
    if end < |s| && s[end] == '+' {
      end := end + 1;
    } else if end < |s| && s[end] == '-' {
      end := end + 1;
      neg := true;
    }
    ghost var j := end;
    if (base == 0 || base == 16) && end + 1 < |s| && s[end] == '0' && s[end + 1] == 'x' {
      end := end + 2;
      base := 16;
    } else if base == 0 && end < |s| && s[end] == '0' {
      end := end + 1;
      base := 8;
    } else if base == 0 {
      base := 10;
    }
    assert (end, base) == Prefix(s, j, base0);
    val, end := ScanDigits(s, end, base);
    val := if neg then Wrap32(-val) else val;
  }

  // Its digit loop.
  method ScanDigits(s: string, start: nat, base: nat) returns (val: int, end: nat)
    requires start <= |s|
    ensures (val, end) == Scan(s, start, base, 0)
  {
    hide DigitValue, Wrap32;
    val, end := 0, start;
    while end < |s|
      invariant start <= end <= |s| && Scan(s, end, base, val) == Scan(s, start, base, 0)
    {
      var dig := DigitValue(s[end]);
      if dig >= 36 || dig >= base {
        break;
      }
      val, end := Wrap32(val * base + dig), end + 1;
    }
  }

  // ---------------------------------------------------------------- reading back

  predicate HexDigit(c: char) { '0' <= c <= '9' || 'a' <= c <= 'f' }

  lemma {:induction false} DigitsAreDigits(n: nat, base: nat)
    requires Base(base)
    ensures forall i :: 0 <= i < |Digits(n, base)| ==> HexDigit(Digits(n, base)[i])
  {
    hide Digits;
    Quotient(n, base);
    DigitsStep(n, base);
    DigitBack(n % base);
    if n >= base { DigitsAreDigits(n / base, base); }
  }

  lemma DigitsStep(n: nat, base: nat)
    requires Base(base)
    ensures n % base < base
    ensures Digits(n, base) == (if n >= base then Digits(n / base, base) else "") + [DigitChar(n % base)]
  {
    hide DigitChar;
    Quotient(n, base);
    if n < base { assert "" + [DigitChar(n)] == [DigitChar(n)]; }
  }

  lemma DigitBack(d: nat)
    requires d < 16
    ensures HexDigit(DigitChar(d)) && DigitValue(DigitChar(d)) == d
  {
    assert d in {0, 1, 2, 3, 4, 5, 6, 7, 8, 9, 10, 11, 12, 13, 14, 15};
  }

  lemma WrapShift(x: int, k: int)
    ensures Wrap32(x + k * WORD) == Wrap32(x)
  {
  }

  lemma Distributes(v: int, q: int, b: int)
    ensures (v - q * WORD) * b == v * b - (q * b) * WORD
  {
  }

  // Wrapping at every digit is wrapping once.
  lemma WrapStep(v: int, b: int, d: int)
    ensures Wrap32(Wrap32(v) * b + d) == Wrap32(v * b + d)
  {
    hide Wrap32;
    var q := (v + WORD / 2) / WORD;
    assert Wrap32(v) == v - q * WORD by { WrapIs(v); }
    Distributes(v, q, b);
    WrapShift(v * b + d, -(q * b));
  }

  lemma WrapIs(v: int)
    ensures Wrap32(v) == v - (v + WORD / 2) / WORD * WORD
  {
  }

  lemma {:induction false} ScanReads(s: string, i: nat, n: nat, base: nat)
    requires Base(base) && i + |Digits(n, base)| <= |s| && s[i..i + |Digits(n, base)|] == Digits(n, base)
    ensures Scan(s, i, base, 0) == Scan(s, i + |Digits(n, base)|, base, Wrap32(n))
    decreases n
  {
    hide Digits, DigitValue, DigitChar, Wrap32, Scan;
    Quotient(n, base);
    DigitsStep(n, base);
    DigitBack(n % base);
    var more := if n >= base then Digits(n / base, base) else "";
    var at := i + |more|;
    assert s[at] == DigitChar(n % base);
    ScanStep(s, at, base, if n >= base then Wrap32(n / base) else 0);
    if n >= base {
      assert s[i..at] == s[i..i + |Digits(n, base)|][..|more|] == more;
      ScanReads(s, i, n / base, base);
      WrapStep(n / base, base, n % base);
    } else {
      assert 0 * base == 0;
    }
  }

  lemma ScanStep(s: string, i: nat, base: nat, val: int)
    requires i < |s|
    ensures Scan(s, i, base, val) ==
      if DigitValue(s[i]) < base && DigitValue(s[i]) < 36 then
        Scan(s, i + 1, base, Wrap32(val * base + DigitValue(s[i])))
      else (val, i)
  {
    hide DigitValue, Wrap32;
  }

  lemma {:induction false} ScanZeros(s: string, i: nat, j: nat, base: nat)
    requires i <= j <= |s| && base > 0 && forall k :: i <= k < j ==> s[k] == '0'
    ensures Scan(s, i, base, 0) == Scan(s, j, base, 0)
    decreases j - i
  {
    if i < j {
      assert Wrap32(0 * base + 0) == 0;
      ScanStep(s, i, base, 0);
      ScanZeros(s, i + 1, j, base);
    }
  }

  lemma Parts(a: string, b: string, c: string)
    ensures forall k :: |a| <= k < |a| + |b| ==> (a + b + c)[k] == b[k - |a|]
    ensures (a + b + c)[|a| + |b|..|a| + |b| + |c|] == c
  {
  }

  // After anything, zeros and the digits of n are read as n, on 32 bits, to the end.
  lemma ScanNumber(before: string, zeros: nat, n: nat, base: nat)
    requires Base(base)
    ensures var s := before + Fill('0', zeros) + Digits(n, base);
      Scan(s, |before|, base, 0) == (Wrap32(n), |s|)
  {
    hide Digits, Scan, Wrap32, Fill;
    var s, at := before + Fill('0', zeros) + Digits(n, base), |before| + zeros;
    Parts(before, Fill('0', zeros), Digits(n, base));
    forall k | |before| <= k < at ensures s[k] == '0' {
      assert s[k] == Fill('0', zeros)[k - |before|];
    }
    ScanZeros(s, |before|, at, base);
    ScanReads(s, at, n, base);
    ScanEnd(s, base, Wrap32(n));
  }

  lemma ScanEnd(s: string, base: nat, val: int)
    ensures Scan(s, |s|, base, val) == (val, |s|)
  {
  }

  lemma {:induction false} SkipTo(s: string, i: nat, j: nat)
    requires i <= j <= |s| && forall k :: i <= k < j ==> s[k] == ' ' || s[k] == '\t'
    requires j < |s| ==> s[j] != ' ' && s[j] != '\t'
    ensures SkipBlanks(s, i) == j
    decreases j - i
  {
    if i < j { SkipTo(s, i + 1, j); }
  }

  // A number printed in any base from 2 to 16, to any width, padded with blanks or zeros, is read
  // back in that base, on 32 bits, and wholly. So it comes back as itself exactly below 2^31.
  lemma RoundTrip(n: nat, base: nat, width: int, padc: char)
    requires Base(base) && (padc == ' ' || padc == '0')
    ensures Strtol(Printed(n, base, width, padc), base) == (Wrap32(n), |Printed(n, base, width, padc)|)
    ensures Wrap32(n) == n <==> n < 0x8000_0000
  {
    hide Digits, Scan, SkipBlanks, Fill;
    var s, digits := Printed(n, base, width, padc), Digits(n, base);
    var pad := Fill(padc, width - |digits|);
    DigitsAreDigits(n, base);
    var i := if padc == ' ' then |pad| else 0;
    SkipTo(s, 0, i);
    assert forall k :: i <= k < |s| ==> HexDigit(s[k]);
    if padc == ' ' {
      assert s == pad + Fill('0', 0) + digits;
      ScanNumber(pad, 0, n, base);
    } else {
      assert s == "" + Fill('0', |pad|) + digits by { SameFill('0', width - |digits|); }
      ScanNumber("", |pad|, n, base);
    }
  }

  lemma SameFill(c: char, n: int)
    ensures Fill(c, n) == Fill(c, |Fill(c, n)|)
  {
  }

  // After a sign or a prefix, padding must be zeros: blanks there end the number before it begins.
  lemma AfterPrefix(before: string, n: nat, base: nat, width: int, padc: char)
    requires Base(base) && (padc == ' ' || padc == '0')
    ensures Scan(before + Printed(n, base, width, padc), |before|, base, 0) ==
      if padc == '0' || width <= |Digits(n, base)| then (Wrap32(n), |before + Printed(n, base, width, padc)|)
      else (0, |before|)
  {
    hide Digits, Scan, Fill, Wrap32;
    var digits := Digits(n, base);
    var pad := Fill(padc, width - |digits|);
    var s := before + Printed(n, base, width, padc);
    if padc == '0' || width <= |digits| {
      assert pad == Fill('0', |pad|) by { if padc == '0' { SameFill('0', width - |digits|); } }
      assert s == before + Fill('0', |pad|) + digits;
      ScanNumber(before, |pad|, n, base);
    } else {
      assert s[|before|] == pad[0] == ' ';
      ScanStep(s, |before|, base, 0);
    }
  }

  // %d of a negative number reads back exactly when it is not padded, or padded with zeros;
  // padded with blanks it reads as 0, up to the sign.
  lemma SignedRoundTrip(n: int, width: int, padc: char)
    requires -0x8000_0000 <= n < 0 && (padc == ' ' || padc == '0')
    ensures var s := FormatD(n, width, padc);
      Strtol(s, 10) == if padc == '0' || width <= |Digits(-n, 10)| then (n, |s|) else (0, 1)
  {
    hide Digits, Scan, SkipBlanks;
    var s := FormatD(n, width, padc);
    AfterPrefix("-", -n, 10, width, padc);
    SkipTo(s, 0, 0);
    WrapNegative(-n);
  }

  lemma WrapNegative(m: int)
    requires 0 <= m <= 0x8000_0000
    ensures Wrap32(-Wrap32(m)) == -m && Wrap32(-0) == 0
  {
  }

  // %p reads back in base 16, and in base 0, under the same condition.
  lemma PointerRoundTrip(n: nat, width: int, padc: char, base: nat)
    requires (padc == ' ' || padc == '0') && (base == 0 || base == 16)
    ensures var s := FormatP(n, width, padc);
      Strtol(s, base) == if padc == '0' || width <= |Digits(n, 16)| then (Wrap32(n), |s|) else (0, 2)
  {
    hide Digits, Scan, SkipBlanks, Wrap32;
    var s := FormatP(n, width, padc);
    AfterPrefix("0x", n, 16, width, padc);
    SkipTo(s, 0, 0);
    assert HexPrefix(s, 0);
  }

  // The flag '-' does not pad numbers on the right: it pads on the left with minus signs. One of
  // them makes the number read back negated, more make it 0.
  lemma MinusFlag(n: int, base: nat, width: int)
    requires Base(base) && 0 <= n < 0x8000_0000 && width > |Digits(n, base)|
    ensures Strtol(Printed(n, base, width, '-'), base) == if width == |Digits(n, base)| + 1 then (-n, width) else (0, 1)
  {
    hide Digits, Scan, SkipBlanks, Fill;
    var s, digits := Printed(n, base, width, '-'), Digits(n, base);
    DigitsAreDigits(n, base);
    SkipTo(s, 0, 0);
    assert s[0] == '-';
    if width == |digits| + 1 {
      assert s == "-" + Fill('0', 0) + digits;
      ScanNumber("-", 0, n, base);
      WrapNegative(n);
    } else {
      assert s[1] == '-';
      ScanStep(s, 1, base, 0);
    }
  }

  // ---------------------------------------------------------------- what strtol accepts

  const SMALL := "abcdefghijklmnopqrstuvwxyz"
  const LARGE := "ABCDEFGHIJKLMNOPQRSTUVWXYZ"

  // c is the digit d, in either case.
  predicate IsDigit(c: char, d: nat) {
    if d < 10 then c == "0123456789"[d] else d < 36 && (c == SMALL[d - 10] || c == LARGE[d - 10])
  }

  predicate IsSomeDigit(c: char, base: nat) { exists d :: 0 <= d < base && IsDigit(c, d) }

  // text is a numeral of value n in this base.
  ghost predicate Numeral(text: string, base: nat, n: nat) {
    if text == "" then n == 0
    else exists m: nat, d :: 0 <= d < base && Appended(text, base, n, m, d) && Numeral(text[..|text| - 1], base, m)
  }

  predicate Appended(text: string, base: nat, n: nat, m: nat, d: nat) {
    text != "" && IsDigit(text[|text| - 1], d) && n == m * base + d
  }

  lemma SmallLetter(k: nat)
    requires k < 26
    ensures |SMALL| == 26 && SMALL[k] as nat == 'a' as nat + k
  {
    assert k in {0, 1, 2, 3, 4, 5, 6, 7, 8, 9, 10, 11, 12, 13, 14, 15, 16, 17, 18, 19, 20, 21, 22, 23, 24, 25};
  }

  lemma LargeLetter(k: nat)
    requires k < 26
    ensures |LARGE| == 26 && LARGE[k] as nat == 'A' as nat + k
  {
    assert k in {0, 1, 2, 3, 4, 5, 6, 7, 8, 9, 10, 11, 12, 13, 14, 15, 16, 17, 18, 19, 20, 21, 22, 23, 24, 25};
  }

  lemma Decimal(d: nat)
    requires d < 10
    ensures "0123456789"[d] as nat == '0' as nat + d
  {
    assert d in {0, 1, 2, 3, 4, 5, 6, 7, 8, 9};
  }

  lemma DigitValueIs(c: char, d: nat)
    requires d < 36
    ensures DigitValue(c) == d <==> IsDigit(c, d)
  {
    hide SMALL, LARGE;
    if d < 10 {
      Decimal(d);
    } else {
      SmallLetter(d - 10);
      LargeLetter(d - 10);
    }
  }

  lemma DigitOrNot(c: char, base: nat)
    ensures DigitValue(c) < base && DigitValue(c) < 36 <==> IsSomeDigit(c, base)
  {
    hide DigitValue, SMALL, LARGE;
    if DigitValue(c) < 36 { DigitValueIs(c, DigitValue(c)); }
    forall d: nat ensures IsDigit(c, d) ==> DigitValue(c) == d {
      if d < 36 { DigitValueIs(c, d); }
    }
  }

  // Scanning a numeral, and stopping where it ends.
  lemma {:induction false} ScanNumeral(s: string, i: nat, j: nat, base: nat, n: nat)
    requires i <= j <= |s| && Numeral(s[i..j], base, n)
    ensures Scan(s, i, base, 0) == Scan(s, j, base, Wrap32(n))
    decreases j - i
  {
    hide Scan, DigitValue, IsDigit, Wrap32;
    var text := s[i..j];
    if i == j {
      WrapZero();
      return;
    }
    var m: nat, d :| 0 <= d < base && Appended(text, base, n, m, d) && Numeral(text[..|text| - 1], base, m);
    assert text[..|text| - 1] == s[i..j - 1] && text[|text| - 1] == s[j - 1];
    ScanNumeral(s, i, j - 1, base, m);
    ScanStep(s, j - 1, base, Wrap32(m));
    assert d < 36 by { DigitBound(s[j - 1], d); }
    DigitValueIs(s[j - 1], d);
    WrapStep(m, base, d);
  }

  lemma DigitBound(c: char, d: nat)
    requires IsDigit(c, d)
    ensures d < 36
  {
  }

  lemma WrapZero()
    ensures Wrap32(0) == 0
  {
  }

  predicate BlankText(t: string) { forall i :: 0 <= i < |t| ==> t[i] == ' ' || t[i] == '\t' }

  // The base that strtol reads in after the sign, for what is written in front of the digits.
  predicate ReadIn(base0: nat, prefix: string, next: string, base: nat) {
    || (prefix == "0x" && (base0 == 0 || base0 == 16) && base == 16)
    || (prefix == "0" && base0 == 0 && !("x" <= next) && base == 8)
    || (prefix == "" && base0 == 0 && !("0" <= next) && base == 10)
    || (prefix == "" && base0 != 0 && !(base0 == 16 && "0x" <= next) && base == base0)
  }

  // Blanks and tabs, at most one sign, the prefix of the base, a numeral: its value, negated after
  // a minus sign, on 32 bits, and where the numeral ends. Without a prefix base 0 means 10.
  lemma StrtolReads(blanks: string, sign: string, prefix: string, digits: string, rest: string,
      base0: nat, base: nat, n: nat)
    requires BlankText(blanks) && sign in {"", "+", "-"}
    requires sign == "" && prefix + digits + rest != "" ==> (prefix + digits + rest)[0] !in " \t+-"
    requires ReadIn(base0, prefix, digits + rest, base) && Numeral(digits, base, n)
    requires rest != "" ==> !IsSomeDigit(rest[0], base)
    ensures var (val, end) := Strtol(blanks + sign + prefix + digits + rest, base0);
      val == Wrap32(if sign == "-" then 0 - n else n) && end == |blanks + sign + prefix + digits|
  {
    hide Scan, DigitValue, SkipBlanks, Wrap32, Numeral, Prefix, IsSomeDigit, IsDigit, ReadIn, BlankText;
    var s := blanks + sign + prefix + digits + rest;
    var i, j, k := |blanks|, |blanks + sign|, |blanks + sign + prefix|;
    var end := k + |digits|;
    Pieces(blanks, sign, prefix, digits, rest);
    SkipText(s, i);
    PrefixIs(s, j, prefix, digits + rest, base0, base);
    ScanNumeral(s, k, end, base, n);
    if rest == "" {
      ScanEnd(s, base, Wrap32(n));
    } else {
      assert s[end] == rest[0];
      DigitOrNot(s[end], base);
      ScanStep(s, end, base, Wrap32(n));
    }
    WrapStep(n, -1, 0);
  }

  lemma Pieces(a: string, b: string, c: string, d: string, e: string)
    ensures var s := a + b + c + d + e;
      && s[..|a|] == a && s[|a|..] == b + (c + d + e) && s[|a + b|..] == c + (d + e)
      && s[|a + b + c|..|a + b + c + d|] == d && s[|a + b + c + d|..] == e
  {
  }

  lemma SkipText(s: string, i: nat)
    requires i <= |s| && BlankText(s[..i]) && (s[i..] != "" ==> s[i..][0] != ' ' && s[i..][0] != '\t')
    ensures SkipBlanks(s, 0) == i
  {
    hide SkipBlanks;
    assert forall k :: 0 <= k < i ==> s[..i][k] == s[k];
    SkipTo(s, 0, i);
  }

  lemma PrefixIs(s: string, j: nat, prefix: string, next: string, base0: nat, base: nat)
    requires j <= |s| && s[j..] == prefix + next && ReadIn(base0, prefix, next, base)
    ensures Prefix(s, j, base0) == (j + |prefix|, base)
  {
    assert forall k :: j <= k < |s| ==> s[k] == (prefix + next)[k - j];
  }
}
