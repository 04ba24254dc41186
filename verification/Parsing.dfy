// strtol, and that it reads back what PrintNum has written.
module Parsing {
  import opened Words
  import opened Numbers

  const NUL := '\0'

  // The first place from i on that is not a blank.
  function Blanks(s: string, i: nat): (j: nat)
    requires i <= |s|
    ensures i <= j <= |s| && forall k :: i <= k < j ==> s[k] == ' ' || s[k] == '\t'
    ensures j < |s| ==> s[j] != ' ' && s[j] != '\t'
    decreases |s| - i
  {
    if i < |s| && (s[i] == ' ' || s[i] == '\t') then Blanks(s, i + 1) else i
  }

  predicate IsDigit(c: char, base: int) {
    0 <= DigitOf(c) < base
  }

  // The first place from i on that is not a digit of the base.
  function DigitsEnd(s: string, i: nat, base: int): (j: nat)
    requires i <= |s|
    ensures i <= j <= |s| && forall k :: i <= k < j ==> IsDigit(s[k], base)
    ensures j < |s| ==> !IsDigit(s[j], base)
    decreases |s| - i
  {
    if i < |s| && IsDigit(s[i], base) then DigitsEnd(s, i + 1, base) else i
  }

  // The number that digits stand for.
  function Value(s: string, base: int): int {
    if s == [] then 0 else Value(s[..|s| - 1], base) * base + DigitOf(s[|s| - 1])
  }

  // Where the digits start and which base they have: after a sign, and after the prefix that some
  // bases allow.
  function AfterSign(s: string, i: nat): (j: nat)
    requires i < |s|
    ensures i <= j <= |s|
  {
    if s[i] == '+' || s[i] == '-' then i + 1 else i
  }

  function Prefix(s: string, i: nat, base: int): (r: (nat, int))
    requires i <= |s|
    ensures i <= r.0 <= |s|
  {
    if (base == 0 || base == 16) && i + 1 < |s| && s[i] == '0' && s[i + 1] == 'x' then (i + 2, 16)
    else if base == 0 && i < |s| && s[i] == '0' then (i + 1, 8)
    else if base == 0 then (i, 10)
    else (i, base)
  }

  // What strtol makes of s: the value, and where it stops.
  function Parsed(s: string, base: int): (r: (int, nat))
    requires NUL in s
  {
    var b := Blanks(s, 0);
    TerminatorStops(s, b);
    var p := Prefix(s, AfterSign(s, b), base);
    var end := DigitsEnd(s, p.0, p.1);
    var val := Value(s[p.0..end], p.1);
    (Int32(if s[b] == '-' then -val else val), end)
  }

  lemma TerminatorStops(s: string, b: nat)
    requires NUL in s && b == Blanks(s, 0)
    ensures b < |s|
  {
    var k :| 0 <= k < |s| && s[k] == NUL;
  }

  // Arithmetic modulo 2^32 does not lose anything that the result shows.
  lemma WrapStep(val: int, exact: int, base: int, d: int)
    requires val == Int32(exact)
    ensures Int32(val * base + d) == Int32(exact * base + d)
  {
    var q := (exact + 0x8000_0000) / 0x1_0000_0000;
    assert exact == val + 0x1_0000_0000 * q;
    assert exact * base == val * base + 0x1_0000_0000 * (q * base);
    SameBits(val * base + d, exact * base + d, q * base);
  }

  lemma SameBits(x: int, y: int, q: int)
    requires y == x + 0x1_0000_0000 * q
    ensures Int32(x) == Int32(y)
  {
  }

  lemma NegatedBits(x: int)
    ensures Int32(-Int32(x)) == Int32(-x)
  {
    var q := (x + 0x8000_0000) / 0x1_0000_0000;
    assert x == Int32(x) + 0x1_0000_0000 * q;
    SameBits(-x, -Int32(x), q);
  }

  // strtol on a terminated string; end is where it stops.
  method Strtol(s: string, base0: int) returns (val: int, end: nat)
    requires NUL in s
    ensures (val, end) == Parsed(s, base0)
  {
    hide Blanks, DigitsEnd, Value, Prefix, AfterSign, Int32;
    ghost var nul :| 0 <= nul < |s| && s[nul] == NUL;
    var i := SkipBlanks(s, nul);
    var neg := s[i] == '-';
    var base;
    i, base := SkipPrefix(s, i, base0, nul);
    val, end := Accumulate(s, i, base, nul);
    NegatedBits(Value(s[i..end], base));
    val := Int32(if neg then -val else val);
  }

  // White space at the start.
  method SkipBlanks(s: string, ghost nul: nat) returns (i: nat)
    requires nul < |s| && s[nul] == NUL
    ensures i == Blanks(s, 0) <= nul
  {
    i := 0;
    while s[i] == ' ' || s[i] == '\t'
      invariant 0 <= i <= nul && Blanks(s, i) == Blanks(s, 0)
      decreases nul - i
    {
      i := i + 1;
    }
  }

  // Sign and base prefix.
  method SkipPrefix(s: string, start: nat, base0: int, ghost nul: nat) returns (i: nat, base: int)
    requires start <= nul < |s| && s[nul] == NUL
    ensures (i, base) == Prefix(s, AfterSign(s, start), base0) && i <= nul
  {
    i, base := start, base0;
    if s[i] == '+' {
      i := i + 1;
    } else if s[i] == '-' {
      i := i + 1;
    }
    if (base == 0 || base == 16) && s[i] == '0' && s[i + 1] == 'x' {
      i := i + 2;
      base := 16;
    } else if base == 0 && s[i] == '0' {
      i := i + 1;
      base := 8;
    } else if base == 0 {
      base := 10;
    }
  }

  // The digit loop of strtol.
  method Accumulate(s: string, start: nat, base: int, ghost nul: nat) returns (val: int, end: nat)
    requires start <= nul < |s| && s[nul] == NUL
    ensures end == DigitsEnd(s, start, base) && val == Int32(Value(s[start..end], base))
  {
    val := 0;
    end := start;
    while true
      invariant start <= end <= nul && DigitsEnd(s, end, base) == DigitsEnd(s, start, base)
      invariant val == Int32(Value(s[start..end], base))
      decreases nul - end
    {
      var dig;
      if '0' <= s[end] <= '9' {
        dig := s[end] as int - '0' as int;
      } else if 'a' <= s[end] <= 'z' {
        dig := s[end] as int - 'a' as int + 10;
      } else if 'A' <= s[end] <= 'Z' {
        dig := s[end] as int - 'A' as int + 10;
      } else {
        return;
      }
      if dig >= base {
        return;
      }
      WrapStep(val, Value(s[start..end], base), base, dig);
      OneMoreDigit(s, start, end, base);
      end := end + 1;
      val := Int32(val * base + dig);
    }
  }

  lemma OneMoreDigit(s: string, start: nat, end: nat, base: int)
    requires start <= end < |s|
    ensures Value(s[start..end + 1], base) == Value(s[start..end], base) * base + DigitOf(s[end])
  {
    assert s[start..end + 1][..end - start] == s[start..end];
  }

  // ----- reading back

  // The digits of u stand for u.
  lemma {:induction false} DigitsHaveValue(u: nat, base: nat, upcase: bool)
    requires 2 <= base <= 16
    ensures Value(Digits(u, base, upcase), base) == u
    ensures forall k :: 0 <= k < |Digits(u, base, upcase)| ==> IsDigit(Digits(u, base, upcase)[k], base)
    decreases u
  {
    hide DigitChar, DigitOf, Digits;
    var d, s := u % base, Digits(u, base, upcase);
    Smaller(u, base);
    DigitIsRead(d, upcase);
    LastDigit(u, base, upcase);
    if u / base == 0 {
      assert s == [DigitChar(d, upcase)];
    } else {
      DigitsHaveValue(u / base, base, upcase);
      assert s[..|s| - 1] == Digits(u / base, base, upcase);
    }
  }

  // The letters among the digits that PrintNum writes are all capitals, or all small, and a number does not
  // start with a zero unless it is one.
  lemma {:induction false} WrittenInCase(u: nat, base: nat, upcase: bool)
    requires 2 <= base <= 16
    ensures var s := Digits(u, base, upcase);
      && (forall k :: 0 <= k < |s| ==>
            0 <= DigitOf(s[k]) < base && s[k] == (if upcase then "0123456789ABCDEF" else "0123456789abcdef")[DigitOf(s[k])])
      && (u > 0 ==> s[0] != '0') && (u == 0 ==> s == "0")
    decreases u
  {
    hide Digits, DigitChar, DigitOf;
    var d, s := u % base, Digits(u, base, upcase);
    Smaller(u, base);
    LastDigit(u, base, upcase);
    DigitInCase(d, upcase);
    assert u / base == 0 ==> u == d by {
      assert u == base * (u / base) + d;
    }
    if u / base != 0 {
      WrittenInCase(u / base, base, upcase);
    }
  }

  lemma DigitInCase(d: nat, upcase: bool)
    requires d < 16
    ensures var c := DigitChar(d, upcase);
      && DigitOf(c) == d && c == (if upcase then "0123456789ABCDEF" else "0123456789abcdef")[d]
      && (c == '0' <==> d == 0)
  {
  }

  lemma LastDigit(u: nat, base: nat, upcase: bool)
    requires 2 <= base <= 16 && 0 <= u % base < 16 && u / base >= 0
    ensures Digits(u, base, upcase) ==
      (if u / base == 0 then [] else Digits(u / base, base, upcase)) + [DigitChar(u % base, upcase)]
  {
    hide DigitChar, LowFirst;
    UnfoldLowFirst(u, base, upcase);
    if u / base != 0 {
      ReverseConcat([DigitChar(u % base, upcase)], LowFirst(u / base, base, upcase));
    }
  }

  lemma {:induction false} ZerosInFront(n: int, s: string, base: int)
    ensures Value(Repeat('0', n) + s, base) == Value(s, base)
    decreases |s|, n
  {
    var z := Repeat('0', n);
    if s != [] {
      ZerosInFront(n, s[..|s| - 1], base);
      assert (z + s)[..|z + s| - 1] == z + s[..|s| - 1];
    } else if n > 0 {
      ZerosInFront(n - 1, [], base);
      assert z + s == z && z[..n - 1] == Repeat('0', n - 1) + [];
    }
  }

  lemma {:induction false} BlanksAre(s: string, i: nat, k: nat)
    requires i <= k < |s| && s[k] != ' ' && s[k] != '\t' && forall j :: i <= j < k ==> s[j] == ' '
    ensures Blanks(s, i) == k
    decreases k - i
  {
    if i < k {
      BlanksAre(s, i + 1, k);
    }
  }

  lemma {:induction false} DigitsAre(s: string, i: nat, k: nat, base: int)
    requires i <= k < |s| && !IsDigit(s[k], base) && forall j :: i <= j < k ==> IsDigit(s[j], base)
    ensures DigitsEnd(s, i, base) == k
    decreases k - i
  {
    if i < k {
      DigitsAre(s, i + 1, k, base);
    }
  }

  // Text of the form that PrintNum makes: blanks, sign, zeros, digits, and something that is no digit.
  function Laid(blanks: nat, neg: bool, zeros: nat, digits: string, tail: string): string {
    Repeat(' ', blanks) + Signed(neg, Repeat('0', zeros) + digits) + tail
  }

  lemma PartsOfLaid(blanks: nat, neg: bool, zeros: nat, digits: string, tail: string)
    requires digits != [] && tail != []
    ensures var s, number := Laid(blanks, neg, zeros, digits, tail), Repeat('0', zeros) + digits;
      var p := blanks + if neg then 1 else 0;
      && |s| == p + |number| + |tail| && s[p..p + |number|] == number && s[p + |number|..] == tail
      && (forall k :: 0 <= k < blanks ==> s[k] == ' ') && s[blanks] == if neg then '-' else number[0]
  {
  }

  lemma NumberIsDigits(zeros: nat, digits: string, base: int)
    requires 2 <= base <= 16 && digits != [] && forall k :: 0 <= k < |digits| ==> IsDigit(digits[k], base)
    ensures var number := Repeat('0', zeros) + digits; forall k :: 0 <= k < |number| ==> IsDigit(number[k], base)
  {
  }

  lemma DigitIsPlain(c: char, base: int)
    requires base <= 16 && IsDigit(c, base)
    ensures c != ' ' && c != '\t' && c != '+' && c != '-' && c != 'x'
  {
  }

  lemma LaidIsRead(blanks: nat, neg: bool, zeros: nat, digits: string, tail: string, base: int)
    requires 2 <= base <= 16 && digits != [] && forall k :: 0 <= k < |digits| ==> IsDigit(digits[k], base)
    requires NUL in tail && (tail[0] == ' ' || tail[0] == NUL)
    ensures NUL in Laid(blanks, neg, zeros, digits, tail)
    ensures Parsed(Laid(blanks, neg, zeros, digits, tail), base) ==
      (Int32(if neg then -Value(digits, base) else Value(digits, base)), |Laid(blanks, neg, zeros, digits, tail)| - |tail|)
  {
    hide Laid, Parsed, Value, Int32, IsDigit, Repeat;
    PartsOfLaid(blanks, neg, zeros, digits, tail);
    NumberIsDigits(zeros, digits, base);
    ZerosInFront(zeros, digits, base);
    var s, number := Laid(blanks, neg, zeros, digits, tail), Repeat('0', zeros) + digits;
    var p := blanks + if neg then 1 else 0;
    var end := p + |number|;
    assert s[end] == s[end..][0];
    forall k | p <= k < end
      ensures IsDigit(s[k], base) && s[k] == number[k - p]
    {
      assert s[k] == s[p..end][k - p];
    }
    var nul :| 0 <= nul < |tail| && tail[nul] == NUL;
    assert s[end..][nul] == s[end + nul];
    NumberIsRead(s, base, blanks, p, end, neg);
  }

  // A text with all that strtol knows of in front of the digits.
  function Spelled(blanks: nat, sign: string, prefix: string, digits: string, tail: string): string {
    Repeat(' ', blanks) + sign + prefix + digits + tail
  }

  lemma PartsOfSpelled(blanks: nat, sign: string, prefix: string, digits: string, tail: string)
    requires |sign| <= 1 && |prefix| <= 2 && digits != [] && tail != []
    ensures var s, q := Spelled(blanks, sign, prefix, digits, tail), blanks + |sign|;
      var p := q + |prefix|;
      && |s| == p + |digits| + |tail| && s[p..p + |digits|] == digits
      && (forall k :: 0 <= k < blanks ==> s[k] == ' ')
      && s[blanks] == (if sign != [] then sign[0] else if prefix != [] then prefix[0] else digits[0])
      && s[q] == (if prefix != [] then prefix[0] else digits[0])
      && s[q + 1] == (if |prefix| == 2 then prefix[1] else if |prefix| == 1 then digits[0]
                      else if |digits| > 1 then digits[1] else tail[0])
      && s[p + |digits|] == tail[0] && s[p + |digits|..] == tail
  {
  }

  // Digits after a sign and the prefix for their base, if it has one: base 0 takes the base from the
  // prefix, "0x" for 16 and "0" for 8, and is 10 without one; base 16 allows "0x"; '+' changes nothing.
  lemma SpelledIsRead(base: int, blanks: nat, sign: string, prefix: string, digits: string, tail: string, actual: int)
    requires sign in {"", "+", "-"} && 2 <= actual <= 16
    requires (prefix == "0x" && actual == 16 && (base == 0 || base == 16))
      || (prefix == "0" && actual == 8 && base == 0)
      || (prefix == "" && actual == 10 && base == 0 && digits != [] && digits[0] != '0')
      || (prefix == "" && actual == base)
    requires digits != [] && forall k :: 0 <= k < |digits| ==> IsDigit(digits[k], actual)
    requires NUL in tail && (tail[0] == ' ' || tail[0] == NUL)
    ensures var s := Spelled(blanks, sign, prefix, digits, tail);
      && NUL in s
      && Parsed(s, base) ==
           (Int32(if sign == "-" then -Value(digits, actual) else Value(digits, actual)), |s| - |tail|)
  {
    hide Spelled, Blanks, DigitsEnd, Value, Int32, IsDigit, Repeat, Parsed, Prefix, AfterSign;
    PartsOfSpelled(blanks, sign, prefix, digits, tail);
    var s, q := Spelled(blanks, sign, prefix, digits, tail), blanks + |sign|;
    var p := q + |prefix|;
    var end := p + |digits|;
    DigitIsPlain(digits[0], actual);
    if |digits| > 1 {
      DigitIsPlain(digits[1], actual);
    }
    NoDigit(s[end], actual);
    var nul :| 0 <= nul < |tail| && tail[nul] == NUL;
    assert s[end..][nul] == s[end + nul];
    PrefixIs(s, blanks, sign, prefix, base, actual);
    forall k | p <= k < end
      ensures IsDigit(s[k], actual)
    {
      assert s[k] == s[p..end][k - p];
    }
    PartsAreRead(s, base, blanks, q, p, end, actual);
  }

  // What comes before the digits, from the characters that decide it.
  lemma PrefixIs(s: string, b: nat, sign: string, prefix: string, base: int, actual: int)
    requires sign in {"", "+", "-"} && |prefix| <= 2 && b + |sign| + 1 < |s|
    requires if sign == "" then s[b] != '+' && s[b] != '-' else s[b] == sign[0]
    requires var q := b + |sign|;
      || (prefix == "0x" && actual == 16 && (base == 0 || base == 16) && s[q] == '0' && s[q + 1] == 'x')
      || (prefix == "0" && actual == 8 && base == 0 && s[q] == '0' && s[q + 1] != 'x')
      || (prefix == "" && actual == 10 && base == 0 && s[q] != '0')
      || (prefix == "" && actual == base && base != 0 && s[q + 1] != 'x')
    ensures AfterSign(s, b) == b + |sign| && Prefix(s, b + |sign|, base) == (b + |sign| + |prefix|, actual)
  {
  }

  lemma PartsAreRead(s: string, base: int, b: nat, q: nat, p: nat, end: nat, actual: int)
    requires NUL in s && b < |s| && s[b] != ' ' && s[b] != '\t' && forall k :: 0 <= k < b ==> s[k] == ' '
    requires AfterSign(s, b) == q && Prefix(s, q, base) == (p, actual)
    requires p <= end < |s| && !IsDigit(s[end], actual) && forall k :: p <= k < end ==> IsDigit(s[k], actual)
    ensures Parsed(s, base) == (Int32(if s[b] == '-' then -Value(s[p..end], actual) else Value(s[p..end], actual)), end)
  {
    hide Blanks, DigitsEnd, Value, Int32, IsDigit, AfterSign, Prefix;
    BlanksAre(s, 0, b);
    DigitsAre(s, p, end, actual);
  }

  // The parts of a text that strtol looks for.
  lemma NumberIsRead(s: string, base: int, blanks: nat, p: nat, end: nat, neg: bool)
    requires NUL in s && 2 <= base <= 16 && p == blanks + (if neg then 1 else 0) && p < end < |s|
    requires forall k :: 0 <= k < blanks ==> s[k] == ' '
    requires neg ==> s[blanks] == '-'
    requires forall k :: p <= k < end ==> IsDigit(s[k], base)
    requires s[end] == ' ' || s[end] == NUL
    ensures Parsed(s, base) == (Int32(if neg then -Value(s[p..end], base) else Value(s[p..end], base)), end)
  {
    hide Blanks, DigitsEnd, Value, Int32, IsDigit;
    forall k | p <= k < end
      ensures s[k] != ' ' && s[k] != '\t' && s[k] != '+' && s[k] != '-' && s[k] != 'x'
    {
      DigitIsPlain(s[k], base);
    }
    BlanksAre(s, 0, blanks);
    NoDigit(s[end], base);
    assert AfterSign(s, blanks) == p && Prefix(s, p, base) == (p, base);
    DigitsAre(s, p, end, base);
  }

  lemma NoDigit(c: char, base: int)
    requires c == ' ' || c == NUL
    ensures !IsDigit(c, base)
  {
  }

  function Signum(neg: bool, u: nat): int {
    if neg then 0 - u else u
  }

  // strtol of what PrintNum has written, up to a terminator, is the signed number printed when that
  // fits an int, and its low 32 bits otherwise; it stops at the end of the number.
  lemma RoundTrip(u: nat, base: nat, neg: bool, length: int, ladjust: bool, padc: char, upcase: bool, rest: string)
    requires 2 <= base <= 16 && (padc == '0' || padc == ' ')
    ensures var text := Text(u, base, neg, length, ladjust, padc, upcase);
      var s := text + [NUL] + rest;
      && NUL in s
      && Parsed(s, base).0 == Int32(Signum(neg, u))
      && Parsed(s, base).1 == if ladjust then |Signed(neg, Digits(u, base, upcase))| else |text|
  {
    hide Digits, Value, Parsed, IsDigit, Int32, Laid, Text, Signed;
    var digits, text := Digits(u, base, upcase), Text(u, base, neg, length, ladjust, padc, upcase);
    var s := text + [NUL] + rest;
    DigitsHaveValue(u, base, upcase);
    var blanks, zeros, tail := TextIsLaid(u, base, neg, length, ladjust, padc, upcase, rest);
    LaidIsRead(blanks, neg, zeros, digits, tail, base);
  }

  lemma TextIsLaid(u: nat, base: nat, neg: bool, length: int, ladjust: bool, padc: char, upcase: bool, rest: string)
    returns (blanks: nat, zeros: nat, tail: string)
    requires 2 <= base <= 16 && (padc == '0' || padc == ' ')
    ensures Text(u, base, neg, length, ladjust, padc, upcase) + [NUL] + rest ==
      Laid(blanks, neg, zeros, Digits(u, base, upcase), tail)
    ensures NUL in tail && (tail[0] == ' ' || tail[0] == NUL)
    ensures |Laid(blanks, neg, zeros, Digits(u, base, upcase), tail)| - |tail| ==
      if ladjust then |Signed(neg, Digits(u, base, upcase))| else |Text(u, base, neg, length, ladjust, padc, upcase)|
  {
    hide Digits, Text, Laid;
    var digits := Digits(u, base, upcase);
    var pad := length - |Signed(neg, digits)|;
    if ladjust {
      blanks, zeros, tail := 0, 0, Repeat(' ', pad) + [NUL] + rest;
      assert tail[|Repeat(' ', pad)|] == NUL;
      LaidLeft(u, base, neg, length, padc, upcase, rest);
    } else if padc == '0' {
      blanks, zeros, tail := 0, |Repeat('0', pad)|, [NUL] + rest;
      LaidZeros(u, base, neg, length, upcase, rest);
    } else {
      blanks, zeros, tail := |Repeat(' ', pad)|, 0, [NUL] + rest;
      LaidRight(u, base, neg, length, upcase, rest);
    }
  }

  lemma LaidLeft(u: nat, base: nat, neg: bool, length: int, padc: char, upcase: bool, rest: string)
    requires 2 <= base <= 16
    ensures var digits := Digits(u, base, upcase);
      var tail := Repeat(' ', length - |Signed(neg, digits)|) + [NUL] + rest;
      && Text(u, base, neg, length, true, padc, upcase) + [NUL] + rest == Laid(0, neg, 0, digits, tail)
      && |Laid(0, neg, 0, digits, tail)| - |tail| == |Signed(neg, digits)|
  {
    hide Digits, Repeat;
    var digits := Digits(u, base, upcase);
    var pad := Repeat(' ', length - |Signed(neg, digits)|);
    assert Repeat('0', 0) + digits == digits && Repeat(' ', 0) == [] by {
      NothingRepeated();
    }
    assert Signed(neg, digits) + pad + [NUL] + rest == [] + Signed(neg, digits) + (pad + [NUL] + rest);
  }

  lemma NothingRepeated()
    ensures Repeat('0', 0) == [] && Repeat(' ', 0) == []
  {
  }

  lemma LaidZeros(u: nat, base: nat, neg: bool, length: int, upcase: bool, rest: string)
    requires 2 <= base <= 16
    ensures var digits := Digits(u, base, upcase);
      var n := |Repeat('0', length - |Signed(neg, digits)|)|;
      && Text(u, base, neg, length, false, '0', upcase) + [NUL] + rest == Laid(0, neg, n, digits, [NUL] + rest)
      && |Laid(0, neg, n, digits, [NUL] + rest)| - |[NUL] + rest| == |Text(u, base, neg, length, false, '0', upcase)|
  {
    hide Digits, Repeat;
    var pad := length - |Signed(neg, Digits(u, base, upcase))|;
    var z := Repeat('0', pad);
    assert Repeat('0', |z|) == z by {
      RepeatAgain('0', pad);
    }
    NothingRepeated();
    Regrouped(Signed(neg, []), z, Digits(u, base, upcase), [NUL], rest);
  }

  lemma Regrouped(a: string, b: string, c: string, d: string, e: string)
    ensures a + b + c + d + e == [] + (a + (b + c)) + (d + e)
  {
  }

  lemma RepeatAgain(c: char, n: int)
    ensures Repeat(c, |Repeat(c, n)|) == Repeat(c, n)
  {
  }

  lemma LaidRight(u: nat, base: nat, neg: bool, length: int, upcase: bool, rest: string)
    requires 2 <= base <= 16
    ensures var digits := Digits(u, base, upcase);
      var n := |Repeat(' ', length - |Signed(neg, digits)|)|;
      && Text(u, base, neg, length, false, ' ', upcase) + [NUL] + rest == Laid(n, neg, 0, digits, [NUL] + rest)
      && |Laid(n, neg, 0, digits, [NUL] + rest)| - |[NUL] + rest| == |Text(u, base, neg, length, false, ' ', upcase)|
  {
    hide Digits, Repeat;
    var digits := Digits(u, base, upcase);
    var pad := length - |Signed(neg, digits)|;
    NothingRepeated();
    RepeatAgain(' ', pad);
    assert Repeat('0', 0) + digits == digits;
    assert Repeat(' ', pad) + Signed(neg, digits) + [NUL] + rest == Repeat(' ', pad) + Signed(neg, digits) + ([NUL] + rest);
  }

  // For every number that fits, what comes back is what was printed.
  lemma RoundTripIsExact(u: nat, base: nat, neg: bool, length: int, ladjust: bool, padc: char, upcase: bool, rest: string)
    requires 2 <= base <= 16 && (padc == '0' || padc == ' ')
    ensures var s := Text(u, base, neg, length, ladjust, padc, upcase) + [NUL] + rest;
      NUL in s && (Parsed(s, base).0 == Signum(neg, u) <==> u < 0x8000_0000 || (neg && u == 0x8000_0000))
  {
    RoundTrip(u, base, neg, length, ladjust, padc, upcase, rest);
  }
}
