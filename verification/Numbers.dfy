// PrintNum and strtol: writing numbers as text, and reading them back.
module Numbers {
  import opened Arith

  // ----- digits

  function DigitChar(d: nat, upcase: bool): char
    requires d < 16
  {
    if d <= 9 then '0' + d as char else if upcase then 'A' + (d - 10) as char else 'a' + (d - 10) as char
  }

  // What a character counts as a digit, -1 for none.
  function DigitOf(c: char): int {
    if '0' <= c <= '9' then c as int - '0' as int
    else if 'a' <= c <= 'z' then c as int - 'a' as int + 10
    else if 'A' <= c <= 'Z' then c as int - 'A' as int + 10
    else -1
  }

  lemma DigitIsRead(d: nat, upcase: bool)
    requires d < 16
    ensures DigitOf(DigitChar(d, upcase)) == d
  {
  }

  // The digits of u, the lowest first.
  function LowFirst(u: nat, base: nat, upcase: bool): (s: string)
    requires 2 <= base <= 16
    ensures s != []
  {
    [DigitChar(u % base, upcase)] + if u / base == 0 then [] else LowFirst(u / base, base, upcase)
  }

  function Reverse(s: string): (r: string)
    ensures |r| == |s| && forall i :: 0 <= i < |s| ==> r[i] == s[|s| - 1 - i]
  {
    seq(|s|, i requires 0 <= i < |s| => s[|s| - 1 - i])
  }

  lemma ReverseConcat(a: string, b: string)
    ensures Reverse(a + b) == Reverse(b) + Reverse(a)
  {
  }

  // The usual notation of u.
  function Digits(u: nat, base: nat, upcase: bool): (s: string)
    requires 2 <= base <= 16
    ensures s != []
  {
    Reverse(LowFirst(u, base, upcase))
  }

  function Repeat(c: char, n: int): (s: string)
    ensures |s| == if n > 0 then n else 0
    ensures forall i :: 0 <= i < |s| ==> s[i] == c
  {
    if n > 0 then seq(n, _ => c) else []
  }

  function Signed(neg: bool, s: string): string {
    if neg then "-" + s else s
  }

  // The text that PrintNum makes: left adjusted with blanks behind, or right adjusted, where zeros
  // go between the sign and the digits.
  function Text(u: nat, base: nat, neg: bool, length: int, ladjust: bool, padc: char, upcase: bool): string
    requires 2 <= base <= 16
  {
    var digits := Digits(u, base, upcase);
    var number := Signed(neg, digits);
    if ladjust then number + Repeat(' ', length - |number|)
    else if neg && padc == '0' then "-" + Repeat('0', length - |number|) + digits
    else Repeat(padc, length - |number|) + number
  }

  // ----- PrintNum

  // Swaps the characters of buf[..n] end for end.
  method ReverseInPlace(buf: array<char>, n: nat)
    requires n <= buf.Length
    modifies buf
    ensures buf[..n] == Reverse(old(buf[..n])) && buf[n..] == old(buf[n..])
  {
    var begin: int, end: int := 0, n - 1;
    while end > begin
      invariant begin + end == n - 1 && 0 <= begin && begin <= end + 2
      invariant forall k :: 0 <= k < begin ==> buf[k] == old(buf[n - 1 - k]) && buf[n - 1 - k] == old(buf[k])
      invariant forall k :: begin <= k <= end ==> buf[k] == old(buf[k])
      invariant forall k :: n <= k < buf.Length ==> buf[k] == old(buf[k])
    {
      var tmp := buf[begin];
      buf[begin] := buf[end];
      buf[end] := tmp;
      begin := begin + 1;
      end := end - 1;
    }
    ghost var a, b := buf[..n], Reverse(old(buf[..n]));
    forall k | 0 <= k < n
      ensures a[k] == b[k]
    {
      if k >= begin && k > end {
        assert buf[n - 1 - (n - 1 - k)] == old(buf[n - 1 - k]);
      }
    }
  }

  method Fill(buf: array<char>, from: nat, to: int, c: char)
    requires from <= buf.Length && to <= buf.Length
    modifies buf
    ensures buf[..from] == old(buf[..from])
    ensures from <= to ==> buf[from..to] == Repeat(c, to - from) && buf[to..] == old(buf[to..])
    ensures to < from ==> buf[..] == old(buf[..])
  {
    var i: int := from;
    while i < to
      invariant from <= i && (i <= to || i == from)
      invariant forall k :: from <= k < i ==> buf[k] == c
      invariant forall k :: 0 <= k < from || i <= k < buf.Length ==> buf[k] == old(buf[k])
    {
      buf[i] := c;
      i := i + 1;
    }
  }

  method PutDigit(buf: array<char>, n: nat, tmp: nat, upcase: bool)
    requires n < buf.Length && tmp < 16
    modifies buf
    ensures buf[..n + 1] == old(buf[..n]) + [DigitChar(tmp, upcase)] && buf[n + 1..] == old(buf[n + 1..])
  {
    if tmp <= 9 {
      buf[n] := '0' + tmp as char;
    } else if upcase {
      buf[n] := 'A' + (tmp - 10) as char;
    } else {
      buf[n] := 'a' + (tmp - 10) as char;
    }
  }

  // Writes the digits of u to buf, the lowest first.
  method PutDigits(buf: array<char>, u0: nat, base: nat, upcase: bool) returns (n: nat)
    requires 2 <= base <= 16 && |LowFirst(u0, base, upcase)| <= buf.Length
    modifies buf
    ensures n == |LowFirst(u0, base, upcase)| && buf[..n] == LowFirst(u0, base, upcase) && buf[n..] == old(buf[n..])
  {
    hide DigitChar, LowFirst;
    ghost var low := LowFirst(u0, base, upcase);
    var u: nat := u0;
    n := 0;
    while true
      invariant n < |low| && low[n..] == LowFirst(u, base, upcase) && buf[..n] == low[..n]
      invariant buf[n..] == old(buf[n..])
      decreases u
    {
      FirstDigit(u, base, upcase);
      PutDigit(buf, n, u % base, upcase);
      n := n + 1;
      assert low[..n] == low[..n - 1] + [low[n - 1]] && low[n - 1] == low[n - 1..][0] && low[n..] == low[n - 1..][1..];
      if u / base == 0 {
        return;
      }
      u := u / base;
    }
  }

  lemma Smaller(u: nat, base: nat)
    requires base >= 2
    ensures u / base >= 0 && (u / base != 0 ==> u / base < u) && 0 <= u % base < base
  {
    var q := u / base;
    assert u == base * q + u % base;
    if q > 0 {
      MulMono(2, base, q);
    }
  }

  lemma FirstDigit(u: nat, base: nat, upcase: bool)
    requires 2 <= base <= 16
    ensures u % base < 16 && LowFirst(u, base, upcase)[0] == DigitChar(u % base, upcase)
    ensures u / base == 0 ==> LowFirst(u, base, upcase)[1..] == []
    ensures u / base != 0 ==> 0 < u / base < u && LowFirst(u, base, upcase)[1..] == LowFirst(u / base, base, upcase)
  {
    hide DigitChar;
    Smaller(u, base);
    UnfoldLowFirst(u, base, upcase);
  }

  lemma UnfoldLowFirst(u: nat, base: nat, upcase: bool)
    requires 2 <= base <= 16 && 0 <= u % base < 16 && u / base >= 0
    ensures LowFirst(u, base, upcase) ==
      [DigitChar(u % base, upcase)] + if u / base == 0 then [] else LowFirst(u / base, base, upcase)
  {
  }

  // The text of a number in the order in which PrintNum first writes it.
  function Backwards(low: string, neg: bool, length: int, ladjust: bool, padc: char): string {
    var number := if neg then low + "-" else low;
    if neg && !ladjust && padc == '0' then low + Repeat('0', length - |number|) + "-"
    else number + Repeat(if ladjust then ' ' else padc, length - |number|)
  }

  // Pads the number in buf[..actual] to the given length.
  method Pad(buf: array<char>, actual: nat, length: nat, neg: bool, ladjust: bool, pad: char, ghost low: string)
    requires actual <= length <= buf.Length && buf[..actual] == (if neg then low + "-" else low)
    modifies buf
    ensures buf[..length] == Backwards(low, neg, length, ladjust, pad) && buf[length..] == old(buf[length..])
    ensures !(neg && !ladjust && pad == '0') ==> buf[..actual] == old(buf[..actual])
  {
    ghost var number := buf[..actual];
    var padc := pad;
    if ladjust {
      padc := ' ';
    }
    if neg && !ladjust && padc == '0' {
      Fill(buf, actual - 1, length - 1, padc);
      ghost var rest := buf[length - 1..];
      buf[length - 1] := '-';
      assert buf[length..] == rest[1..] == old(buf[length - 1..])[1..];
      assert buf[..actual - 1] == low;
      assert buf[..length] == buf[..actual - 1] + buf[actual - 1..length - 1] + buf[length - 1..length];
    } else {
      Fill(buf, actual, length, padc);
      assert buf[..length] == number + buf[actual..length];
    }
  }

  // Writes number and sign, backwards.
  method PutSigned(buf: array<char>, u: nat, base: nat, neg: bool, upcase: bool) returns (actual: nat)
    requires 2 <= base <= 16 && |LowFirst(u, base, upcase)| + (if neg then 1 else 0) <= buf.Length
    modifies buf
    ensures actual == |LowFirst(u, base, upcase)| + if neg then 1 else 0
    ensures buf[..actual] == if neg then LowFirst(u, base, upcase) + "-" else LowFirst(u, base, upcase)
    ensures buf[actual..] == old(buf[actual..])
  {
    hide LowFirst;
    actual := PutDigits(buf, u, base, upcase);
    if neg {
      ghost var was, now := old(buf[actual..]), buf[actual..];
      buf[actual] := '-';
      actual := actual + 1;
      assert buf[..actual] == buf[..actual - 1] + "-";
      assert buf[actual..] == now[1..] && old(buf[actual..]) == was[1..];
    }
  }

  // PrintNum: buf gets the text, which is as long as the result says.
  method PrintNum(buf: array<char>, u: nat, base: nat, neg: bool, width: int, ladjust: bool, padc: char, upcase: bool)
    returns (length: int)
    requires 2 <= base <= 16 && |Text(u, base, neg, width, ladjust, padc, upcase)| <= buf.Length
    modifies buf
    ensures length == |Text(u, base, neg, width, ladjust, padc, upcase)|
    ensures buf[..length] == Text(u, base, neg, width, ladjust, padc, upcase)
    ensures buf[length..] == old(buf[length..])
  {
    hide LowFirst, Text, Backwards, Reverse;
    ghost var low := LowFirst(u, base, upcase);
    TextIsLong(u, base, neg, width, ladjust, padc, upcase);
    var actual := PutSigned(buf, u, base, neg, upcase);
    length := width;
    if length < actual {
      length := actual;
    }
    ghost var was, now := old(buf[actual..]), buf[actual..];
    assert was[length - actual..] == old(buf[length..]) && now[length - actual..] == buf[length..];
    Pad(buf, actual, length, neg, ladjust, padc, low);
    TurnedRound(u, base, neg, width, ladjust, padc, upcase, length);
    Turn(buf, actual, length, ladjust);
  }

  // The last step of PrintNum: reverses the number, or the number with its padding.
  method Turn(buf: array<char>, actual: nat, length: nat, ladjust: bool)
    requires actual <= length <= buf.Length
    modifies buf
    ensures var back := old(buf[..length]);
      buf[..length] == if ladjust then Reverse(back[..actual]) + back[actual..] else Reverse(back)
    ensures buf[length..] == old(buf[length..])
  {
    ghost var back := buf[..];
    if ladjust {
      ReverseInPlace(buf, actual);
      Slices(back, actual, length);
      Slices(buf[..], actual, length);
    } else {
      ReverseInPlace(buf, length);
    }
  }

  lemma Slices(s: string, a: nat, b: nat)
    requires a <= b <= |s|
    ensures s[..b][..a] == s[..a] && s[..b][a..] == s[a..][..b - a] && s[a..][b - a..] == s[b..]
    ensures s[..b] == s[..a] + s[a..][..b - a]
  {
  }

  // Turning the right part of it round gives the text.
  lemma TurnedRound(u: nat, base: nat, neg: bool, width: int, ladjust: bool, padc: char, upcase: bool, length: nat)
    requires 2 <= base <= 16
    requires var n := |LowFirst(u, base, upcase)| + if neg then 1 else 0; length == if width < n then n else width
    ensures var back, text :=
        Backwards(LowFirst(u, base, upcase), neg, length, ladjust, padc), Text(u, base, neg, width, ladjust, padc, upcase);
      var n := |LowFirst(u, base, upcase)| + if neg then 1 else 0;
      |back| == length && text == if ladjust then Reverse(back[..n]) + back[n..] else Reverse(back)
  {
    hide Backwards, Text, LowFirst, Reverse;
    if ladjust {
      TurnedLeft(u, base, neg, width, padc, upcase, length);
    } else if neg && padc == '0' {
      TurnedZeros(u, base, width, upcase, length);
    } else {
      TurnedRight(u, base, neg, width, padc, upcase, length);
    }
  }

  lemma TurnedLeft(u: nat, base: nat, neg: bool, width: int, padc: char, upcase: bool, length: nat)
    requires 2 <= base <= 16
    requires var n := |LowFirst(u, base, upcase)| + if neg then 1 else 0; length == if width < n then n else width
    ensures var back := Backwards(LowFirst(u, base, upcase), neg, length, true, padc);
      var n := |LowFirst(u, base, upcase)| + if neg then 1 else 0;
      |back| == length && Text(u, base, neg, width, true, padc, upcase) == Reverse(back[..n]) + back[n..]
  {
    hide LowFirst, Repeat, Reverse;
    var n := |LowFirst(u, base, upcase)| + if neg then 1 else 0;
    SameLength(width, length, n, ' ');
    LeftTurned(LowFirst(u, base, upcase), neg, length - n);
  }

  lemma TurnedZeros(u: nat, base: nat, width: int, upcase: bool, length: nat)
    requires 2 <= base <= 16
    requires var n := |LowFirst(u, base, upcase)| + 1; length == if width < n then n else width
    ensures var back := Backwards(LowFirst(u, base, upcase), true, length, false, '0');
      |back| == length && Text(u, base, true, width, false, '0', upcase) == Reverse(back)
  {
    hide LowFirst, Repeat, Reverse;
    var n := |LowFirst(u, base, upcase)| + 1;
    SameLength(width, length, n, '0');
    ReverseZeros(LowFirst(u, base, upcase), length - n);
  }

  lemma TurnedRight(u: nat, base: nat, neg: bool, width: int, padc: char, upcase: bool, length: nat)
    requires 2 <= base <= 16 && !(neg && padc == '0')
    requires var n := |LowFirst(u, base, upcase)| + if neg then 1 else 0; length == if width < n then n else width
    ensures var back := Backwards(LowFirst(u, base, upcase), neg, length, false, padc);
      |back| == length && Text(u, base, neg, width, false, padc, upcase) == Reverse(back)
  {
    hide LowFirst, Repeat, Reverse, Text, Backwards, Signed;
    var n := |LowFirst(u, base, upcase)| + if neg then 1 else 0;
    SameLength(width, length, n, padc);
    ReverseNumber(LowFirst(u, base, upcase), neg, padc, length - n);
    RightText(u, base, neg, width, padc, upcase, length);
  }

  lemma RightText(u: nat, base: nat, neg: bool, width: int, padc: char, upcase: bool, length: nat)
    requires 2 <= base <= 16 && !(neg && padc == '0')
    requires var n := |LowFirst(u, base, upcase)| + if neg then 1 else 0; length == if width < n then n else width
    ensures var low := LowFirst(u, base, upcase);
      var n := |low| + if neg then 1 else 0;
      && Text(u, base, neg, width, false, padc, upcase) == Repeat(padc, width - n) + Signed(neg, Reverse(low))
      && Backwards(low, neg, length, false, padc) == (if neg then low + "-" else low) + Repeat(padc, length - n)
      && |Repeat(padc, length - n)| == length - n
  {
    hide LowFirst, Repeat, Reverse;
  }

  lemma LeftTurned(low: string, neg: bool, n: nat)
    ensures var number := if neg then low + "-" else low;
      var back := number + Repeat(' ', n);
      && Reverse(back[..|number|]) == Signed(neg, Reverse(low)) && back[|number|..] == Repeat(' ', n)
  {
    hide Repeat, Reverse;
    var number := if neg then low + "-" else low;
    ReverseNumber(low, neg, ' ', n);
    assert (number + Repeat(' ', n))[..|number|] == number;
  }

  lemma SameLength(width: int, length: nat, n: nat, c: char)
    requires length == if width < n then n else width
    ensures Repeat(c, width - n) == Repeat(c, length - n)
  {
  }

  lemma TextIsLong(u: nat, base: nat, neg: bool, length: int, ladjust: bool, padc: char, upcase: bool)
    requires 2 <= base <= 16
    ensures var n := |LowFirst(u, base, upcase)| + if neg then 1 else 0;
      |Text(u, base, neg, length, ladjust, padc, upcase)| == if length > n then length else n
  {
  }

  lemma ReverseZeros(low: string, n: nat)
    ensures Reverse(low + Repeat('0', n) + "-") == "-" + Repeat('0', n) + Reverse(low)
  {
  }

  lemma ReverseNumber(low: string, neg: bool, padc: char, n: nat)
    ensures var number := if neg then low + "-" else low;
      && Reverse(number) == Signed(neg, Reverse(low))
      && Reverse(number + Repeat(padc, n)) == Repeat(padc, n) + Signed(neg, Reverse(low))
  {
  }
}
