// pattern_matching: matching a file name against a pattern with the wildcards '?' and '*'.
module Pattern {
  import opened Words

  // A C string: the bytes before the terminator.
  type CString = s: seq<byte> | 0 !in s

  const QUESTION: byte := 0x3F   // '?'
  const STAR: byte := 0x2A       // '*'

  // The byte at position i of a string, 0 at its end.
  function At(s: CString, i: nat): (c: byte)
    requires i <= |s|
    ensures c == 0 <==> i == |s|
  {
    if i == |s| then 0 else s[i]
  }

  // ASCII upper case, as get_achar folds characters.
  function Upper(c: byte): (u: byte)
    ensures u == 0 <==> c == 0
  {
    if 0x61 <= c <= 0x7A then c - 0x20 else c
  }

  // The same character, or the two cases of one letter: 'A' to 'Z' are 0x41 to 0x5A, and their small
  // letters come 32 later.
  predicate SameCharacter(a: byte, b: byte) {
    a == b || (0x41 <= a <= 0x5A && b == a + 32) || (0x41 <= b <= 0x5A && a == b + 32)
  }

  // Folding compares characters like that.
  lemma FoldingIsCase(a: byte, b: byte)
    ensures Upper(a) == Upper(b) <==> SameCharacter(a, b)
  {
  }

  // Spelled the same but for the case of letters.
  ghost predicate SameSpelling(s: CString, t: CString) {
    |s| == |t| && forall i :: 0 <= i < |s| ==> SameCharacter(s[i], t[i])
  }

  predicate IsWild(c: byte) {
    c == QUESTION || c == STAR
  }

  // What a pattern means, from position p of the pattern and n of the name on: '?' (0x3F) stands for one
  // character, '*' (0x2A) for none or for one and what '*' stands for, and any other character for itself
  // in either case.
  ghost predicate Matches(pat: CString, p: nat, nam: CString, n: nat)
    requires p <= |pat| && n <= |nam|
    decreases |pat| - p, |nam| - n
  {
    if p == |pat| then n == |nam|
    else if pat[p] == 0x2A then Matches(pat, p + 1, nam, n) || (n < |nam| && Matches(pat, p, nam, n + 1))
    else n < |nam| && (pat[p] == 0x3F || SameCharacter(pat[p], nam[n])) && Matches(pat, p + 1, nam, n + 1)
  }

  // The case of letters matters neither in the pattern nor in the name.
  lemma {:induction false} CaseDoesNotMatter(pat: CString, like: CString, p: nat, nam: CString, alike: CString, n: nat)
    requires SameSpelling(pat, like) && SameSpelling(nam, alike) && p <= |pat| && n <= |nam|
    ensures Matches(pat, p, nam, n) <==> Matches(like, p, alike, n)
    decreases |pat| - p, |nam| - n
  {
    if p < |pat| {
      assert SameCharacter(pat[p], like[p]);
      CaseDoesNotMatter(pat, like, p + 1, nam, alike, n);
      if n < |nam| {
        assert SameCharacter(nam[n], alike[n]);
        CaseDoesNotMatter(pat, like, p, nam, alike, n + 1);
        CaseDoesNotMatter(pat, like, p + 1, nam, alike, n + 1);
      }
    }
  }

  // The letter at place i in its other case.
  function OtherCase(s: CString, i: nat): (t: CString)
    requires i < |s|
    ensures SameSpelling(s, t)
  {
    if 0x41 <= s[i] <= 0x5A then s[i := s[i] + 32] else if 0x61 <= s[i] <= 0x7A then s[i := s[i] - 32] else s
  }

  // Replacing a letter of the pattern, or of the name, by its other case changes no answer.
  lemma OtherCaseMatches(pat: CString, nam: CString, i: nat)
    ensures i < |pat| ==> (Matches(OtherCase(pat, i), 0, nam, 0) <==> Matches(pat, 0, nam, 0))
    ensures i < |nam| ==> (Matches(pat, 0, OtherCase(nam, i), 0) <==> Matches(pat, 0, nam, 0))
  {
    hide OtherCase, Matches;
    if i < |pat| {
      CaseDoesNotMatter(pat, OtherCase(pat, i), 0, nam, nam, 0);
    }
    if i < |nam| {
      CaseDoesNotMatter(pat, pat, 0, nam, OtherCase(nam, i), 0);
    }
  }

  // The pattern matches from position n of the name or a later one.
  ghost predicate MatchesSomewhere(pat: CString, p: nat, nam: CString, n: nat)
    requires p <= |pat|
  {
    exists k :: n <= k <= |nam| && Matches(pat, p, nam, k)
  }

  // '*' stands for any number of characters.
  lemma {:induction false} StarIsAnyNumber(pat: CString, p: nat, nam: CString, n: nat)
    requires p < |pat| && n <= |nam| && pat[p] == STAR
    ensures Matches(pat, p, nam, n) <==> MatchesSomewhere(pat, p + 1, nam, n)
    decreases |nam| - n
  {
    if n < |nam| {
      StarIsAnyNumber(pat, p, nam, n + 1);
      if MatchesSomewhere(pat, p + 1, nam, n) {
        var q := p + 1;
        var k :| n <= k <= |nam| && Matches(pat, q, nam, k);
        assert k == n || MatchesSomewhere(pat, p + 1, nam, n + 1);
      }
    }
  }

  // The same when a block of wildcards comes first: skip of them '?', and a '*' when inf.
  ghost predicate MatchesAfter(pat: CString, p: nat, nam: CString, n: nat, skip: nat, inf: bool)
    requires p <= |pat|
  {
    if inf then MatchesSomewhere(pat, p, nam, n + skip)
    else n + skip <= |nam| && Matches(pat, p, nam, n + skip)
  }

  // The first wildcard of a pattern can be moved to the block before it.
  lemma BlockOfWildcards(pat: CString, p: nat, nam: CString, n: nat, skip: nat, inf: bool)
    requires p < |pat| && IsWild(pat[p])
    ensures MatchesAfter(pat, p, nam, n, skip, inf) <==>
      MatchesAfter(pat, p + 1, nam, n, if pat[p] == QUESTION then skip + 1 else skip, inf || pat[p] == STAR)
  {
    var q := p + 1;
    if pat[p] == QUESTION && inf {
      if k :| n + skip <= k <= |nam| && Matches(pat, p, nam, k) {
        assert Matches(pat, q, nam, k + 1);
      }
      if k :| n + skip + 1 <= k <= |nam| && Matches(pat, q, nam, k) {
        assert Matches(pat, p, nam, k - 1);
      }
    } else if pat[p] == STAR && inf {
      if k :| n + skip <= k <= |nam| && Matches(pat, p, nam, k) {
        StarIsAnyNumber(pat, p, nam, k);
      }
      if k :| n + skip <= k <= |nam| && Matches(pat, q, nam, k) {
        assert Matches(pat, p, nam, k);
      }
    } else if pat[p] == STAR && n + skip <= |nam| {
      StarIsAnyNumber(pat, p, nam, n + skip);
    }
  }

  // A pattern that starts with m characters or '?' needs a name of that length.
  lemma {:induction false} NeedsCharacters(pat: CString, p: nat, nam: CString, n: nat, m: nat)
    requires p + m <= |pat| && n <= |nam| && Matches(pat, p, nam, n)
    requires forall i :: p <= i < p + m ==> pat[i] != STAR
    ensures n + m <= |nam|
    decreases m
  {
    if m > 0 {
      NeedsCharacters(pat, p + 1, nam, n + 1, m - 1);
    }
  }

  // The block of wildcards that starts at pp: how many '?', and whether there is a '*'.
  method WildBlock(pat: CString, pp: nat, ghost nam: CString, ghost n: nat)
    returns (next: nat, nm: nat, nx: bool)
    requires pp < |pat| && IsWild(pat[pp]) && n <= |nam|
    ensures pp < next <= |pat|
    ensures Matches(pat, pp, nam, n) <==> MatchesAfter(pat, next, nam, n, nm, nx)
  {
    next, nm, nx := pp, 0, false;
    while next < |pat| && IsWild(At(pat, next))
      invariant pp <= next <= |pat|
      invariant next == pp ==> nm == 0 && !nx
      invariant Matches(pat, pp, nam, n) <==> MatchesAfter(pat, next, nam, n, nm, nx)
      decreases |pat| - next
    {
      BlockOfWildcards(pat, next, nam, n, nm, nx);
      if At(pat, next) == QUESTION {
        nm := nm + 1;
      } else {
        nx := true;
      }
      next := next + 1;
    }
  }

  // pattern_matching on the pattern from p and the name from n on.
  method PatternMatching(pat: CString, p: nat, nam: CString, n: nat, skip: nat, inf: bool) returns (r: bool)
    requires p <= |pat| && n <= |nam|
    ensures r <==> MatchesAfter(pat, p, nam, n, skip, inf)
    decreases |pat| - p, 1
  {
    var start, left := n, skip;
    while left > 0   // pre-skip name characters
      invariant n <= start <= |nam| && start + left == n + skip
    {
      if Upper(At(nam, start)) == 0 {
        return false;
      }
      start, left := start + 1, left - 1;
    }
    if At(pat, p) == 0 && inf {
      assert Matches(pat, p, nam, |nam|);
      return true;
    }
    while true
      invariant n + skip <= start <= |nam|
      invariant forall k :: n + skip <= k < start ==> !Matches(pat, p, nam, k)
      invariant start > n + skip ==> inf
      decreases |nam| - start
    {
      var more;
      r, more := MatchHere(pat, p, nam, start);
      if r {
        return true;
      }
      if !(inf && more) {
        return false;
      }
      start := start + 1;
    }
  }

  // One attempt, from the given place of the name. When it fails, more says that characters of
  // the name are left; if there are none, no later place can match either.
  method MatchHere(pat: CString, p: nat, nam: CString, n: nat) returns (r: bool, more: bool)
    requires p <= |pat| && n <= |nam|
    ensures r <==> Matches(pat, p, nam, n)
    ensures !r && more ==> n < |nam|
    ensures !r && !more ==> forall k :: n <= k <= |nam| ==> !Matches(pat, p, nam, k)
    decreases |pat| - p, 0
  {
    var pp, np := p, n;
    while true
      invariant p <= pp <= |pat| && n <= np <= |nam| && pp - p == np - n
      invariant Matches(pat, p, nam, n) <==> Matches(pat, pp, nam, np)
      invariant forall i :: p <= i < pp ==> pat[i] != STAR
      decreases |pat| - pp
    {
      if IsWild(At(pat, pp)) {
        var next, nm, nx := WildBlock(pat, pp, nam, np);
        r := PatternMatching(pat, next, nam, np, nm, nx);
        more := At(nam, np) != 0;
        if !r && !more {
          NoLaterMatch(pat, p, nam, n, pp - p);
        }
        return;
      }
      var pc, nc := Upper(At(pat, pp)), Upper(At(nam, np));
      FoldingIsCase(At(pat, pp), At(nam, np));
      if pc != nc {
        if nc == 0 {
          NoLaterMatch(pat, p, nam, n, pp - p);
        }
        return false, nc != 0;
      }
      if pc == 0 {
        return true, false;
      }
      pp, np := pp + 1, np + 1;
    }
  }

  lemma NoLaterMatch(pat: CString, p: nat, nam: CString, n: nat, m: nat)
    requires p + m <= |pat| && n + m == |nam| && !Matches(pat, p, nam, n)
    requires forall i :: p <= i < p + m ==> pat[i] != STAR
    ensures forall k :: n <= k <= |nam| ==> !Matches(pat, p, nam, k)
  {
    forall k | n <= k <= |nam|
      ensures !Matches(pat, p, nam, k)
    {
      if Matches(pat, p, nam, k) {
        NeedsCharacters(pat, p, nam, k, m);
      }
    }
  }
}
