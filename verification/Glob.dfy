/** The glob matcher of evhttpx.c: a star stands for any run of characters, possibly none. */
module Glob {
  import opened Chars

  ghost function Concat(pieces: seq<string>): string { if pieces == [] then [] else pieces[0] + Concat(pieces[1..]) }

  /** One piece for each character of the pattern: any text for a star, itself for any other. */
  ghost predicate Pieces(p: string, pieces: seq<string>) {
    |pieces| == |p| && forall i :: 0 <= i < |p| ==> p[i] == '*' || pieces[i] == [p[i]]
  }

  /** s splits into pieces that match p. */
  ghost predicate Splits(p: string, s: string) { exists pieces :: Pieces(p, pieces) && Concat(pieces) == s }

  /** The same, decided from the front. */
  ghost predicate Matches(p: string, s: string)
    decreases |p|, |s|
  {
    if p == [] then s == []
    else if p[0] == '*' then Matches(p[1..], s) || (s != [] && Matches(p, s[1..]))
    else s != [] && s[0] == p[0] && Matches(p[1..], s[1..])
  }

  lemma {:induction false} PiecesMatch(p: string, pieces: seq<string>)
    requires Pieces(p, pieces)
    ensures Matches(p, Concat(pieces))
    decreases |p|, |Concat(pieces)|
  {
    if p != [] {
      var rest := Concat(pieces[1..]);
      PiecesMatch(p[1..], pieces[1..]);
      if p[0] == '*' {
        StarTakes(p, pieces[0], rest);
      } else {
        assert Concat(pieces)[1..] == rest;
      }
    }
  }

  /** A star may take any piece. */
  lemma {:induction false} StarTakes(p: string, a: string, s: string)
    requires p != [] && p[0] == '*' && Matches(p[1..], s)
    ensures Matches(p, a + s)
  {
    if a == [] {
      assert a + s == s;
    } else {
      StarTakes(p, a[1..], s);
      assert (a + s)[1..] == a[1..] + s;
    }
  }

  lemma {:induction false} MatchPieces(p: string, s: string) returns (pieces: seq<string>)
    requires Matches(p, s)
    ensures Pieces(p, pieces) && Concat(pieces) == s
    decreases |p|, |s|
  {
    if p == [] {
      pieces := [];
    } else if p[0] == '*' && Matches(p[1..], s) {
      var rest := MatchPieces(p[1..], s);
      pieces := [[]] + rest;
      assert pieces[1..] == rest;
    } else if p[0] == '*' {
      var all := MatchPieces(p, s[1..]);
      pieces := [[s[0]] + all[0]] + all[1..];
      assert pieces[1..] == all[1..] && [s[0]] + all[0] + Concat(all[1..]) == [s[0]] + (all[0] + Concat(all[1..]));
      assert s == [s[0]] + s[1..];
    } else {
      var rest := MatchPieces(p[1..], s[1..]);
      pieces := [[p[0]]] + rest;
      assert pieces[1..] == rest && s == [s[0]] + s[1..];
    }
  }

  /** Both readings of a pattern agree. */
  lemma MatchesIsSplits(p: string, s: string)
    ensures Matches(p, s) <==> Splits(p, s)
  {
    if Matches(p, s) { var pieces := MatchPieces(p, s); }
    if pieces :| Pieces(p, pieces) && Concat(pieces) == s { PiecesMatch(p, pieces); }
  }

  /** A leading star skips some prefix. */
  lemma {:induction false} StarSkips(p: string, s: string)
    requires p != [] && p[0] == '*'
    ensures Matches(p, s) <==> exists k :: 0 <= k <= |s| && Matches(p[1..], s[k..])
    decreases |s|
  {
    assert s[0..] == s;
    if s != [] {
      StarSkips(p, s[1..]);
      forall k | 0 <= k < |s| ensures s[1..][k..] == s[k + 1..] { }
      if Matches(p, s[1..]) {
        var k :| 0 <= k <= |s[1..]| && Matches(p[1..], s[1..][k..]);
        assert Matches(p[1..], s[k + 1..]);
      }
      if k :| 0 < k <= |s| && Matches(p[1..], s[k..]) {
        assert s[1..][k - 1..] == s[k..];
        assert Matches(p[1..], s[1..][k - 1..]);
      }
    }
  }

  /** Two stars are one. */
  lemma {:induction false} Collapse(p: string, s: string)
    requires |p| > 1 && p[0] == '*' && p[1] == '*'
    ensures Matches(p, s) <==> Matches(p[1..], s)
    decreases |s|
  {
    if s != [] { Collapse(p, s[1..]); }
  }

  /** A star alone takes everything. */
  lemma {:induction false} LoneStar(s: string)
    ensures Matches("*", s)
    decreases |s|
  {
    assert "*"[1..] == [];
    if s != [] { LoneStar(s[1..]); }
  }

  /** pattern[0], or the terminator */
  function At(s: string, i: nat): char { if i < |s| then s[i] else '\0' }

  lemma Step(s: string, i: nat)
    requires i < |s|
    ensures s[i..][1..] == s[i + 1..] && s[i..][0] == s[i]
  {
  }

  /** _evhttpx_glob_match: true exactly when the string splits into pieces matching the pattern. */
  method GlobMatch(pattern: string, str: string) returns (r: bool)
    requires NulFree(pattern) && NulFree(str)
    ensures r <==> Splits(pattern, str)
  {
    r := Match(pattern, str);
    MatchesIsSplits(pattern, str);
  }

  method Match(pattern: string, str: string) returns (r: bool)
    requires NulFree(pattern) && NulFree(str)
    ensures r <==> Matches(pattern, str)
    decreases |pattern|
  {
    var p, s := 0, 0;
    assert pattern[0..] == pattern && str[0..] == str;
    while p < |pattern|
      invariant p <= |pattern| && s <= |str| && (Matches(pattern, str) <==> Matches(pattern[p..], str[s..]))
    {
      Step(pattern, p);
      if pattern[p] == '*' {
        r := MatchStar(pattern, p, str, s);
        return;
      }
      if pattern[p] != At(str, s) {
        return false;
      }
      Step(str, s);
      s := s + 1;
      p := p + 1;
      if s == |str| {
        p := SkipStars(pattern, p);
        break;
      }
    }
    r := p == |pattern| && s == |str|;
  }

  /** At a star: collapse the stars, and try the rest of the pattern on every non-empty suffix. */
  method MatchStar(pattern: string, p0: nat, str: string, s0: nat) returns (r: bool)
    requires NulFree(pattern) && NulFree(str) && p0 < |pattern| && pattern[p0] == '*' && s0 <= |str|
    ensures r <==> Matches(pattern[p0..], str[s0..])
    decreases |pattern|, 0
  {
    var p, s := p0, s0;
    while At(pattern, p + 1) == '*'
      invariant p0 <= p < |pattern| && pattern[p] == '*' &&
        (Matches(pattern[p0..], str[s0..]) <==> Matches(pattern[p..], str[s0..]))
      decreases |pattern| - p
    {
      Step(pattern, p);
      Collapse(pattern[p..], str[s0..]);
      p := p + 1;
    }
    Step(pattern, p);
    if |pattern| - p == 1 {
      assert pattern[p..] == "*";
      LoneStar(str[s0..]);
      return true;
    }
    StarSkips(pattern[p..], str[s0..]);
    ghost var tail := str[s0..];
    while s < |str|
      invariant s0 <= s <= |str| && forall k :: 0 <= k < s - s0 ==> !Matches(pattern[p + 1..], tail[k..])
    {
      assert tail[s - s0..] == str[s..];
      var found := Match(pattern[p + 1..], str[s..]);
      if found {
        return true;
      }
      s := s + 1;
    }
    r := false;
    NothingLeft(pattern[p + 1..]);
    NoSuffix(pattern[p + 1..], tail);
  }

  /** A pattern that does not begin with a star does not match the empty text. */
  lemma NothingLeft(p: string)
    requires p != [] && p[0] != '*'
    ensures !Matches(p, [])
  {
  }

  lemma NoSuffix(p: string, s: string)
    requires !Matches(p, []) && forall k :: 0 <= k < |s| ==> !Matches(p, s[k..])
    ensures !exists k :: 0 <= k <= |s| && Matches(p, s[k..])
  {
    assert s[|s|..] == [];
  }

  /** The trailing stars when the string is used up. */
  method SkipStars(pattern: string, p0: nat) returns (p: nat)
    requires p0 <= |pattern|
    ensures p0 <= p <= |pattern| && (Matches(pattern[p0..], []) <==> p == |pattern|)
  {
    p := p0;
    while p < |pattern| && pattern[p] == '*'
      invariant p0 <= p <= |pattern| && (Matches(pattern[p0..], []) <==> Matches(pattern[p..], []))
    {
      Step(pattern, p);
      p := p + 1;
    }
    assert p < |pattern| ==> pattern[p..][0] == pattern[p];
  }
}
