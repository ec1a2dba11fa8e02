/** The wildcard matcher of check_file_count. */
module Glob {

  /** What the pattern means: `*` stands for any text, `?` for any character. */
  ghost predicate Matches(p: string, s: string)
    decreases |p|
  {
    if p == "" then s == ""
    else if p[0] == '*' then exists k :: 0 <= k <= |s| && Matches(p[1..], s[k..])
    else s != "" && (p[0] == '?' || p[0] == s[0]) && Matches(p[1..], s[1..])
  }

  /** The first place of `c` in `s`, or the length of `s`. */
  function IndexOf(s: string, c: char): (k: nat)
    ensures k <= |s| && c !in s[..k] && (k < |s| ==> s[k] == c)
  {
    if s == "" || s[0] == c then 0 else 1 + IndexOf(s[1..], c)
  }

  /** What the loops decide: a star moves to the first place of the character after it and never back. */
  predicate Greedy(p: string, s: string)
    decreases |p|
  {
    if p == "" || s == "" then p == "" && s == ""
    else if p == "*" then true
    else if p[0] == '*' then
      var k := IndexOf(s, p[1]);
      k < |s| && Greedy(p[1..], s[k..])
    else (p[0] == '?' || p[0] == s[0]) && Greedy(p[1..], s[1..])
  }

  method MatchesPattern(filename: string, pat: string) returns (r: bool)
    ensures r == (pat == "" || Greedy(pat, filename))
  {
    if pat == "" { return true; }
    var patPos, filePos := 0, 0;
    while patPos < |pat| && filePos < |filename|
      invariant 0 <= patPos <= |pat| && 0 <= filePos <= |filename|
      invariant Greedy(pat, filename) == Greedy(pat[patPos..], filename[filePos..])
      decreases |pat| - patPos + |filename| - filePos
    {
      if pat[patPos] == '*' {
        patPos := patPos + 1;
        if patPos >= |pat| { return true; }
        ghost var from := filePos;
        while filePos < |filename| && filename[filePos] != pat[patPos]
          invariant from <= filePos <= |filename|
          invariant forall k :: from <= k < filePos ==> filename[k] != pat[patPos]
        {
          filePos := filePos + 1;
        }
        GreedyStar(pat, patPos - 1, filename, from, filePos);
        if filePos >= |filename| { return false; }
      } else {
        GreedyCharacter(pat, patPos, filename, filePos);
        if pat[patPos] == '?' || pat[patPos] == filename[filePos] {
          patPos := patPos + 1;
          filePos := filePos + 1;
        } else {
          return false;
        }
      }
    }
    return patPos >= |pat| && filePos >= |filename|;
  }

  lemma GreedyStar(pat: string, i: nat, s: string, from: nat, to: nat)
    requires i + 1 < |pat| && pat[i] == '*' && from <= to <= |s| && from < |s|
    requires forall k :: from <= k < to ==> s[k] != pat[i + 1]
    requires to < |s| ==> s[to] == pat[i + 1]
    ensures Greedy(pat[i..], s[from..]) <==> to < |s| && Greedy(pat[i + 1..], s[to..])
  {
  }

  lemma GreedyCharacter(pat: string, i: nat, s: string, j: nat)
    requires i < |pat| && pat[i] != '*' && j < |s|
    ensures Greedy(pat[i..], s[j..]) <==> (pat[i] == '?' || pat[i] == s[j]) && Greedy(pat[i + 1..], s[j + 1..])
  {
  }

  lemma IndexOfIs(s: string, c: char, k: nat)
    requires k <= |s| && c !in s[..k] && (k < |s| ==> s[k] == c)
    ensures IndexOf(s, c) == k
  {
  }

  // ----- Soundness -----

  lemma {:induction false} GreedyIsSound(p: string, s: string)
    requires Greedy(p, s)
    ensures Matches(p, s)
    decreases |p|
  {
    if p == "" || s == "" {
    } else if p == "*" {
      assert Matches(p[1..], s[|s|..]);
    } else if p[0] == '*' {
      var k := IndexOf(s, p[1]);
      GreedyIsSound(p[1..], s[k..]);
    } else {
      GreedyIsSound(p[1..], s[1..]);
    }
  }

  // ----- Completeness -----

  predicate StarFree(p: string) {
    forall i :: 0 <= i < |p| ==> p[i] != '*'
  }

  lemma {:induction false} StarFreeIsExact(p: string, s: string)
    requires StarFree(p)
    ensures Greedy(p, s) <==> Matches(p, s)
    ensures Matches(p, s) ==> |s| == |p|
    decreases |p|
  {
    if p != "" && s != "" {
      StarFreeIsExact(p[1..], s[1..]);
    }
  }

  /** A star-free text before a final star: the star has to take at least one character. */
  lemma {:induction false} TrailingStarIsExact(q: string, s: string)
    requires StarFree(q)
    ensures Greedy(q + "*", s) <==> |s| > |q| && Matches(q, s[..|q|])
    decreases |q|
  {
    if q == "" {
      assert q + "*" == "*";
    } else if s != "" {
      assert (q + "*")[1..] == q[1..] + "*";
      TrailingStarIsExact(q[1..], s[1..]);
      if |s| > |q| { assert s[..|q|][1..] == s[1..][..|q| - 1]; }
    }
  }

  /** A star before a star-free text: only the first place of its first character is tried. */
  lemma LeadingStarIsExact(r: string, s: string)
    requires StarFree(r) && r != ""
    ensures Greedy("*" + r, s) <==> IndexOf(s, r[0]) < |s| && Matches(r, s[IndexOf(s, r[0])..])
  {
    assert ("*" + r)[1..] == r;
    StarFreeIsExact(r, s[IndexOf(s, r[0])..]);
  }

  /** The pattern without its stars. */
  function Strip(p: string): string {
    if p == "" then "" else (if p[0] == '*' then "" else [p[0]]) + Strip(p[1..])
  }

  /** A name that the pattern `a*r` should match but does not: `a` without its stars, then `r` with
      its first character doubled. */
  function Missed(a: string, r: string): string {
    Strip(a) + (if r == "" then "" else [r[0]] + r)
  }

  lemma PatternTail(a: string, r: string)
    requires a != ""
    ensures (a + "*" + r)[0] == a[0] && (a + "*" + r)[1..] == a[1..] + "*" + r
  {
  }

  lemma MissedHead(a: string, r: string)
    requires a != ""
    ensures Missed(a, r) == (if a[0] == '*' then "" else [a[0]]) + Missed(a[1..], r)
  {
  }

  lemma {:induction false} MissedIsStarFree(a: string, r: string)
    requires StarFree(r)
    ensures StarFree(Missed(a, r))
  {
    if a != "" {
      MissedIsStarFree(a[1..], r);
      MissedHead(a, r);
    }
  }

  lemma MatchesItself(p: string)
    requires StarFree(p)
    ensures Matches(p, p)
  {
  }

  lemma {:induction false} MissedShouldMatch(a: string, r: string)
    requires StarFree(r)
    ensures Matches(a + "*" + r, Missed(a, r))
    decreases |a|
  {
    if a == "" {
      LoneStar(r);
      MatchesItself(r);
      StarMatches("" + "*" + r, Missed("", r), if r == "" then 0 else 1);
    } else {
      MissedShouldMatch(a[1..], r);
      PatternTail(a, r);
      MissedHead(a, r);
      StepMatches(a + "*" + r, a[1..] + "*" + r, Missed(a, r), Missed(a[1..], r));
    }
  }

  lemma LoneStar(r: string)
    ensures ("" + "*" + r)[0] == '*' && ("" + "*" + r)[1..] == r
    ensures Missed("", r)[if r == "" then 0 else 1..] == r
  {
  }

  lemma StepMatches(p: string, q: string, s: string, m: string)
    requires p != "" && p[1..] == q && s == (if p[0] == '*' then "" else [p[0]]) + m && Matches(q, m)
    ensures Matches(p, s)
  {
    if p[0] == '*' {
      assert s == m == s[0..];
      StarMatches(p, s, 0);
    } else {
      assert s[1..] == m;
    }
  }

  lemma StarMatches(p: string, s: string, k: nat)
    requires p != "" && p[0] == '*' && k <= |s| && Matches(p[1..], s[k..])
    ensures Matches(p, s)
  {
  }

  lemma {:induction false} MissedIsMissed(a: string, r: string)
    requires StarFree(r)
    ensures !Greedy(a + "*" + r, Missed(a, r))
    decreases |a|
  {
    if a == "" {
      LoneStarMisses("" + "*" + r, r, Missed("", r));
    } else {
      MissedIsMissed(a[1..], r);
      MissedIsStarFree(a[1..], r);
      PatternTail(a, r);
      MissedHead(a, r);
      NextInMissed(a[1..], r);
      StepMisses(a + "*" + r, a[1..] + "*" + r, Missed(a, r), Missed(a[1..], r));
    }
  }

  lemma LoneStarMisses(p: string, r: string, s: string)
    requires StarFree(r) && p == "*" + r && s == if r == "" then "" else [r[0]] + r
    ensures !Greedy(p, s)
  {
    if r != "" {
      assert p[1..] == r && s[0..] == s;
      IndexOfIs(s, r[0], 0);
      StarFreeIsExact(r, s);
    }
  }

  lemma NextInMissed(a: string, r: string)
    ensures a + "*" + r != ""
    ensures var next := (a + "*" + r)[0]; next == '*' || (Missed(a, r) != "" && Missed(a, r)[0] == next)
  {
  }

  /** What the rest of the pattern misses is missed after a character, and after a star that finds its
      place at once or nowhere. */
  lemma StepMisses(p: string, q: string, s: string, m: string)
    requires p != "" && p[1..] == q && s == (if p[0] == '*' then "" else [p[0]]) + m && !Greedy(q, m)
    requires q != "" && StarFree(m) && (q[0] == '*' || (m != "" && m[0] == q[0]))
    ensures !Greedy(p, s)
  {
  }

  lemma LastStar(p: string) returns (i: nat)
    requires !StarFree(p)
    ensures i < |p| && p[i] == '*' && StarFree(p[i + 1..])
  {
    if StarFree(p[1..]) {
      i := 0;
    } else {
      var j := LastStar(p[1..]);
      assert p[1..][j + 1..] == p[j + 2..];
      i := j + 1;
    }
  }

  // ----- Where the missed text is no file name -----

  predicate AllDots(s: string) {
    forall i :: 0 <= i < |s| ==> s[i] == '.'
  }

  /** When the missed text is empty or all dots, another text of dots with an `x` in it is missed too,
      unless the pattern is itself dots and a final star. */
  lemma {:induction false} AnotherMissed(a: string, r: string) returns (s: string)
    requires StarFree(r) && AllDots(Missed(a, r)) && !(AllDots(a) && r == "")
    ensures Matches(a + "*" + r, s) && !Greedy(a + "*" + r, s)
    ensures 'x' in s && forall c :: c in s ==> c == 'x' || c == '.'
    decreases |a|
  {
    var p, m := a + "*" + r, Missed(a, r);
    if a == "" || a[0] == '*' {
      s := "x" + m;
      if a == "" {
        assert m[0] == r[0];
        MissedWithLead(r);
      } else {
        MissedAfterStar(a, r);
      }
    } else {
      assert m == [a[0]] + Missed(a[1..], r);
      assert forall i :: 0 <= i < |m| - 1 ==> m[i + 1] == Missed(a[1..], r)[i];
      assert m[0] == a[0] == '.';
      var t := AnotherMissed(a[1..], r);
      s := "." + t;
      assert p[1..] == a[1..] + "*" + r && s[1..] == t;
    }
  }

  lemma MissedWithLead(r: string)
    requires StarFree(r) && r != "" && r[0] == '.'
    ensures Matches("" + "*" + r, "x" + Missed("", r)) && !Greedy("" + "*" + r, "x" + Missed("", r))
  {
    var p, m := "" + "*" + r, [r[0]] + r;
    var s := "x" + m;
    assert Missed("", r) == m && p[1..] == r && s[2..] == r && s[1..] == m;
    MatchesItself(r);
    StarMatches(p, s, 2);
    IndexOfIs(s, '.', 1);
    StarFreeIsExact(r, m);
  }

  lemma MissedAfterStar(a: string, r: string)
    requires StarFree(r) && a != "" && a[0] == '*' && AllDots(Missed(a, r))
    ensures Matches(a + "*" + r, "x" + Missed(a, r)) && !Greedy(a + "*" + r, "x" + Missed(a, r))
  {
    var b := a[1..];
    UnderStar(a, r);
    MissedShouldMatch(b, r);
    MissedIsMissed(b, r);
    NextInMissed(b, r);
    StarOverMatch(a + "*" + r, b + "*" + r, Missed(b, r));
    StarOverLead(a + "*" + r, b + "*" + r, Missed(b, r));
  }

  lemma UnderStar(a: string, r: string)
    requires a != "" && a[0] == '*'
    ensures Missed(a, r) == Missed(a[1..], r)
    ensures (a + "*" + r)[0] == '*' && (a + "*" + r)[1..] == a[1..] + "*" + r
  {
    PatternTail(a, r);
    MissedHead(a, r);
    assert "" + Missed(a[1..], r) == Missed(a[1..], r);
  }

  lemma StarOverMatch(p: string, q: string, m: string)
    requires p != "" && p[0] == '*' && p[1..] == q && Matches(q, m)
    ensures Matches(p, "x" + m)
  {
    assert ("x" + m)[1..] == m;
    StarMatches(p, "x" + m, 1);
  }

  /** A star before a dot, or before another star, does not help to accept dots after an `x`. */
  lemma StarOverLead(p: string, q: string, m: string)
    requires p != "" && p[0] == '*' && p[1..] == q && q != "" && AllDots(m)
    requires q[0] == '*' || (m != "" && q[0] == m[0] && !Greedy(q, m))
    ensures !Greedy(p, "x" + m)
  {
  }

  lemma MissedOfDots(a: string)
    requires AllDots(a)
    ensures Missed(a, "") == a
  {
    if a != "" {
      MissedOfDots(a[1..]);
      assert a == [a[0]] + a[1..];
    }
  }

  /** Every text but the empty one that a pattern means is accepted if and only if the pattern has no
      star or is a single star. */
  lemma CompleteIff(p: string)
    requires p != ""
    ensures (forall s :: s != "" && Matches(p, s) ==> Greedy(p, s)) <==> StarFree(p) || p == "*"
  {
    if StarFree(p) {
      forall s
        ensures Matches(p, s) ==> Greedy(p, s)
      {
        StarFreeIsExact(p, s);
      }
    } else if p != "*" {
      var s := MissedOf(p);
    }
  }

  /** A missed text for every pattern with a star but the single star. */
  lemma MissedOf(p: string) returns (s: string)
    requires !StarFree(p) && p != "*"
    ensures s != "" && Matches(p, s) && !Greedy(p, s)
    ensures '/' !in p && '\0' !in p && p != ".*" && p != "..*" ==> IsName(s)
  {
    var i := LastStar(p);
    var a, r := p[..i], p[i + 1..];
    assert p == a + "*" + r;
    if AllDots(Missed(a, r)) && !(AllDots(a) && r == "") {
      s := AnotherMissed(a, r);
    } else {
      s := Missed(a, r);
      MissedShouldMatch(a, r);
      MissedIsMissed(a, r);
      MissedOccurs(a, r);
      if AllDots(a) && r == "" { MissedOfDots(a); }
    }
  }

  lemma {:induction false} MissedOccurs(a: string, r: string)
    ensures forall c :: c in Missed(a, r) ==> c in a + "*" + r
  {
    if a != "" {
      MissedOccurs(a[1..], r);
      assert Missed(a, r) == (if a[0] == '*' then "" else [a[0]]) + Missed(a[1..], r);
      assert a + "*" + r == [a[0]] + (a[1..] + "*" + r);
    }
  }

  // ----- File names -----

  /** A name that a directory can hold and that is not skipped. */
  predicate IsName(s: string) {
    s != "" && s != "." && s != ".." && '/' !in s && '\0' !in s
  }

  /** On file names the matcher is complete for exactly these patterns: those without a star, a star
      alone or after one or two dots, and those with a character that no name has. */
  lemma CompleteOnNamesIff(p: string)
    requires p != ""
    ensures (forall s :: IsName(s) && Matches(p, s) ==> Greedy(p, s))
       <==> StarFree(p) || p == "*" || p == ".*" || p == "..*" || '/' in p || '\0' in p
  {
    if StarFree(p) || p == "*" || p == ".*" || p == "..*" || '/' in p || '\0' in p {
      forall s | IsName(s) && Matches(p, s)
        ensures Greedy(p, s)
      {
        if StarFree(p) {
          StarFreeIsExact(p, s);
        } else if p == "*" {
          DotsAndStar(p, "", s);
        } else if p == ".*" {
          DotsAndStar(p, ".", s);
        } else if p == "..*" {
          DotsAndStar(p, "..", s);
        } else {
          LiteralOccurs(p, s, if '/' in p then '/' else '\0');
        }
      }
    } else {
      var s := MissedOf(p);
    }
  }

  lemma DotsAndStar(p: string, q: string, s: string)
    requires p == q + "*" && AllDots(q) && s != q && Matches(p, s)
    ensures Greedy(p, s)
  {
    TrailingStarTakes(q, s);
    TrailingStarIsExact(q, s);
    if |s| == |q| {
      assert s[..|q|] == s;
      DotsMatchThemselves(q, s);
    }
  }

  lemma {:induction false} TrailingStarTakes(q: string, s: string)
    requires StarFree(q) && Matches(q + "*", s)
    ensures |s| >= |q| && Matches(q, s[..|q|])
    decreases |q|
  {
    if q != "" {
      assert (q + "*")[1..] == q[1..] + "*";
      TrailingStarTakes(q[1..], s[1..]);
      assert s[..|q|][1..] == s[1..][..|q| - 1];
    }
  }

  lemma {:induction false} DotsMatchThemselves(q: string, s: string)
    requires AllDots(q) && Matches(q, s)
    ensures s == q
    decreases |q|
  {
    if q != "" {
      DotsMatchThemselves(q[1..], s[1..]);
      assert s == [s[0]] + s[1..] && q == [q[0]] + q[1..];
    }
  }

  lemma {:induction false} LiteralOccurs(p: string, s: string, c: char)
    requires Matches(p, s) && c in p && c != '*' && c != '?'
    ensures c in s
    decreases |p|
  {
    assert p == [p[0]] + p[1..];
    if p[0] == '*' {
      var k :| 0 <= k <= |s| && Matches(p[1..], s[k..]);
      LiteralOccurs(p[1..], s[k..], c);
    } else if p[0] != c {
      LiteralOccurs(p[1..], s[1..], c);
    }
  }
}
