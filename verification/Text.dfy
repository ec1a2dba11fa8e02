/** The string operations of the C++ standard library that the plugins rely on. */
module Text {
  datatype Option<+T> = None | Some(value: T)

  const CRLF := "\r\n"

  predicate OccursAt(s: string, pat: string, p: nat) {
    p + |pat| <= |s| && s[p..p + |pat|] == pat
  }

  /** `s.find(pat, from)`: the leftmost occurrence at or after `from`; `None` is npos. */
  function Find(s: string, pat: string, from: nat): (r: Option<nat>)
    ensures r.Some? ==> from <= r.value <= |s| - |pat|
    decreases |s| - from
  {
    if from + |pat| > |s| then None
    else if OccursAt(s, pat, from) then Some(from)
    else Find(s, pat, from + 1)
  }

  function Shifted(r: Option<nat>, n: nat): Option<nat> {
    match r case Some(p) => Some(n + p) case None => None
  }

  lemma {:induction false} FindIsLeftmost(s: string, pat: string, from: nat)
    ensures var r := Find(s, pat, from);
            if r.Some? then OccursAt(s, pat, r.value) && forall q: nat :: from <= q < r.value ==> !OccursAt(s, pat, q)
            else forall q: nat :: from <= q ==> !OccursAt(s, pat, q)
    decreases |s| - from
  {
    if from + |pat| <= |s| && !OccursAt(s, pat, from) {
      FindIsLeftmost(s, pat, from + 1);
    }
  }

  lemma FoundAt(s: string, pat: string, from: nat, p: nat)
    requires from <= p && OccursAt(s, pat, p)
    requires forall q: nat :: from <= q < p ==> !OccursAt(s, pat, q)
    ensures Find(s, pat, from) == Some(p)
  {
    FindIsLeftmost(s, pat, from);
  }

  lemma NotFound(s: string, pat: string, from: nat)
    requires forall q: nat :: from <= q <= |s| - |pat| ==> !OccursAt(s, pat, q)
    ensures Find(s, pat, from) == None
  {
    FindIsLeftmost(s, pat, from);
  }

  lemma OccursMeans(s: string, pat: string, p: nat, k: nat)
    requires OccursAt(s, pat, p) && k < |pat|
    ensures s[p + k] == pat[k]
  {
  }

  /** A character that differs rules out an occurrence. */
  lemma NoMatchAt(s: string, pat: string, p: nat, k: nat)
    requires k < |pat| && (p + k < |s| ==> s[p + k] != pat[k])
    ensures !OccursAt(s, pat, p)
  {
  }

  /** A search that meets nothing in the first `n` positions is a search of the rest. */
  lemma FindInTail(s: string, n: nat, pat: string)
    requires n <= |s| && forall q: nat :: q < n ==> !OccursAt(s, pat, q)
    ensures Find(s, pat, 0) == Shifted(Find(s[n..], pat, 0), n)
  {
    assert s == s[..n] + s[n..];
    SkipTo(s, pat, 0, n);
    FindShifts(s[..n], s[n..], pat, 0);
  }

  /** An occurrence in `b` is one in `a + b`, shifted by `|a|`. */
  lemma OccursShift(a: string, b: string, pat: string, p: nat)
    ensures OccursAt(a + b, pat, |a| + p) <==> OccursAt(b, pat, p)
  {
  }

  /** An occurrence that ends within `a` is one in `a + b`, and conversely. */
  lemma OccursInPrefix(a: string, b: string, pat: string, p: nat)
    requires p + |pat| <= |a|
    ensures OccursAt(a + b, pat, p) <==> OccursAt(a, pat, p)
  {
  }

  lemma NoStraddle(a: string, c: char, b: string, needle: string, q: nat)
    requires c !in needle && q <= |a| && needle != ""
    ensures OccursAt(a + [c] + b, needle, q) <==> OccursAt(a, needle, q)
  {
    var text := a + [c] + b;
    if q + |needle| <= |a| {
      OccursInPrefix(a, [c] + b, needle, q);
      assert text == a + ([c] + b);
    } else if OccursAt(text, needle, q) {
      OccursMeans(text, needle, q, |a| - q);
    }
  }

  /** No occurrence straddles the separator. */
  lemma FindSplits(a: string, c: char, b: string, needle: string, from: nat)
    requires needle != "" && c !in needle && from <= |a|
    ensures Find(a + [c] + b, needle, from)
         == if Find(a, needle, from).Some? then Find(a, needle, from) else Shifted(Find(b, needle, 0), |a| + 1)
  {
    FindUpTo(a, c, b, needle, from);
    if Find(a, needle, from) == None { FindShifts(a + [c], b, needle, 0); }
  }

  lemma FindUpTo(a: string, c: char, b: string, needle: string, from: nat)
    requires needle != "" && c !in needle && from <= |a|
    ensures Find(a + [c] + b, needle, from)
         == if Find(a, needle, from).Some? then Find(a, needle, from) else Find(a + [c] + b, needle, |a| + 1)
  {
    var text := a + [c] + b;
    forall q: nat | q <= |a|
      ensures OccursAt(text, needle, q) <==> OccursAt(a, needle, q)
    {
      NoStraddle(a, c, b, needle, q);
    }
    FindIsLeftmost(a, needle, from);
    if Find(a, needle, from).Some? {
      FoundAt(text, needle, from, Find(a, needle, from).value);
    } else {
      SkipTo(text, needle, from, |a| + 1 - from);
    }
  }

  lemma {:induction false} SkipTo(text: string, needle: string, from: nat, gap: nat)
    requires forall q: nat :: from <= q < from + gap ==> !OccursAt(text, needle, q)
    ensures Find(text, needle, from) == Find(text, needle, from + gap)
    decreases gap
  {
    if gap > 0 {
      SkipTo(text, needle, from + 1, gap - 1);
    }
  }

  lemma {:induction false} FindShifts(a: string, b: string, needle: string, from: nat)
    ensures Find(a + b, needle, |a| + from) == Shifted(Find(b, needle, from), |a|)
    decreases |b| - from
  {
    OccursShift(a, b, needle, from);
    if from + |needle| <= |b| && !OccursAt(b, needle, from) {
      FindShifts(a, b, needle, from + 1);
    }
  }

  /** Searching a truncated text finds the same place, or nothing when that place was cut. */
  lemma FindInTruncated(s: string, n: nat, pat: string, from: nat)
    requires n <= |s|
    ensures var r := Find(s, pat, from);
            Find(s[..n], pat, from) == if r.Some? && r.value + |pat| <= n then r else None
  {
    assert s == s[..n] + s[n..];
    forall q: nat | q + |pat| <= n
      ensures OccursAt(s, pat, q) <==> OccursAt(s[..n], pat, q)
    {
      OccursInPrefix(s[..n], s[n..], pat, q);
    }
    FindIsLeftmost(s, pat, from);
    var r := Find(s, pat, from);
    if r.Some? && r.value + |pat| <= n {
      FoundAt(s[..n], pat, from, r.value);
    } else {
      NotFound(s[..n], pat, from);
    }
  }

  predicate IsSuffix(r: string, s: string) {
    |r| <= |s| && r == s[|s| - |r|..]
  }

  lemma SuffixOfSuffix(r: string, s: string, t: string)
    requires IsSuffix(r, s) && IsSuffix(s, t)
    ensures IsSuffix(r, t)
  {
  }

  /** `isspace` in the classic locale; also the class `\s` of an ECMAScript regex. */
  predicate IsSpace(c: char) {
    c == ' ' || c == '\t' || c == '\n' || c == '\r' || c == '\U{0b}' || c == '\U{0c}'
  }

  /** The six characters: the space and the five from tab to carriage return. */
  lemma SpaceRange(c: char)
    ensures IsSpace(c) <==> c as int == 32 || 9 <= c as int <= 13
  {
  }

  /** What `target += buffer` appends: the characters before the first NUL. */
  function CString(s: string): (r: string)
    ensures r <= s && '\0' !in r
    ensures |r| < |s| ==> s[|r|] == '\0'
  {
    if s == "" || s[0] == '\0' then "" else [s[0]] + CString(s[1..])
  }

  /** A C string is the part before the first NUL, whatever follows it. */
  lemma CStringStops(s: string, rest: string)
    requires '\0' !in s
    ensures CString(s) == s
    ensures CString(s + ['\0'] + rest) == s
  {
    if s != "" {
      CStringStops(s[1..], rest);
      assert (s + ['\0'] + rest)[1..] == s[1..] + ['\0'] + rest;
    }
  }

  function Concat(pieces: seq<string>): string {
    if pieces == [] then "" else pieces[0] + Concat(pieces[1..])
  }

  /** Lines of text, each ended by CRLF. */
  function Lines(lines: seq<string>): string {
    if lines == [] then "" else lines[0] + CRLF + Lines(lines[1..])
  }
}
