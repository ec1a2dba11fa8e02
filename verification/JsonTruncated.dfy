/** What the extractors return when only the first part of a document arrived. */
module JsonTruncated {
  import opened Text
  import opened JsonTree
  import opened JsonUtils
  import opened JsonLookup

  /** The only white space is that of JSON (RFC 8259, section 2), which the extractor trims. */
  predicate JsonSpace(s: string) {
    forall i :: 0 <= i < |s| ==> s[i] != '\U{0b}' && s[i] != '\U{0c}'
  }

  // ----- Quotes -----

  function Quotes(s: string): nat {
    if s == "" then 0 else (if s[0] == '"' then 1 else 0) + Quotes(s[1..])
  }

  lemma {:induction false} QuotesOver(a: string, b: string)
    ensures Quotes(a + b) == Quotes(a) + Quotes(b)
  {
    if a == "" {
      assert a + b == b;
    } else {
      assert (a + b)[1..] == a[1..] + b;
      QuotesOver(a[1..], b);
    }
  }

  lemma {:induction false} NoQuotes(s: string)
    requires forall i :: 0 <= i < |s| ==> s[i] != '"'
    ensures Quotes(s) == 0
  {
    if s != "" { NoQuotes(s[1..]); }
  }

  lemma QuotesOfKey(key: string)
    requires IsKey(key)
    ensures Quotes("\"" + key + "\"") == 2
  {
    NoQuotes(key);
    QuotesOver("\"", key);
    QuotesOver("\"" + key, "\"");
    assert Quotes("\"") == 1 + Quotes("");
  }

  lemma QuotesOfPrefix(s: string, n: nat, m: nat)
    requires n <= m <= |s|
    ensures Quotes(s[..n]) <= Quotes(s[..m])
  {
    assert s[..m] == s[..n] + s[n..m];
    QuotesOver(s[..n], s[n..m]);
  }

  /** A match needs the two quotes of the key and, for a string, two more. */
  function Needed(shape: Shape): nat {
    if shape == Quoted then 4 else 2
  }

  lemma QuotesOfString(v: string)
    requires v != "" && v[0] == '"' && |UntilQuote(v[1..])| < |v| - 1
    ensures Quotes(v) >= 2
  {
    var t := v[1..];
    ClosingQuote(t);
    assert t == t[..|UntilQuote(t)|] + t[|UntilQuote(t)|..];
    QuotesOver(t[..|UntilQuote(t)|], t[|UntilQuote(t)|..]);
  }

  lemma ClosingQuote(t: string)
    ensures forall i :: 0 <= i < |UntilQuote(t)| ==> t[i] != '"'
    ensures |UntilQuote(t)| < |t| ==> t[|UntilQuote(t)|] == '"'
  {
  }

  // ----- Matches at the start of a truncated text -----

  // Below, `a` is the part of a text that arrived and `b` the part that did not.

  lemma {:induction false} SkipSpaceGrows(a: string, b: string)
    ensures SkipSpace(a + b) == if SkipSpace(a) != "" then SkipSpace(a) + b else SkipSpace(b)
    ensures Quotes(SkipSpace(a)) == Quotes(a)
  {
    if a == "" {
      assert a + b == b;
    } else {
      assert (a + b)[1..] == a[1..] + b;
      if IsSpace(a[0]) { SkipSpaceGrows(a[1..], b); }
    }
  }

  lemma {:induction false} UntilQuoteGrows(a: string, b: string)
    ensures if |UntilQuote(a)| < |a| then UntilQuote(a + b) == UntilQuote(a) else |UntilQuote(a + b)| >= |a| && Quotes(a) == 0
  {
    if a != "" && a[0] != '"' {
      assert (a + b)[1..] == a[1..] + b;
      UntilQuoteGrows(a[1..], b);
    }
  }

  lemma AfterColonGrows(a: string, b: string, key: string)
    requires IsKey(key)
    ensures AfterColon(a, key).Some? ==> AfterColon(a + b, key) == Some(AfterColon(a, key).value + b)
    ensures AfterColon(a, key).Some? ==> Quotes(a) == 2 + Quotes(AfterColon(a, key).value)
    ensures AfterColon(a, key).None? && AfterColon(a + b, key).Some? ==>
              |AfterColon(a + b, key).value| < |b| && Quotes(a) <= 2
  {
    var quoted := "\"" + key + "\"";
    QuotesOfKey(key);
    if quoted <= a {
      var x := a[|quoted|..];
      SuffixGrows(a, b, |quoted|);
      assert a == quoted + x;
      QuotesOver(quoted, x);
      ColonGrows(x, b);
    } else if quoted <= a + b {
      assert a == quoted[..|a|] && quoted == quoted[..|quoted|];
      QuotesOfPrefix(quoted, |a|, |quoted|);
      assert |(a + b)[|quoted|..]| < |b|;
    }
  }

  lemma SuffixGrows(a: string, b: string, k: nat)
    requires k <= |a|
    ensures (a + b)[k..] == a[k..] + b
  {
  }

  function ColonThen(x: string): Option<string> {
    var t := SkipSpace(x);
    if t != "" && t[0] == ':' then Some(t[1..]) else None
  }

  lemma ColonGrows(x: string, b: string)
    ensures match ColonThen(x)
            case Some(u) => ColonThen(x + b) == Some(u + b) && Quotes(x) == Quotes(u)
            case None => ColonThen(x + b).Some? ==> |ColonThen(x + b).value| < |b| && Quotes(x) == 0
  {
    SkipSpaceGrows(x, b);
    if SkipSpace(x) != "" { SuffixGrows(SkipSpace(x), b, 1); }
  }

  /** An object is there when its brace arrived. */
  lemma BracedGrows(a: string, b: string, key: string)
    requires IsKey(key)
    ensures Grown(MatchHere(a + b, key, Braced), MatchHere(a, key, Braced), b)
    ensures MatchHere(a, key, Braced) == None && MatchHere(a + b, key, Braced).Some? ==> Quotes(a) <= 2
  {
    AfterColonGrows(a, b, key);
    if AfterColon(a, key).Some? { BraceGrows(AfterColon(a, key).value, b); }
  }

  lemma BraceGrows(u: string, b: string)
    ensures Grown(MatchShape(u + b, Braced), MatchShape(u, Braced), b)
    ensures MatchShape(u, Braced) == None && MatchShape(u + b, Braced).Some? ==> Quotes(u) == 0
  {
    SkipSpaceGrows(u, b);
  }

  /** What is found in the part that arrived is what is found in the whole text, as far as it arrived,
      and what starts in that part is found. */
  ghost predicate Grown(full: Option<string>, cut: Option<string>, b: string) {
    match full
    case None => cut == None
    case Some(g) => if |g| > |b| then cut.Some? && g == cut.value + b else cut == None
  }

  /** A string is there when its closing quote arrived. */
  lemma QuotedGrows(a: string, b: string, key: string)
    requires IsKey(key)
    ensures GrownString(MatchHere(a + b, key, Quoted), MatchHere(a, key, Quoted), b)
    ensures MatchHere(a, key, Quoted) == None && MatchHere(a + b, key, Quoted).Some? ==> Quotes(a) <= 3
  {
    AfterColonGrows(a, b, key);
    if AfterColon(a, key).Some? { StringGrows(AfterColon(a, key).value, b); }
  }

  ghost predicate GrownString(full: Option<string>, cut: Option<string>, b: string)
    requires full.Some? ==> full.value != ""
  {
    match full
    case None => cut == None
    case Some(g) =>
      if |g| - |UntilQuote(g[1..])| - 2 >= |b| then cut.Some? && g == cut.value + b && cut.value != "" && UntilQuote(cut.value[1..]) == UntilQuote(g[1..])
      else cut == None
  }

  lemma StringGrows(u: string, b: string)
    ensures GrownString(MatchShape(u + b, Quoted), MatchShape(u, Quoted), b)
    ensures MatchShape(u, Quoted) == None && MatchShape(u + b, Quoted).Some? ==> Quotes(u) <= 1
  {
    SkipSpaceGrows(u, b);
    if SkipSpace(u) != "" { QuotedTextGrows(SkipSpace(u), b); }
  }

  /** What the shape makes of a text that does not begin with white space. */
  function StringAt(v: string): Option<string> {
    if v != "" && v[0] == '"' && 0 < |UntilQuote(v[1..])| < |v| - 1 then Some(v) else None
  }

  lemma QuotedTextGrows(t: string, b: string)
    requires t != ""
    ensures GrownString(StringAt(t + b), StringAt(t), b)
    ensures StringAt(t) == None && StringAt(t + b).Some? ==> Quotes(t) <= 1
  {
    SuffixGrows(t, b, 1);
    UntilQuoteGrows(t[1..], b);
  }

  /** An unquoted value is there as far as it arrived, and before that at most a white space. */
  lemma RawGrows(a: string, b: string, key: string)
    requires IsKey(key)
    ensures GrownRaw(MatchHere(a + b, key, Raw), MatchHere(a, key, Raw), b)
    ensures MatchHere(a, key, Raw) == None && MatchHere(a + b, key, Raw).Some? ==> Quotes(a) <= 2
  {
    AfterColonGrows(a, b, key);
    if AfterColon(a, key).Some? { RawShapeGrows(AfterColon(a, key).value, b); }
  }

  predicate IsOneSpace(s: string) {
    |s| == 1 && IsSpace(s[0])
  }

  ghost predicate GrownRaw(full: Option<string>, cut: Option<string>, b: string) {
    match full
    case None => cut == None
    case Some(g) => if |g| > |b| then cut.Some? && g == cut.value + b else cut == None || IsOneSpace(cut.value)
  }

  lemma RawShapeGrows(u: string, b: string)
    ensures GrownRaw(MatchShape(u + b, Raw), MatchShape(u, Raw), b)
    ensures MatchShape(u, Raw) == None && MatchShape(u + b, Raw).Some? ==> Quotes(u) == 0
  {
    var t := SkipSpace(u);
    SkipSpaceGrows(u, b);
    ShapeIsRawAt(u);
    ShapeIsRawAt(u + b);
    if t != "" { RawValueGrows(u, t, b); } else { RawBlankGrows(u, b, SkipSpace(b)); }
  }

  /** What the Raw shape makes of `u`, when `v` is what follows the white space at its start. */
  function RawAt(u: string, v: string): Option<string> {
    if UntilSeparator(v) != "" then Some(v)
    else if |v| < |u| then Some(u[|u| - |v| - 1..])
    else None
  }

  lemma ShapeIsRawAt(u: string)
    ensures MatchShape(u, Raw) == RawAt(u, SkipSpace(u))
  {
  }

  lemma RawValueGrows(u: string, t: string, b: string)
    requires t != "" && |t| <= |u|
    ensures GrownRaw(RawAt(u + b, t + b), RawAt(u, t), b)
    ensures RawAt(u, t) == None ==> RawAt(u + b, t + b) == None
  {
    SeparatorGrows(t, b);
    if |u| > |t| { SuffixGrows(u, b, |u| - |t| - 1); }
  }

  lemma RawBlankGrows(u: string, b: string, v: string)
    requires SkipSpace(u) == "" && |v| <= |b|
    ensures GrownRaw(RawAt(u + b, v), RawAt(u, ""), b)
    ensures RawAt(u, "") == None ==> u == ""
  {
    if u == "" {
      assert u + b == b;
      RawAtBlank(b, v, |b|);
    } else {
      SkippedIsSpace(u);
      LastSpace(u);
      SuffixGrows(u, b, |u| - 1);
      RawAtBlank(u + b, v, |b|);
      BlankGrown(RawAt(u + b, v), u[|u| - 1..], b, (u + b)[|u| - 1..]);
    }
  }

  lemma BlankGrown(full: Option<string>, last: string, b: string, tail: string)
    requires IsOneSpace(last) && tail == last + b
    requires full.Some? && (|full.value| > |b| ==> full.value == tail)
    ensures GrownRaw(full, Some(last), b)
  {
  }

  lemma LastSpace(u: string)
    requires u != "" && IsSpace(u[|u| - 1])
    ensures RawAt(u, "") == Some(u[|u| - 1..]) && IsOneSpace(u[|u| - 1..])
  {
  }

  lemma RawAtBlank(x: string, v: string, size: nat)
    requires |v| <= size <= |x|
    ensures size < |x| ==> RawAt(x, v).Some?
    ensures var r := RawAt(x, v); r.Some? && |r.value| > size ==> size < |x| && r.value == x[|x| - size - 1..]
  {
  }

  lemma SeparatorGrows(t: string, b: string)
    requires t != ""
    ensures UntilSeparator(t + b) == "" <==> UntilSeparator(t) == ""
  {
    assert (t + b)[0] == t[0];
  }

  lemma {:induction false} SkippedIsSpace(x: string)
    ensures forall i :: 0 <= i < |x| - |SkipSpace(x)| ==> IsSpace(x[i])
  {
    if x != "" && IsSpace(x[0]) {
      SkippedIsSpace(x[1..]);
      assert forall i :: 0 < i < |x| ==> x[i] == x[1..][i - 1];
    }
  }

  lemma {:induction false} SearchNeedsQuotes(s: string, key: string, shape: Shape)
    requires IsKey(key) && Search(s, key, shape).Some?
    ensures Quotes(s) >= Needed(shape)
  {
    if MatchHere(s, key, shape).Some? {
      MatchNeedsQuotes(s, key, shape);
    } else {
      SearchNeedsQuotes(s[1..], key, shape);
    }
  }

  lemma MatchNeedsQuotes(s: string, key: string, shape: Shape)
    requires IsKey(key) && MatchHere(s, key, shape).Some?
    ensures Quotes(s) >= Needed(shape)
  {
    AfterColonGrows(s, "", key);
    if shape == Quoted {
      var u := AfterColon(s, key).value;
      SkipSpaceGrows(u, "");
      QuotesOfString(SkipSpace(u));
    }
  }

  // ----- Searching a truncated text -----

  lemma {:induction false} SearchBraced(a: string, b: string, key: string)
    requires IsKey(key)
    ensures Grown(Search(a + b, key, Braced), Search(a, key, Braced), b)
  {
    BracedGrows(a, b, key);
    if MatchHere(a + b, key, Braced).Some? {
      if MatchHere(a, key, Braced) == None { NoneInside(a, b, key, Braced); }
    } else {
      NextSuffix(a, b, key, Braced);
      if a != "" { SearchBraced(a[1..], b, key); }
    }
  }

  lemma {:induction false} SearchQuoted(a: string, b: string, key: string)
    requires IsKey(key)
    ensures GrownString(Search(a + b, key, Quoted), Search(a, key, Quoted), b)
  {
    QuotedGrows(a, b, key);
    if MatchHere(a + b, key, Quoted).Some? {
      if MatchHere(a, key, Quoted) == None { NoneInside(a, b, key, Quoted); }
    } else {
      NextSuffix(a, b, key, Quoted);
      if a != "" { SearchQuoted(a[1..], b, key); }
    }
  }

  lemma {:induction false} SearchRaw(a: string, b: string, key: string)
    requires IsKey(key)
    ensures GrownRaw(Search(a + b, key, Raw), Search(a, key, Raw), b)
  {
    RawGrows(a, b, key);
    if MatchHere(a + b, key, Raw).Some? {
      if MatchHere(a, key, Raw) == None { NoneInside(a, b, key, Raw); }
    } else {
      NextSuffix(a, b, key, Raw);
      if a != "" { SearchRaw(a[1..], b, key); }
    }
  }

  /** Without a match at its start, the search goes on behind the first character. */
  lemma NextSuffix(a: string, b: string, key: string, shape: Shape)
    requires MatchHere(a + b, key, shape) == None
    ensures a != "" ==> Search(a + b, key, shape) == Search(a[1..] + b, key, shape)
    ensures a == "" ==> a + b == b
  {
    if a != "" { assert (a + b)[1..] == a[1..] + b; }
  }

  /** Within a match that did not arrive in full there is no other. */
  lemma NoneInside(a: string, b: string, key: string, shape: Shape)
    requires IsKey(key) && MatchHere(a + b, key, shape).Some? && MatchHere(a, key, shape) == None
    requires Quotes(a) < Needed(shape) + 1 && (shape == Quoted ==> Quotes(a) < 4)
    ensures Search(a, key, shape) == None
  {
    if a != "" {
      assert a[0] == (a + b)[0] == '"';
      if Search(a[1..], key, shape).Some? { SearchNeedsQuotes(a[1..], key, shape); }
    }
  }

  // ----- The value of a single key -----

  function Trimmed(f: string): string {
    TrimRight(TrimLeft(UntilSeparator(f)))
  }

  /** The value when the last `missing` characters of `s` did not arrive: the string under the key if
      its closing quote did, else what arrived of the raw value. */
  function TruncatedValue(s: string, missing: nat, key: string): string {
    match StringOf(Search(s, key, Quoted), missing)
    case Some(text) => text
    case None => RawOf(Search(s, key, Raw), missing)
  }

  function StringOf(found: Option<string>, missing: nat): Option<string>
    requires found.Some? ==> found.value != ""
  {
    if found.Some? && |found.value| - |UntilQuote(found.value[1..])| - 2 >= missing then Some(UntilQuote(found.value[1..]))
    else None
  }

  function RawOf(found: Option<string>, missing: nat): string {
    if found.Some? && |found.value| > missing then Trimmed(found.value[..|found.value| - missing]) else ""
  }

  /** What extraction returns on the first `n` characters of any text. */
  lemma JsonValueOfTruncated(s: string, n: nat, key: string)
    requires IsKey(key) && n <= |s| && JsonSpace(s)
    ensures JsonValue(s[..n], key) == TruncatedValue(s, |s| - n, key)
  {
    var a, b := s[..n], s[n..];
    assert s == a + b;
    SearchQuoted(a, b, key);
    SearchRaw(a, b, key);
    RawArrived(Search(a + b, key, Raw), Search(a, key, Raw), b);
  }

  lemma RawArrived(full: Option<string>, cut: Option<string>, b: string)
    requires GrownRaw(full, cut, b) && (cut.Some? ==> JsonSpace(cut.value))
    ensures (if cut.Some? then Trimmed(cut.value) else "") == RawOf(full, |b|)
  {
    if full.Some? && |full.value| > |b| {
      assert full.value[..|full.value| - |b|] == cut.value;
    } else if cut.Some? {
      OneSpaceIsTrimmed(cut.value);
    }
  }

  lemma OneSpaceIsTrimmed(s: string)
    requires IsOneSpace(s) && JsonSpace(s)
    ensures Trimmed(s) == ""
  {
    assert s[1..] == "";
    assert UntilSeparator(s) == s;
    assert TrimLeft(s) == TrimLeft("");
  }

  // ----- Truncated documents -----

  lemma {:induction false} TrimRightOfPrefix(q: string, u: string)
    requires q <= u
    ensures TrimRight(q) <= TrimRight(u)
    decreases |u|
  {
    if q != u && IsTrimmed(u[|u| - 1]) {
      TrimRightOfPrefix(q, u[..|u| - 1]);
    } else {
      TrimRightIsPrefix(q);
    }
  }

  lemma {:induction false} TrimRightIsPrefix(q: string)
    ensures TrimRight(q) <= q
    decreases |q|
  {
    if q != "" && IsTrimmed(q[|q| - 1]) { TrimRightIsPrefix(q[..|q| - 1]); }
  }

  lemma {:induction false} UntilSeparatorOfPrefix(x: string, k: nat)
    requires k <= |x|
    ensures UntilSeparator(x[..k]) <= UntilSeparator(x)
  {
    if k > 0 && x[0] != ',' && x[0] != '}' {
      assert x[..k][1..] == x[1..][..k - 1];
      UntilSeparatorOfPrefix(x[1..], k - 1);
    }
  }

  /** What arrived of a value is the beginning of its raw text. */
  lemma RawTextOfPart(w: Json, after: string, x: string, k: nat)
    requires Valid(w) && Separates(after) && x == Print(w) + after && 0 < k <= |x|
    ensures Trimmed(x[..k]) <= RawText(w)
  {
    RawTextIsTrimmed(w, after);
    FirstChar(w, after);
    TrimmedOfPrefix(x, k);
  }

  lemma TrimmedOfPrefix(x: string, k: nat)
    requires 0 < k <= |x| && !IsTrimmed(x[0])
    ensures Trimmed(x[..k]) <= Trimmed(x)
  {
    UntilSeparatorOfPrefix(x, k);
    TrimRightOfPrefix(UntilSeparator(x[..k]), UntilSeparator(x));
    assert x[..k][0] == x[0];
  }

  /** On a document that was cut anywhere, a single key gives the string that it gives on the whole
      document, or a beginning of the raw text of the first entry under it, or nothing. */
  lemma TruncatedDocument(v: Json, n: nat, key: string)
    requires Valid(v) && IsKey(key) && n <= |Print(v)| && JsonSpace(Print(v))
    ensures var value, quoted, raw := JsonValue(Print(v)[..n], key), First(v, key, Quoted), First(v, key, Raw);
            || (quoted.Some? && value == quoted.value.s)
            || (raw.Some? && value <= RawText(raw.value))
            || value == ""
  {
    JsonValueOfTruncated(Print(v), n, key);
    StringOfDocument(v, key, |Print(v)| - n);
    RawOfDocument(v, key, |Print(v)| - n);
  }

  lemma StringOfDocument(v: Json, key: string, missing: nat)
    requires Valid(v) && IsKey(key)
    ensures var value := StringOf(Search(Print(v), key, Quoted), missing);
            value.Some? ==> First(v, key, Quoted).Some? && value.value == First(v, key, Quoted).value.s
  {
    SearchDocument(v, key, Quoted);
    if First(v, key, Quoted).Some? {
      var text := First(v, key, Quoted).value;
      FirstIsValid(v, key, Quoted);
      var after :| Search(Print(v), key, Quoted) == Some(Print(text) + after);
      QuotedText(text.s, after);
    }
  }

  lemma RawOfDocument(v: Json, key: string, missing: nat)
    requires Valid(v) && IsKey(key)
    ensures var value := RawOf(Search(Print(v), key, Raw), missing);
            value == "" || (First(v, key, Raw).Some? && value <= RawText(First(v, key, Raw).value))
  {
    SearchDocument(v, key, Raw);
    if First(v, key, Raw).Some? {
      var raw := First(v, key, Raw).value;
      FirstIsValid(v, key, Raw);
      var after :| Separates(after) && Search(Print(v), key, Raw) == Some(Print(raw) + after);
      RawOfPart(Print(raw) + after, raw, after, missing);
    }
  }

  lemma RawOfPart(text: string, raw: Json, after: string, missing: nat)
    requires Valid(raw) && Separates(after) && text == Print(raw) + after
    ensures RawOf(Some(text), missing) == "" || RawOf(Some(text), missing) <= RawText(raw)
  {
    if |text| > missing { RawTextOfPart(raw, after, text, |text| - missing); }
  }

  /** The beginning can be a wrong value: a number that was cut is taken for a shorter one. */
  lemma NumberIsCut(v: Json, key: string, p: string, q: string)
    requires IsKey(key) && IsBare(p) && IsBare(q)
    requires v == Object(Entry("", Key(key, "", ""), Bare(p + q), "", Done("")))
    ensures var arrived := "{" + PrintTag(Key(key, "", "")) + p;
            arrived <= Print(v) && JsonValue(arrived, key) == p
  {
    var tag := Key(key, "", "");
    var arrived := "{" + PrintTag(tag) + p;
    CutAfter(PrintTag(tag), p, q, v);
    assert arrived == "{" + (PrintTag(tag) + (Print(Bare(p)) + ""));
    SkipQuoteFree("{", PrintTag(tag) + (Print(Bare(p)) + ""), key, Quoted);
    SkipTag(tag, Bare(p), "", key, Quoted);
    SkipQuoteFree(p, "", key, Quoted);
    SkipQuoteFree("{", PrintTag(tag) + (Print(Bare(p)) + ""), key, Raw);
    FindTag(tag, Bare(p), "", key, Raw);
    TrimmedBare(p);
  }

  lemma TrimmedBare(p: string)
    requires IsBare(p)
    ensures Trimmed(p + "") == p
  {
    assert p + "" == p;
    UntilSeparatorOf(p, "");
    assert !IsTrimmed(p[0]) && !IsTrimmed(p[|p| - 1]);
  }

  lemma CutAfter(tag: string, p: string, q: string, v: Json)
    requires v.Object? && v.members.Entry? && v.members.lead == "" && v.members.tail == "" && v.members.rest == Done("")
    requires PrintTag(v.members.tag) == tag && v.members.value == Bare(p + q)
    ensures "{" + tag + p <= Print(v)
  {
    assert "" + tag + (p + q) + "" + "" + "" == tag + p + q;
    assert PrintMembers(v.members) == tag + p + q;
    assert Print(v) == "{" + tag + p + (q + "}");
  }

  // ----- Paths of several keys -----

  /** An object is handed to the recursion in full, or not at all. */
  lemma ObjectTextOfTruncated(v: Json, n: nat, key: string)
    requires Valid(v) && IsKey(key) && n <= |Print(v)|
    requires First(v, key, Braced).Some? ==> Balanced(PrintMembers(First(v, key, Braced).value.members))
    ensures var text := ObjectText(Print(v)[..n], key); text == None || text == ObjectText(Print(v), key)
  {
    var a, b := Print(v)[..n], Print(v)[n..];
    assert Print(v) == a + b;
    SearchBraced(a, b, key);
    SearchDocument(v, key, Braced);
    ObjectTextOnTree(v, key);
    if Search(a, key, Braced).Some? {
      var nested, f := First(v, key, Braced).value, Search(a, key, Braced).value;
      var after :| Search(Print(v), key, Braced) == Some(Print(nested) + after);
      PartOfObject(nested.members, after, f, b);
    }
  }

  lemma PartOfObject(members: Members, after: string, f: string, b: string)
    requires f != "" && f + b == Print(Object(members)) + after && Balanced(PrintMembers(members))
    ensures var text := UpToMatchingBrace(f); text == None || text == Some(Print(Object(members)))
  {
    var whole := Print(Object(members));
    if |f| >= |whole| {
      var after' := f[|whole|..];
      assert f == (f + b)[..|f|] == whole + after';
      CloseObjectIff(members, after');
      CutIff(whole, after');
    } else {
      var j := |f| - 1;
      WithinObject(members, "");
      assert whole + "" == whole;
      assert f == (f + b)[..|f|] == whole[..|f|];
      assert f[1..] == whole[1..][..j] == (PrintMembers(members) + ("}" + ""))[..j] == PrintMembers(members)[..j];
      NotClosed(PrintMembers(members), j);
    }
  }

  lemma NotClosed(s: string, j: nat)
    requires j <= |s| && Balanced(s)
    ensures Close(s[..j], 1) == None
  {
    var a, b := s[..j], s[j..];
    assert s == a + b && a + "" == a;
    DepthOver(a, b, 0);
    CloseOver(a, "", 1);
  }

  /** On a path of several keys a document that was cut gives what the whole document gives, or
      nothing: what is read is read from an object that arrived in full. */
  lemma NestedTruncationIsSafe(v: Json, n: nat, keys: seq<string>)
    requires Valid(v) && |keys| > 1 && (forall k :: k in keys ==> IsKey(k)) && MatchedOnPath(v, keys)
    requires n <= |Print(v)|
    ensures var value := NestedValue(Print(v)[..n], Path(keys)); value == "" || value == NestedValue(Print(v), Path(keys))
  {
    ObjectTextOfTruncated(v, n, keys[0]);
    SameStep(Print(v)[..n], Print(v), keys);
  }

  lemma SameStep(cut: string, full: string, keys: seq<string>)
    requires |keys| > 1 && IsKey(keys[0])
    requires ObjectText(cut, keys[0]) == None || ObjectText(cut, keys[0]) == ObjectText(full, keys[0])
    ensures NestedValue(cut, Path(keys)) == "" || NestedValue(cut, Path(keys)) == NestedValue(full, Path(keys))
  {
    var path := Path(keys);
    FirstDot(keys);
    assert path[..|keys[0]|] == keys[0];
  }
}
