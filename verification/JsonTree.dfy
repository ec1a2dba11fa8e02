/** JSON documents as trees, their texts with any white space, and brace matching on those texts. */
module JsonTree {
  import opened Text

  datatype Json =
    | Text(s: string)
    | Bare(s: string)  // a number, true, false or null
    | Object(members: Members)
    | Array(members: Members)

  /** The members of an object (with keys) or the elements of an array. */
  datatype Members =
    | Done(pad: string)
    | Entry(lead: string, tag: Tag, value: Json, tail: string, rest: Members)

  function Length(ms: Members): nat {
    if ms.Done? then 0 else 1 + Length(ms.rest)
  }

  datatype Tag = Element | Key(name: string, mid: string, post: string)

  function PrintTag(tag: Tag): string {
    match tag
    case Element => ""
    case Key(name, mid, post) => "\"" + name + "\"" + mid + ":" + post
  }

  function Print(v: Json): string {
    match v
    case Text(s) => "\"" + s + "\""
    case Bare(s) => s
    case Object(members) => "{" + PrintMembers(members) + "}"
    case Array(members) => "[" + PrintMembers(members) + "]"
  }

  function PrintMembers(ms: Members): string {
    match ms
    case Done(pad) => pad
    case Entry(lead, tag, value, tail, rest) =>
      lead + PrintTag(tag) + Print(value) + tail + (if rest.Entry? then "," else "") + PrintMembers(rest)
  }

  // ----- The documents considered -----

  predicate IsBlank(s: string) {
    forall i :: 0 <= i < |s| ==> s[i] == ' ' || s[i] == '\t' || s[i] == '\n' || s[i] == '\r'
  }

  /** Free of quotes, hence of escaped ones. */
  predicate IsPlain(s: string) {
    forall i :: 0 <= i < |s| ==> s[i] != '"'
  }

  predicate IsBare(s: string) {
    s != "" && forall i :: 0 <= i < |s| ==> IsBareChar(s[i])
  }

  predicate IsBareChar(c: char) {
    && !IsSpace(c) && c != '"' && c != ',' && c != ':'
    && c != '{' && c != '}' && c != '[' && c != ']'
  }

  predicate ValidTag(tag: Tag) {
    tag.Key? ==> IsPlain(tag.name) && IsBlank(tag.mid) && IsBlank(tag.post)
  }

  predicate Valid(v: Json) {
    match v
    case Text(s) => IsPlain(s)
    case Bare(s) => IsBare(s)
    case Object(members) => ValidMembers(members, true)
    case Array(members) => ValidMembers(members, false)
  }

  predicate ValidMembers(ms: Members, keyed: bool) {
    match ms
    case Done(pad) => IsBlank(pad)
    case Entry(lead, tag, value, tail, rest) =>
      && IsBlank(lead) && IsBlank(tail) && tag.Key? == keyed && ValidTag(tag)
      && Valid(value) && ValidMembers(rest, keyed)
  }

  /** The text that follows the value of the first entry, when `rest` follows the members. */
  function After(ms: Members, rest: string): string
    requires ms.Entry?
  {
    ms.tail + ((if ms.rest.Entry? then "," else "") + (PrintMembers(ms.rest) + rest))
  }

  lemma EntryText(ms: Members)
    requires ms.Entry?
    ensures var comma := if ms.rest.Entry? then "," else "";
            PrintMembers(ms) == ms.lead + PrintTag(ms.tag) + Print(ms.value) + (ms.tail + comma) + PrintMembers(ms.rest)
  {
    TailAndComma(ms.lead + PrintTag(ms.tag) + Print(ms.value), ms.tail, if ms.rest.Entry? then "," else "");
  }

  lemma TailAndComma(a: string, tail: string, comma: string)
    ensures a + tail + comma == a + (tail + comma)
  {
  }

  lemma UnfoldEntry(ms: Members, rest: string)
    requires ms.Entry?
    ensures PrintMembers(ms) + rest == ms.lead + (PrintTag(ms.tag) + (Print(ms.value) + After(ms, rest)))
  {
    Reassociate(ms.lead, PrintTag(ms.tag), Print(ms.value), ms.tail, if ms.rest.Entry? then "," else "",
                PrintMembers(ms.rest), rest);
  }

  lemma Reassociate(a: string, b: string, c: string, d: string, e: string, f: string, g: string)
    ensures a + b + c + d + e + f + g == a + (b + (c + (d + (e + (f + g)))))
  {
  }

  lemma Bracketed(members: Members, rest: string)
    ensures Print(Object(members)) + rest == "{" + (PrintMembers(members) + ("}" + rest))
    ensures Print(Array(members)) + rest == "[" + (PrintMembers(members) + ("]" + rest))
  {
  }

  function SkipSpace(s: string): (r: string)
    ensures IsSuffix(r, s)
    ensures r != "" ==> !IsSpace(r[0])
  {
    if s != "" && IsSpace(s[0]) then SkipSpace(s[1..]) else s
  }

  lemma SkipBlank(blank: string, rest: string)
    requires IsBlank(blank)
    ensures SkipSpace(blank + rest) == SkipSpace(rest)
  {
    if blank == "" {
      assert blank + rest == rest;
    } else {
      assert (blank + rest)[1..] == blank[1..] + rest;
      SkipBlank(blank[1..], rest);
    }
  }

  /** What may follow a value: white space, then a comma, a closing bracket or the end. */
  predicate Delimits(rest: string) {
    var t := SkipSpace(rest);
    t == "" || t[0] == ',' || t[0] == '}' || t[0] == ']'
  }

  lemma AfterDelimits(ms: Members, keyed: bool, rest: string)
    requires ms.Entry? && ValidMembers(ms, keyed)
    requires rest != "" && rest[0] == if keyed then '}' else ']'
    ensures var t := SkipSpace(After(ms, rest));
            t != "" && (t[0] == ',' || t[0] == rest[0])
  {
    var comma := if ms.rest.Entry? then "," else "";
    SkipBlank(ms.tail, comma + (PrintMembers(ms.rest) + rest));
    NextDelimits(comma, PrintMembers(ms.rest), rest);
  }

  lemma NextDelimits(comma: string, members: string, rest: string)
    requires comma == "," || (comma == "" && IsBlank(members))
    requires rest != "" && (rest[0] == '}' || rest[0] == ']')
    ensures var t := SkipSpace(comma + (members + rest));
            t != "" && (t[0] == ',' || t[0] == rest[0])
  {
    var text := comma + (members + rest);
    if comma == "" {
      assert text == members + rest;
      SkipBlank(members, rest);
      assert SkipSpace(rest) == rest;
    } else {
      assert text[0] == ',';
    }
  }

  // ----- Brace matching -----

  /** Scan from nesting depth `depth` up to depth 0; what is left, or None when the text ends first. */
  function Close(s: string, depth: nat): (r: Option<string>)
    ensures r.Some? ==> IsSuffix(r.value, s)
  {
    if depth == 0 then Some(s)
    else if s == "" then None
    else Close(s[1..], if s[0] == '{' then depth + 1 else if s[0] == '}' then depth - 1 else depth)
  }

  /** The nesting depth after `s`; None when it would fall below 0. */
  function Depth(s: string, depth: nat): Option<nat> {
    if s == "" then Some(depth)
    else if s[0] == '{' then Depth(s[1..], depth + 1)
    else if s[0] == '}' then if depth == 0 then None else Depth(s[1..], depth - 1)
    else Depth(s[1..], depth)
  }

  /** Every brace of the text has its partner in it. */
  predicate Balanced(s: string) {
    Depth(s, 0) == Some(0)
  }

  /** The scan passes over a text as long as that does not bring it below the depth of its start. */
  lemma {:induction false} CloseString(s: string, rest: string, base: nat, depth: nat)
    requires Depth(s, depth).Some? && base > 0
    ensures Close(s + rest, base + depth) == Close(rest, base + Depth(s, depth).value)
  {
    if s == "" {
      assert s + rest == rest;
    } else {
      assert (s + rest)[1..] == s[1..] + rest;
      if s[0] == '{' {
        CloseString(s[1..], rest, base, depth + 1);
      } else if s[0] == '}' {
        CloseString(s[1..], rest, base, depth - 1);
      } else {
        CloseString(s[1..], rest, base, depth);
      }
    }
  }

  lemma CloseOver(s: string, rest: string, base: nat)
    requires Depth(s, 0).Some? && base > 0
    ensures Close(s + rest, base) == Close(rest, base + Depth(s, 0).value)
  {
    var none: nat := 0;
    assert base + none == base;
    CloseString(s, rest, base, none);
  }

  lemma {:induction false} CloseWithin(s: string, rest: string, depth: nat)
    requires Depth(s, depth) == None
    ensures var r := Close(s + rest, depth + 1); r.Some? && |r.value| >= |rest|
  {
    assert (s + rest)[1..] == s[1..] + rest;
    if s[0] == '{' {
      CloseWithin(s[1..], rest, depth + 1);
    } else if s[0] == '}' {
      if depth > 0 { CloseWithin(s[1..], rest, depth - 1); }
    } else {
      CloseWithin(s[1..], rest, depth);
    }
  }

  /** Scanning from just after an opening brace over `s` stops just after the closing brace that
      follows `s` if and only if the braces of `s` are balanced. */
  lemma CloseIff(s: string, rest: string)
    ensures Close(s + ("}" + rest), 1) == Some(rest) <==> Balanced(s)
  {
    var tail := "}" + rest;
    match Depth(s, 0)
    case None => CloseWithin(s, tail, 0);
    case Some(d) =>
      CloseOver(s, tail, 1);
      CloseAtBrace(rest, d);
  }

  lemma CloseAtBrace(rest: string, depth: nat)
    ensures Close("}" + rest, 1 + depth) == Some(rest) <==> depth == 0
  {
  }

  /** The same for the text of an object. */
  lemma CloseObjectIff(members: Members, rest: string)
    ensures Close((Print(Object(members)) + rest)[1..], 1) == Some(rest) <==> Balanced(PrintMembers(members))
  {
    WithinObject(members, rest);
    CloseIff(PrintMembers(members), rest);
  }

  lemma WithinObject(members: Members, rest: string)
    ensures (Print(Object(members)) + rest)[1..] == PrintMembers(members) + ("}" + rest)
  {
    Bracketed(members, rest);
  }

  /** Where closing braces are missing, the scan goes on behind the object. */
  lemma CloseBehind(s: string, rest: string, depth: nat)
    requires Depth(s, 0) == Some(depth)
    ensures Close(s + ("}" + rest), 1) == Close(rest, depth)
  {
    var tail, depth' := "}" + rest, 1 + depth;
    assert Close(s + tail, 1) == Close(tail, depth') by { CloseOver(s, tail, 1); }
    assert Close(tail, depth') == Close(rest, depth) by { CloseOfBrace(rest, depth); }
  }

  lemma CloseOfBrace(rest: string, depth: nat)
    ensures Close("}" + rest, 1 + depth) == Close(rest, depth)
  {
    assert ("}" + rest)[1..] == rest;
  }

  // ----- Balanced texts -----

  lemma {:induction false} DepthOver(a: string, b: string, depth: nat)
    ensures Depth(a + b, depth)
         == match Depth(a, depth) case None => None case Some(depth') => Depth(b, depth')
  {
    if a == "" {
      assert a + b == b;
    } else {
      assert (a + b)[1..] == a[1..] + b;
      if a[0] == '{' {
        DepthOver(a[1..], b, depth + 1);
      } else if a[0] == '}' {
        if depth > 0 { DepthOver(a[1..], b, depth - 1); }
      } else {
        DepthOver(a[1..], b, depth);
      }
    }
  }

  lemma {:induction false} DepthLift(s: string, depth: nat)
    requires Depth(s, depth).Some?
    ensures Depth(s, depth + 1) == Some(Depth(s, depth).value + 1)
  {
    if s != "" {
      DepthLift(s[1..], if s[0] == '{' then depth + 1 else if s[0] == '}' then depth - 1 else depth);
    }
  }

  /** Free of braces. */
  predicate BraceFree(s: string) {
    forall i :: 0 <= i < |s| ==> s[i] != '{' && s[i] != '}'
  }

  lemma {:induction false} BraceFreeIsBalanced(s: string)
    requires BraceFree(s)
    ensures Balanced(s)
  {
    if s != "" { BraceFreeIsBalanced(s[1..]); }
  }

  lemma ConcatIsBalanced(a: string, b: string)
    requires Balanced(a)
    ensures Balanced(a + b) <==> Balanced(b)
  {
    DepthOver(a, b, 0);
  }

  lemma BracedIsBalanced(s: string)
    requires Balanced(s)
    ensures Balanced("{" + s + "}")
  {
    var inner := s + "}";
    assert "{" + s + "}" == "{" + inner;
    assert ("{" + inner)[1..] == inner;
    DepthLift(s, 0);
    DepthOver(s, "}", 1);
  }

  lemma QuotedIsBalanced(s: string)
    ensures Balanced("\"" + s + "\"") <==> Balanced(s)
  {
    var tail := s + "\"";
    assert "\"" + s + "\"" == "\"" + tail;
    ConcatIsBalanced("\"", tail);
    DepthOver(s, "\"", 0);
  }

  /** The braces within each single key and string are balanced, as when there are none. */
  predicate Steady(v: Json) {
    match v
    case Text(s) => Balanced(s)
    case Bare(_) => true
    case Object(members) => SteadyMembers(members)
    case Array(members) => SteadyMembers(members)
  }

  predicate SteadyMembers(ms: Members) {
    match ms
    case Done(_) => true
    case Entry(_, tag, value, _, rest) =>
      (tag.Key? ==> Balanced(tag.name)) && Steady(value) && SteadyMembers(rest)
  }

  lemma TagIsBalanced(tag: Tag)
    requires ValidTag(tag) && (tag.Key? ==> Balanced(tag.name))
    ensures Balanced(PrintTag(tag))
  {
    if tag.Key? {
      var colon := tag.mid + ":" + tag.post;
      assert PrintTag(tag) == "\"" + tag.name + "\"" + colon;
      QuotedIsBalanced(tag.name);
      BraceFreeIsBalanced(colon);
      ConcatIsBalanced("\"" + tag.name + "\"", colon);
    }
  }

  /** Balanced strings and keys make balanced texts. */
  lemma {:induction false} SteadyIsBalanced(v: Json)
    requires Valid(v) && Steady(v)
    ensures Balanced(Print(v))
    decreases v, 0
  {
    match v
    case Text(s) => QuotedIsBalanced(s);
    case Bare(s) => BraceFreeIsBalanced(s);
    case Object(members) =>
      SteadyMembersBalance(members, true);
      BracedIsBalanced(PrintMembers(members));
    case Array(members) =>
      SteadyMembersBalance(members, false);
      BraceFreeIsBalanced("[");
      BraceFreeIsBalanced("]");
      ConcatIsBalanced("[", PrintMembers(members));
      ConcatIsBalanced("[" + PrintMembers(members), "]");
  }

  lemma {:induction false} SteadyMembersBalance(ms: Members, keyed: bool)
    requires ValidMembers(ms, keyed) && SteadyMembers(ms)
    ensures Balanced(PrintMembers(ms))
    decreases ms, 1
  {
    match ms
    case Done(pad) => BraceFreeIsBalanced(pad);
    case Entry(lead, tag, value, tail, more) =>
      var comma := if more.Entry? then "," else "";
      TagIsBalanced(tag);
      SteadyIsBalanced(value);
      SteadyMembersBalance(more, keyed);
      EntryIsBalanced(lead, PrintTag(tag), Print(value), tail + comma, PrintMembers(more));
      EntryText(ms);
  }

  lemma EntryIsBalanced(lead: string, tag: string, value: string, comma: string, more: string)
    requires BraceFree(lead) && Balanced(tag) && Balanced(value) && BraceFree(comma) && Balanced(more)
    ensures Balanced(lead + tag + value + comma + more)
  {
    BraceFreeIsBalanced(lead);
    BraceFreeIsBalanced(comma);
    ConcatIsBalanced(lead, tag);
    ConcatIsBalanced(lead + tag, value);
    ConcatIsBalanced(lead + tag + value, comma);
    ConcatIsBalanced(lead + tag + value + comma, more);
  }
}
