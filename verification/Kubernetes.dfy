/** The loop of check_kubernetes that counts the elements of the `items` array. */
module Kubernetes {
  import opened Text
  import opened JsonTree

  const ITEMS := "\"items\""

  /** The nesting depth after one more character. */
  function Nest(c: char, depth: int): int {
    if c == '{' then depth + 1 else if c == '}' then depth - 1 else depth
  }

  /** 1 when the character closes an outermost object. */
  function Closes(c: char, depth: int): nat {
    if c == '}' && depth == 1 then 1 else 0
  }

  /** The number of items counted, and the text where the loop stops. */
  datatype Tally = Tally(items: nat, stop: string)

  /** The loop from a position on.  The
      closing bracket is looked for one position ahead of the character just taken. */
  function Scan(s: string, depth: int): Tally {
    if s == "" then Tally(0, "")
    else
      var depth' := Nest(s[0], depth);
      var here := Closes(s[0], depth);
      if s[1..] != "" && s[1] == ']' && depth' == 0 then Tally(here, s[1..])
      else Plus(here, Scan(s[1..], depth'))
  }

  /** `response[pos]`: the string's terminator stands at its end. */
  function CharAt(s: string, pos: nat): char {
    if pos < |s| then s[pos] else '\0'
  }

  method CountElements(response: string, start: nat) returns (itemCount: nat, pos: nat)
    requires start <= |response|
    ensures pos <= |response| && Tally(itemCount, response[pos..]) == Scan(response[start..], 0)
  {
    pos := start;
    itemCount := 0;
    var braceCount := 0;
    while pos < |response|
      invariant start <= pos <= |response|
      invariant Scan(response[start..], 0) == Plus(itemCount, Scan(response[pos..], braceCount))
    {
      Advance(Scan(response[start..], 0), itemCount, response, pos, braceCount);
      ghost var counted, depth := itemCount, braceCount;
      if response[pos] == '{' {
        braceCount := braceCount + 1;
      } else if response[pos] == '}' {
        braceCount := braceCount - 1;
        if braceCount == 0 { itemCount := itemCount + 1; }
      }
      assert braceCount == Nest(response[pos], depth) && itemCount == counted + Closes(response[pos], depth);
      pos := pos + 1;
      if CharAt(response, pos) == ']' && braceCount == 0 { return; }
    }
    assert response[pos..] == "";
  }

  lemma ScanAt(s: string, pos: nat, depth: int)
    requires pos < |s|
    ensures var depth' := Nest(s[pos], depth);
            var here := Closes(s[pos], depth);
            Scan(s[pos..], depth)
            == if CharAt(s, pos + 1) == ']' && depth' == 0 then Tally(here, s[pos + 1..]) else Plus(here, Scan(s[pos + 1..], depth'))
  {
  }

  lemma Advance(total: Tally, n: nat, s: string, pos: nat, depth: int)
    requires pos < |s| && total == Plus(n, Scan(s[pos..], depth))
    ensures var n', depth' := n + Closes(s[pos], depth), Nest(s[pos], depth);
            total
            == if CharAt(s, pos + 1) == ']' && depth' == 0 then Tally(n', s[pos + 1..]) else Plus(n', Scan(s[pos + 1..], depth'))
  {
  }

  function Plus(n: nat, r: Tally): Tally {
    r.(items := n + r.items)
  }

  method CountItems(response: string) returns (itemCount: nat)
    ensures itemCount == ItemCount(response)
    ensures forall before, gap, ms, beyond :: CountableList(before, gap, ms, beyond, response) ==> itemCount == Length(ms)
  {
    itemCount := 0;
    var itemsPos := Find(response, ITEMS, 0);
    if itemsPos.Some? {
      var arrayStart := Find(response, "[", itemsPos.value);
      if arrayStart.Some? {
        var pos;
        itemCount, pos := CountElements(response, arrayStart.value + 1);
      }
    }
    forall before, gap, ms, beyond | CountableList(before, gap, ms, beyond, response)
      ensures ItemCount(response) == Length(ms)
    {
      CountableIsCounted(before, gap, ms, beyond, response);
    }
  }

  lemma CountableIsCounted(before: string, gap: string, ms: Members, beyond: string, response: string)
    requires CountableList(before, gap, ms, beyond, response)
    ensures ItemCount(response) == Length(ms)
  {
    CountOfArray(before, gap, ms, beyond);
  }

  /** The first `items` of the response is followed by an array of objects that is not written `[]`. */
  ghost predicate CountableList(before: string, gap: string, ms: Members, beyond: string, response: string) {
    && response == ListResponse(before, gap, ms, beyond) && Find(response, ITEMS, 0) == Some(|before|)
    && ValidMembers(ms, false) && AllObjects(ms) && '[' !in gap && ms != Done("")
  }

  function ItemCount(response: string): nat {
    match Find(response, ITEMS, 0)
    case None => 0
    case Some(itemsPos) =>
      match Find(response, "[", itemsPos)
      case None => 0
      case Some(arrayStart) => Scan(response[arrayStart + 1..], 0).items
  }

  // ----- Arrays of objects -----

  /** Objects whose braces, those in strings included, are balanced. */
  predicate AllObjects(ms: Members) {
    ms.Entry? ==> ms.value.Object? && Balanced(PrintMembers(ms.value.members)) && AllObjects(ms.rest)
  }

  /** From inside an object the loop goes on to the matching brace and counts one item. */
  lemma {:induction false} ScanToClose(s: string, depth: nat)
    requires depth > 0 && Close(s, depth).Some?
    ensures var t := Close(s, depth).value;
            Scan(s, depth) == if t != "" && t[0] == ']' then Tally(1, t) else Plus(1, Scan(t, 0))
  {
    assert s != "" && s[0..] == s;
    ScanAt(s, 0, depth);
    var depth' := Nest(s[0], depth);
    assert Close(s, depth) == Close(s[1..], depth');
    if depth' > 0 {
      ScanToClose(s[1..], depth');
    }
  }

  lemma ScanObject(v: Json, after: string)
    requires v.Object? && Balanced(PrintMembers(v.members))
    ensures Scan(Print(v) + after, 0)
         == if after != "" && after[0] == ']' then Tally(1, after) else Plus(1, Scan(after, 0))
  {
    var text := Print(v) + after;
    CloseObjectIff(v.members, after);
    ScanToClose(text[1..], 1);
    assert text[0] == '{' && text[0..] == text;
    ScanAt(text, 0, 0);
  }

  /** Between the objects the loop goes on until a bracket follows. */
  lemma {:induction false} ScanFlat(p: string, t: string)
    requires p != "" && forall i :: 0 <= i < |p| ==> p[i] != '{' && p[i] != '}' && (i > 0 ==> p[i] != ']')
    ensures Scan(p + t, 0) == if t != "" && t[0] == ']' then Tally(0, t) else Scan(t, 0)
  {
    assert (p + t)[1..] == p[1..] + t;
    if |p| == 1 {
      assert p[1..] + t == t;
    } else {
      ScanFlat(p[1..], t);
      assert (p + t)[1] == p[1];
    }
  }

  lemma ScanBlank(p: string, t: string)
    requires IsBlank(p)
    ensures Scan(p + t, 0) == if p != "" && t != "" && t[0] == ']' then Tally(0, t) else Scan(t, 0)
  {
    if p == "" { assert p + t == t; } else { ScanFlat(p, t); }
  }

  /** The loop over a non-empty array of objects counts them all and stops at its closing bracket. */
  lemma {:induction false} ScanMembers(ms: Members, rest: string)
    requires ms.Entry? && ValidMembers(ms, false) && AllObjects(ms)
    requires rest != "" && rest[0] == ']'
    ensures Scan(PrintMembers(ms) + rest, 0) == Tally(Length(ms), rest)
  {
    var after := After(ms, rest);
    StartOfMembers(ms, rest);
    ScanBlank(ms.lead, Print(ms.value) + after);
    ScanObject(ms.value, after);
    if ms.rest.Entry? {
      ScanMembers(ms.rest, rest);
      StartOfMembers(ms.rest, rest);
      ScanComma(ms.tail, PrintMembers(ms.rest) + rest);
    } else {
      ScanEnd(ms.tail, ms.rest.pad, rest);
    }
  }

  lemma StartOfMembers(ms: Members, rest: string)
    requires ms.Entry? && ValidMembers(ms, false) && AllObjects(ms)
    ensures var item := Print(ms.value) + After(ms, rest);
            PrintMembers(ms) + rest == ms.lead + item && item != "" && item[0] == '{'
    ensures PrintMembers(ms) + rest != "" && (PrintMembers(ms) + rest)[0] != ']'
  {
    var item := Print(ms.value) + After(ms, rest);
    UnfoldEntry(ms, rest);
    assert "" + item == item;
    assert item[0] == Print(ms.value)[0] == '{';
    assert (ms.lead + item)[0] == if ms.lead != "" then ms.lead[0] else item[0];
  }

  lemma ScanComma(tail: string, next: string)
    requires IsBlank(tail) && next != "" && next[0] != ']'
    ensures var after := tail + ("," + next);
            after[0] != ']' && Scan(after, 0) == Scan(next, 0)
  {
    ScanBlank(tail, "," + next);
    ScanFlat(",", next);
  }

  lemma ScanEnd(tail: string, pad: string, rest: string)
    requires IsBlank(tail) && IsBlank(pad) && rest != "" && rest[0] == ']'
    ensures var after := tail + ("" + (pad + rest));
            after != "" && if after[0] == ']' then after == rest else Scan(after, 0) == Tally(0, rest)
  {
    var after := tail + ("" + (pad + rest));
    assert after == (tail + pad) + rest;
    ScanBlank(tail + pad, rest);
    if tail + pad == "" { assert after == rest; } else { assert after[0] == (tail + pad)[0]; }
  }

  // ----- Main results -----

  /** What the loop counts after the brackets of an empty array `[]`, whose end it does not see. */
  function Overrun(beyond: string): nat {
    if beyond != "" && beyond[0] == ']' then 0 else Scan(beyond, 0).items
  }

  /** The bracket that closes the array stops the loop, except in `[]` without white space. */
  lemma ScanArray(ms: Members, beyond: string)
    requires ValidMembers(ms, false) && AllObjects(ms)
    ensures var r := Scan(PrintMembers(ms) + ("]" + beyond), 0);
            if ms != Done("") then r == Tally(Length(ms), "]" + beyond) else r.items == Overrun(beyond)
  {
    if ms.Entry? {
      ScanMembers(ms, "]" + beyond);
    } else {
      ScanBlank(ms.pad, "]" + beyond);
      if ms.pad == "" { ScanFlat("]", beyond); }
    }
  }

  /** A response with an array after the name `items`. */
  function ListResponse(before: string, gap: string, ms: Members, beyond: string): string {
    before + ITEMS + gap + "[" + PrintMembers(ms) + "]" + beyond
  }

  /** Where the first `items` of a response is followed by an array of objects, the loop starts at it. */
  lemma CountOfArray(before: string, gap: string, ms: Members, beyond: string)
    requires ValidMembers(ms, false) && AllObjects(ms) && '[' !in gap
    requires Find(ListResponse(before, gap, ms, beyond), ITEMS, 0) == Some(|before|)
    ensures ItemCount(ListResponse(before, gap, ms, beyond))
         == if ms != Done("") then Length(ms) else Overrun(beyond)
  {
    StartOfArray(before, gap, ms, beyond);
    ScanArray(ms, beyond);
  }

  lemma StartOfArray(before: string, gap: string, ms: Members, beyond: string)
    requires '[' !in gap && Find(ListResponse(before, gap, ms, beyond), ITEMS, 0) == Some(|before|)
    ensures ItemCount(ListResponse(before, gap, ms, beyond)) == Scan(PrintMembers(ms) + ("]" + beyond), 0).items
  {
    var response := ListResponse(before, gap, ms, beyond);
    var elements := PrintMembers(ms) + ("]" + beyond);
    var head := before + ITEMS + gap;
    assert head[|before|..] == ITEMS + gap;
    assert response == head + "[" + elements;
    FirstBracket(head, |before|, elements);
    assert response[|head| + 1..] == elements;
  }

  lemma FirstBracket(head: string, from: nat, elements: string)
    requires from <= |head| && '[' !in head[from..]
    ensures Find(head + "[" + elements, "[", from) == Some(|head|)
  {
    var text := head + "[" + elements;
    forall q: nat | from <= q < |head|
      ensures !OccursAt(text, "[", q)
    {
      assert text[q] == head[from..][q - from];
      NoMatchAt(text, "[", q, 0);
    }
    FoundAt(text, "[", from, |head|);
  }

  // ----- What follows an empty array -----

  /** The first opening brace or closing bracket of a text. */
  function FirstMark(s: string): Option<char> {
    if s == "" then None
    else if s[0] == '{' || s[0] == ']' then Some(s[0])
    else FirstMark(s[1..])
  }

  function Or(a: Option<char>, b: Option<char>): Option<char> {
    if a.Some? then a else b
  }

  /** The same for a value: an object has its brace first, an array what its elements have first. */
  function Mark(v: Json): Option<char> {
    match v
    case Text(s) => FirstMark(s)
    case Bare(_) => None
    case Object(_) => Some('{')
    case Array(members) => Or(MarkIn(members), Some(']'))
  }

  function MarkIn(ms: Members): Option<char> {
    match ms
    case Done(_) => None
    case Entry(_, tag, value, _, rest) =>
      Or(if tag.Key? then FirstMark(tag.name) else None, Or(Mark(value), MarkIn(rest)))
  }

  /** The rest of a top-level object, after the value of an entry, and of the response. */
  function Siblings(tail: string, siblings: Members, trailing: string): string {
    tail + (if siblings.Entry? then "," else "") + PrintMembers(siblings) + ("}" + trailing)
  }

  /** Where `items` is an entry of the top-level object and is an array of objects, the plugin reports
      the array's length, unless the array is written `[]` and among the entries after it an object
      begins before any closing bracket, the ones in strings included. */
  lemma CountsTheItems(before: string, gap: string, ms: Members, tail: string, siblings: Members, trailing: string)
    requires ValidMembers(ms, false) && AllObjects(ms) && '[' !in gap
    requires IsBlank(tail) && ValidMembers(siblings, true) && Balanced(PrintMembers(siblings)) && IsBlank(trailing)
    requires Find(ListResponse(before, gap, ms, Siblings(tail, siblings, trailing)), ITEMS, 0) == Some(|before|)
    ensures ItemCount(ListResponse(before, gap, ms, Siblings(tail, siblings, trailing))) == Length(ms)
       <==> ms != Done("") || MarkIn(siblings) != Some('{')
  {
    var beyond := Siblings(tail, siblings, trailing);
    CountOfArray(before, gap, ms, beyond);
    if ms == Done("") { OverrunOfSiblings(tail, siblings, trailing); }
  }

  /** When `items` comes last the count is always right. */
  lemma ItemsLast(before: string, gap: string, ms: Members, tail: string, pad: string, trailing: string)
    requires ValidMembers(ms, false) && AllObjects(ms) && '[' !in gap
    requires IsBlank(tail) && IsBlank(pad) && IsBlank(trailing)
    requires Find(ListResponse(before, gap, ms, Siblings(tail, Done(pad), trailing)), ITEMS, 0) == Some(|before|)
    ensures ItemCount(ListResponse(before, gap, ms, Siblings(tail, Done(pad), trailing))) == Length(ms)
  {
    BraceFreeIsBalanced(pad);
    CountsTheItems(before, gap, ms, tail, Done(pad), trailing);
  }

  lemma OverrunOfSiblings(tail: string, siblings: Members, trailing: string)
    requires IsBlank(tail) && ValidMembers(siblings, true) && Balanced(PrintMembers(siblings)) && IsBlank(trailing)
    ensures Overrun(Siblings(tail, siblings, trailing)) == 0 <==> MarkIn(siblings) != Some('{')
  {
    var gap := tail + (if siblings.Entry? then "," else "");
    var text := gap + PrintMembers(siblings);
    BraceFreeIsBalanced(gap);
    ConcatIsBalanced(gap, PrintMembers(siblings));
    OverrunIff(text, trailing);
    NoMark(gap);
    MarkOver(gap, PrintMembers(siblings));
    MarkOfMembers(siblings, true);
  }

  /** Over a balanced text, the loop counts something exactly when it meets an opening brace first. */
  lemma {:induction false} OverrunIff(s: string, trailing: string)
    requires Balanced(s) && IsBlank(trailing)
    ensures Overrun(s + ("}" + trailing)) == 0 <==> FirstMark(s) != Some('{')
  {
    var end := "}" + trailing;
    if s == "" {
      assert s + end == end;
      NothingAfter(trailing);
    } else {
      var next := s[1..] + end;
      assert (s + end)[1..] == next && (s + end)[0] == s[0];
      if s[0] == '{' {
        ClosesAgain(s[1..], end, 1);
        ScanToClose(next, 1);
      } else if s[0] != ']' {
        OverrunIff(s[1..], trailing);
      }
    }
  }

  lemma NothingAfter(trailing: string)
    requires IsBlank(trailing)
    ensures Scan("}" + trailing, 0).items == 0
  {
    assert ("}" + trailing)[1..] == trailing;
    NothingInBlank(trailing, -1);
  }

  lemma {:induction false} NothingInBlank(blank: string, depth: int)
    requires IsBlank(blank)
    ensures Scan(blank, depth).items == 0
  {
    if blank != "" { NothingInBlank(blank[1..], depth); }
  }

  /** A text that comes back to depth 0 closes what was open. */
  lemma {:induction false} ClosesAgain(s: string, rest: string, depth: nat)
    requires depth > 0 && Depth(s, depth) == Some(0)
    ensures Close(s + rest, depth).Some?
  {
    assert (s + rest)[1..] == s[1..] + rest;
    var depth' := Nest(s[0], depth);
    if depth' > 0 { ClosesAgain(s[1..], rest, depth'); }
  }

  lemma {:induction false} MarkOver(a: string, b: string)
    ensures FirstMark(a + b) == Or(FirstMark(a), FirstMark(b))
  {
    if a == "" {
      assert a + b == b;
    } else {
      assert (a + b)[1..] == a[1..] + b;
      MarkOver(a[1..], b);
    }
  }

  lemma {:induction false} NoMark(s: string)
    requires forall i :: 0 <= i < |s| ==> s[i] != '{' && s[i] != ']'
    ensures FirstMark(s) == None
  {
    if s != "" { NoMark(s[1..]); }
  }

  lemma MarkOfQuoted(s: string)
    ensures FirstMark("\"" + s + "\"") == FirstMark(s)
  {
    NoMark("\"");
    MarkOver("\"", s);
    MarkOver("\"" + s, "\"");
  }

  lemma MarkOfTag(tag: Tag)
    requires ValidTag(tag)
    ensures FirstMark(PrintTag(tag)) == if tag.Key? then FirstMark(tag.name) else None
  {
    if tag.Key? {
      var colon := tag.mid + ":" + tag.post;
      assert PrintTag(tag) == "\"" + tag.name + "\"" + colon;
      MarkOfQuoted(tag.name);
      NoMark(colon);
      MarkOver("\"" + tag.name + "\"", colon);
    }
  }

  lemma {:induction false} MarkOfValue(v: Json)
    requires Valid(v)
    ensures FirstMark(Print(v)) == Mark(v)
    decreases v, 0
  {
    match v
    case Text(s) => MarkOfQuoted(s);
    case Bare(s) => NoMark(s);
    case Object(members) =>
    case Array(members) =>
      MarkOfMembers(members, false);
      NoMark("[");
      MarkOver("[", PrintMembers(members));
      MarkOver("[" + PrintMembers(members), "]");
  }

  lemma {:induction false} MarkOfMembers(ms: Members, keyed: bool)
    requires ValidMembers(ms, keyed)
    ensures FirstMark(PrintMembers(ms)) == MarkIn(ms)
    decreases ms, 1
  {
    match ms
    case Done(pad) => NoMark(pad);
    case Entry(lead, tag, value, tail, more) =>
      var comma := if more.Entry? then "," else "";
      MarkOfTag(tag);
      MarkOfValue(value);
      MarkOfMembers(more, keyed);
      MarkOfEntry(lead, PrintTag(tag), Print(value), tail + comma, PrintMembers(more));
      EntryText(ms);
  }

  lemma MarkOfEntry(lead: string, tag: string, value: string, comma: string, more: string)
    requires forall i :: 0 <= i < |lead| ==> lead[i] != '{' && lead[i] != ']'
    requires forall i :: 0 <= i < |comma| ==> comma[i] != '{' && comma[i] != ']'
    ensures FirstMark(lead + tag + value + comma + more) == Or(FirstMark(tag), Or(FirstMark(value), FirstMark(more)))
  {
    NoMark(lead);
    NoMark(comma);
    MarkOver(lead, tag);
    MarkOver(lead + tag, value);
    MarkOver(lead + tag + value, comma);
    MarkOver(lead + tag + value + comma, more);
  }

  // ----- Whole responses -----

  /** A top-level object that begins with an empty list of items. */
  function EmptyFirst(siblings: Members): Json {
    Object(Entry("", Key("items", "", ""), Array(Done("")), "", siblings))
  }

  /** The exception happens: such a response is counted right if and only if no object begins among
      the entries after the list before a closing bracket. */
  lemma EmptyListIsMiscountedIff(siblings: Members)
    requires ValidMembers(siblings, true) && Balanced(PrintMembers(siblings))
    ensures ItemCount(Print(EmptyFirst(siblings))) > 0 <==> MarkIn(siblings) == Some('{')
  {
    EmptyFirstText(siblings);
    ItemsAtOne(ListResponse("{", ":", Done(""), Siblings("", siblings, "")), siblings);
    CountsTheItems("{", ":", Done(""), "", siblings, "");
  }

  lemma ItemsAtOne(response: string, siblings: Members)
    requires response == ListResponse("{", ":", Done(""), Siblings("", siblings, ""))
    ensures Find(response, ITEMS, 0) == Some(1)
  {
    assert response[1..1 + |ITEMS|] == ITEMS;
    NoMatchAt(response, ITEMS, 0, 0);
    FoundAt(response, ITEMS, 0, 1);
  }

  lemma EmptyFirstText(siblings: Members)
    ensures Print(EmptyFirst(siblings)) == ListResponse("{", ":", Done(""), Siblings("", siblings, ""))
  {
    var comma, more := if siblings.Entry? then "," else "", PrintMembers(siblings);
    assert PrintTag(Key("items", "", "")) == ITEMS + ":";
    assert Print(Array(Done(""))) == "[]";
    EmptyFirstParts(ITEMS, comma, more);
  }

  lemma EmptyFirstParts(items: string, comma: string, more: string)
    ensures "{" + ("" + (items + ":") + "[]" + "" + comma + more) + "}"
         == "{" + items + ":" + "[" + "" + "]" + ("" + comma + more + ("}" + ""))
  {
  }

  /** An instance: {"items":[],"metadata":{}}, or any other object in the place of the last one, is
      reported as having items. */
  lemma EmptyListMiscounted(name: string, members: Members, siblings: Members)
    requires siblings == Entry("", Key(name, "", ""), Object(members), "", Done(""))
    requires IsPlain(name) && BraceFree(name) && ']' !in name
    requires ValidMembers(members, true) && Balanced(PrintMembers(members))
    ensures Print(EmptyFirst(siblings)) == "{" + ITEMS + ":[],\"" + name + "\":" + Print(Object(members)) + "}"
    ensures ItemCount(Print(EmptyFirst(siblings))) > 0
  {
    LastSibling(name, members, siblings);
    EmptyFirstText(siblings);
    EmptyListParts(ITEMS, name, Print(Object(members)));
    EmptyListIsMiscountedIff(siblings);
  }

  lemma LastSibling(name: string, members: Members, siblings: Members)
    requires siblings == Entry("", Key(name, "", ""), Object(members), "", Done(""))
    requires IsPlain(name) && BraceFree(name) && ']' !in name
    requires ValidMembers(members, true) && Balanced(PrintMembers(members))
    ensures PrintMembers(siblings) == "\"" + name + "\":" + Print(Object(members))
    ensures ValidMembers(siblings, true) && Balanced(PrintMembers(siblings)) && MarkIn(siblings) == Some('{')
  {
    var tag, value := "\"" + name + "\":", Print(Object(members));
    SiblingText(name, value);
    assert PrintMembers(siblings) == tag + value;
    BraceFreeIsBalanced(tag);
    BracedIsBalanced(PrintMembers(members));
    ConcatIsBalanced(tag, value);
    NoMark(name);
    assert Valid(siblings.value) && ValidMembers(siblings.rest, true);
  }

  lemma SiblingText(name: string, value: string)
    ensures "" + PrintTag(Key(name, "", "")) + value + "" + "" + "" == "\"" + name + "\":" + value
  {
  }

  lemma EmptyListParts(items: string, name: string, value: string)
    ensures "{" + items + ":" + "[" + "" + "]" + ("" + "," + ("\"" + name + "\":" + value) + ("}" + ""))
         == "{" + items + ":[],\"" + name + "\":" + value + "}"
  {
  }

  // ----- Where the premises fail -----

  /** Without a bracket after `items`, as in {"items":null}, nothing is counted. */
  lemma NoArray(response: string)
    requires var found := Find(response, ITEMS, 0); found.Some? ==> '[' !in response[found.value..]
    ensures ItemCount(response) == 0
  {
    var found := Find(response, ITEMS, 0);
    if found.Some? { NoBracket(response, found.value); }
  }

  lemma NoBracket(s: string, from: nat)
    requires from <= |s| && '[' !in s[from..]
    ensures Find(s, "[", from) == None
  {
    forall q: nat | from <= q <= |s| - 1
      ensures !OccursAt(s, "[", q)
    {
      assert s[q] == s[from..][q - from];
      NoMatchAt(s, "[", q, 0);
    }
    NotFound(s, "[", from);
  }

  /** The array that is counted need not be the value of `items`: after {"items":null it is the next
      one, whichever entry it belongs to. */
  lemma NullItemsMiscounted(before: string, others: string, ms: Members, beyond: string)
    requires ValidMembers(ms, false) && AllObjects(ms) && ms.Entry? && '[' !in others
    requires Find(ListResponse(before, ":null," + others, ms, beyond), ITEMS, 0) == Some(|before|)
    ensures ItemCount(ListResponse(before, ":null," + others, ms, beyond)) == Length(ms) > 0
  {
    CountOfArray(before, ":null," + others, ms, beyond);
  }

  /** When a string in the first element opens a brace that only the end of the response closes, the
      whole list counts as one item, however long it is. */
  lemma OpenBraceMergesItems(before: string, gap: string, ms: Members, inside: string)
    requires '[' !in gap && PrintMembers(ms) == "{" + inside && Balanced(inside + "]")
    requires Find(ListResponse(before, gap, ms, "}"), ITEMS, 0) == Some(|before|)
    ensures ItemCount(ListResponse(before, gap, ms, "}")) == 1
  {
    StartOfArray(before, gap, ms, "}");
    var rest := (inside + "]") + ("}" + "");
    assert PrintMembers(ms) + ("]" + "}") == "{" + rest;
    CloseIff(inside + "]", "");
    ScanToClose(rest, 1);
    ScanOpen(rest);
  }

  lemma ScanOpen(rest: string)
    ensures Scan("{" + rest, 0) == Scan(rest, 1)
  {
    assert ("{" + rest)[1..] == rest;
  }

  /** An instance: the two items of {"items":[{"x":"{"},{"y":"z"}]} count as one; in general two objects
      of which the first has one opening brace too many. */
  lemma TwoItemsMerged(before: string, gap: string, first: Members, second: Members, ms: Members)
    requires Depth(PrintMembers(first), 0) == Some(1) && Balanced(PrintMembers(second)) && '[' !in gap
    requires ms == Entry("", Element, Object(first), "", Entry("", Element, Object(second), "", Done("")))
    requires Find(ListResponse(before, gap, ms, "}"), ITEMS, 0) == Some(|before|)
    ensures Length(ms) == 2 && ItemCount(ListResponse(before, gap, ms, "}")) == 1
  {
    var one, two := PrintMembers(first), PrintMembers(second);
    var inside := one + "}" + "," + ("{" + two + "}");
    assert Length(ms.rest) == 1;
    TwoItemsText(first, second, ms);
    TwoItemsParts(one, two);
    MergedIsBalanced(one, two);
    OpenBraceMergesItems(before, gap, ms, inside);
  }

  lemma TwoItemsText(first: Members, second: Members, ms: Members)
    requires ms == Entry("", Element, Object(first), "", Entry("", Element, Object(second), "", Done("")))
    ensures PrintMembers(ms) == Print(Object(first)) + "," + Print(Object(second))
  {
    var one, two := Print(Object(first)), Print(Object(second));
    assert "" + "" + two + "" + "" + "" == two;
    assert PrintMembers(ms.rest) == two;
    assert "" + "" + one + "" + "," + two == one + "," + two;
  }

  lemma TwoItemsParts(one: string, two: string)
    ensures "{" + one + "}" + "," + ("{" + two + "}") == "{" + (one + "}" + "," + ("{" + two + "}"))
  {
  }

  lemma MergedIsBalanced(one: string, two: string)
    requires Depth(one, 0) == Some(1) && Balanced(two)
    ensures Balanced(one + "}" + "," + ("{" + two + "}") + "]")
  {
    DepthOver(one, "}", 0);
    BraceFreeIsBalanced(",");
    BraceFreeIsBalanced("]");
    BracedIsBalanced(two);
    assert Depth("}", 1) == Depth("}"[1..], 0) == Some(0);
    ConcatIsBalanced(one + "}", ",");
    ConcatIsBalanced(one + "}" + ",", "{" + two + "}");
    ConcatIsBalanced(one + "}" + "," + ("{" + two + "}"), "]");
  }
}
