/** What the text-level extractors return on the text of a JSON tree, in terms of the tree. */
module JsonLookup {
  import opened Text
  import opened JsonTree
  import opened JsonUtils

  predicate Fits(shape: Shape, v: Json) {
    match shape
    case Anything => true
    case Raw => true
    case Braced => v.Object?
    case Quoted => v.Text? && v.s != ""
  }

  /** The value of the first entry, in document order and at any depth, that has this key and shape. */
  function First(v: Json, key: string, shape: Shape): (r: Option<Json>)
    ensures r.Some? ==> Fits(shape, r.value)
  {
    match v
    case Object(members) => FirstIn(members, key, shape)
    case Array(members) => FirstIn(members, key, shape)
    case _ => None
  }

  function FirstIn(ms: Members, key: string, shape: Shape): (r: Option<Json>)
    ensures r.Some? ==> Fits(shape, r.value)
  {
    match ms
    case Done(_) => None
    case Entry(_, tag, value, _, rest) =>
      if tag.Key? && tag.name == key && Fits(shape, value) then Some(value)
      else
        var inside := First(value, key, shape);
        if inside.Some? then inside else FirstIn(rest, key, shape)
  }

  // ----- Searching past the tokens of a document -----

  lemma NoMatchWithoutQuote(s: string, key: string, shape: Shape)
    requires s != "" && s[0] != '"'
    ensures Search(s, key, shape) == Search(s[1..], key, shape)
  {
  }

  lemma SkipQuoteFree(p: string, rest: string, key: string, shape: Shape)
    requires forall i :: 0 <= i < |p| ==> p[i] != '"'
    ensures Search(p + rest, key, shape) == Search(rest, key, shape)
  {
    if p == "" {
      assert p + rest == rest;
    } else {
      assert (p + rest)[1..] == p[1..] + rest;
      NoMatchWithoutQuote(p + rest, key, shape);
      SkipQuoteFree(p[1..], rest, key, shape);
    }
  }

  /** A quoted text is stepped over when it is not the key with a colon after it. */
  lemma SkipQuoted(name: string, rest: string, key: string, shape: Shape)
    requires IsPlain(name) && IsKey(key)
    requires rest != "" ==> !IsKeyChar(rest[0])
    requires MatchHere("\"" + name + "\"" + rest, key, shape) == None
    ensures Search("\"" + name + "\"" + rest, key, shape) == Search(rest, key, shape)
  {
    var text := "\"" + name + "\"" + rest;
    assert text[1..] == name + ("\"" + rest);
    SkipQuoteFree(name, "\"" + rest, key, shape);
    assert ("\"" + rest)[1..] == rest;
    var quoted := "\"" + key + "\"";
    assert !(quoted <= "\"" + rest) by {
      assert quoted[1] == key[0];
      assert rest != "" ==> ("\"" + rest)[1] == rest[0];
    }
  }

  /** A quoted text is the quoted key only when it is equal to the key. */
  lemma QuotedPrefix(name: string, rest: string, key: string)
    requires IsPlain(name) && IsKey(key) && "\"" + key + "\"" <= "\"" + name + "\"" + rest
    ensures name == key
  {
    var quoted, text := "\"" + key + "\"", "\"" + name + "\"" + rest;
    assert text[1..] == name + ("\"" + rest);
    assert text[1..] == key + ("\"" + text[|quoted|..]);
    UntilQuoteOfPlain(name, rest);
    UntilQuoteOfPlain(key, text[|quoted|..]);
  }

  lemma SkipText(s: string, rest: string, key: string, shape: Shape)
    requires IsPlain(s) && IsKey(key) && Delimits(rest)
    ensures Search("\"" + s + "\"" + rest, key, shape) == Search(rest, key, shape)
  {
    var text := "\"" + s + "\"" + rest;
    if "\"" + key + "\"" <= text {
      QuotedPrefix(s, rest, key);
      assert text[|s| + 2..] == rest;
    }
    SkipQuoted(s, rest, key, shape);
  }

  lemma AfterColonOfTag(tag: Tag, next: string, key: string)
    requires tag.Key? && ValidTag(tag) && IsKey(key)
    ensures AfterColon(PrintTag(tag) + next, key) == if tag.name == key then Some(tag.post + next) else None
  {
    var after := tag.mid + (":" + (tag.post + next));
    TagText(tag, next);
    var text := "\"" + tag.name + "\"" + after;
    if "\"" + key + "\"" <= text {
      QuotedPrefix(tag.name, after, key);
    }
    if tag.name == key {
      assert text[|key| + 2..] == after;
      SkipBlank(tag.mid, ":" + (tag.post + next));
      assert (":" + (tag.post + next))[1..] == tag.post + next;
    }
  }

  lemma TagText(tag: Tag, next: string)
    requires tag.Key?
    ensures PrintTag(tag) + next == "\"" + tag.name + "\"" + (tag.mid + (":" + (tag.post + next)))
  {
  }

  /** The first character of a value tells its kind. */
  lemma FirstChar(v: Json, after: string)
    requires Valid(v)
    ensures var text := Print(v) + after;
            && text != "" && !IsSpace(text[0]) && text[0] != ',' && text[0] != '}'
            && (text[0] == '"' <==> v.Text?) && (text[0] == '{' <==> v.Object?)
  {
  }

  /** A value right after the white space of its tag is matched by the shapes it fits. */
  lemma ShapeOfValue(post: string, v: Json, after: string, shape: Shape)
    requires IsBlank(post) && Valid(v)
    ensures MatchShape(post + (Print(v) + after), shape) == if Fits(shape, v) then Some(Print(v) + after) else None
  {
    FirstChar(v, after);
    SkipBlank(post, Print(v) + after);
    if v.Text? {
      QuotedText(v.s, after);
    }
  }

  lemma QuotedText(s: string, after: string)
    requires IsPlain(s)
    ensures UntilQuote(("\"" + s + "\"" + after)[1..]) == s
  {
    assert ("\"" + s + "\"" + after)[1..] == s + ("\"" + after);
    UntilQuoteOfPlain(s, after);
  }

  lemma UntilQuoteOfPlain(s: string, after: string)
    requires IsPlain(s)
    ensures UntilQuote(s + ("\"" + after)) == s
  {
    if s == "" {
      assert s + ("\"" + after) == "\"" + after;
    } else {
      assert (s + ("\"" + after))[1..] == s[1..] + ("\"" + after);
      UntilQuoteOfPlain(s[1..], after);
      assert s == [s[0]] + s[1..];
    }
  }

  lemma SkipTag(tag: Tag, v: Json, after: string, key: string, shape: Shape)
    requires ValidTag(tag) && Valid(v) && IsKey(key)
    requires !(tag.Key? && tag.name == key && Fits(shape, v))
    ensures Search(PrintTag(tag) + (Print(v) + after), key, shape) == Search(Print(v) + after, key, shape)
  {
    var next := Print(v) + after;
    if tag.Element? {
      assert PrintTag(tag) + next == next;
    } else {
      AfterColonOfTag(tag, next, key);
      ShapeOfValue(tag.post, v, after, shape);
      SkipKey(tag, next, key, shape);
    }
  }

  lemma SkipKey(tag: Tag, next: string, key: string, shape: Shape)
    requires tag.Key? && ValidTag(tag) && IsKey(key)
    requires MatchHere(PrintTag(tag) + next, key, shape) == None
    ensures Search(PrintTag(tag) + next, key, shape) == Search(next, key, shape)
  {
    TagText(tag, next);
    var colon := ":" + (tag.post + next);
    assert (tag.mid + colon)[0] == if tag.mid == "" then ':' else tag.mid[0];
    SkipQuoted(tag.name, tag.mid + colon, key, shape);
    SkipQuoteFree(tag.mid, colon, key, shape);
    SkipQuoteFree(":", tag.post + next, key, shape);
    SkipQuoteFree(tag.post, next, key, shape);
  }

  lemma FindTag(tag: Tag, v: Json, after: string, key: string, shape: Shape)
    requires ValidTag(tag) && Valid(v) && IsKey(key)
    requires tag.Key? && tag.name == key && Fits(shape, v)
    ensures Search(PrintTag(tag) + (Print(v) + after), key, shape) == Some(Print(v) + after)
  {
    AfterColonOfTag(tag, Print(v) + after, key);
    ShapeOfValue(tag.post, v, after, shape);
    assert MatchHere(PrintTag(tag) + (Print(v) + after), key, shape) == Some(Print(v) + after);
  }

  // ----- Searching a whole document -----

  /** What follows the value of an entry of an object: white space, then a comma or closing brace. */
  ghost predicate Separates(after: string) {
    IsBlank(UntilSeparator(after)) && |UntilSeparator(after)| < |after|
  }

  lemma UntilSeparatorOf(p: string, rest: string)
    requires forall i :: 0 <= i < |p| ==> p[i] != ',' && p[i] != '}'
    ensures UntilSeparator(p + rest) == p + UntilSeparator(rest)
  {
    if p == "" {
      assert p + rest == rest;
    } else {
      assert (p + rest)[1..] == p[1..] + rest;
      UntilSeparatorOf(p[1..], rest);
    }
  }

  lemma AfterSeparates(ms: Members, rest: string)
    requires ms.Entry? && ValidMembers(ms, true) && rest != "" && rest[0] == '}'
    ensures Separates(After(ms, rest))
  {
    var comma := if ms.rest.Entry? then "," else "";
    var next := comma + (PrintMembers(ms.rest) + rest);
    UntilSeparatorOf(ms.tail, next);
    if ms.rest.Entry? {
      assert next[0] == ',';
      assert UntilSeparator(next) == "";
    } else {
      assert next == ms.rest.pad + rest;
      UntilSeparatorOf(ms.rest.pad, rest);
      assert UntilSeparator(rest) == "";
    }
  }

  /** `found` is the result of a search that ends at the value `first`, or goes on into `beyond`. */
  ghost predicate Agrees(found: Option<string>, first: Option<Json>, beyond: Option<string>) {
    match first
    case None => found == beyond
    case Some(v) => exists after :: Separates(after) && found == Some(Print(v) + after)
  }

  lemma {:induction false} SearchValue(v: Json, rest: string, key: string, shape: Shape)
    requires Valid(v) && IsKey(key) && Delimits(rest)
    ensures Agrees(Search(Print(v) + rest, key, shape), First(v, key, shape), Search(rest, key, shape))
    decreases v, 0
  {
    match v
    case Text(s) => SkipText(s, rest, key, shape);
    case Bare(s) => SkipQuoteFree(s, rest, key, shape);
    case Object(members) =>
      Bracketed(members, rest);
      SkipQuoteFree("{", PrintMembers(members) + ("}" + rest), key, shape);
      SearchMembers(members, true, "}" + rest, key, shape);
      SkipQuoteFree("}", rest, key, shape);
    case Array(members) =>
      Bracketed(members, rest);
      SkipQuoteFree("[", PrintMembers(members) + ("]" + rest), key, shape);
      SearchMembers(members, false, "]" + rest, key, shape);
      SkipQuoteFree("]", rest, key, shape);
  }

  lemma {:induction false} SearchMembers(ms: Members, keyed: bool, rest: string, key: string, shape: Shape)
    requires ValidMembers(ms, keyed) && IsKey(key)
    requires rest != "" && rest[0] == if keyed then '}' else ']'
    ensures Agrees(Search(PrintMembers(ms) + rest, key, shape), FirstIn(ms, key, shape), Search(rest, key, shape))
    decreases ms, 1
  {
    match ms
    case Done(pad) => SkipQuoteFree(pad, rest, key, shape);
    case Entry(lead, tag, value, tail, more) =>
      var after := After(ms, rest);
      UnfoldEntry(ms, rest);
      AfterDelimits(ms, keyed, rest);
      SkipQuoteFree(lead, PrintTag(tag) + (Print(value) + after), key, shape);
      if tag.Key? && tag.name == key && Fits(shape, value) {
        FindTag(tag, value, after, key, shape);
        AfterSeparates(ms, rest);
      } else {
        SkipTag(tag, value, after, key, shape);
        SearchValue(value, after, key, shape);
        if First(value, key, shape).None? {
          SkipAfter(ms, rest, key, shape);
          SearchMembers(more, keyed, rest, key, shape);
        }
      }
  }

  lemma SkipAfter(ms: Members, rest: string, key: string, shape: Shape)
    requires ms.Entry? && IsBlank(ms.tail)
    ensures Search(After(ms, rest), key, shape) == Search(PrintMembers(ms.rest) + rest, key, shape)
  {
    var comma := if ms.rest.Entry? then "," else "";
    SkipQuoteFree(ms.tail, comma + (PrintMembers(ms.rest) + rest), key, shape);
    SkipQuoteFree(comma, PrintMembers(ms.rest) + rest, key, shape);
  }

  lemma {:induction false} FirstIsValid(v: Json, key: string, shape: Shape)
    requires Valid(v) && First(v, key, shape).Some?
    ensures Valid(First(v, key, shape).value) && (Steady(v) ==> Steady(First(v, key, shape).value))
    decreases v, 0
  {
    match v
    case Object(members) => FirstInIsValid(members, true, key, shape);
    case Array(members) => FirstInIsValid(members, false, key, shape);
  }

  lemma {:induction false} FirstInIsValid(ms: Members, keyed: bool, key: string, shape: Shape)
    requires ValidMembers(ms, keyed) && FirstIn(ms, key, shape).Some?
    ensures var r := FirstIn(ms, key, shape).value; Valid(r) && (SteadyMembers(ms) ==> Steady(r))
    decreases ms, 1
  {
    var Entry(_, tag, value, _, rest) := ms;
    if tag.Key? && tag.name == key && Fits(shape, value) {
    } else if First(value, key, shape).Some? {
      FirstIsValid(value, key, shape);
    } else {
      FirstInIsValid(rest, keyed, key, shape);
    }
  }

  lemma SearchDocument(v: Json, key: string, shape: Shape)
    requires Valid(v) && IsKey(key)
    ensures Agrees(Search(Print(v), key, shape), First(v, key, shape), None)
  {
    assert Print(v) + "" == Print(v);
    SearchValue(v, "", key, shape);
  }

  // ----- The extractors on trees -----

  /** The raw text of a value, cut at its first comma or closing brace. */
  function RawText(v: Json): string {
    TrimRight(TrimLeft(UntilSeparator(Print(v))))
  }

  function TreeValue(v: Json, key: string): string {
    match First(v, key, Quoted)
    case Some(text) => text.s
    case None => match First(v, key, Raw) case Some(value) => RawText(value) case None => ""
  }

  function TreeNested(v: Json, keys: seq<string>): string
    requires keys != []
    decreases |keys|
  {
    if |keys| == 1 then TreeValue(v, keys[0])
    else match First(v, keys[0], Braced) case Some(nested) => TreeNested(nested, keys[1..]) case None => ""
  }

  function Path(keys: seq<string>): string
    requires keys != []
  {
    if |keys| == 1 then keys[0] else keys[0] + "." + Path(keys[1..])
  }

  lemma TrimRightBlank(s: string, blank: string)
    requires IsBlank(blank)
    ensures TrimRight(s + blank) == TrimRight(s)
  {
    if blank == "" {
      assert s + blank == s;
    } else {
      assert (s + blank)[..|s + blank| - 1] == s + blank[..|blank| - 1];
      TrimRightBlank(s, blank[..|blank| - 1]);
    }
  }

  lemma RawTextIsTrimmed(v: Json, after: string)
    requires Valid(v) && Separates(after)
    ensures TrimRight(TrimLeft(UntilSeparator(Print(v) + after))) == RawText(v)
  {
    FirstChar(v, "");
    assert Print(v) + "" == Print(v);
    var p := Print(v);
    SeparatorFree(p);
    if UntilSeparator(p) == p {
      UntilSeparatorOf(p, after);
      TrimPadded(p, UntilSeparator(after));
    } else {
      CutAtSeparator(p, after);
    }
  }

  lemma TrimPadded(p: string, blank: string)
    requires p != "" && !IsTrimmed(p[0]) && IsBlank(blank)
    ensures TrimRight(TrimLeft(p + blank)) == TrimRight(TrimLeft(p))
  {
    assert (p + blank)[0] == p[0];
    TrimRightBlank(p, blank);
  }

  lemma CutAtSeparator(p: string, after: string)
    requires |UntilSeparator(p)| < |p|
    ensures UntilSeparator(p + after) == UntilSeparator(p)
  {
    if p[0] != ',' && p[0] != '}' {
      assert (p + after)[1..] == p[1..] + after;
      CutAtSeparator(p[1..], after);
    }
  }

  lemma SeparatorFree(s: string)
    ensures forall i :: 0 <= i < |UntilSeparator(s)| ==> s[i] != ',' && s[i] != '}'
    ensures |UntilSeparator(s)| < |s| ==> s[|UntilSeparator(s)|] == ',' || s[|UntilSeparator(s)|] == '}'
  {
  }

  lemma JsonValueOnTree(v: Json, key: string)
    requires Valid(v) && IsKey(key)
    ensures JsonValue(Print(v), key) == TreeValue(v, key)
  {
    SearchDocument(v, key, Quoted);
    SearchDocument(v, key, Raw);
    if First(v, key, Quoted).Some? {
      var text := First(v, key, Quoted).value;
      FirstIsValid(v, key, Quoted);
      var after :| Search(Print(v), key, Quoted) == Some(Print(text) + after);
      QuotedText(text.s, after);
    } else if First(v, key, Raw).Some? {
      var value := First(v, key, Raw).value;
      FirstIsValid(v, key, Raw);
      var after :| Separates(after) && Search(Print(v), key, Raw) == Some(Print(value) + after);
      RawTextIsTrimmed(value, after);
    }
  }

  /** The text handed to the recursion is the text of the first object under the key exactly when the
      braces between those of that object are balanced, those in its strings and keys included. */
  lemma ObjectTextOnTree(v: Json, key: string)
    requires Valid(v) && IsKey(key)
    ensures First(v, key, Braced) == None ==> ObjectText(Print(v), key) == None
    ensures First(v, key, Braced).Some? ==>
              var nested := First(v, key, Braced).value;
              ObjectText(Print(v), key) == Some(Print(nested)) <==> Balanced(PrintMembers(nested.members))
  {
    SearchDocument(v, key, Braced);
    if First(v, key, Braced).Some? {
      var nested := First(v, key, Braced).value;
      var after :| Search(Print(v), key, Braced) == Some(Print(nested) + after);
      CloseObjectIff(nested.members, after);
      CutIff(Print(nested), after);
    }
  }

  lemma CutIff(head: string, after: string)
    requires head != ""
    ensures UpToMatchingBrace(head + after) == Some(head) <==> Close((head + after)[1..], 1) == Some(after)
  {
  }

  /** The braces of each object that the path leads into are balanced. */
  predicate MatchedOnPath(v: Json, keys: seq<string>)
    decreases |keys|
  {
    |keys| > 1 && First(v, keys[0], Braced).Some? ==>
      var nested := First(v, keys[0], Braced).value;
      Balanced(PrintMembers(nested.members)) && MatchedOnPath(nested, keys[1..])
  }

  /** It is enough that the braces within each key and string are. */
  lemma {:induction false} SteadyIsMatched(v: Json, keys: seq<string>)
    requires Valid(v) && Steady(v)
    ensures MatchedOnPath(v, keys)
    decreases |keys|
  {
    if |keys| > 1 && First(v, keys[0], Braced).Some? {
      FirstIsValid(v, keys[0], Braced);
      var nested := First(v, keys[0], Braced).value;
      SteadyMembersBalance(nested.members, true);
      SteadyIsMatched(nested, keys[1..]);
    }
  }

  /** On the text of any document, nested extraction is the descent by first entries. */
  lemma {:induction false} NestedValueOnTree(v: Json, keys: seq<string>)
    requires Valid(v) && keys != [] && forall k :: k in keys ==> IsKey(k)
    requires MatchedOnPath(v, keys)
    ensures NestedValue(Print(v), Path(keys)) == TreeNested(v, keys)
    decreases |keys|
  {
    FirstDot(keys);
    if |keys| == 1 {
      JsonValueOnTree(v, keys[0]);
    } else {
      var path := Path(keys);
      assert path[..|keys[0]|] == keys[0] && path[|keys[0]| + 1..] == Path(keys[1..]);
      ObjectTextOnTree(v, keys[0]);
      if First(v, keys[0], Braced).Some? {
        FirstIsValid(v, keys[0], Braced);
        NestedValueOnTree(First(v, keys[0], Braced).value, keys[1..]);
      }
    }
  }

  lemma FirstDot(keys: seq<string>)
    requires keys != [] && IsKey(keys[0])
    ensures |keys| == 1 ==> IsKey(Path(keys)) && Find(Path(keys), ".", 0) == None
    ensures |keys| > 1 ==> Find(Path(keys), ".", 0) == Some(|keys[0]|)
  {
    var path := Path(keys);
    forall q: nat | q < |keys[0]|
      ensures !OccursAt(path, ".", q)
    {
      assert path[q] == keys[0][q];
      NoMatchAt(path, ".", q, 0);
    }
    if |keys| > 1 {
      assert path[|keys[0]|..|keys[0]| + 1] == ".";
      FoundAt(path, ".", 0, |keys[0]|);
    } else {
      NotFound(path, ".", 0);
    }
  }

  /** A key with nothing but white space before the next separator: the search stops there, because
      the last white space is taken for the value, which trimming then empties. */
  lemma BlankValue(text: string, key: string, gap: string, last: char, rest: string)
    requires IsKey(key) && IsBlank(gap) && IsBlank([last])
    requires rest != "" && (rest[0] == ',' || rest[0] == '}')
    requires text == PrintTag(Key(key, "", "")) + ((gap + [last]) + rest)
    ensures Search(text, key, Raw) == Some([last] + rest)
    ensures TrimRight(TrimLeft(UntilSeparator([last] + rest))) == ""
  {
    BlankMatches(key, gap, last, rest);
    BlankIsTrimmed(last, rest);
    assert MatchHere(text, key, Raw) == Some([last] + rest);
  }

  lemma BlankMatches(key: string, gap: string, last: char, rest: string)
    requires IsKey(key) && IsBlank(gap) && IsBlank([last])
    requires rest != "" && (rest[0] == ',' || rest[0] == '}')
    ensures MatchHere(PrintTag(Key(key, "", "")) + ((gap + [last]) + rest), key, Raw) == Some([last] + rest)
  {
    var u := (gap + [last]) + rest;
    AfterColonOfTag(Key(key, "", ""), u, key);
    assert "" + u == u;
    BlankShape(gap + [last], rest);
    LastBlank(gap, last, rest);
  }

  lemma BlankShape(space: string, rest: string)
    requires IsBlank(space) && space != "" && rest != "" && (rest[0] == ',' || rest[0] == '}')
    ensures MatchShape(space + rest, Raw) == Some((space + rest)[|space| - 1..])
  {
    SkipBlank(space, rest);
    GivenBack(space + rest, rest);
  }

  lemma GivenBack(u: string, rest: string)
    requires rest != "" && (rest[0] == ',' || rest[0] == '}') && SkipSpace(u) == SkipSpace(rest) && |rest| < |u|
    ensures MatchShape(u, Raw) == Some(u[|u| - |rest| - 1..])
  {
    assert SkipSpace(rest) == rest && UntilSeparator(rest) == "";
  }

  lemma LastBlank(gap: string, last: char, rest: string)
    ensures ((gap + [last]) + rest)[|gap|..] == [last] + rest
  {
  }

  lemma BlankIsTrimmed(last: char, rest: string)
    requires IsBlank([last]) && rest != "" && (rest[0] == ',' || rest[0] == '}')
    ensures TrimRight(TrimLeft(UntilSeparator([last] + rest))) == ""
  {
  }

  /** How many entries, at any depth, have this key. */
  function Count(v: Json, key: string): nat {
    match v
    case Object(members) => CountIn(members, key)
    case Array(members) => CountIn(members, key)
    case _ => 0
  }

  function CountIn(ms: Members, key: string): nat {
    match ms
    case Done(_) => 0
    case Entry(_, tag, value, _, rest) =>
      (if tag.Key? && tag.name == key then 1 else 0) + Count(value, key) + CountIn(rest, key)
  }

  lemma {:induction false} NoneCounted(v: Json, key: string, shape: Shape)
    ensures Count(v, key) == 0 ==> First(v, key, shape) == None
    ensures Count(v, key) > 0 <==> First(v, key, Anything).Some?
    decreases v, 0
  {
    match v
    case Object(members) => NoneCountedIn(members, key, shape);
    case Array(members) => NoneCountedIn(members, key, shape);
    case _ =>
  }

  lemma {:induction false} NoneCountedIn(ms: Members, key: string, shape: Shape)
    ensures CountIn(ms, key) == 0 ==> FirstIn(ms, key, shape) == None
    ensures CountIn(ms, key) > 0 <==> FirstIn(ms, key, Anything).Some?
    decreases ms, 1
  {
    match ms
    case Done(_) =>
    case Entry(_, _, value, _, rest) =>
      NoneCounted(value, key, shape);
      NoneCountedIn(rest, key, shape);
  }

  /** `jsonHasKey` tells exactly whether some entry, at any depth, has the key. */
  lemma HasKeyOnTree(v: Json, key: string)
    requires Valid(v) && IsKey(key)
    ensures JsonHasKey(Print(v), key) <==> Count(v, key) > 0
  {
    SearchDocument(v, key, Anything);
    NoneCounted(v, key, Anything);
  }
}
