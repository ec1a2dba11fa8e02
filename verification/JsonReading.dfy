/** When the extractors return what a JSON reader would. */
module JsonReading {
  import opened Text
  import opened JsonTree
  import opened JsonUtils
  import opened JsonLookup

  function MemberOf(ms: Members, key: string): Option<Json> {
    match ms
    case Done(_) => None
    case Entry(_, tag, value, _, rest) =>
      if tag.Key? && tag.name == key then Some(value) else MemberOf(rest, key)
  }

  /** The value at a path of keys, as JSON means it. */
  function Lookup(v: Json, keys: seq<string>): Option<Json>
    decreases |keys|
  {
    if keys == [] then Some(v)
    else if !v.Object? then None
    else match MemberOf(v.members, keys[0]) case Some(value) => Lookup(value, keys[1..]) case None => None
  }

  predicate IsScalar(v: Json) {
    v.Text? || v.Bare?
  }

  /** The object in which the last key of the path is looked up: the descent by first objects. */
  function FirstObject(v: Json, keys: seq<string>): Option<Json>
    requires keys != []
    decreases |keys|
  {
    if |keys| == 1 then Some(v)
    else match First(v, keys[0], Braced) case Some(nested) => FirstObject(nested, keys[1..]) case None => None
  }

  /** The first non-empty string under the key has this text; where no such string is under the key,
      the raw text of the first entry is the text. */
  predicate FirstHasText(v: Json, key: string, text: string) {
    match First(v, key, Quoted)
    case Some(found) => found.s == text
    case None => First(v, key, Raw).Some? && RawText(First(v, key, Raw).value) == text
  }

  /** Nested extraction returns the text of the scalar at the path if and only if the first entries
      in document order lead to that text. The empty string is returned only when there is no such
      entry: for a member that is empty the code gives the two quotes around it. */
  lemma {:induction false} ExtractionIsRightIff(v: Json, keys: seq<string>)
    requires Valid(v) && keys != [] && forall k :: k in keys ==> IsKey(k)
    requires MatchedOnPath(v, keys)
    requires Lookup(v, keys).Some? && IsScalar(Lookup(v, keys).value)
    ensures var text, found := Lookup(v, keys).value.s, FirstObject(v, keys);
            NestedValue(Print(v), Path(keys)) == text
            <==> if text != "" then found.Some? && FirstHasText(found.value, keys[|keys| - 1], text)
                 else found.None? || First(found.value, keys[|keys| - 1], Raw).None?
  {
    NestedValueOnTree(v, keys);
    if Lookup(v, keys).value.s != "" {
      DescentIff(v, keys, Lookup(v, keys).value.s);
    } else {
      DescentIsEmptyIff(v, keys);
    }
  }

  /** What callers test: the value is empty if and only if the object that the path leads to does not
      exist or has no entry, at any depth, with the last key. */
  lemma EmptyValueIff(v: Json, keys: seq<string>)
    requires Valid(v) && keys != [] && forall k :: k in keys ==> IsKey(k)
    requires MatchedOnPath(v, keys)
    ensures var found := FirstObject(v, keys);
            NestedValue(Print(v), Path(keys)) == "" <==> found.None? || Count(found.value, keys[|keys| - 1]) == 0
  {
    NestedValueOnTree(v, keys);
    DescentIsEmptyIff(v, keys);
    if FirstObject(v, keys).Some? {
      RawIsAnything(FirstObject(v, keys).value, keys[|keys| - 1]);
      NoneCounted(FirstObject(v, keys).value, keys[|keys| - 1], Raw);
    }
  }

  lemma {:induction false} RawIsAnything(v: Json, key: string)
    ensures First(v, key, Raw) == First(v, key, Anything)
    decreases v, 0
  {
    match v
    case Object(members) => RawIsAnythingIn(members, key);
    case Array(members) => RawIsAnythingIn(members, key);
    case _ =>
  }

  lemma {:induction false} RawIsAnythingIn(ms: Members, key: string)
    ensures FirstIn(ms, key, Raw) == FirstIn(ms, key, Anything)
    decreases ms, 1
  {
    if ms.Entry? {
      RawIsAnything(ms.value, key);
      RawIsAnythingIn(ms.rest, key);
    }
  }

  lemma {:induction false} DescentIsEmptyIff(v: Json, keys: seq<string>)
    requires Valid(v) && keys != []
    ensures var found := FirstObject(v, keys);
            TreeNested(v, keys) == "" <==> found.None? || First(found.value, keys[|keys| - 1], Raw).None?
    decreases |keys|
  {
    if |keys| > 1 {
      var nested := First(v, keys[0], Braced);
      assert keys[1..][|keys| - 2] == keys[|keys| - 1];
      if nested.Some? {
        FirstIsValid(v, keys[0], Braced);
        DescentIsEmptyIff(nested.value, keys[1..]);
      }
    } else {
      TreeValueIsEmptyIff(v, keys[0]);
    }
  }

  lemma TreeValueIsEmptyIff(v: Json, key: string)
    requires Valid(v)
    ensures TreeValue(v, key) == "" <==> First(v, key, Raw).None?
  {
    if First(v, key, Quoted).Some? { QuotedIsRaw(v, key); }
    if First(v, key, Raw).Some? {
      FirstIsValid(v, key, Raw);
      RawTextStarts(First(v, key, Raw).value);
    }
  }

  lemma {:induction false} QuotedIsRaw(v: Json, key: string)
    requires First(v, key, Quoted).Some?
    ensures First(v, key, Raw).Some?
    decreases v, 0
  {
    QuotedIsRawIn(v.members, key);
  }

  lemma {:induction false} QuotedIsRawIn(ms: Members, key: string)
    requires FirstIn(ms, key, Quoted).Some?
    ensures FirstIn(ms, key, Raw).Some?
    decreases ms, 1
  {
    if First(ms.value, key, Quoted).Some? { QuotedIsRaw(ms.value, key); }
    if FirstIn(ms.rest, key, Quoted).Some? { QuotedIsRawIn(ms.rest, key); }
  }

  lemma {:induction false} DescentIff(v: Json, keys: seq<string>, text: string)
    requires keys != [] && text != ""
    ensures var found := FirstObject(v, keys);
            TreeNested(v, keys) == text <==> found.Some? && FirstHasText(found.value, keys[|keys| - 1], text)
    decreases |keys|
  {
    if |keys| > 1 {
      var nested := First(v, keys[0], Braced);
      assert keys[1..][|keys| - 2] == keys[|keys| - 1];
      if nested.Some? { DescentIff(nested.value, keys[1..], text); }
    }
  }

  lemma {:induction false} LookupIsValid(v: Json, keys: seq<string>)
    requires Valid(v) && Lookup(v, keys).Some?
    ensures Valid(Lookup(v, keys).value)
    decreases |keys|
  {
    if keys != [] {
      MemberIsValid(v.members, keys[0]);
      LookupIsValid(MemberOf(v.members, keys[0]).value, keys[1..]);
    }
  }

  lemma {:induction false} MemberIsValid(ms: Members, key: string)
    requires ValidMembers(ms, true) && MemberOf(ms, key).Some?
    ensures Valid(MemberOf(ms, key).value)
  {
    if !(ms.tag.Key? && ms.tag.name == key) { MemberIsValid(ms.rest, key); }
  }

  /** A path with a dot in it, even at its start, gives nothing on a text without an object. */
  lemma NoObjectNoValue(json: string, path: string)
    requires Find(path, ".", 0).Some? && '{' !in json
    ensures NestedValue(json, path) == ""
  {
    ObjectNeedsBrace(json, path[..Find(path, ".", 0).value]);
  }

  lemma ObjectNeedsBrace(json: string, key: string)
    ensures Search(json, key, Braced).Some? ==> '{' in json
  {
    if Search(json, key, Braced).Some? {
      var found := Search(json, key, Braced).value;
      assert json[|json| - |found|] == found[0];
    }
  }

  // ----- A single key -----

  /** Raw text tells a number or a literal from every value that is not a non-empty string. */
  lemma RawTextTells(w: Json, leaf: Json)
    requires Valid(w) && Valid(leaf) && !Fits(Quoted, w) && leaf.Bare?
    ensures RawText(w) == leaf.s <==> w == leaf
  {
    if w.Bare? { RawTextOfBare(w); } else { RawTextStarts(w); }
  }

  lemma RawTextOfBare(v: Json)
    requires Valid(v) && v.Bare?
    ensures RawText(v) == v.s
  {
    assert v.s + "" == v.s;
    UntilSeparatorOf(v.s, "");
  }

  lemma RawTextStarts(v: Json)
    requires Valid(v)
    ensures RawText(v) != "" && RawText(v)[0] == Print(v)[0]
  {
    var text := UntilSeparator(Print(v));
    assert Print(v) + "" == Print(v);
    FirstChar(v, "");
    assert text != "" && text[0] == Print(v)[0];
    TrimRightKeeps(text);
  }

  lemma {:induction false} TrimRightKeeps(s: string)
    requires s != "" && !IsTrimmed(s[0])
    ensures TrimRight(s) != "" && TrimRight(s)[0] == s[0]
    decreases |s|
  {
    if IsTrimmed(s[|s| - 1]) { TrimRightKeeps(s[..|s| - 1]); }
  }

  /** For a number or a literal the first entry has its text only when it is that number or literal. */
  lemma FirstHasTextOfBare(found: Json, key: string, leaf: Json)
    requires Valid(found) && Valid(leaf) && leaf.Bare?
    ensures FirstHasText(found, key, leaf.s)
       <==> match First(found, key, Quoted)
            case Some(text) => text.s == leaf.s
            case None => First(found, key, Raw) == Some(leaf)
  {
    if First(found, key, Quoted).None? && First(found, key, Raw).Some? {
      FirstIsValid(found, key, Raw);
      FirstIsUnquoted(found, key);
      RawTextTells(First(found, key, Raw).value, leaf);
    }
  }

  /** A single key is read right if and only if its value is not the empty string and the first
      non-empty string under the key has the text of the member or, where there is none, the first
      entry under it has the value of the member. */
  lemma SingleKeyIsRightIff(v: Json, key: string, leaf: Json)
    requires Valid(v) && IsKey(key) && Lookup(v, [key]) == Some(leaf) && IsScalar(leaf)
    ensures JsonValue(Print(v), key) == leaf.s
       <==> leaf.s != "" && match First(v, key, Quoted)
                            case Some(found) => found.s == leaf.s
                            case None => First(v, key, Raw) == Some(leaf)
  {
    JsonValueOnTree(v, key);
    LookupIsValid(v, [key]);
    MemberIsFound(v, key, leaf);
    TreeValueIsEmptyIff(v, key);
    if leaf.s != "" && First(v, key, Quoted).None? {
      FirstIsValid(v, key, Raw);
      FirstIsUnquoted(v, key);
      RawTextTells(First(v, key, Raw).value, leaf);
    }
  }

  lemma MemberIsFound(v: Json, key: string, leaf: Json)
    requires Lookup(v, [key]) == Some(leaf)
    ensures First(v, key, Raw).Some? && (Fits(Quoted, leaf) ==> First(v, key, Quoted).Some?)
  {
    assert Lookup(leaf, [key][1..]) == Some(leaf) by { assert [key][1..] == []; }
    assert MemberOf(v.members, key) == Some(leaf);
    MemberFits(v.members, key, Raw);
    if Fits(Quoted, leaf) { MemberFits(v.members, key, Quoted); }
  }

  lemma {:induction false} MemberFits(ms: Members, key: string, shape: Shape)
    requires MemberOf(ms, key).Some? && Fits(shape, MemberOf(ms, key).value)
    ensures FirstIn(ms, key, shape).Some?
  {
    if !(ms.tag.Key? && ms.tag.name == key) { MemberFits(ms.rest, key, shape); }
  }

  lemma {:induction false} FirstIsUnquoted(v: Json, key: string)
    requires First(v, key, Quoted).None? && First(v, key, Raw).Some?
    ensures !Fits(Quoted, First(v, key, Raw).value)
    decreases v, 0
  {
    FirstInIsUnquoted(v.members, key);
  }

  lemma {:induction false} FirstInIsUnquoted(ms: Members, key: string)
    requires FirstIn(ms, key, Quoted).None? && FirstIn(ms, key, Raw).Some?
    ensures !Fits(Quoted, FirstIn(ms, key, Raw).value)
    decreases ms, 1
  {
    if !(ms.tag.Key? && ms.tag.name == key) {
      if First(ms.value, key, Raw).Some? { FirstIsUnquoted(ms.value, key); } else { FirstInIsUnquoted(ms.rest, key); }
    }
  }

  // ----- Objects with more opening braces than closing ones -----

  /** A scan that runs past the end of an object still hands over the whole object, with more text
      after it that begins like the text after any value. */
  lemma OverrunText(json: string, v: Json, more: string, key: string) returns (nested: Json, tail: string)
    requires json == Print(v) + more && Valid(v) && IsKey(key) && Delimits(more)
    requires First(v, key, Braced).Some? && Depth(PrintMembers(First(v, key, Braced).value.members), 0).Some?
    requires ObjectText(json, key).Some?
    ensures First(v, key, Braced) == Some(nested) && Valid(nested)
    ensures ObjectText(json, key) == Some(Print(nested) + tail) && Delimits(tail)
  {
    nested := First(v, key, Braced).value;
    FirstIsValid(v, key, Braced);
    SearchValue(v, more, key, Braced);
    var after :| Separates(after) && Search(json, key, Braced) == Some(Print(nested) + after);
    tail := OverrunFrom(nested.members, after);
  }

  lemma OverrunFrom(members: Members, after: string) returns (tail: string)
    requires Separates(after) && Depth(PrintMembers(members), 0).Some?
    requires UpToMatchingBrace(Print(Object(members)) + after).Some?
    ensures UpToMatchingBrace(Print(Object(members)) + after) == Some(Print(Object(members)) + tail) && Delimits(tail)
  {
    var depth := Depth(PrintMembers(members), 0).value;
    WithinObject(members, after);
    CloseBehind(PrintMembers(members), after, depth);
    var rest := Close(after, depth).value;
    TakenAfter(after, depth, rest);
    TakenText(Print(Object(members)), after, rest);
    tail := after[..|after| - |rest|];
  }

  lemma TakenText(head: string, after: string, rest: string)
    requires |rest| <= |after|
    ensures (head + after)[..|head + after| - |rest|] == head + after[..|after| - |rest|]
  {
  }

  /** What a scan takes of the text after a value begins like that text. */
  lemma TakenAfter(after: string, depth: nat, rest: string)
    requires Separates(after) && Close(after, depth) == Some(rest)
    ensures |rest| <= |after| && Delimits(after[..|after| - |rest|])
  {
    if depth > 0 {
      var blank := UntilSeparator(after);
      SeparatorFree(after);
      assert after == blank + after[|blank|..];
      TakenPast(blank, after[|blank|..], depth, rest);
    }
  }

  lemma TakenPast(blank: string, x: string, depth: nat, rest: string)
    requires IsBlank(blank) && x != "" && (x[0] == ',' || x[0] == '}')
    requires depth > 0 && Close(blank + x, depth) == Some(rest)
    ensures |rest| < |x| && Delimits((blank + x)[..|blank + x| - |rest|])
  {
    CloseOverBlank(blank, x, depth);
    TakenFrom(blank, x, |rest|);
  }

  lemma CloseOverBlank(blank: string, x: string, depth: nat)
    requires IsBlank(blank) && depth > 0
    ensures Close(blank + x, depth) == Close(x, depth)
    ensures Close(x, depth).Some? ==> |Close(x, depth).value| < |x|
  {
    BraceFreeIsBalanced(blank);
    CloseOver(blank, x, depth);
  }

  lemma TakenFrom(blank: string, x: string, left: nat)
    requires IsBlank(blank) && x != "" && (x[0] == ',' || x[0] == '}') && left < |x|
    ensures Delimits((blank + x)[..|blank + x| - left])
  {
    var t := x[..|x| - left];
    assert (blank + x)[..|blank + x| - left] == blank + t;
    SkipBlank(blank, t);
    assert SkipSpace(t) == t && t[0] == x[0];
  }

  lemma JsonValueWithTail(json: string, v: Json, more: string, key: string)
    requires json == Print(v) + more && Valid(v) && IsKey(key) && Delimits(more) && First(v, key, Quoted).Some?
    ensures JsonValue(json, key) == First(v, key, Quoted).value.s
  {
    var text := First(v, key, Quoted).value;
    SearchValue(v, more, key, Quoted);
    FirstIsValid(v, key, Quoted);
    var after :| Search(json, key, Quoted) == Some(Print(text) + after);
    QuotedText(text.s, after);
  }

  /** Each scan on the path passes over its whole object and finds an end, there or later. */
  predicate ScansOver(json: string, v: Json, keys: seq<string>)
    decreases |keys|
  {
    |keys| > 1 ==>
      && First(v, keys[0], Braced).Some?
      && Depth(PrintMembers(First(v, keys[0], Braced).value.members), 0).Some?
      && ObjectText(json, keys[0]).Some?
      && ScansOver(ObjectText(json, keys[0]).value, First(v, keys[0], Braced).value, keys[1..])
  }

  /** Scans that run too far are harmless for a non-empty string that the first entries lead to. */
  lemma {:induction false} OverrunIsHarmless(json: string, v: Json, more: string, keys: seq<string>, found: Json, text: Json)
    requires json == Print(v) + more && Valid(v) && keys != [] && forall k :: k in keys ==> IsKey(k)
    requires Delimits(more) && ScansOver(json, v, keys)
    requires FirstObject(v, keys) == Some(found) && First(found, keys[|keys| - 1], Quoted) == Some(text)
    ensures NestedValue(json, Path(keys)) == text.s
    decreases |keys|
  {
    if |keys| == 1 {
      NestedLast(json, keys);
      JsonValueWithTail(json, v, more, keys[0]);
    } else {
      var nested, tail := OverrunText(json, v, more, keys[0]);
      PathStep(json, v, keys, nested, Print(nested) + tail);
      OverrunIsHarmless(Print(nested) + tail, nested, tail, keys[1..], found, text);
    }
  }

  /** One step of the path. */
  lemma PathStep(json: string, v: Json, keys: seq<string>, nested: Json, text: string)
    requires |keys| > 1 && forall k :: k in keys ==> IsKey(k)
    requires First(v, keys[0], Braced) == Some(nested) && ObjectText(json, keys[0]) == Some(text)
    requires ScansOver(json, v, keys)
    ensures (forall k :: k in keys[1..] ==> IsKey(k)) && keys[1..][|keys[1..]| - 1] == keys[|keys| - 1]
    ensures ScansOver(text, nested, keys[1..]) && FirstObject(v, keys) == FirstObject(nested, keys[1..])
    ensures NestedValue(json, Path(keys)) == NestedValue(text, Path(keys[1..]))
  {
    NestedStep(json, keys, text);
  }

  lemma NestedLast(json: string, keys: seq<string>)
    requires |keys| == 1 && IsKey(keys[0])
    ensures NestedValue(json, Path(keys)) == JsonValue(json, keys[0])
  {
    FirstDot(keys);
  }

  lemma NestedStep(json: string, keys: seq<string>, text: string)
    requires |keys| > 1 && IsKey(keys[0]) && ObjectText(json, keys[0]) == Some(text)
    ensures NestedValue(json, Path(keys)) == NestedValue(text, Path(keys[1..]))
  {
    var path := Path(keys);
    FirstDot(keys);
    assert path[..|keys[0]|] == keys[0] && path[|keys[0]| + 1..] == Path(keys[1..]);
  }

  // ----- Sufficient conditions -----

  /** Each member on the path is the first entry of its key that the code can take for it. */
  ghost predicate FirstOnPath(v: Json, keys: seq<string>)
    requires Lookup(v, keys).Some?
    decreases |keys|
  {
    keys != [] ==>
      var value := MemberOf(v.members, keys[0]).value;
      if |keys| > 1 then First(v, keys[0], Braced) == Some(value) && FirstOnPath(value, keys[1..])
      else if Fits(Quoted, value) then First(v, keys[0], Quoted) == Some(value)
      else First(v, keys[0], Quoted) == None && First(v, keys[0], Raw) == Some(value)
  }

  lemma {:induction false} FirstOnPathLeads(v: Json, keys: seq<string>)
    requires Valid(v) && keys != [] && Lookup(v, keys).Some? && FirstOnPath(v, keys)
    requires IsScalar(Lookup(v, keys).value) && Lookup(v, keys).value.s != ""
    ensures TreeNested(v, keys) == Lookup(v, keys).value.s
    decreases |keys|
  {
    var value := MemberOf(v.members, keys[0]).value;
    MemberIsValid(v.members, keys[0]);
    if |keys| == 1 {
      assert keys[1..] == [];
      assert Lookup(v, keys) == Lookup(value, keys[1..]) == Some(value);
      if !Fits(Quoted, value) { RawTextOfBare(value); }
    } else {
      FirstOnPathLeads(value, keys[1..]);
    }
  }

  /** Nested extraction undoes printing: on the text of any document in which the members on the path
      come first, it returns the scalar at the path, when that is not the empty string. */
  lemma ExtractionUndoesPrinting(v: Json, keys: seq<string>)
    requires Valid(v) && keys != [] && forall k :: k in keys ==> IsKey(k)
    requires MatchedOnPath(v, keys)
    requires Lookup(v, keys).Some? && FirstOnPath(v, keys)
    requires IsScalar(Lookup(v, keys).value) && Lookup(v, keys).value.s != ""
    ensures NestedValue(Print(v), Path(keys)) == Lookup(v, keys).value.s
  {
    NestedValueOnTree(v, keys);
    FirstOnPathLeads(v, keys);
  }

  /** No entry before the member with this key holds the key deeper down. */
  predicate Unshadowed(ms: Members, key: string)
    requires MemberOf(ms, key).Some?
  {
    (ms.tag.Key? && ms.tag.name == key) || (Count(ms.value, key) == 0 && Unshadowed(ms.rest, key))
  }

  /** What comes after a member, or is inside it, does not shadow it. */
  lemma {:induction false} UnshadowedIsFirst(ms: Members, key: string, shape: Shape)
    requires MemberOf(ms, key).Some? && Unshadowed(ms, key) && Fits(shape, MemberOf(ms, key).value)
    ensures FirstIn(ms, key, shape) == MemberOf(ms, key)
  {
    if !(ms.tag.Key? && ms.tag.name == key) {
      NoneCounted(ms.value, key, shape);
      UnshadowedIsFirst(ms.rest, key, shape);
    }
  }

  lemma {:induction false} MemberIsCounted(ms: Members, key: string, key': string)
    requires MemberOf(ms, key).Some?
    ensures CountIn(ms, key) >= 1 && Count(MemberOf(ms, key).value, key') <= CountIn(ms, key')
  {
    if !(ms.tag.Key? && ms.tag.name == key) {
      MemberIsCounted(ms.rest, key, key');
    }
  }

  /** A key that occurs once is found where it is. */
  lemma {:induction false} UniqueMember(ms: Members, key: string, shape: Shape)
    requires MemberOf(ms, key).Some? && CountIn(ms, key) == 1
    ensures var value := MemberOf(ms, key).value;
            FirstIn(ms, key, shape) == if Fits(shape, value) then Some(value) else None
  {
    NoneCounted(ms.value, key, shape);
    NoneCountedIn(ms.rest, key, shape);
    if !(ms.tag.Key? && ms.tag.name == key) {
      MemberIsCounted(ms.rest, key, key);
      UniqueMember(ms.rest, key, shape);
    }
  }

  /** In a document whose keys are all distinct the members on every path come first. */
  lemma {:induction false} DistinctKeysSuffice(v: Json, keys: seq<string>)
    requires Lookup(v, keys).Some? && forall key :: Count(v, key) <= 1
    requires keys != [] ==> IsScalar(Lookup(v, keys).value)
    ensures FirstOnPath(v, keys)
    decreases |keys|
  {
    if keys != [] {
      var value := MemberOf(v.members, keys[0]).value;
      forall key
        ensures Count(value, key) <= 1
      {
        MemberIsCounted(v.members, keys[0], key);
        assert Count(v, key) <= 1;
      }
      assert Count(v, keys[0]) == 1 by { MemberIsCounted(v.members, keys[0], ""); }
      forall shape {
        UniqueMember(v.members, keys[0], shape);
      }
      if |keys| > 1 {
        assert keys[1..] != [] && Lookup(value, keys[1..]).Some? && value.Object?;
        DistinctKeysSuffice(value, keys[1..]);
      }
    }
  }

  // ----- Instances -----

  function Single(key: string, value: Json, rest: Members): Members {
    Entry("", Key(key, "", ""), value, "", rest)
  }

  /** Distinct keys among siblings, which is all that JSON asks for, are not enough: in
      {"outer":{"key":"x"},"key":"y"} the inner entry shadows the outer one. */
  lemma ShadowedKey(outer: string, key: string, x: string, y: string, v: Json)
    requires IsPlain(outer) && IsKey(key) && outer != key && IsPlain(x) && IsPlain(y) && x != "" && y != ""
    requires v == Object(Single(outer, Object(Single(key, Text(x), Done(""))), Single(key, Text(y), Done(""))))
    ensures Valid(v) && Lookup(v, [key]) == Some(Text(y)) && JsonValue(Print(v), key) == x
  {
    ShadowedIsFirst(outer, key, x, Single(key, Text(y), Done("")));
    LastMember(outer, v.members.value, key, Text(y));
    JsonValueOnTree(v, key);
  }

  lemma ShadowedIsFirst(outer: string, key: string, x: string, rest: Members)
    requires IsPlain(outer) && IsKey(key) && outer != key && IsPlain(x) && x != "" && ValidMembers(rest, true)
    ensures var v := Object(Single(outer, Object(Single(key, Text(x), Done(""))), rest));
            Valid(v) && First(v, key, Quoted) == Some(Text(x))
  {
    var inner := Single(key, Text(x), Done(""));
    assert FirstIn(inner, key, Quoted) == Some(Text(x));
    assert First(Object(inner), key, Quoted) == Some(Text(x));
    assert ValidMembers(inner, true);
  }

  lemma LastMember(outer: string, inner: Json, key: string, value: Json)
    requires outer != key
    ensures Lookup(Object(Single(outer, inner, Single(key, value, Done("")))), [key]) == Some(value)
  {
    var last := Single(key, value, Done(""));
    assert MemberOf(last, key) == Some(value) && [key][1..] == [];
    assert MemberOf(Single(outer, inner, last), key) == Some(value);
    assert Lookup(value, [key][1..]) == Some(value);
  }

  /** The empty string is never read right: of {"key":""} the caller gets two quotes, which its test
      for an empty value does not see. */
  lemma EmptyString(v: Json, key: string)
    requires IsKey(key) && v == Object(Single(key, Text(""), Done("")))
    ensures Valid(v) && Lookup(v, [key]) == Some(Text("")) && JsonValue(Print(v), key) == "\"\""
  {
    var ms := Single(key, Text(""), Done(""));
    assert MemberOf(ms, key) == Some(Text("")) && [key][1..] == [];
    assert Lookup(Text(""), [key][1..]) == Some(Text(""));
    assert Valid(Text("")) && ValidMembers(Done(""), true) && ValidTag(ms.tag);
    assert First(Text(""), key, Quoted) == None && FirstIn(Done(""), key, Quoted) == None;
    assert FirstIn(ms, key, Quoted) == None && FirstIn(ms, key, Raw) == Some(Text(""));
    JsonValueOnTree(v, key);
    RawTextOfEmpty();
  }

  lemma RawTextOfEmpty()
    ensures RawText(Text("")) == "\"\""
  {
    var p := "\"\"";
    assert Print(Text("")) == p && p + "" == p;
    UntilSeparatorOf(p, "");
    assert UntilSeparator(p) == p;
  }

  /** The text of an object with a single string in it is cut or extended exactly when the braces in
      that string are unbalanced, as in {"a":{"x":"}"}}. */
  lemma BraceInString(v: Json, key: string, x: string, s: string)
    requires Valid(v) && IsKey(key) && BraceFree(x)
    requires First(v, key, Braced) == Some(Object(Single(x, Text(s), Done(""))))
    ensures ObjectText(Print(v), key) == Some(Print(First(v, key, Braced).value)) <==> Balanced(s)
    ensures !Balanced("}")
  {
    var ms := First(v, key, Braced).value.members;
    var name := "\"" + x + "\":";
    ObjectTextOnTree(v, key);
    BraceFreeIsBalanced(name);
    ConcatIsBalanced(name, "\"" + s + "\"");
    QuotedIsBalanced(s);
    SingleMember(x, s);
  }

  lemma SingleMember(x: string, s: string)
    ensures PrintMembers(Single(x, Text(s), Done(""))) == "\"" + x + "\":" + ("\"" + s + "\"")
  {
  }
}
