/** What the counting loop counts on the text of a JSON document. */
module JsonOccurrences {
  import opened Text
  import opened JsonTree
  import opened JsonUtils
  import JsonLookup
  import opened Occurrences

  /** The entries with the key and the strings equal to it, at any depth. */
  function Mentions(v: Json, key: string): nat {
    match v
    case Text(s) => if s == key then 1 else 0
    case Bare(_) => 0
    case Object(members) => MentionsIn(members, key)
    case Array(members) => MentionsIn(members, key)
  }

  function MentionsIn(ms: Members, key: string): nat {
    match ms
    case Done(_) => 0
    case Entry(_, tag, value, _, rest) =>
      (if tag.Key? && tag.name == key then 1 else 0) + Mentions(value, key) + MentionsIn(rest, key)
  }

  function Quote(key: string): (r: string)
    ensures r != ""
  {
    "\"" + key + "\""
  }

  function CountKey(text: string, key: string): nat {
    Count(text, Quote(key), 0)
  }

  // ----- Counting over the tokens of a document -----

  lemma CountInTail(a: string, b: string, key: string)
    requires forall q: nat :: q < |a| ==> !OccursAt(a + b, Quote(key), q)
    ensures CountKey(a + b, key) == CountKey(b, key)
  {
    assert (a + b)[|a|..] == b;
    FindInTail(a + b, |a|, Quote(key));
    CountBeyond(a + b, a, b, Quote(key), 0, 0);
  }

  lemma CountQuoteFree(p: string, rest: string, key: string)
    requires forall i :: 0 <= i < |p| ==> p[i] != '"'
    ensures CountKey(p + rest, key) == CountKey(rest, key)
  {
    forall q: nat | q < |p|
      ensures !OccursAt(p + rest, Quote(key), q)
    {
      assert (p + rest)[q] == p[q] != Quote(key)[0];
      NoMatchAt(p + rest, Quote(key), q, 0);
    }
    CountInTail(p, rest, key);
  }

  /** What follows does not go on like a key. */
  predicate Bounded(rest: string) {
    rest != "" ==> !IsKeyChar(rest[0])
  }

  lemma CountQuoted(s: string, rest: string, key: string)
    requires IsPlain(s) && IsKey(key) && Bounded(rest)
    ensures CountKey(Quote(s) + rest, key) == (if s == key then 1 else 0) + CountKey(rest, key)
  {
    if s == key {
      CountFirst(rest, key);
    } else {
      forall q: nat | q < |Quote(s)|
        ensures !OccursAt(Quote(s) + rest, Quote(key), q)
      {
        NotInQuoted(s, rest, key, q);
      }
      CountInTail(Quote(s), rest, key);
    }
  }

  lemma CountFirst(rest: string, key: string)
    ensures CountKey(Quote(key) + rest, key) == 1 + CountKey(rest, key)
  {
    var needle := Quote(key);
    var text, n := needle + rest, |needle|;
    assert text[0..n] == needle;
    FoundAt(text, needle, 0, 0);
    CountStep(text, needle, 0, n);
    FindShifts(needle, rest, needle, 0);
    CountBeyond(text, needle, rest, needle, n, 0);
  }

  lemma NotInQuoted(s: string, rest: string, key: string, q: nat)
    requires IsPlain(s) && IsKey(key) && Bounded(rest) && s != key && q < |Quote(s)|
    ensures !OccursAt(Quote(s) + rest, Quote(key), q)
  {
    var text, needle := Quote(s) + rest, Quote(key);
    assert needle[0] == '"' && needle[1] == key[0];
    if q == 0 {
      if OccursAt(text, needle, 0) {
        assert needle <= text;
        JsonLookup.QuotedPrefix(s, rest, key);
      }
    } else if q <= |s| {
      assert text[q] == s[q - 1];
      NoMatchAt(text, needle, q, 0);
    } else {
      assert rest != "" ==> text[q + 1] == rest[0];
      NoMatchAt(text, needle, q, 1);
    }
  }

  lemma CountTag(tag: Tag, rest: string, key: string)
    requires ValidTag(tag) && IsKey(key)
    ensures CountKey(PrintTag(tag) + rest, key) == (if tag.Key? && tag.name == key then 1 else 0) + CountKey(rest, key)
  {
    if tag.Key? {
      var colon := tag.mid + ":" + tag.post;
      assert PrintTag(tag) + rest == Quote(tag.name) + (colon + rest);
      assert (colon + rest)[0] == if tag.mid == "" then ':' else tag.mid[0];
      CountQuoted(tag.name, colon + rest, key);
      CountQuoteFree(colon, rest, key);
    } else {
      assert PrintTag(tag) + rest == rest;
    }
  }

  // ----- Counting over a document -----

  lemma DelimitsIsBounded(rest: string)
    requires Delimits(rest)
    ensures Bounded(rest)
  {
  }

  lemma {:induction false} CountValue(v: Json, rest: string, key: string)
    requires Valid(v) && IsKey(key) && Delimits(rest)
    ensures CountKey(Print(v) + rest, key) == Mentions(v, key) + CountKey(rest, key)
    decreases v, 0
  {
    match v
    case Text(s) =>
      DelimitsIsBounded(rest);
      CountQuoted(s, rest, key);
    case Bare(s) => CountQuoteFree(s, rest, key);
    case Object(members) =>
      Bracketed(members, rest);
      CountQuoteFree("{", PrintMembers(members) + ("}" + rest), key);
      CountMembers(members, true, "}" + rest, key);
      CountQuoteFree("}", rest, key);
    case Array(members) =>
      Bracketed(members, rest);
      CountQuoteFree("[", PrintMembers(members) + ("]" + rest), key);
      CountMembers(members, false, "]" + rest, key);
      CountQuoteFree("]", rest, key);
  }

  lemma {:induction false} CountMembers(ms: Members, keyed: bool, rest: string, key: string)
    requires ValidMembers(ms, keyed) && IsKey(key)
    requires rest != "" && rest[0] == if keyed then '}' else ']'
    ensures CountKey(PrintMembers(ms) + rest, key) == MentionsIn(ms, key) + CountKey(rest, key)
    decreases ms, 1
  {
    match ms
    case Done(pad) => CountQuoteFree(pad, rest, key);
    case Entry(lead, tag, value, tail, more) =>
      var after, comma := After(ms, rest), if more.Entry? then "," else "";
      UnfoldEntry(ms, rest);
      AfterDelimits(ms, keyed, rest);
      CountQuoteFree(lead, PrintTag(tag) + (Print(value) + after), key);
      CountTag(tag, Print(value) + after, key);
      CountValue(value, after, key);
      CountQuoteFree(tail, comma + (PrintMembers(more) + rest), key);
      CountQuoteFree(comma, PrintMembers(more) + rest, key);
      CountMembers(more, keyed, rest, key);
  }

  /** On the text of any document, the loop counts the entries with the key and the strings equal to it. */
  lemma CountsTheMentions(v: Json, key: string)
    requires Valid(v) && IsKey(key)
    ensures Count(Print(v), "\"" + key + "\"", 0) == Mentions(v, key)
  {
    assert Print(v) + "" == Print(v);
    CountValue(v, "", key);
    NotFound("", Quote(key), 0);
    CountStep("", Quote(key), 0, 0);
  }

  /** An array of objects that have the key and mention it nowhere else. */
  predicate Records(ms: Members, key: string) {
    ms.Entry? ==> ms.value.Object? && Mentions(ms.value, key) == 1 && Records(ms.rest, key)
  }

  /** On an array of records, of any nesting and white space, the loop counts the records. */
  lemma CountsTheRecords(ms: Members, key: string)
    requires Valid(Array(ms)) && IsKey(key) && Records(ms, key)
    ensures Count(Print(Array(ms)), "\"" + key + "\"", 0) == Length(ms)
  {
    CountsTheMentions(Array(ms), key);
    MentionsOfRecords(ms, key);
  }

  lemma {:induction false} MentionsOfRecords(ms: Members, key: string)
    requires ValidMembers(ms, false) && Records(ms, key)
    ensures MentionsIn(ms, key) == Length(ms)
  {
    if ms.Entry? { MentionsOfRecords(ms.rest, key); }
  }

  /** The plugins take the count for the number of entries with the key, which it is if and only if no
      string is equal to the key. */
  lemma CountsTheEntriesIff(v: Json, key: string)
    requires Valid(v) && IsKey(key)
    ensures Count(Print(v), "\"" + key + "\"", 0) == JsonLookup.Count(v, key) <==> Named(v, key) == 0
  {
    CountsTheMentions(v, key);
    MentionsSplit(v, key);
  }

  /** The strings equal to the key, at any depth. */
  function Named(v: Json, key: string): nat {
    match v
    case Text(s) => if s == key then 1 else 0
    case Bare(_) => 0
    case Object(members) => NamedIn(members, key)
    case Array(members) => NamedIn(members, key)
  }

  function NamedIn(ms: Members, key: string): nat {
    if ms.Done? then 0 else Named(ms.value, key) + NamedIn(ms.rest, key)
  }

  lemma {:induction false} MentionsSplit(v: Json, key: string)
    ensures Mentions(v, key) == JsonLookup.Count(v, key) + Named(v, key)
    decreases v, 0
  {
    match v
    case Object(members) => MentionsSplitIn(members, key);
    case Array(members) => MentionsSplitIn(members, key);
    case _ =>
  }

  lemma {:induction false} MentionsSplitIn(ms: Members, key: string)
    ensures MentionsIn(ms, key) == JsonLookup.CountIn(ms, key) + NamedIn(ms, key)
    decreases ms, 1
  {
    if ms.Entry? {
      MentionsSplit(ms.value, key);
      MentionsSplitIn(ms.rest, key);
    }
  }
}
