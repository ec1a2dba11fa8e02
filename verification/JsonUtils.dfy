/** The JSON extractors of src/common/json_utils.cpp: regular expressions and a brace scan. */
module JsonUtils {
  import opened Text
  import opened JsonTree

  // ----- The regular expressions -----

  /** What the four expressions want after `"key"\s*:\s*`: anything, an opening brace, a quoted text
      of at least one character, or at least one character other than a comma or closing brace. */
  datatype Shape = Anything | Braced | Quoted | Raw

  /** A key that stands for itself in a regular expression. */
  predicate IsKey(key: string) {
    key != "" && forall i :: 0 <= i < |key| ==> IsKeyChar(key[i])
  }

  predicate IsKeyChar(c: char) {
    'a' <= c <= 'z' || 'A' <= c <= 'Z' || '0' <= c <= '9' || c == '_' || c == '-'
  }

  /** The text after `"key"\s*:` at the start of `s`. */
  function AfterColon(s: string, key: string): (r: Option<string>)
    ensures r.Some? ==> IsSuffix(r.value, s)
  {
    var quoted := "\"" + key + "\"";
    if quoted <= s then
      var t := SkipSpace(s[|quoted|..]);
      SuffixOfSuffix(t, s[|quoted|..], s);
      if t != "" && t[0] == ':' then SuffixOfSuffix(t[1..], t, s); Some(t[1..]) else None
    else None
  }

  /** The part of `s` before the first comma or closing brace. */
  function UntilSeparator(s: string): (r: string)
    ensures r <= s
  {
    if s == "" || s[0] == ',' || s[0] == '}' then "" else [s[0]] + UntilSeparator(s[1..])
  }

  function UntilQuote(s: string): (r: string)
    ensures r <= s
  {
    if s == "" || s[0] == '"' then "" else [s[0]] + UntilQuote(s[1..])
  }

  /** What the shape makes of the text `u` after the colon: the text from where the value starts.
      When only white space stands before a separator, `\s*` gives its last character back to the
      group of the Raw shape. */
  function MatchShape(u: string, shape: Shape): (r: Option<string>)
    ensures r.Some? ==> IsSuffix(r.value, u)
    ensures r.Some? && shape == Braced ==> r.value != "" && r.value[0] == '{'
    ensures r.Some? && shape == Quoted ==> r.value != "" && r.value[0] == '"'
  {
    var v := SkipSpace(u);
    match shape
    case Anything => Some(v)
    case Braced => if v != "" && v[0] == '{' then Some(v) else None
    case Quoted =>
      if v != "" && v[0] == '"' && 0 < |UntilQuote(v[1..])| < |v| - 1 then Some(v) else None
    case Raw =>
      if UntilSeparator(v) != "" then Some(v)
      else if |v| < |u| then Some(u[|u| - |v| - 1..])
      else None
  }

  /** A match at the start of `s`. */
  function MatchHere(s: string, key: string, shape: Shape): (r: Option<string>)
    ensures r.Some? ==> IsSuffix(r.value, s)
  {
    match AfterColon(s, key)
    case None => None
    case Some(u) =>
      var r := MatchShape(u, shape);
      if r.Some? then SuffixOfSuffix(r.value, u, s); r else None
  }

  /** `std::regex_search`: the leftmost match. */
  function Search(s: string, key: string, shape: Shape): (r: Option<string>)
    ensures r.Some? ==> IsSuffix(r.value, s)
    ensures r.Some? && shape == Braced ==> r.value != "" && r.value[0] == '{'
    ensures r.Some? && shape == Quoted ==> r.value != "" && r.value[0] == '"'
  {
    var here := MatchHere(s, key, shape);
    if here.Some? || s == "" then here
    else
      var r := Search(s[1..], key, shape);
      if r.Some? then SuffixOfSuffix(r.value, s[1..], s); r else None
  }

  // ----- The extractors -----

  predicate IsTrimmed(c: char) {
    c == ' ' || c == '\t' || c == '\n' || c == '\r'
  }

  function TrimLeft(s: string): string {
    if s != "" && IsTrimmed(s[0]) then TrimLeft(s[1..]) else s
  }

  function TrimRight(s: string): string {
    if s != "" && IsTrimmed(s[|s| - 1]) then TrimRight(s[..|s| - 1]) else s
  }

  function JsonValue(json: string, key: string): string {
    match Search(json, key, Quoted)
    case Some(v) => UntilQuote(v[1..])
    case None =>
      match Search(json, key, Raw)
      case Some(v) => TrimRight(TrimLeft(UntilSeparator(v)))
      case None => ""
  }

  /** The text of the object under `firstKey`, by regular expression and brace matching. */
  function ObjectText(json: string, firstKey: string): Option<string> {
    match Search(json, firstKey, Braced)
    case None => None
    case Some(v) => UpToMatchingBrace(v)
  }

  /** The prefix of `v`, which starts with a brace, that ends with the matching brace. */
  function UpToMatchingBrace(v: string): Option<string>
    requires v != ""
  {
    match Close(v[1..], 1)
    case None => None
    case Some(rest) => Some(v[..|v| - |rest|])
  }

  function NestedValue(json: string, path: string): string
    decreases |path|
  {
    match Find(path, ".", 0)
    case None => JsonValue(json, path)
    case Some(dotPos) =>
      match ObjectText(json, path[..dotPos])
      case None => ""
      case Some(nestedJson) => NestedValue(nestedJson, path[dotPos + 1..])
  }

  predicate JsonHasKey(json: string, key: string) {
    Search(json, key, Anything).Some?
  }
}
