/** The extractors as they run: `extractJsonValue` and `extractJsonNestedValue`. */
module JsonExtractors {
  import opened Text
  import opened JsonTree
  import opened JsonUtils
  import opened JsonLookup
  import opened JsonReading

  /** A scalar at a path that the extractors can read: it is not the empty string, the braces on the
      way are balanced and the members on the path come first. */
  ghost predicate Readable(v: Json, keys: seq<string>) {
    && Valid(v) && keys != [] && (forall k :: k in keys ==> IsKey(k)) && MatchedOnPath(v, keys)
    && Lookup(v, keys).Some? && FirstOnPath(v, keys)
    && IsScalar(Lookup(v, keys).value) && Lookup(v, keys).value.s != ""
  }

  method ExtractJsonValue(json: string, key: string) returns (value: string)
    ensures value == JsonValue(json, key)
    ensures forall v :: Valid(v) && Print(v) == json && IsKey(key) ==> value == TreeValue(v, key)
  {
    forall v | Valid(v) && Print(v) == json && IsKey(key)
      ensures JsonValue(json, key) == TreeValue(v, key)
    {
      JsonValueOnTree(v, key);
    }
    var found := Search(json, key, Quoted);
    if found.Some? { return UntilQuote(found.value[1..]); }
    found := Search(json, key, Raw);
    if found.Some? {
      value := UntilSeparator(found.value);
      value := TrimLeft(value);
      value := TrimRight(value);
      return value;
    }
    return "";
  }

  method ExtractJsonNestedValue(json: string, path: string) returns (value: string)
    ensures value == NestedValue(json, path)
    ensures forall v, keys :: Print(v) == json && Readable(v, keys) && Path(keys) == path ==>
              value == Lookup(v, keys).value.s
    decreases |path|
  {
    forall v, keys | Print(v) == json && Readable(v, keys) && Path(keys) == path
      ensures NestedValue(json, path) == Lookup(v, keys).value.s
    {
      ExtractionUndoesPrinting(v, keys);
    }
    var dotPos := Find(path, ".", 0);
    if dotPos.None? {
      value := ExtractJsonValue(json, path);
      return;
    }
    var firstKey, remainingPath := path[..dotPos.value], path[dotPos.value + 1..];
    var nestedJson := ExtractObject(json, firstKey);
    if nestedJson.None? { return ""; }
    value := ExtractJsonNestedValue(nestedJson.value, remainingPath);
  }

  method ExtractObject(json: string, firstKey: string) returns (nestedJson: Option<string>)
    ensures nestedJson == ObjectText(json, firstKey)
    ensures forall v :: Valid(v) && Print(v) == json && IsKey(firstKey) && First(v, firstKey, Braced).Some? ==>
              var nested := First(v, firstKey, Braced).value;
              nestedJson == Some(Print(nested)) <==> Balanced(PrintMembers(nested.members))
  {
    forall v | Valid(v) && Print(v) == json && IsKey(firstKey) && First(v, firstKey, Braced).Some?
      ensures var nested := First(v, firstKey, Braced).value;
              ObjectText(json, firstKey) == Some(Print(nested)) <==> Balanced(PrintMembers(nested.members))
    {
      ObjectTextOnTree(v, firstKey);
    }
    nestedJson := None;
    var found := Search(json, firstKey, Braced);
    if found.Some? {
      var startPos := |json| - |found.value|;
      var endPos, braceCount := ScanObject(json, startPos);
      if braceCount == 0 {
        nestedJson := Some(json[startPos..endPos]);
      }
    }
  }

  /** Find the matching closing brace. */
  method ScanObject(json: string, startPos: nat) returns (endPos: nat, braceCount: nat)
    requires startPos < |json|
    ensures startPos < endPos <= |json|
    ensures UpToMatchingBrace(json[startPos..]) == if braceCount == 0 then Some(json[startPos..endPos]) else None
  {
    braceCount, endPos := 1, startPos + 1;
    ghost var end := Close(json[startPos + 1..], 1);
    while endPos < |json| && braceCount > 0
      invariant startPos < endPos <= |json|
      invariant end == Close(json[endPos..], braceCount)
    {
      ScanStep(json, endPos, braceCount);
      if json[endPos] == '{' { braceCount := braceCount + 1; }
      else if json[endPos] == '}' { braceCount := braceCount - 1; }
      endPos := endPos + 1;
    }
    CutAtEnd(json, startPos, endPos, braceCount);
  }

  lemma ScanStep(json: string, pos: nat, depth: nat)
    requires pos < |json| && depth > 0
    ensures Close(json[pos..], depth)
         == Close(json[pos + 1..], if json[pos] == '{' then depth + 1 else if json[pos] == '}' then depth - 1 else depth)
  {
  }

  lemma CutAtEnd(json: string, startPos: nat, endPos: nat, depth: nat)
    requires startPos < endPos <= |json| && (endPos == |json| || depth == 0)
    requires Close(json[startPos + 1..], 1) == Close(json[endPos..], depth)
    ensures UpToMatchingBrace(json[startPos..]) == if depth == 0 then Some(json[startPos..endPos]) else None
  {
    assert json[startPos..][1..] == json[startPos + 1..];
    assert json[startPos..][..endPos - startPos] == json[startPos..endPos];
  }
}
