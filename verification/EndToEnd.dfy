/** From the bytes of a connection to the value that a plugin reports. */
module EndToEnd {
  import opened Text
  import HttpResponse
  import JsonTree
  import JsonUtils
  import JsonLookup
  import JsonReading
  import JsonTruncated

  /** What a plugin holds after `httpGet`: status code and body, out of the chunks of a connection. */
  function HttpGet(chunks: seq<string>): HttpResponse.Response {
    HttpResponse.ParseResponse(HttpResponse.CStrings(HttpResponse.Received(chunks)))
  }

  /** A server that answers with a JSON document, however the network cuts the answer: the plugin reads
      the status code and, at each path, the scalar of the document if and only
      if the first entries of the document lead to its text. */
  lemma ScalarArrives(m: HttpResponse.Message, chunks: seq<string>, v: JsonTree.Json, keys: seq<string>)
    requires m.Valid() && m.body == JsonTree.Print(v) && '\0' !in m.Print()
    requires "" !in chunks && Concat(chunks) == m.Print()
    requires JsonTree.Valid(v) && JsonLookup.MatchedOnPath(v, keys)
    requires keys != [] && forall k :: k in keys ==> JsonUtils.IsKey(k)
    requires JsonReading.Lookup(v, keys).Some? && JsonReading.IsScalar(JsonReading.Lookup(v, keys).value)
    ensures HttpGet(chunks).statusCode == HttpResponse.CodeValue(m.code)
    ensures var text, found := JsonReading.Lookup(v, keys).value.s, JsonReading.FirstObject(v, keys);
            JsonUtils.NestedValue(HttpGet(chunks).body, JsonLookup.Path(keys)) == text
            <==> if text != "" then found.Some? && JsonReading.FirstHasText(found.value, keys[|keys| - 1], text)
                 else found.None? || JsonLookup.First(found.value, keys[|keys| - 1], JsonUtils.Raw).None?
  {
    HttpResponse.ChunkingIsIrrelevant(m, chunks);
    JsonReading.ExtractionIsRightIff(v, keys);
  }

  /** A connection that breaks off inside the header section is reported with status 0 and no body,
      so no plugin takes a value from it. */
  lemma BrokenOff(m: HttpResponse.Message, chunks: seq<string>, n: nat)
    requires m.Valid() && "" !in chunks && '\0' !in Concat(chunks)
    requires n <= |m.Print()| && Concat(chunks) == m.Print()[..n]
    ensures n < |m.Print()| - |m.body| ==> HttpGet(chunks) == HttpResponse.Response(0, "")
    ensures n >= |m.Print()| - |m.body| ==>
              HttpGet(chunks).statusCode == HttpResponse.CodeValue(m.code) && HttpGet(chunks).body <= m.body
  {
    HttpResponse.ReassemblyIsExact(chunks);
    HttpResponse.TruncatedMessage(m, n);
  }

  /** When the connection breaks off, status 200 does not vouch for the body: a single key gives the
      value of the whole document, or a beginning of the raw text of the first entry under the key, or
      nothing; a path of several keys gives the value of the whole document or nothing. */
  lemma ValueOfBrokenOff(m: HttpResponse.Message, chunks: seq<string>, n: nat, v: JsonTree.Json, keys: seq<string>)
    requires m.Valid() && "" !in chunks && '\0' !in Concat(chunks)
    requires n <= |m.Print()| && Concat(chunks) == m.Print()[..n]
    requires m.body == JsonTree.Print(v) && JsonTree.Valid(v) && JsonTruncated.JsonSpace(m.body)
    requires keys != [] && (forall k :: k in keys ==> JsonUtils.IsKey(k)) && JsonLookup.MatchedOnPath(v, keys)
    ensures var value := JsonUtils.NestedValue(HttpGet(chunks).body, JsonLookup.Path(keys));
            var raw := JsonLookup.First(v, keys[0], JsonUtils.Raw);
            || value == JsonUtils.NestedValue(m.body, JsonLookup.Path(keys))
            || (|keys| == 1 && raw.Some? && value <= JsonLookup.RawText(raw.value))
            || value == ""
  {
    BrokenOff(m, chunks, n);
    var body := HttpGet(chunks).body;
    assert body == m.body[..|body|];
    if |keys| == 1 {
      JsonReading.NestedLast(body, keys);
      JsonReading.NestedLast(m.body, keys);
      JsonTruncated.TruncatedDocument(v, |body|, keys[0]);
      JsonLookup.JsonValueOnTree(v, keys[0]);
    } else {
      JsonTruncated.NestedTruncationIsSafe(v, |body|, keys);
    }
  }
}
