/** How `httpGetAuth` reassembles a response and takes it apart. */
module HttpResponse {
  import opened Text
  import opened Decimal
  import opened Socket

  const BREAK := "\r\n\r\n"

  // ----- Receiving -----

  /** What arrives before the first empty read, which ends the loop. */
  function Received(chunks: seq<string>): (r: seq<string>)
    ensures r <= chunks && "" !in r
  {
    if chunks == [] || chunks[0] == "" then [] else [chunks[0]] + Received(chunks[1..])
  }

  function CStrings(chunks: seq<string>): string {
    if chunks == [] then "" else CString(chunks[0]) + CStrings(chunks[1..])
  }

  /** The loop over `recv`: chunk i is what call i delivers, the empty chunk and the end of the list
      stand for a closed or failed connection. */
  method Receive(chunks: seq<string>) returns (fullResponse: string)
    requires forall i :: 0 <= i < |chunks| ==> |chunks[i]| < BUFFER_SIZE
    ensures fullResponse == CStrings(Received(chunks))
  {
    var buffer := new char[BUFFER_SIZE];
    fullResponse := "";
    var i := 0;
    while i < |chunks| && chunks[i] != ""
      invariant 0 <= i <= |chunks|
      invariant fullResponse + CStrings(Received(chunks[i..])) == CStrings(Received(chunks))
    {
      fullResponse := AppendRead(buffer, chunks[i], fullResponse);
      assert chunks[i..][1..] == chunks[i + 1..];
      i := i + 1;
    }
  }

  lemma {:induction false} CStringsBound(chunks: seq<string>)
    ensures |CStrings(chunks)| <= |Concat(chunks)|
    ensures CStrings(chunks) == Concat(chunks) <==> '\0' !in Concat(chunks)
  {
    if chunks != [] {
      CStringsBound(chunks[1..]);
      var head, tail := chunks[0], Concat(chunks[1..]);
      if '\0' !in head {
        CStringStops(head, "");
        assert Concat(chunks)[|head|..] == tail;
        if CStrings(chunks) == Concat(chunks) {
          assert CStrings(chunks[1..]) == CStrings(chunks)[|head|..] == tail;
        }
      } else {
        assert |CString(head)| < |head|;
        assert forall k :: 0 <= k < |head| ==> Concat(chunks)[k] == head[k];
      }
    }
  }

  /** However a stream is cut into non-empty reads, the response is the stream if and only if the
      stream holds no NUL. */
  lemma ReassemblyIsExact(chunks: seq<string>)
    requires "" !in chunks
    ensures Received(chunks) == chunks
    ensures CStrings(Received(chunks)) == Concat(chunks) <==> '\0' !in Concat(chunks)
  {
    AllReceived(chunks);
    CStringsBound(chunks);
  }

  lemma AllReceived(chunks: seq<string>)
    requires "" !in chunks
    ensures Received(chunks) == chunks
  {
  }

  /** An empty read ends the response, whatever would come after it. */
  lemma {:induction false} EmptyReadEndsResponse(a: seq<string>, b: seq<string>)
    requires "" !in a
    ensures Received(a + [""] + b) == a
  {
    if a != [] {
      assert a[0] in a;
      assert (a + [""] + b)[0] == a[0] && (a + [""] + b)[1..] == a[1..] + [""] + b;
      EmptyReadEndsResponse(a[1..], b);
      assert a == [a[0]] + a[1..];
    }
  }

  // ----- Parsing -----

  /** The status code and the body that the caller gets. */
  datatype Response = Response(statusCode: int, body: string)

  function ParseResponse(fullResponse: string): Response {
    match Find(fullResponse, BREAK, 0)
    case None => Response(0, "")
    case Some(headerEnd) => Response(ParseStatus(fullResponse[..headerEnd]), fullResponse[headerEnd + 4..])
  }

  function ParseStatus(headers: string): int {
    match Find(headers, "HTTP/", 0)
    case None => 0
    case Some(statusPos) =>
      var codeStart := match Find(headers, " ", statusPos) case Some(space) => space + 1 case None => 0;
      match Find(headers, " ", codeStart)
      case None => 0
      case Some(codeEnd) =>
        match Stoi(headers[codeStart..codeEnd]) case Some(code) => code case None => 0
  }

  method Parse(fullResponse: string) returns (statusCode: int, responseBody: string)
    ensures Response(statusCode, responseBody) == ParseResponse(fullResponse)
    ensures forall m: Message :: m.Valid() && m.Print() == fullResponse ==>
              statusCode == CodeValue(m.code) && responseBody == m.body
    ensures Find(fullResponse, BREAK, 0) == None ==> statusCode == 0 && responseBody == ""
  {
    statusCode := 0;
    responseBody := "";
    var headerEnd := Find(fullResponse, BREAK, 0);
    if headerEnd.Some? {
      var headers := fullResponse[..headerEnd.value];
      responseBody := fullResponse[headerEnd.value + 4..];
      statusCode := ExtractStatus(headers);
    }
    forall m: Message | m.Valid() && m.Print() == fullResponse
      ensures statusCode == CodeValue(m.code) && responseBody == m.body
    {
      ParseUndoesPrint(m);
    }
  }

  method ExtractStatus(headers: string) returns (statusCode: int)
    ensures statusCode == ParseStatus(headers)
    ensures forall m: Message :: m.Valid() && m.StatusLine() <= headers ==> statusCode == CodeValue(m.code)
    ensures Find(headers, "HTTP/", 0) == None ==> statusCode == 0
  {
    statusCode := 0;
    var statusPos := Find(headers, "HTTP/", 0);
    if statusPos.Some? {
      var space := Find(headers, " ", statusPos.value);
      var codeStart := if space.Some? then space.value + 1 else 0;
      var codeEnd := Find(headers, " ", codeStart);
      if codeEnd.Some? {
        var code := Stoi(headers[codeStart..codeEnd.value]);
        if code.Some? { statusCode := code.value; }
      }
    }
    forall m: Message | m.Valid() && m.StatusLine() <= headers
      ensures statusCode == CodeValue(m.code)
    {
      HeaderStatus(m, headers);
    }
  }

  // ----- Well-formed messages (RFC 9112, sections 2.1 and 4) -----

  datatype Message = Message(major: char, minor: char, code: string, reason: string, fields: seq<string>, body: string)
  {
    ghost predicate Valid() {
      && IsDigit(major) && IsDigit(minor)
      && |code| == 3 && AllDigits(code)
      && '\r' !in reason
      && forall i :: 0 <= i < |fields| ==> IsLine(fields[i])
    }

    function StatusLine(): string {
      "HTTP/" + [major, '.', minor, ' '] + code + " " + reason
    }

    function Print(): string {
      Lines([StatusLine()] + fields) + CRLF + body
    }
  }

  predicate IsLine(line: string) {
    line != "" && '\r' !in line
  }

  lemma SkipLine(line: string, rest: string)
    requires IsLine(line) && rest != "" && rest[0] != '\r'
    ensures Find(line + CRLF + rest, BREAK, 0)
         == Shifted(Find(rest, BREAK, 0), |line| + 2)
  {
    var text, n := line + CRLF + rest, |line| + 2;
    assert text[n..] == rest;
    forall q: nat | q < n
      ensures !OccursAt(text, BREAK, q)
    {
      NoBreakInLine(line, rest, q);
    }
    FindInTail(text, n, BREAK);
  }

  lemma NoBreakInLine(line: string, rest: string, q: nat)
    requires IsLine(line) && rest != "" && rest[0] != '\r' && q < |line| + 2
    ensures !OccursAt(line + CRLF + rest, BREAK, q)
  {
    var text := line + CRLF + rest;
    if q == |line| {
      assert text[q + 2] == rest[0];
      NoBreakWithoutCR(text, q, q + 2);
    } else {
      assert text[q] == if q < |line| then line[q] else '\n';
      NoBreakWithoutCR(text, q, q);
    }
  }

  lemma NoBreakWithoutCR(text: string, q: nat, i: nat)
    requires i == q || i == q + 2
    requires i < |text| && text[i] != '\r'
    ensures !OccursAt(text, BREAK, q)
  {
  }

  lemma LastLine(line: string, body: string)
    requires IsLine(line)
    ensures Find(line + CRLF + CRLF + body, BREAK, 0) == Some(|line|)
  {
    var text := line + CRLF + CRLF + body;
    assert text[|line|..|line| + 4] == BREAK;
    forall q: nat | q < |line|
      ensures !OccursAt(text, BREAK, q)
    {
      assert text[q] == line[q];
      NoBreakWithoutCR(text, q, q);
    }
    FoundAt(text, BREAK, 0, |line|);
  }

  /** The first empty line of a message is the one that ends its header section. */
  lemma {:induction false} BreakFollowsHeader(lines: seq<string>, body: string)
    requires lines != [] && forall i :: 0 <= i < |lines| ==> IsLine(lines[i])
    ensures |Lines(lines)| >= 2
    ensures Find(Lines(lines) + CRLF + body, BREAK, 0) == Some(|Lines(lines)| - 2)
  {
    var rest := Lines(lines[1..]) + CRLF + body;
    LinesUnfold(lines, body);
    if |lines| == 1 {
      assert rest == CRLF + body;
      assert lines[0] + CRLF + rest == lines[0] + CRLF + CRLF + body;
      LastLine(lines[0], body);
    } else {
      BreakFollowsHeader(lines[1..], body);
      LinesUnfold(lines[1..], body);
      assert rest[0] == lines[1][0];
      SkipLine(lines[0], rest);
    }
  }

  lemma LinesUnfold(lines: seq<string>, body: string)
    requires lines != []
    ensures Lines(lines) + CRLF + body == lines[0] + CRLF + (Lines(lines[1..]) + CRLF + body)
  {
  }

  lemma HeaderStatus(m: Message, headers: string)
    requires m.Valid() && m.StatusLine() <= headers
    ensures ParseStatus(headers) == CodeValue(m.code)
  {
    var line := m.StatusLine();
    assert |line| == 13 + |m.reason|;
    assert line[..5] == "HTTP/" && line[8] == ' ' && line[9..12] == m.code && line[12] == ' ';
    assert OccursAt(headers, "HTTP/", 0) by { assert headers[..5] == line[..5]; }
    FoundAt(headers, "HTTP/", 0, 0);
    FirstSpace(headers, 0, 8);
    FirstSpace(headers, 9, 12);
    assert headers[9..12] == line[9..12];
    StoiReadsNumeral(m.code, "");
    assert m.code + "" == m.code;
    ThreeDigits(m.code);
  }

  lemma FirstSpace(s: string, from: nat, p: nat)
    requires from <= p < |s| && s[p] == ' '
    requires forall q :: from <= q < p ==> s[q] != ' '
    ensures Find(s, " ", from) == Some(p)
  {
    forall q: nat | from <= q < p
      ensures !OccursAt(s, " ", q)
    {
      NoMatchAt(s, " ", q, 0);
    }
    FoundAt(s, " ", from, p);
  }

  function CodeValue(code: string): int
    requires |code| == 3 && AllDigits(code)
  {
    (code[0] - '0') as int * 100 + (code[1] - '0') as int * 10 + (code[2] - '0') as int
  }

  lemma ThreeDigits(code: string)
    requires |code| == 3 && AllDigits(code)
    ensures Decimal.Parse(code) == CodeValue(code)
  {
    assert code[..2][..1] == code[..1] && code[..1][..0] == "";
    assert Decimal.Parse(code[..1]) == (code[0] - '0') as nat;
    assert Decimal.Parse(code[..2]) == Decimal.Parse(code[..1]) * 10 + (code[1] - '0') as nat;
  }

  /** What the parser makes of any header section: the number between the two spaces after the first
      `HTTP/`, or 0 when that is no number. */
  lemma StatusOfAny(before: string, version: string, code: string, rest: string)
    requires ' ' !in version && ' ' !in code
    requires Find(before + "HTTP/" + version + " " + code + " " + rest, "HTTP/", 0) == Some(|before|)
    ensures ParseStatus(before + "HTTP/" + version + " " + code + " " + rest)
         == match Stoi(code) case Some(status) => status case None => 0
  {
    var headers := before + "HTTP/" + version + " " + code + " " + rest;
    var first := |before| + 5 + |version|;
    var second := first + 1 + |code|;
    StatusText(before, version, code, rest);
    FirstSpace(headers, |before|, first);
    FirstSpace(headers, first + 1, second);
  }

  lemma StatusText(before: string, version: string, code: string, rest: string)
    requires ' ' !in version && ' ' !in code
    ensures var headers := before + "HTTP/" + version + " " + code + " " + rest;
            var first := |before| + 5 + |version|;
            var second := first + 1 + |code|;
            && second < |headers| && headers[first] == ' ' && headers[second] == ' '
            && headers[first + 1..second] == code
            && (forall q :: |before| <= q < first ==> headers[q] != ' ')
            && (forall q :: first < q < second ==> headers[q] != ' ')
  {
    var headers := before + "HTTP/" + version + " " + code + " " + rest;
    var line := "HTTP/" + version;
    assert ' ' !in line;
    assert headers == before + line + (" " + code + " " + rest);
    assert forall q :: |before| <= q < |before| + |line| ==> headers[q] == line[q - |before|];
    assert forall q :: |before| + |line| < q <= |before| + |line| + |code| ==> headers[q] == code[q - |before| - |line| - 1];
  }

  /** Where no space follows `HTTP/`, npos + 1 wraps around to 0: the number read is the one before the
      first space of the header section, if there is any. */
  lemma StatusWithoutSpace(headers: string)
    requires Find(headers, "HTTP/", 0).Some? && ' ' !in headers[Find(headers, "HTTP/", 0).value..]
    ensures ParseStatus(headers)
         == match Find(headers, " ", 0)
            case None => 0
            case Some(space) => match Stoi(headers[..space]) case Some(status) => status case None => 0
  {
    NoSpaceFrom(headers, Find(headers, "HTTP/", 0).value);
  }

  lemma NoSpaceFrom(s: string, from: nat)
    requires from <= |s| && ' ' !in s[from..]
    ensures Find(s, " ", from) == None
  {
    forall q: nat | from <= q < |s|
      ensures !OccursAt(s, " ", q)
    {
      assert s[q] == s[from..][q - from];
      NoMatchAt(s, " ", q, 0);
    }
    NotFound(s, " ", from);
  }

  // ----- Main results -----

  /** The parser recovers status code and body of every well-formed message, whatever the body is. */
  lemma ParseUndoesPrint(m: Message)
    requires m.Valid()
    ensures ParseResponse(m.Print()) == Response(CodeValue(m.code), m.body)
  {
    TruncatedMessage(m, |m.Print()|);
    assert m.Print()[..|m.Print()|] == m.Print();
    assert m.body[..|m.body|] == m.body;
  }

  /** The same when the connection breaks off after `n` characters: before the end of the header
      section the caller gets status 0 and no body, after it the right status and the body so far. */
  lemma TruncatedMessage(m: Message, n: nat)
    requires m.Valid() && n <= |m.Print()|
    ensures var header := |m.Print()| - |m.body|;
            ParseResponse(m.Print()[..n])
            == if n < header then Response(0, "") else Response(CodeValue(m.code), m.body[..n - header])
  {
    HeaderParsed(m);
    TruncatedText(m.Print(), |m.Print()| - |m.body|, CodeValue(m.code), m.body, n);
  }

  lemma HeaderParsed(m: Message)
    requires m.Valid()
    ensures var text, header := m.Print(), |m.Print()| - |m.body|;
            && header >= 4 && Find(text, BREAK, 0) == Some(header - 4)
            && ParseStatus(text[..header - 4]) == CodeValue(m.code) && text[header..] == m.body
  {
    HeaderSection(m);
    HeaderStatus(m, m.Print()[..|m.Print()| - |m.body| - 4]);
  }

  lemma TruncatedText(text: string, header: nat, status: int, body: string, n: nat)
    requires header >= 4 && Find(text, BREAK, 0) == Some(header - 4) && n <= |text|
    requires ParseStatus(text[..header - 4]) == status && text[header..] == body
    ensures ParseResponse(text[..n]) == if n < header then Response(0, "") else Response(status, body[..n - header])
  {
    CutResponse(text, header - 4, n);
    if n >= header { CutBody(text, body, header, n); }
  }

  lemma CutBody(text: string, body: string, header: nat, n: nat)
    requires header <= n <= |text| && text[header..] == body
    ensures text[header..n] == body[..n - header]
  {
  }

  lemma CutResponse(text: string, p: nat, n: nat)
    requires Find(text, BREAK, 0) == Some(p) && n <= |text|
    ensures ParseResponse(text[..n]) == if n < p + 4 then Response(0, "") else Response(ParseStatus(text[..p]), text[p + 4..n])
  {
    if n >= p + 4 {
      assert text[..n][..p] == text[..p];
      assert text[..n][p + 4..] == text[p + 4..n];
    }
    FindInTruncated(text, n, BREAK, 0);
  }

  lemma HeaderSection(m: Message)
    requires m.Valid()
    ensures var text, p := m.Print(), |m.Print()| - |m.body| - 4;
            p >= 0 && Find(text, BREAK, 0) == Some(p) && m.StatusLine() <= text[..p] && text[p + 4..] == m.body
  {
    var lines := [m.StatusLine()] + m.fields;
    StatusLineIsLine(m);
    BreakFollowsHeader(lines, m.body);
    assert Lines(lines) == m.StatusLine() + CRLF + Lines(m.fields) by { assert lines[1..] == m.fields; }
  }

  lemma StatusLineIsLine(m: Message)
    requires m.Valid()
    ensures IsLine(m.StatusLine())
  {
  }

  /** From the wire to the caller: the way the stream is cut does not matter. */
  lemma ChunkingIsIrrelevant(m: Message, chunks: seq<string>)
    requires m.Valid() && '\0' !in m.Print()
    requires "" !in chunks && Concat(chunks) == m.Print()
    ensures ParseResponse(CStrings(Received(chunks))) == Response(CodeValue(m.code), m.body)
  {
    ReassemblyIsExact(chunks);
    ParseUndoesPrint(m);
  }
}
