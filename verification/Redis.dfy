/** The RESP client of check_redis: requests, replies that may be cut off, and the INFO fields. */
module Redis {
  import opened Text
  import opened Decimal
  import opened Socket

  // ----- Requests -----

  /** `iss >> part` until it fails: the maximal runs of non-space characters. */
  function Split(command: string): (parts: seq<string>) {
    SplitFrom(command, "")
  }

  /** The tokens when `token` has been read and `s` is to come. */
  function SplitFrom(s: string, token: string): seq<string> {
    if s == "" then if token == "" then [] else [token]
    else if IsSpace(s[0]) then (if token == "" then [] else [token]) + SplitFrom(s[1..], "")
    else SplitFrom(s[1..], token + [s[0]])
  }

  function Bulk(p: string): string {
    "$" + Print(|p|) + CRLF + p + CRLF
  }

  function Bulks(parts: seq<string>): string {
    if parts == [] then "" else Bulk(parts[0]) + Bulks(parts[1..])
  }

  function Request(parts: seq<string>): string {
    "*" + Print(|parts|) + CRLF + Bulks(parts)
  }

  method EncodeCommand(command: string) returns (cmd: string)
    ensures cmd == Request(Split(command))
  {
    var parts := Tokenize(command);
    cmd := "*" + Print(|parts|) + CRLF;
    assert parts[0..] == parts;
    for k := 0 to |parts|
      invariant cmd + Bulks(parts[k..]) == Request(parts)
    {
      assert parts[k..][1..] == parts[k + 1..];
      cmd := cmd + Bulk(parts[k]);
    }
  }

  method Tokenize(command: string) returns (parts: seq<string>)
    ensures parts == Split(command)
  {
    parts := [];
    var i := 0;
    assert command[0..] == command;
    while i < |command|
      invariant 0 <= i <= |command|
      invariant Split(command) == parts + SplitFrom(command[i..], "")
    {
      assert command[i..][1..] == command[i + 1..];
      if IsSpace(command[i]) {
        i := i + 1;
      } else {
        var part := "" + [command[i]];
        i := i + 1;
        while i < |command| && !IsSpace(command[i])
          invariant 0 <= i <= |command| && part != ""
          invariant Split(command) == parts + SplitFrom(command[i..], part)
        {
          assert command[i..][1..] == command[i + 1..];
          part := part + [command[i]];
          i := i + 1;
        }
        SplitToken(command[i..], part);
        parts := parts + [part];
      }
    }
    assert command[i..] == "";
  }

  lemma SplitToken(s: string, token: string)
    requires token != "" && (s == "" || IsSpace(s[0]))
    ensures SplitFrom(s, token) == [token] + SplitFrom(s, "")
  {
  }

  predicate IsToken(s: string) {
    s != "" && forall i :: 0 <= i < |s| ==> !IsSpace(s[i])
  }

  predicate IsGap(s: string) {
    forall i :: 0 <= i < |s| ==> IsSpace(s[i])
  }

  /** The tokens with white space before each and at the end. */
  function Spaced(gaps: seq<string>, tokens: seq<string>): string
    requires |gaps| == |tokens| + 1
  {
    if tokens == [] then gaps[0] else gaps[0] + tokens[0] + Spaced(gaps[1..], tokens[1..])
  }

  lemma SkipGap(gap: string, s: string)
    requires IsGap(gap)
    ensures SplitFrom(gap + s, "") == SplitFrom(s, "")
  {
    if gap == "" {
      assert gap + s == s;
    } else {
      assert (gap + s)[1..] == gap[1..] + s;
      SkipGap(gap[1..], s);
    }
  }

  lemma {:induction false} TakeToken(read: string, token: string, s: string)
    requires forall i :: 0 <= i < |token| ==> !IsSpace(token[i])
    ensures SplitFrom(token + s, read) == SplitFrom(s, read + token)
    decreases |token|
  {
    if token == "" {
      assert token + s == s && read + token == read;
    } else {
      assert (token + s)[1..] == token[1..] + s;
      TakeToken(read + [token[0]], token[1..], s);
      assert read + [token[0]] + token[1..] == read + token;
    }
  }

  /** Splitting recovers the tokens, however they are spaced. */
  lemma {:induction false} SplitUndoesSpacing(gaps: seq<string>, tokens: seq<string>)
    requires |gaps| == |tokens| + 1
    requires forall i :: 0 <= i < |gaps| ==> IsGap(gaps[i]) && (0 < i < |tokens| ==> gaps[i] != "")
    requires forall i :: 0 <= i < |tokens| ==> IsToken(tokens[i])
    ensures Split(Spaced(gaps, tokens)) == tokens
  {
    if tokens == [] {
      assert gaps[0] + "" == gaps[0];
      SkipGap(gaps[0], "");
    } else {
      var rest := Spaced(gaps[1..], tokens[1..]);
      assert Spaced(gaps, tokens) == gaps[0] + (tokens[0] + rest);
      SkipGap(gaps[0], tokens[0] + rest);
      TakeToken("", tokens[0], rest);
      assert "" + tokens[0] == tokens[0];
      assert rest == "" || IsSpace(rest[0]) by { StartsWithGap(gaps[1..], tokens[1..]); }
      SplitToken(rest, tokens[0]);
      SplitUndoesSpacing(gaps[1..], tokens[1..]);
      assert tokens == [tokens[0]] + tokens[1..];
    }
  }

  lemma StartsWithGap(gaps: seq<string>, tokens: seq<string>)
    requires |gaps| == |tokens| + 1 && IsGap(gaps[0]) && (tokens != [] ==> gaps[0] != "")
    ensures var s := Spaced(gaps, tokens); s == "" || IsSpace(s[0])
  {
  }

  lemma {:induction false} SplitYieldsTokens(s: string, token: string)
    requires forall i :: 0 <= i < |token| ==> !IsSpace(token[i])
    ensures forall k :: 0 <= k < |SplitFrom(s, token)| ==> IsToken(SplitFrom(s, token)[k])
  {
    if s != "" {
      if IsSpace(s[0]) { SplitYieldsTokens(s[1..], ""); } else { SplitYieldsTokens(s[1..], token + [s[0]]); }
    }
  }

  /** `"AUTH " + password` carries the password as its one argument exactly when that is one token. */
  lemma AuthCarriesPasswordIff(password: string)
    ensures Split("AUTH " + password) == ["AUTH", password] <==> IsToken(password)
  {
    SplitYieldsTokens("AUTH " + password, "");
    if IsToken(password) {
      var gaps, tokens := ["", " ", ""], ["AUTH", password];
      assert Spaced(gaps[2..], tokens[2..]) == "";
      assert Spaced(gaps[1..], tokens[1..]) == " " + password + "";
      assert Spaced(gaps, tokens) == "AUTH " + password;
      SplitUndoesSpacing(gaps, tokens);
    } else {
      var parts := Split("AUTH " + password);
      assert forall k :: 0 <= k < |parts| ==> parts[k] != password;
      assert ["AUTH", password][1] == password;
    }
  }

  // ----- A RESP server's decoder -----

  /** A decoded item and the bytes after it. */
  datatype Decoded<T> = Decoded(value: T, rest: string)

  /** A decimal length and its CRLF. */
  function DecodeLength(s: string): Option<Decoded<nat>> {
    var k := DigitRun(s);
    if k > 0 && CRLF <= s[k..] then Some(Decoded(Decimal.Parse(s[..k]), s[k + 2..])) else None
  }

  function DecodeBulk(s: string): Option<Decoded<string>> {
    if s == "" || s[0] != '$' then None
    else
      match DecodeLength(s[1..])
      case None => None
      case Some(Decoded(n, t)) =>
        if n <= |t| && CRLF <= t[n..] then Some(Decoded(t[..n], t[n + 2..])) else None
  }

  function DecodeBulks(n: nat, s: string): Option<Decoded<seq<string>>> {
    if n == 0 then Some(Decoded([], s))
    else
      match DecodeBulk(s)
      case None => None
      case Some(Decoded(p, t)) =>
        match DecodeBulks(n - 1, t)
        case None => None
        case Some(Decoded(ps, u)) => Some(Decoded([p] + ps, u))
  }

  function DecodeRequest(s: string): Option<Decoded<seq<string>>> {
    if s == "" || s[0] != '*' then None
    else
      match DecodeLength(s[1..])
      case None => None
      case Some(Decoded(n, t)) => DecodeBulks(n, t)
  }

  lemma DecodeLengthOfPrinted(n: nat, rest: string)
    ensures DecodeLength(Print(n) + CRLF + rest) == Some(Decoded(n, rest))
  {
    DigitRunExact(Print(n), CRLF + rest);
    ParseUndoesPrint(n);
    LengthText(Print(n), rest);
  }

  lemma LengthText(digits: string, rest: string)
    requires digits != "" && AllDigits(digits) && DigitRun(digits + (CRLF + rest)) == |digits|
    ensures DecodeLength(digits + CRLF + rest) == Some(Decoded(Decimal.Parse(digits), rest))
  {
    var s := digits + CRLF + rest;
    assert s == digits + (CRLF + rest);
    assert s[..|digits|] == digits && s[|digits|..] == CRLF + rest && s[|digits| + 2..] == rest;
  }

  lemma DecodeBulkOfPrinted(p: string, rest: string)
    ensures DecodeBulk(Bulk(p) + rest) == Some(Decoded(p, rest))
  {
    var t := p + CRLF + rest;
    BulkText(Print(|p|), p, rest);
    DecodeLengthOfPrinted(|p|, t);
    DecodePayload(Bulk(p) + rest, p, rest, |p|, t);
  }

  lemma BulkText(digits: string, p: string, rest: string)
    ensures ("$" + digits + CRLF + p + CRLF + rest)[0] == '$'
    ensures ("$" + digits + CRLF + p + CRLF + rest)[1..] == digits + CRLF + (p + CRLF + rest)
  {
  }

  lemma DecodePayload(s: string, p: string, rest: string, n: nat, t: string)
    requires s != "" && s[0] == '$' && n == |p| && t == p + CRLF + rest && DecodeLength(s[1..]) == Some(Decoded(n, t))
    ensures DecodeBulk(s) == Some(Decoded(p, rest))
  {
    assert t[..|p|] == p && t[|p|..] == CRLF + rest && t[|p| + 2..] == rest;
  }

  lemma {:induction false} DecodeBulksOfPrinted(parts: seq<string>, rest: string)
    ensures DecodeBulks(|parts|, Bulks(parts) + rest) == Some(Decoded(parts, rest))
  {
    if parts == [] {
      assert Bulks(parts) + rest == rest;
    } else {
      BulksUnfold(parts, rest);
      DecodeBulksOfPrinted(parts[1..], rest);
      DecodeOneMore(|parts| - 1, parts[0], parts[1..], Bulks(parts[1..]) + rest, rest);
      assert parts == [parts[0]] + parts[1..];
    }
  }

  lemma BulksUnfold(parts: seq<string>, rest: string)
    requires parts != []
    ensures Bulks(parts) + rest == Bulk(parts[0]) + (Bulks(parts[1..]) + rest)
  {
  }

  lemma DecodeOneMore(n: nat, p: string, parts: seq<string>, t: string, rest: string)
    requires DecodeBulks(n, t) == Some(Decoded(parts, rest))
    ensures DecodeBulks(n + 1, Bulk(p) + t) == Some(Decoded([p] + parts, rest))
  {
    DecodeBulkOfPrinted(p, t);
  }

  /** A request decodes to exactly its tokens, and the bytes after it are left alone. */
  lemma RequestDecodes(parts: seq<string>, rest: string)
    ensures DecodeRequest(Request(parts) + rest) == Some(Decoded(parts, rest))
  {
    assert (Request(parts) + rest)[1..] == Print(|parts|) + CRLF + (Bulks(parts) + rest);
    DecodeLengthOfPrinted(|parts|, Bulks(parts) + rest);
    DecodeBulksOfPrinted(parts, rest);
  }

  function Session(commands: seq<string>): string {
    if commands == [] then "" else Request(Split(commands[0])) + Session(commands[1..])
  }

  function DecodeSession(n: nat, s: string): Option<Decoded<seq<seq<string>>>> {
    if n == 0 then Some(Decoded([], s))
    else
      match DecodeRequest(s)
      case None => None
      case Some(Decoded(parts, t)) =>
        match DecodeSession(n - 1, t)
        case None => None
        case Some(Decoded(more, u)) => Some(Decoded([parts] + more, u))
  }

  function SplitAll(commands: seq<string>): seq<seq<string>> {
    if commands == [] then [] else [Split(commands[0])] + SplitAll(commands[1..])
  }

  /** The requests of a whole session, one after the other, decode to the original commands. */
  lemma {:induction false} SessionDecodes(commands: seq<string>, rest: string)
    ensures DecodeSession(|commands|, Session(commands) + rest) == Some(Decoded(SplitAll(commands), rest))
  {
    if commands == [] {
      assert Session(commands) + rest == rest;
    } else {
      var tail := Session(commands[1..]) + rest;
      assert Session(commands) + rest == Request(Split(commands[0])) + tail;
      RequestDecodes(Split(commands[0]), tail);
      SessionDecodes(commands[1..], rest);
    }
  }

  // ----- Replies -----

  /** What the receive loop returns: it stops at a closed connection, or as soon as the last character
      but one is a carriage return. */
  function Gather(chunks: seq<string>, response: string): string
    decreases |chunks|
  {
    if chunks == [] || chunks[0] == "" then response
    else
      var r := response + CString(chunks[0]);
      if LooksComplete(r) then r else Gather(chunks[1..], r)
  }

  predicate LooksComplete(r: string) {
    |r| > 2 && r[|r| - 2] == '\r'
  }

  method ReceiveReply(chunks: seq<string>) returns (response: string)
    requires forall i :: 0 <= i < |chunks| ==> |chunks[i]| < BUFFER_SIZE
    ensures response == Gather(chunks, "")
  {
    var buffer := new char[BUFFER_SIZE];
    response := "";
    var i := 0;
    assert chunks[0..] == chunks;
    while i < |chunks| && chunks[i] != ""
      invariant 0 <= i <= |chunks|
      invariant Gather(chunks[i..], response) == Gather(chunks, "")
    {
      response := AppendRead(buffer, chunks[i], response);
      assert chunks[i..][1..] == chunks[i + 1..];
      if LooksComplete(response) { return; }
      i := i + 1;
    }
  }

  /** However the stream is cut, what is returned is the beginning of a NUL-free stream. */
  lemma {:induction false} GatherIsPrefix(chunks: seq<string>, response: string)
    requires '\0' !in Concat(chunks)
    ensures response <= Gather(chunks, response) <= response + Concat(chunks)
    decreases |chunks|
  {
    if chunks != [] && chunks[0] != "" {
      var head, tail := chunks[0], Concat(chunks[1..]);
      assert Concat(chunks)[..|head|] == head && Concat(chunks)[|head|..] == tail;
      CStringStops(head, "");
      var r := response + head;
      assert response + Concat(chunks) == r + tail;
      if !LooksComplete(r) { GatherIsPrefix(chunks[1..], r); }
    }
  }

  /** After `k` chunks the text looks complete, unless they are all, and it did not before. */
  ghost predicate StopsAfter(response: string, chunks: seq<string>, k: nat) {
    && k <= |chunks|
    && (k < |chunks| ==> k > 0 && LooksComplete(response + Concat(chunks[..k])))
    && forall j :: 0 < j < k ==> !LooksComplete(response + Concat(chunks[..j]))
  }

  /** The loop returns the chunks up to the first one that makes the text look complete. */
  lemma {:induction false} GatherStopsAt(chunks: seq<string>, response: string) returns (k: nat)
    requires '\0' !in Concat(chunks) && "" !in chunks
    ensures StopsAfter(response, chunks, k) && Gather(chunks, response) == response + Concat(chunks[..k])
    decreases |chunks|
  {
    k := 0;
    if chunks != [] {
      var head, tail := chunks[0], chunks[1..];
      assert Concat(chunks)[..|head|] == head && Concat(chunks)[|head|..] == Concat(tail);
      CStringStops(head, "");
      if LooksComplete(response + head) {
        ConcatTake(chunks, 1, response);
        k := 1;
      } else {
        var k' := GatherStopsAt(tail, response + head);
        ConcatTake(chunks, k' + 1, response);
        StopsOneLater(response, chunks, k');
        k := k' + 1;
      }
    }
  }

  lemma ConcatTake(chunks: seq<string>, j: nat, response: string)
    requires 0 < j <= |chunks|
    ensures response + Concat(chunks[..j]) == (response + chunks[0]) + Concat(chunks[1..][..j - 1])
  {
    assert chunks[..j][1..] == chunks[1..][..j - 1];
  }

  lemma StopsOneLater(response: string, chunks: seq<string>, k: nat)
    requires chunks != [] && !LooksComplete(response + chunks[0]) && StopsAfter(response + chunks[0], chunks[1..], k)
    ensures StopsAfter(response, chunks, k + 1)
  {
    forall j | 0 < j <= k + 1
      ensures response + Concat(chunks[..j]) == (response + chunks[0]) + Concat(chunks[1..][..j - 1])
    {
      ConcatTake(chunks, j, response);
    }
  }

  /** An empty read ends the reply, whatever would come after it. */
  lemma {:induction false} EmptyReadEndsReply(a: seq<string>, b: seq<string>, response: string)
    ensures Gather(a + [""] + b, response) == Gather(a, response)
    decreases |a|
  {
    if a != [] {
      assert (a + [""] + b)[0] == a[0] && (a + [""] + b)[1..] == a[1..] + [""] + b;
      EmptyReadEndsReply(a[1..], b, response + CString(a[0]));
    }
  }

  /** A NUL-free reply is received in full if and only if it does not look complete after any of the
      reads but the last. */
  lemma ReceivedInFullIff(chunks: seq<string>)
    requires '\0' !in Concat(chunks) && "" !in chunks
    ensures Gather(chunks, "") == Concat(chunks)
       <==> forall j :: 0 < j < |chunks| ==> !LooksComplete(Concat(chunks[..j]))
  {
    var k := GatherStopsAt(chunks, "");
    assert forall j: nat :: j <= |chunks| ==> "" + Concat(chunks[..j]) == Concat(chunks[..j]);
    if k == |chunks| {
      assert chunks[..k] == chunks;
    } else {
      ConcatGrows(chunks, k);
    }
  }

  /** The rule on the reply itself: it is received in full if and only if no read but the last ends
      just after a carriage return and one more character. */
  lemma ReplyReceivedInFullIff(reply: string, chunks: seq<string>)
    requires Concat(chunks) == reply && '\0' !in reply && "" !in chunks
    ensures Gather(chunks, "") == reply
       <==> forall j :: 0 < j < |chunks| ==> !EndsAfterCR(reply, |Concat(chunks[..j])|)
  {
    ReceivedInFullIff(chunks);
    forall j | 0 < j < |chunks|
      ensures LooksComplete(Concat(chunks[..j])) <==> EndsAfterCR(reply, |Concat(chunks[..j])|)
    {
      ConcatSplits(chunks, j);
      EndOfPrefix(Concat(chunks[..j]), reply);
    }
  }

  /** A read that ends at position `n` of the reply ends there right after "\r" and another character. */
  predicate EndsAfterCR(reply: string, n: nat) {
    2 < n <= |reply| && reply[n - 2] == '\r'
  }

  lemma EndOfPrefix(part: string, reply: string)
    requires part <= reply
    ensures LooksComplete(part) <==> EndsAfterCR(reply, |part|)
  {
  }

  lemma {:induction false} ConcatSplits(chunks: seq<string>, j: nat)
    requires j <= |chunks|
    ensures Concat(chunks[..j]) <= Concat(chunks)
  {
    if j > 0 {
      assert chunks[..j][1..] == chunks[1..][..j - 1];
      ConcatSplits(chunks[1..], j - 1);
    }
  }

  /** For a payload without carriage returns this means: no read but the last ends exactly where the
      length line does. */
  lemma BulkReceivedInFullIff(payload: string, chunks: seq<string>)
    requires Concat(chunks) == Bulk(payload) && '\0' !in payload && '\r' !in payload && "" !in chunks
    ensures Gather(chunks, "") == Bulk(payload)
       <==> forall j :: 0 < j < |chunks| ==> |Concat(chunks[..j])| != |Header(payload)|
  {
    NoNul(payload);
    ReplyReceivedInFullIff(Bulk(payload), chunks);
    forall j | 0 < j < |chunks|
      ensures EndsAfterCR(Bulk(payload), |Concat(chunks[..j])|) <==> |Concat(chunks[..j])| == |Header(payload)|
    {
      ConcatSplits(chunks, j);
      ConcatGrows(chunks, j);
      OnlyTwoReturns(payload, |Concat(chunks[..j])|);
    }
  }

  lemma NoNul(payload: string)
    requires '\0' !in payload
    ensures '\0' !in Bulk(payload)
  {
    forall k | 0 <= k < |Bulk(payload)|
      ensures Bulk(payload)[k] != '\0'
    {
      CharOfBulk(Print(|payload|), payload, k);
    }
  }

  lemma CharOfBulk(digits: string, p: string, k: nat)
    requires AllDigits(digits) && k < |"$" + digits + CRLF + p + CRLF|
    ensures var c := ("$" + digits + CRLF + p + CRLF)[k];
            || c in p || c == '\n' || c == '$' || IsDigit(c)
            || (c == '\r' && (k == |digits| + 1 || k == |digits| + 3 + |p|))
  {
  }

  lemma OnlyTwoReturns(payload: string, n: nat)
    requires '\r' !in payload && n < |Bulk(payload)|
    ensures EndsAfterCR(Bulk(payload), n) <==> n == |Header(payload)|
  {
    var digits := Print(|payload|);
    if n >= 2 { CharOfBulk(digits, payload, n - 2); }
    assert Bulk(payload)[|digits| + 1] == '\r';
  }

  lemma {:induction false} ConcatGrows(chunks: seq<string>, k: nat)
    requires k < |chunks| && "" !in chunks
    ensures |Concat(chunks[..k])| < |Concat(chunks)|
  {
    assert chunks[0] in chunks;
    if k > 0 {
      assert chunks[..k][1..] == chunks[1..][..k - 1];
      ConcatGrows(chunks[1..], k - 1);
    }
  }

  /** The payload of the reply to INFO; None is the exception of `std::stoi`. */
  function ParseInfo(infoResponse: string): Option<string> {
    if infoResponse != "" && infoResponse[0] == '$' then
      match Find(infoResponse, CRLF, 0)
      case None => Some("")
      case Some(lenEnd) =>
        NotFoundAtStart(infoResponse);
        match Stoi(infoResponse[1..lenEnd])
        case None => None
        case Some(len) => Some(Substr(infoResponse, lenEnd + 2, len))
    else Some(infoResponse)
  }

  lemma NotFoundAtStart(s: string)
    requires s != "" && s[0] == '$' && Find(s, CRLF, 0).Some?
    ensures Find(s, CRLF, 0).value > 0
  {
  }

  method ParseInfoResponse(infoResponse: string) returns (info: Option<string>)
    ensures info == ParseInfo(infoResponse)
    ensures forall payload :: Bulk(payload) == infoResponse && |payload| <= 2147483647 ==> info == Some(payload)
  {
    forall payload | Bulk(payload) == infoResponse && |payload| <= 2147483647
      ensures ParseInfo(infoResponse) == Some(payload)
    {
      WholeReply(payload);
    }
    info := Some("");
    if infoResponse != "" && infoResponse[0] == '$' {
      var lenStart := 1;
      var lenEnd := Find(infoResponse, CRLF, 0);
      if lenEnd.Some? {
        NotFoundAtStart(infoResponse);
        var len := Stoi(infoResponse[lenStart..lenEnd.value]);
        if len.None? { return None; }
        var dataStart := lenEnd.value + 2;
        info := Some(Substr(infoResponse, dataStart, len.value));
      }
    } else {
      info := Some(infoResponse);
    }
  }

  /** An error reply is taken for the payload, so it is not empty and not reported as invalid. */
  lemma ErrorReplyIsTaken(text: string)
    ensures ParseInfo("-" + text) == Some("-" + text) && ParseInfo("-" + text) != Some("")
  {
  }

  /** A negative length, as in the null reply, cuts nothing off what follows its line. */
  lemma NegativeLength(digits: string, data: string)
    requires digits != "" && AllDigits(digits) && 0 < Decimal.Parse(digits) <= 2147483648
    ensures ParseInfo("$" + ("-" + digits) + CRLF + data) == Some(data)
  {
    var length := "-" + digits;
    var reply := "$" + length + CRLF + data;
    LengthLine(length, data);
    assert reply[1..1 + |length|] == length;
    StoiReadsNegative(digits);
    assert reply[|length| + 3..] == data;
  }

  lemma LengthLine(length: string, data: string)
    requires '\r' !in length
    ensures Find("$" + length + CRLF + data, CRLF, 0) == Some(1 + |length|)
  {
    var text := "$" + length + CRLF + data;
    forall q: nat | q < 1 + |length|
      ensures !OccursAt(text, CRLF, q)
    {
      assert text[q] == if q == 0 then '$' else length[q - 1];
      NoMatchAt(text, CRLF, q, 0);
    }
    assert text[1 + |length|..1 + |length| + 2] == CRLF;
    FoundAt(text, CRLF, 0, 1 + |length|);
  }

  lemma WholeReply(payload: string)
    requires |payload| <= 2147483647
    ensures ParseInfo(Bulk(payload)) == Some(payload)
  {
    TruncatedReply(payload, |Bulk(payload)|);
    assert Bulk(payload)[..|Bulk(payload)|] == Bulk(payload) && payload[..|payload|] == payload;
  }

  /** `s.substr(from, len)`, where a negative `len` wraps around to more than there is. */
  function Substr(s: string, from: nat, len: int): string
    requires from <= |s|
  {
    if 0 <= len <= |s| - from then s[from..from + len] else s[from..]
  }

  function InfoValue(info: string, key: string): string {
    ValueAt(info, Find(info, key + ":", 0), |key| + 1)
  }

  function ValueAt(info: string, found: Option<nat>, width: nat): string
    requires found.Some? ==> found.value + width <= |info|
  {
    if found.Some? then ToLineEnd(info, found.value + width) else ""
  }

  /** The first CRLF or, failing that, LF. */
  function LineEnd(info: string, pos: nat): (end: Option<nat>)
    ensures end.Some? ==> pos <= end.value <= |info|
  {
    var crlf := Find(info, CRLF, pos);
    if crlf.Some? then crlf else Find(info, "\n", pos)
  }

  /** From `pos` to the end of the line. */
  function ToLineEnd(info: string, pos: nat): string {
    match LineEnd(info, pos)
    case None => ""
    case Some(end) => info[pos..end]
  }

  method ExtractInfoValue(info: string, key: string) returns (value: string)
    ensures value == InfoValue(info, key)
    ensures forall lines :: AllLines(lines) && Lines(lines) == info && IsLine(key) ==> value == LineValue(lines, key)
  {
    forall lines | AllLines(lines) && Lines(lines) == info && IsLine(key)
      ensures InfoValue(info, key) == LineValue(lines, key)
    {
      InfoValueOfLines(lines, key);
    }
    var found := Find(info, key + ":", 0);
    if found.None? { return ""; }
    var pos := found.value;
    pos := pos + |key| + 1;
    var end := Find(info, CRLF, pos);
    if end.None? { end := Find(info, "\n", pos); }
    if end.None? { return ""; }
    return info[pos..end.value];
  }

  // ----- Truncated replies -----

  function Header(payload: string): string {
    "$" + Print(|payload|) + CRLF
  }

  /** From the first `n` characters of a bulk reply the plugin takes what they hold of the payload; a
      length that is no `int` is an exception as soon as it has arrived. */
  lemma TruncatedReply(payload: string, n: nat)
    requires n <= |Bulk(payload)|
    ensures ParseInfo(Bulk(payload)[..n])
         == if |payload| > 2147483647 && n >= |Header(payload)| then None else Some(payload[..Kept(payload, n)])
  {
    var reply, header, data := Bulk(payload), Header(payload), payload + CRLF;
    assert reply == header + data;
    if n >= |header| {
      var arrived := data[..n - |header|];
      assert reply[..n] == header + arrived;
      ParseUndoesPrint(|payload|);
      ParseReply(Print(|payload|), arrived);
      assert (if |payload| <= |arrived| then arrived[..|payload|] else arrived) == payload[..Kept(payload, n)];
    } else {
      FirstCRLF(Print(|payload|), data);
      FindInTruncated(reply, n, CRLF, 0);
    }
  }

  /** How much of the payload the first `n` characters of the reply hold. */
  function Kept(payload: string, n: nat): (k: nat)
    ensures k <= |payload|
  {
    var k := n - |Header(payload)|;
    if k <= 0 then 0 else if k <= |payload| then k else |payload|
  }

  lemma ParseReply(digits: string, data: string)
    requires digits != "" && AllDigits(digits)
    ensures ParseInfo("$" + digits + CRLF + data)
         == if Decimal.Parse(digits) > INT_MAX then None
            else Some(if Decimal.Parse(digits) <= |data| then data[..Decimal.Parse(digits)] else data)
  {
    var text := "$" + digits + CRLF + data;
    FirstCRLF(digits, data);
    assert text[1..1 + |digits|] == digits + "";
    StoiReadsNumeral(digits, "");
    assert text[|digits| + 3..] == data;
    SubstrOfTail(text, |digits| + 3, Decimal.Parse(digits));
  }

  lemma SubstrOfTail(s: string, from: nat, len: nat)
    requires from <= |s|
    ensures Substr(s, from, len) == if len <= |s[from..]| then s[from..][..len] else s[from..]
  {
  }

  lemma FirstCRLF(digits: string, rest: string)
    requires AllDigits(digits)
    ensures Find("$" + digits + CRLF + rest, CRLF, 0) == Some(1 + |digits|)
  {
    var text := "$" + digits + CRLF + rest;
    forall q: nat | q < 1 + |digits|
      ensures !OccursAt(text, CRLF, q)
    {
      assert text[q] == ("$" + digits)[q];
      NoMatchAt(text, CRLF, q, 0);
    }
    assert text[1 + |digits|..1 + |digits| + 2] == CRLF;
    FoundAt(text, CRLF, 0, 1 + |digits|);
  }

  predicate NoBareLF(s: string) {
    forall i :: 0 <= i < |s| && s[i] == '\n' ==> i > 0 && s[i - 1] == '\r'
  }

  /** On a truncated payload a field is either read in full or not at all. */
  lemma InfoValueOfTruncated(payload: string, k: nat, key: string)
    requires k <= |payload| && NoBareLF(payload)
    ensures InfoValue(payload[..k], key) == InfoValue(payload, key) || InfoValue(payload[..k], key) == ""
  {
    var found := Find(payload, key + ":", 0);
    FindInTruncated(payload, k, key + ":", 0);
    if found.Some? && found.value + (|key| + 1) <= k {
      ColonFound(payload, key, found.value);
      FieldOfTruncated(payload, k, found.value, |key| + 1);
    }
  }

  lemma ColonFound(info: string, key: string, p: nat)
    requires Find(info, key + ":", 0) == Some(p)
    ensures info[p + |key|] == ':'
  {
    FindIsLeftmost(info, key + ":", 0);
    OccursMeans(info, key + ":", p, |key|);
  }

  lemma FieldOfTruncated(payload: string, k: nat, p: nat, width: nat)
    requires NoBareLF(payload) && 0 < width && p + width <= k <= |payload| && payload[p + width - 1] == ':'
    ensures ValueAt(payload[..k], Some(p), width) == ValueAt(payload, Some(p), width)
         || ValueAt(payload[..k], Some(p), width) == ""
  {
    ValueOfTruncated(payload, k, p + width);
    SameOrNothing(payload[..k], payload, p, width);
  }

  lemma SameOrNothing(cut: string, info: string, p: nat, width: nat)
    requires p + width <= |cut| <= |info|
    requires ToLineEnd(cut, p + width) == ToLineEnd(info, p + width) || ToLineEnd(cut, p + width) == ""
    ensures ValueAt(cut, Some(p), width) == ValueAt(info, Some(p), width) || ValueAt(cut, Some(p), width) == ""
  {
  }

  lemma ValueOfTruncated(payload: string, k: nat, pos: nat)
    requires NoBareLF(payload) && 0 < pos <= k <= |payload| && payload[pos - 1] == ':'
    ensures ToLineEnd(payload[..k], pos) == ToLineEnd(payload, pos) || ToLineEnd(payload[..k], pos) == ""
  {
    FindInTruncated(payload, k, CRLF, pos);
    var crlf := Find(payload[..k], CRLF, pos);
    if crlf.None? {
      NoLF(payload, k, pos);
    } else {
      assert payload[..k][pos..crlf.value] == payload[pos..crlf.value];
    }
  }

  /** After a colon, a line feed in the kept part means that its CRLF was kept. */
  lemma NoLF(payload: string, k: nat, pos: nat)
    requires NoBareLF(payload) && 0 < pos <= k <= |payload| && payload[pos - 1] == ':'
    requires Find(payload[..k], CRLF, pos) == None
    ensures Find(payload[..k], "\n", pos) == None
  {
    var cut := payload[..k];
    FindIsLeftmost(cut, CRLF, pos);
    forall q: nat | pos <= q < k
      ensures !OccursAt(cut, "\n", q)
    {
      if payload[q] == '\n' { CRBeforeLF(payload, k, q); }
      NoMatchAt(cut, "\n", q, 0);
    }
    NotFound(cut, "\n", pos);
  }

  lemma CRBeforeLF(payload: string, k: nat, q: nat)
    requires NoBareLF(payload) && q < k <= |payload| && payload[q] == '\n'
    ensures q > 0 && payload[q - 1] == '\r' && OccursAt(payload[..k], CRLF, q - 1)
  {
  }

  /** Truncation is safe: whatever part of the reply was received, in whatever pieces, each field that
      the plugin reads is the true one or empty. */
  lemma TruncationIsSafe(payload: string, chunks: seq<string>, key: string)
    requires NoBareLF(payload)
    requires Concat(chunks) <= Bulk(payload) && '\0' !in Concat(chunks)
    ensures match ParseInfo(Gather(chunks, ""))
            case None => |payload| > 2147483647
            case Some(info) =>
              info <= payload && (InfoValue(info, key) == InfoValue(payload, key) || InfoValue(info, key) == "")
  {
    GatherIsPrefix(chunks, "");
    assert "" + Concat(chunks) == Concat(chunks);
    var n := |Gather(chunks, "")|;
    PrefixOfPrefix(Gather(chunks, ""), Concat(chunks), Bulk(payload));
    TruncatedReply(payload, n);
    InfoValueOfTruncated(payload, Kept(payload, n), key);
  }

  lemma PrefixOfPrefix(r: string, s: string, t: string)
    requires r <= s <= t
    ensures |r| <= |t| && r == t[..|r|]
  {
  }

  // ----- Fields of a whole payload -----

  /** The rest of the first line that has `key:` in it, after the first place where it has it. */
  function LineValue(lines: seq<string>, key: string): string {
    if lines == [] then ""
    else
      match Find(lines[0], key + ":", 0)
      case Some(p) => lines[0][p + |key| + 1..]
      case None => LineValue(lines[1..], key)
  }

  predicate IsLine(line: string) {
    '\r' !in line && '\n' !in line
  }

  predicate AllLines(lines: seq<string>) {
    forall i :: 0 <= i < |lines| ==> IsLine(lines[i])
  }

  /** Reading a field of a payload made of lines. */
  lemma {:induction false} InfoValueOfLines(lines: seq<string>, key: string)
    requires AllLines(lines) && IsLine(key)
    ensures InfoValue(Lines(lines), key) == LineValue(lines, key)
  {
    if lines == [] {
      NotFound("", key + ":", 0);
    } else {
      InfoValueOfLines(lines[1..], key);
      if Find(lines[0], key + ":", 0).Some? {
        ValueInFirstLine(lines[0], Lines(lines[1..]), key);
      } else {
        ValueInLaterLines(lines[0], Lines(lines[1..]), key);
      }
    }
  }

  /** What has no line break in it is found within a line. */
  lemma FindInLine(line: string, rest: string, needle: string)
    requires IsLine(needle) && needle != ""
    ensures Find(line + CRLF + rest, needle, 0)
         == if Find(line, needle, 0).Some? then Find(line, needle, 0) else Shifted(Find(rest, needle, 0), |line| + 2)
  {
    assert line + CRLF + rest == line + ['\r'] + ("\n" + rest);
    FindSplits(line, '\r', "\n" + rest, needle, 0);
    assert "\n" + rest == "" + ['\n'] + rest;
    FindSplits("", '\n', rest, needle, 0);
    NotFound("", needle, 0);
  }

  lemma ValueInFirstLine(line: string, rest: string, key: string)
    requires IsLine(line) && IsLine(key) && Find(line, key + ":", 0).Some?
    ensures InfoValue(line + CRLF + rest, key) == line[Find(line, key + ":", 0).value + |key| + 1..]
  {
    var found := Find(line, key + ":", 0);
    FindInLine(line, rest, key + ":");
    ValueAtFirstLine(line, rest, found.value, |key| + 1);
  }

  lemma ValueAtFirstLine(line: string, rest: string, p: nat, width: nat)
    requires IsLine(line) && p + width <= |line|
    ensures ValueAt(line + CRLF + rest, Some(p), width) == line[p + width..]
  {
    ToEndOfFirstLine(line, rest, p + width);
  }

  lemma ValueInLaterLines(line: string, rest: string, key: string)
    requires IsLine(key) && Find(line, key + ":", 0) == None
    ensures InfoValue(line + CRLF + rest, key) == InfoValue(rest, key)
  {
    var found := Find(rest, key + ":", 0);
    assert Find(line + CRLF + rest, key + ":", 0) == Shifted(found, |line + CRLF|) by { FindInLine(line, rest, key + ":"); }
    assert ValueAt(line + CRLF + rest, Shifted(found, |line + CRLF|), |key| + 1) == ValueAt(rest, found, |key| + 1) by {
      ValueAtShifts(line + CRLF + rest, line + CRLF, rest, found, |key| + 1);
    }
  }

  lemma ValueAtShifts(text: string, a: string, b: string, found: Option<nat>, width: nat)
    requires text == a + b && (found.Some? ==> found.value + width <= |b|)
    ensures ValueAt(text, Shifted(found, |a|), width) == ValueAt(b, found, width)
  {
    match found
    case None =>
    case Some(p) =>
      LineEndsAlike(text, a, b, p, width);
      SameLineEnd(text, b, |a| + p, p, width);
  }

  lemma LineEndsAlike(text: string, a: string, b: string, p: nat, width: nat)
    requires text == a + b && p + width <= |b|
    ensures ToLineEnd(text, |a| + p + width) == ToLineEnd(b, p + width)
  {
    ToLineEndShifts(text, a, b, p + width, |a| + p + width);
  }

  lemma SameLineEnd(s: string, t: string, p: nat, q: nat, width: nat)
    requires p + width <= |s| && q + width <= |t| && ToLineEnd(s, p + width) == ToLineEnd(t, q + width)
    ensures ValueAt(s, Some(p), width) == ValueAt(t, Some(q), width)
  {
  }

  lemma ToEndOfFirstLine(line: string, rest: string, pos: nat)
    requires IsLine(line) && pos <= |line|
    ensures ToLineEnd(line + CRLF + rest, pos) == line[pos..]
  {
    var text := line + CRLF + rest;
    forall q: nat | pos <= q < |line|
      ensures !OccursAt(text, CRLF, q)
    {
      assert text[q] == line[q];
      NoMatchAt(text, CRLF, q, 0);
    }
    assert text[|line|..|line| + 2] == CRLF;
    FoundAt(text, CRLF, pos, |line|);
    assert text[pos..|line|] == line[pos..];
  }

  lemma ToLineEndShifts(text: string, a: string, b: string, pos: nat, pos': nat)
    requires text == a + b && pos <= |b| && pos' == |a| + pos
    ensures ToLineEnd(text, pos') == ToLineEnd(b, pos)
  {
    LineEndShifts(a, b, pos);
    var end := LineEnd(b, pos);
    if end.Some? {
      SliceShifts(a, b, pos, end.value);
      SameLine(text, pos', |a| + end.value, b, pos, end.value);
    }
  }

  lemma SameLine(s: string, from: nat, to: nat, t: string, from': nat, to': nat)
    requires from <= to <= |s| && from' <= to' <= |t| && s[from..to] == t[from'..to']
    requires LineEnd(s, from) == Some(to) && LineEnd(t, from') == Some(to')
    ensures ToLineEnd(s, from) == ToLineEnd(t, from')
  {
  }

  lemma LineEndShifts(a: string, b: string, pos: nat)
    requires pos <= |b|
    ensures LineEnd(a + b, |a| + pos) == Shifted(LineEnd(b, pos), |a|)
  {
    FindShifts(a, b, CRLF, pos);
    FindShifts(a, b, "\n", pos);
  }

  lemma SliceShifts(a: string, b: string, from: nat, to: nat)
    requires from <= to <= |b|
    ensures (a + b)[|a| + from..|a| + to] == b[from..to]
  {
  }

  /** What a line feed without carriage return does: the value runs on, over line feeds, to the next
      CRLF anywhere; only when there is none does it end at the line feed. */
  lemma BareLineFeed(head: string, value: string, after: string)
    requires IsLine(value)
    ensures var crlf := Find(after, CRLF, 0);
            ToLineEnd(head + (value + "\n" + after), |head|)
            == if crlf.Some? then value + "\n" + after[..crlf.value] else value
  {
    var text := value + "\n" + after;
    ToLineEndShifts(head + text, head, text, 0, |head|);
    NoReturnBefore(value, after);
    FirstLineFeed(value, after);
    var crlf := Find(after, CRLF, 0);
    if crlf.Some? {
      assert text[0..|value| + 1 + crlf.value] == value + "\n" + after[..crlf.value];
    } else {
      assert text[0..|value|] == value;
    }
  }

  lemma NoReturnBefore(value: string, after: string)
    requires IsLine(value)
    ensures Find(value + "\n" + after, CRLF, 0) == Shifted(Find(after, CRLF, 0), |value| + 1)
  {
    var text := value + "\n" + after;
    forall q: nat | q < |value| + 1
      ensures !OccursAt(text, CRLF, q)
    {
      assert text[q] == if q < |value| then value[q] else '\n';
      NoMatchAt(text, CRLF, q, 0);
    }
    assert text[|value| + 1..] == after;
    FindInTail(text, |value| + 1, CRLF);
  }

  lemma FirstLineFeed(value: string, after: string)
    requires IsLine(value)
    ensures Find(value + "\n" + after, "\n", 0) == Some(|value|)
  {
    var text := value + "\n" + after;
    forall q: nat | q < |value|
      ensures !OccursAt(text, "\n", q)
    {
      assert text[q] == value[q];
      NoMatchAt(text, "\n", q, 0);
    }
    assert text[|value|..|value| + 1] == "\n";
    FoundAt(text, "\n", 0, |value|);
  }

  lemma ValueAtIs(info: string, p: nat, width: nat, pos: nat)
    requires pos == p + width <= |info|
    ensures ValueAt(info, Some(p), width) == ToLineEnd(info, pos)
  {
  }

  /** The same for a field: under the first `key:`, the text up to the next CRLF or, without one, to the
      line feed. */
  lemma FieldBeforeLineFeed(info: string, key: string, p: nat, value: string, after: string)
    requires Find(info, key + ":", 0) == Some(p) && IsLine(value)
    requires info[p + |key| + 1..] == value + "\n" + after
    ensures var crlf := Find(after, CRLF, 0);
            InfoValue(info, key) == if crlf.Some? then value + "\n" + after[..crlf.value] else value
  {
    var pos := p + |key| + 1;
    assert info == info[..pos] + info[pos..];
    BareLineFeed(info[..pos], value, after);
    ValueAtIs(info, p, |key| + 1, pos);
  }

  /** Some line has `key:` in it. */
  ghost predicate Mentioned(lines: seq<string>, key: string) {
    exists i :: 0 <= i < |lines| && Find(lines[i], key + ":", 0).Some?
  }

  /** The value under `key` is returned if and only if no earlier line has `key:` anywhere in it, or
      the first one that has it goes on with the same value. */
  lemma FieldIsReadIff(before: seq<string>, key: string, value: string, after: seq<string>)
    requires AllLines(before) && AllLines(after) && IsLine(key) && IsLine(value)
    ensures InfoValue(Lines(before + ([key + ":" + value] + after)), key) == value
       <==> (Mentioned(before, key) ==> LineValue(before, key) == value)
  {
    InfoValueOfLines(before + ([key + ":" + value] + after), key);
    FirstMentionWins(before, [key + ":" + value] + after, key);
    OwnLine(key, value);
  }

  lemma {:induction false} FirstMentionWins(before: seq<string>, lines: seq<string>, key: string)
    ensures LineValue(before + lines, key) == if Mentioned(before, key) then LineValue(before, key) else LineValue(lines, key)
  {
    if before == [] {
      assert before + lines == lines;
    } else {
      assert (before + lines)[1..] == before[1..] + lines;
      FirstMentionWins(before[1..], lines, key);
      MentionedUnfolds(before, key);
    }
  }

  lemma MentionedUnfolds(lines: seq<string>, key: string)
    requires lines != []
    ensures Mentioned(lines, key) <==> Find(lines[0], key + ":", 0).Some? || Mentioned(lines[1..], key)
  {
  }

  lemma OwnLine(key: string, value: string)
    ensures Find(key + ":" + value, key + ":", 0) == Some(0)
    ensures (key + ":" + value)[|key| + 1..] == value
  {
  }

  /** The premise is needed: an earlier, longer key that ends in the wanted one shadows it. */
  lemma ShadowedField(prefix: string, key: string, value: string, shadowed: string)
    requires IsLine(prefix) && IsLine(key) && IsLine(value) && IsLine(shadowed)
    requires key != "" && key[0] !in prefix
    ensures InfoValue(Lines([prefix + key + ":" + value, key + ":" + shadowed]), key) == value
  {
    var line, needle := prefix + key + ":" + value, key + ":";
    assert line == prefix + (needle + value);
    assert (needle + value)[0..|needle|] == needle;
    OccursShift(prefix, needle + value, needle, 0);
    forall q: nat | q < |prefix|
      ensures !OccursAt(line, needle, q)
    {
      assert line[q] == prefix[q];
      NoMatchAt(line, needle, q, 0);
    }
    FoundAt(line, needle, 0, |prefix|);
    InfoValueOfLines([line, key + ":" + shadowed], key);
  }
}
