# Verified model of the NetMon plugin algorithms

This project models, in Dafny 4.11, the hand-written algorithms of the NetMon plugins and proves what
they compute. Most of the repository is socket plumbing and threshold cascades; the files below cover
the parts that carry properties over all inputs.

| file | what it models |
|---|---|
| `Text.dfy`, `Decimal.dfy`, `Machine.dfy`, `Socket.dfy`, `Plugin.dfy` | the C++ library operations the plugins rely on (`std::string::find`, C strings, `std::stoi`, decimal output), machine integers, one turn of the receive loops, the exit codes |
| `Checksum.dfy` | `in_cksum` of ping and fping and the insertion of the checksum in the packet, against RFC 1071 |
| `PingStats.dfy` | the loss and round-trip statistics loop of ping and fping |
| `Base64.dfy` | the Basic credential built by `httpGetAuth`, against section 4 of RFC 4648 and section 2 of RFC 7617 |
| `HttpResponse.dfy` | reassembly of an HTTP response and its split into status code and body |
| `JsonTree.dfy`, `JsonUtils.dfy` | JSON documents, their texts and the braces in them; the regular expressions and the extractors on texts |
| `JsonLookup.dfy`, `JsonReading.dfy`, `JsonExtractors.dfy` | what the extractors return on the text of any document; when that is what a JSON reader would return; the extractors as they run |
| `Kubernetes.dfy` | the loop that counts the elements of `items` |
| `Redis.dfy` | RESP requests, replies that may be cut off, INFO fields |
| `Occurrences.dfy`, `JsonOccurrences.dfy` | the find-and-step counting loop of consul, nomad, etcd, influxdb, kafka, solr and couchbase, on any text and on JSON documents |
| `Glob.dfy`, `FileCount.dfy` | the wildcard matcher and the recursive file counter |
| `JsonTruncated.dfy` | what the extractors return on a document of which only the beginning arrived |
| `EndToEnd.dfy` | connection, response parser and JSON extractors together |
| `Ntp.dfy` | timestamp conversion, the offset of the two time queries, the verdict of check_ntp |
| `Disk.dfy` | file system accounting and the overall verdict of check_disk |

Code that updates variables in a loop is a method with loop invariants, proved against a
specification function; the lemmas say what that function means. Pure expressions are functions.
Verify everything with `dafny verify dfyconfig.toml`.

## Conventions

- `double` is modelled by `real`; a quotient by zero is a separate value (`NotANumber`, `MinusInfinity`).
- Strings are `seq<char>`, bytes are integers below 256. The `int` of the checksum is a 32-bit newtype
  whose bounds the verifier checks; `size_t` and `unsigned long long` wrap around where it can happen.
- What the network delivers is an arbitrary list of chunks of at most 8191 characters; an empty chunk or
  the end of the list is a closed or failed connection. Clock readings, directory listings and `statvfs`
  results are parameters.
- `std::regex_search` is the leftmost match of the four fixed expressions that the code builds, including
  the one case where `\s*` gives back a character. Keys are letters, digits, `_` and `-`, which stand for
  themselves in a regular expression.

## Where the code differs from its purpose

Each of these is proved, with the exact condition under which the code meets its purpose; for bodies that were
cut, for null lists, lists with unbalanced braces and malformed replies, what the code gives instead is proved:

- The Base64 loop never pads: for a credential of two characters or more it emits zero fill where RFC 4648
  wants `=`. The token is standard if and only if the length is a multiple of three, and otherwise a
  standard server sees a password with NUL characters at its end (`Base64.TokenIsStandardIff`, `Base64.ServerSees`).
- The wildcard matcher is sound but not complete. On file names it accepts every name that the pattern means
  if and only if the pattern has no star, is `*`, `.*` or `..*`, or holds a character that no name has
  (`Glob.CompleteOnNamesIff`); for every other pattern `Glob.MissedOf` gives a name that it misses.
- A JSON key is looked up at any depth and in document order, so an earlier entry, nested ones included, can
  shadow the wanted one (`JsonReading.ExtractionIsRightIff`, `JsonReading.SingleKeyIsRightIff`;
  `JsonReading.ShadowedKey` is a family of documents where it does).
- Under a single key the empty string is never read right (`JsonReading.SingleKeyIsRightIff`): the code returns
  the two quotes around it, and callers that test for an empty value do not see it (`JsonReading.EmptyString`).
  The value is empty if and only if the object that the path leads to is missing or has no entry, at any
  depth, with the last key (`JsonReading.EmptyValueIff`).
- The brace scan sees the braces in strings: the text of a nested object is cut at the right place if and
  only if all its braces together are balanced (`JsonLookup.ObjectTextOnTree`, `JsonReading.BraceInString`).
  A scan that runs too far is harmless for a non-empty string in the object (`JsonReading.OverrunIsHarmless`).
- A body that was cut is not noticed. A single key then gives the right value, a beginning of the raw text of
  the first entry, such as a shorter number, or nothing (`JsonTruncated.TruncatedDocument`,
  `JsonTruncated.NumberIsCut`); a path of several keys gives the right value or nothing
  (`JsonTruncated.NestedTruncationIsSafe`).
- The Kubernetes loop does not see the end of an array written `[]`. As a list in the top-level object it is
  counted as empty if and only if, in the entries after it, no object begins before a closing bracket
  (`Kubernetes.CountsTheItems`); `{"items":[],"metadata":{}}` is one of those counted wrong
  (`Kubernetes.EmptyListMiscounted`). Where `items` is null the next array is counted in its place
  (`Kubernetes.NullItemsMiscounted`), and an opening brace in a string can merge the items
  (`Kubernetes.OpenBraceMergesItems`).
- The Redis receive loop stops early when the last but one character so far is a carriage return. A reply is
  received in full if and only if that happens after none of its reads but the last (`Redis.ReceivedInFullIff`).
- An INFO field is shadowed by an earlier line that has its name and a colon anywhere in it. It is read right
  if and only if there is no such line, or the first one goes on with the same value (`Redis.FieldIsReadIff`).
- An error reply to INFO is taken for its payload (`Redis.ErrorReplyIsTaken`), and the value on a line that ends
  in a bare LF runs on to the next CRLF, if there is one (`Redis.BareLineFeed`).
- In a status line without a space after `HTTP/` the search wraps around and reads the number before the first
  space of the header section (`HttpResponse.StatusWithoutSpace`).
- A password with white space is sent as several arguments: AUTH carries it if and only if it is non-empty
  and has none (`Redis.AuthCarriesPasswordIff`).
- Overlapping occurrences of a key are undercounted: all are counted if and only if none overlap
  (`Occurrences.CountsAllIff`; `Occurrences.OverlapUndercounts` is an instance). On a JSON document strings
  equal to the key are counted too: the count is that of the entries if and only if there is no such string
  (`JsonOccurrences.CountsTheEntriesIff`).
- The eras of 2^32 seconds are lost in NTP time: the offset is within its error bound if and only if the
  server's time is in era 0, which ends in 2036 (`Ntp.EraRollover`); later a correct server is CRITICAL
  (`Ntp.CorrectServerIsCritical`).

## Model

| member | source | states |
|---|---|---|
| `Checksum.InCksum` | plugins/ping/check_ping.cpp:189-209 | for any buffer of at most 65536 bytes, even or odd, in either byte order, the result is the RFC 1071 checksum (complement of the end-around-carry sum) and the `int` never overflows |
| `Checksum.FoldAndComplement` | plugins/ping/check_ping.cpp:205-208 | two folds and the complement give the complement of the residue modulo 65535 of any non-negative sum |
| `Checksum.SumIsResidue` | plugins/fping/check_fping.cpp:196-216 | adding back every carry at once equals reducing the plain total once modulo 65535 with 0 kept apart, for any number of words |
| `Checksum.ZeroSumOnlyOfZeros` | plugins/ping/check_ping.cpp:195-208 | the folded sum is 0 exactly when all words are 0 |
| `Checksum.LengthBoundIsTight` | plugins/ping/check_ping.cpp:191-198 | one word more than the bound and the `int` can overflow |
| `Checksum.InsertChecksum` | plugins/ping/check_ping.cpp:137-138 | zeroing the aligned field and storing the checksum changes nothing else, and the checksum of the whole packet is then 0 |
| `Checksum.InsertedSumIsOnes` | plugins/ping/check_ping.cpp:137-138 | a zeroed word, wherever it sits, replaced by the checksum makes the recomputed checksum 0 |
| `Checksum.ByteOrderIndependence` | plugins/ping/check_ping.cpp:189-209 | for every buffer the little-endian result is the byte swap of the big-endian one |
| `Checksum.SameBytesOnTheWire` | plugins/ping/check_ping.cpp:138 | both kinds of machine store the same two bytes in the packet |
| `Checksum.OrderOfWordsIsIrrelevant` | plugins/ping/check_ping.cpp:195-198 | permuting the words keeps the checksum |
| `Checksum.SingleWordChange` | plugins/ping/check_ping.cpp:195-208 | a changed word keeps the checksum exactly when it goes from 0x0000 to 0xFFFF or back and some other word is not 0 |
| `PingStats.PingHost` | plugins/ping/check_ping.cpp:124-182 | for any count and any replies: received is the number of replies; loss times count is 100 times the packets lost, so it is in [0,100], 0 iff all and 100 iff none arrived, and not a number iff count is 0; minimum <= average <= maximum; each extreme is attained exactly when a reply lies on the right side of its initial value, 999999 and 0 |
| `Base64.EncodeCredential` | src/common/http_api.cpp:54-80 | for two bytes or more, the RFC 4648 encoding of the credential filled with zeros to a multiple of three; the wrapped index tests for a single byte too |
| `Base64.DecodeUndoesEncode` | src/common/http_api.cpp:56-80 | a strict RFC 4648 decoder inverts the RFC encoder on every byte string |
| `Base64.EncodeUndoesDecode` | src/common/http_api.cpp:56-80 | the decoder is strict: every token it accepts is the RFC encoding of what it returns |
| `Base64.TokenDecodesToZeroFill` | src/common/http_api.cpp:59-80 | the token decodes to the credential followed by the zeros |
| `Base64.TokenIsStandardIff` | src/common/http_api.cpp:70-79 | the token equals the RFC encoding of the credential if and only if its length is a multiple of three |
| `Base64.SharedTokens` | src/common/http_api.cpp:54-80 | two credentials share a token exactly when their zero-filled forms agree; NUL-free ones only when they are equal |
| `Base64.ServerSees` | src/common/http_api.cpp:53-81 | of the name, byte 0x3A and the password a standard server reads the right user name, and the right password exactly when the length is a multiple of three |
| `HttpResponse.Receive` | src/common/http_api.cpp:363-369 | the response is the chunks up to the first empty read, each cut at its first NUL; stale buffer content never appears |
| `HttpResponse.ReassemblyIsExact` | src/common/http_api.cpp:366-369 | for every way of cutting a stream the response is the stream if and only if it holds no NUL |
| `HttpResponse.EmptyReadEndsResponse` | src/common/http_api.cpp:366-369 | an empty read ends the response, whatever would come after it |
| `HttpResponse.Parse` | src/common/http_api.cpp:374-395 | a text that is a well-formed message gives its status code and its body; without CRLFCRLF the status is 0 and the body empty |
| `HttpResponse.ExtractStatus` | src/common/http_api.cpp:380-392 | a header section that begins with a well-formed status line gives its three digits as the status code |
| `HttpResponse.BreakFollowsHeader` | src/common/http_api.cpp:375-378 | the first CRLFCRLF of a text of non-empty lines and a body is the one after the last line, whatever the body holds |
| `HttpResponse.HeaderStatus` | src/common/http_api.cpp:381-392 | the status line's three digits are read as the status code, whatever header lines follow |
| `HttpResponse.StatusOfAny` | src/common/http_api.cpp:381-392 | in any header section the status is the number between the two spaces after the first `HTTP/`, or 0 when that is no number |
| `HttpResponse.StatusWithoutSpace` | src/common/http_api.cpp:383-385 | where no space follows `HTTP/` the position wraps around to 0, and the number before the first space of all is read |
| `HttpResponse.ParseUndoesPrint` | src/common/http_api.cpp:374-395 | every well-formed message (RFC 9112, sections 2.1 and 4) is parsed to its status code and its whole body |
| `HttpResponse.TruncatedMessage` | src/common/http_api.cpp:374-395 | a message cut anywhere gives status 0 and no body before the end of its header section, and the right status with the body so far after it |
| `HttpResponse.ChunkingIsIrrelevant` | src/common/http_api.cpp:363-395 | for every NUL-free message and every way of cutting it, receiving and parsing give its status code and body |
| `EndToEnd.ScalarArrives` | src/common/http_api.cpp:363-395 | a JSON document sent over any connection, cut in any way, arrives so that a path reads its scalar if and only if the first entries lead to the scalar's text, and an empty string only if there is no such entry |
| `EndToEnd.BrokenOff` | src/common/http_api.cpp:374-395 | a connection that breaks off inside the header section gives status 0 and no body, and one that breaks off later the right status and a beginning of the body |
| `EndToEnd.ValueOfBrokenOff` | src/common/http_api.cpp:374-395 | from a JSON body that broke off, a path of several keys gives the value of the whole document or nothing, and a single key those or a beginning of the raw text of its first entry |
| `JsonTree.CloseIff` | src/common/json_utils.cpp:57-63 | the scan over a text stops just after the closing brace that follows it if and only if the braces of the text are balanced |
| `JsonTree.CloseObjectIff` | src/common/json_utils.cpp:55-66 | from the opening brace of an object the scan stops one past its closing brace if and only if the braces in between are balanced |
| `JsonTree.SteadyIsBalanced` | src/common/json_utils.cpp:57-63 | the text of a value is balanced when each of its strings and keys is |
| `JsonExtractors.ScanObject` | src/common/json_utils.cpp:55-63 | the brace loop ends at the matching brace, or reports that there is none |
| `JsonExtractors.ExtractObject` | src/common/json_utils.cpp:49-66 | on the text of a document it returns the text of the first object under the key if and only if the braces of that object are balanced |
| `JsonExtractors.ExtractJsonValue` | src/common/json_utils.cpp:12-35 | on the text of a document it returns the first non-empty string under the key, else the trimmed text of the first entry under it, else nothing |
| `JsonExtractors.ExtractJsonNestedValue` | src/common/json_utils.cpp:37-72 | the recursion terminates on the shrinking path, and on the text of a document with a readable scalar at the path, other than the empty string, it returns that scalar |
| `JsonLookup.SearchValue` | src/common/json_utils.cpp:15-26 | the leftmost regex match in the text of a document is at its first entry, in document order, with the key and the shape, and there is none when there is no such entry |
| `JsonLookup.JsonValueOnTree` | src/common/json_utils.cpp:12-35 | on the text of any document `extractJsonValue` returns the first non-empty string under the key, else the trimmed text of the first entry under it, else nothing |
| `JsonLookup.ObjectTextOnTree` | src/common/json_utils.cpp:49-66 | the text handed to the recursion is the text of the first object under the key if and only if the braces of that object are balanced; there is none when no object is under the key |
| `JsonLookup.NestedValueOnTree` | src/common/json_utils.cpp:37-72 | on the text of any document whose objects on the path have balanced braces, nested extraction is the descent by first entries |
| `JsonLookup.SteadyIsMatched` | src/common/json_utils.cpp:57-63 | documents with balanced strings and keys satisfy that premise for every path |
| `JsonReading.ExtractionIsRightIff` | src/common/json_utils.cpp:37-72 | nested extraction returns the text of the scalar at the path if and only if that is not empty and the first entries in document order lead to it, or it is empty and there is no entry to be found |
| `JsonReading.EmptyValueIff` | plugins/consul/check_consul.cpp:87-97 | what callers test: the value is empty if and only if no object is found on the path or it has no entry, at any depth, with the last key |
| `JsonReading.NoObjectNoValue` | src/common/json_utils.cpp:41-72 | a path with a dot in it, even at its start, gives nothing on a text without an opening brace |
| `JsonReading.FirstHasTextOfBare` | src/common/json_utils.cpp:23-31 | a number or a literal is read off the first entry only when it is that number or literal |
| `JsonReading.SingleKeyIsRightIff` | src/common/json_utils.cpp:12-35 | a single key is read right if and only if its value is not the empty string and the first non-empty string under it, at any depth, has the member's text or, where there is none, the first entry has the member's value |
| `JsonReading.OverrunIsHarmless` | src/common/json_utils.cpp:54-66 | where scans run past objects that lack closing braces, a non-empty string that the first entries lead to is still read right |
| `JsonReading.ExtractionUndoesPrinting` | src/common/json_utils.cpp:37-72 | when each member on the path is the first entry that the code can take for it, nested extraction returns the scalar at the path, if that is not the empty string |
| `JsonReading.UnshadowedIsFirst` | src/common/json_utils.cpp:15-21 | a member is the first entry when no entry before it holds its key deeper down; what is inside it or comes after it does not matter |
| `JsonReading.DistinctKeysSuffice` | src/common/json_utils.cpp:37-72 | in a document whose keys are all distinct the members on every path come first |
| `JsonReading.ShadowedKey` | src/common/json_utils.cpp:15-21 | distinct keys among siblings are not enough: for all texts x and y, a nested entry with x that comes first is returned in the place of the member y |
| `JsonReading.EmptyString` | src/common/json_utils.cpp:15-31 | of an object with an empty string under the key the caller gets two quotes, for every key |
| `JsonReading.BraceInString` | src/common/json_utils.cpp:57-63 | the text of an object with one string is cut at the right place if and only if the braces in the string are balanced |
| `JsonLookup.HasKeyOnTree` | src/common/json_utils.cpp:74-78 | `jsonHasKey` is true exactly when some entry at any depth has the key |
| `JsonLookup.BlankValue` | src/common/json_utils.cpp:23-31 | a key with only white space before the next separator matches through a given-back character, and its value is trimmed to nothing |
| `JsonTruncated.JsonValueOfTruncated` | src/common/json_utils.cpp:12-35 | on the first n characters of any text the result is the string under the key if its closing quote arrived, else the trimmed part of the raw value that arrived, else nothing |
| `JsonTruncated.TruncatedDocument` | src/common/json_utils.cpp:12-35 | on a document cut anywhere a single key gives the string it gives on the whole document, a beginning of the raw text of the first entry under it, or nothing |
| `JsonTruncated.NumberIsCut` | src/common/json_utils.cpp:23-31 | a number cut in two gives its first part |
| `JsonTruncated.ObjectTextOfTruncated` | src/common/json_utils.cpp:54-66 | an object whose braces are balanced is handed to the recursion in full or not at all |
| `JsonTruncated.NestedTruncationIsSafe` | src/common/json_utils.cpp:37-72 | on a document cut anywhere a path of several keys gives the value of the whole document or nothing |
| `Kubernetes.CountElements` | plugins/kubernetes/check_kubernetes.cpp:107-119 | count and stopping place of the loop are those of `Scan`, whose value on every printed array `ScanArray` gives |
| `Kubernetes.CountItems` | plugins/kubernetes/check_kubernetes.cpp:101-121 | when the first `items` of the response is followed by an array of objects that is not written `[]`, the count is its length, whatever comes before and after |
| `Kubernetes.ScanMembers` | plugins/kubernetes/check_kubernetes.cpp:109-119 | on a non-empty array of n objects, of any nesting and white space, it counts n and stops at the array's own bracket |
| `Kubernetes.ScanArray` | plugins/kubernetes/check_kubernetes.cpp:107-119 | the same for every array but `[]`, and what is counted after `[]` |
| `Kubernetes.CountsTheItems` | plugins/kubernetes/check_kubernetes.cpp:101-121 | for a list in the top-level object the count is its length if and only if it is not `[]`, or no object begins in the entries after it before a closing bracket |
| `Kubernetes.ItemsLast` | plugins/kubernetes/check_kubernetes.cpp:101-121 | a list that comes last in the top-level object is always counted right |
| `Kubernetes.OverrunIff` | plugins/kubernetes/check_kubernetes.cpp:107-119 | over a balanced text the loop counts something if and only if it meets an opening brace before a closing bracket |
| `Kubernetes.EmptyListIsMiscountedIff` | plugins/kubernetes/check_kubernetes.cpp:117-118 | the same for the whole text of an object that begins with an empty list |
| `Kubernetes.EmptyListMiscounted` | plugins/kubernetes/check_kubernetes.cpp:117-118 | an empty list followed by any object, as in `{"items":[],"metadata":{}}`, is reported as having items |
| `Kubernetes.NoArray` | plugins/kubernetes/check_kubernetes.cpp:101-105 | without `items`, or without a bracket after it, the count is 0 |
| `Kubernetes.NullItemsMiscounted` | plugins/kubernetes/check_kubernetes.cpp:103-105 | where `items` is null, the elements of the next array are counted |
| `Kubernetes.OpenBraceMergesItems` | plugins/kubernetes/check_kubernetes.cpp:107-119 | when a brace opened in the first element is closed only at the end of the response, the whole list counts as one item |
| `Kubernetes.TwoItemsMerged` | plugins/kubernetes/check_kubernetes.cpp:107-119 | two objects of which the first has one opening brace too many are such a list |
| `Redis.EncodeCommand` | plugins/redis/check_redis.cpp:107-122 | the request is the RESP array of the command's tokens |
| `Redis.Tokenize` | plugins/redis/check_redis.cpp:109-114 | the tokens are the maximal runs without white space, as `SplitUndoesSpacing` shows |
| `Redis.SplitUndoesSpacing` | plugins/redis/check_redis.cpp:109-114 | splitting recovers the tokens however they are spaced |
| `Redis.RequestDecodes` | plugins/redis/check_redis.cpp:116-122 | a RESP decoder recovers exactly the tokens, of any content, and leaves the following bytes untouched |
| `Redis.SessionDecodes` | plugins/redis/check_redis.cpp:196-231 | the concatenated requests of a session decode to the original commands |
| `Redis.AuthCarriesPasswordIff` | plugins/redis/check_redis.cpp:197-198 | AUTH carries the password as its one argument exactly when it is non-empty and free of white space |
| `Decimal.ParseUndoesPrint` | plugins/redis/check_redis.cpp:117-119 | decimal lengths are read back as they were written |
| `Decimal.StoiReadsNegative` | plugins/redis/check_redis.cpp:247 | a minus sign negates, and the range ends at -2147483648 |
| `Decimal.StoiSkips` | plugins/redis/check_redis.cpp:247 | white space and a plus sign before a number do not matter, and the range ends at 2147483647 |
| `Redis.ReceiveReply` | plugins/redis/check_redis.cpp:145-157 | the loop returns `Gather`: everything up to an empty read or to the first complete-looking end, the early stop included |
| `Redis.EmptyReadEndsReply` | plugins/redis/check_redis.cpp:148-154 | an empty read ends the reply, whatever would come after it |
| `Redis.GatherIsPrefix` | plugins/redis/check_redis.cpp:148-154 | however a NUL-free reply is cut, what is returned is its beginning |
| `Redis.GatherStopsAt` | plugins/redis/check_redis.cpp:145-154 | the loop stops at the first read after which the text looks complete and returns exactly the reads up to there |
| `Redis.ReceivedInFullIff` | plugins/redis/check_redis.cpp:145-154 | a NUL-free reply is received in full if and only if it does not look complete after any read but the last |
| `Redis.ReplyReceivedInFullIff` | plugins/redis/check_redis.cpp:151 | on the reply itself: if and only if no read but the last ends at a length n > 2 whose character n - 2 is a carriage return |
| `Redis.BulkReceivedInFullIff` | plugins/redis/check_redis.cpp:145-154 | a bulk reply without carriage returns in its payload is received in full if and only if no read but the last ends exactly at the end of the length line |
| `Redis.ParseInfoResponse` | plugins/redis/check_redis.cpp:240-253 | of a whole bulk reply whose length is an `int` it returns exactly the payload |
| `Redis.ErrorReplyIsTaken` | plugins/redis/check_redis.cpp:251-255 | an error reply is taken for the payload and is not reported as invalid |
| `Redis.NegativeLength` | plugins/redis/check_redis.cpp:247-249 | a negative length cuts nothing off what follows its line |
| `Redis.ExtractInfoValue` | plugins/redis/check_redis.cpp:160-176 | of a payload made of lines it returns the rest of the first line that has `key:` in it, or nothing |
| `Redis.TruncatedReply` | plugins/redis/check_redis.cpp:240-253 | from the first n characters of a bulk reply the plugin takes exactly the part of the payload that they hold |
| `Redis.InfoValueOfTruncated` | plugins/redis/check_redis.cpp:160-176 | on a truncated payload without bare LF a field is read in full or not at all |
| `Redis.TruncationIsSafe` | plugins/redis/check_redis.cpp:145-270 | whatever part of the reply arrives, in whatever pieces, every field read is the true one or empty |
| `Redis.InfoValueOfLines` | plugins/redis/check_redis.cpp:160-176 | on a payload of lines the result is the rest of the first line that has `key:` in it |
| `Redis.FieldIsReadIff` | plugins/redis/check_redis.cpp:160-176 | the value under a key is returned if and only if no earlier line has `key:` in it or the first one that has it goes on with the same value |
| `Redis.ShadowedField` | plugins/redis/check_redis.cpp:161 | an earlier key that ends in the wanted one shadows it |
| `Redis.BareLineFeed` | plugins/redis/check_redis.cpp:167-175 | where a line ends in a bare LF the value runs on to the next CRLF anywhere, and ends at the LF only when there is none |
| `Redis.FieldBeforeLineFeed` | plugins/redis/check_redis.cpp:160-176 | the same for the field under a key |
| `Occurrences.CountOccurrences` | plugins/consul/check_consul.cpp:112-117 | the count is the maximum size of any set of pairwise non-overlapping occurrences |
| `Occurrences.GreedyIsBest` | plugins/couchbase/check_couchbase.cpp:92-98 | no packing from any position on is larger than the count from there |
| `Occurrences.CountsAllIff` | plugins/consul/check_consul.cpp:132-137 | the count is the number of all occurrences if and only if none overlap |
| `Occurrences.CountSplits` | plugins/consul/check_consul.cpp:114-117 | a character that is not in the needle splits the count in two |
| `Occurrences.CountsTheRecords` | plugins/consul/check_consul.cpp:110-119 | on a printed array of records that hold the key once each, the count is the number of records |
| `JsonOccurrences.CountsTheMentions` | plugins/consul/check_consul.cpp:112-117 | on the text of any document, with any nesting and white space, the count of the quoted key is the number of entries with that key and strings equal to it |
| `JsonOccurrences.CountsTheEntriesIff` | plugins/consul/check_consul.cpp:132-137 | it is the number of entries with the key if and only if no string is equal to the key |
| `JsonOccurrences.CountsTheRecords` | plugins/consul/check_consul.cpp:110-119 | on an array of n objects that mention the key once each it is n |
| `Glob.MatchesPattern` | plugins/file_count/check_file_count.cpp:47-74 | the nested loops terminate and decide `Greedy`, which the lemmas below compare with the declarative relation |
| `Glob.GreedyIsSound` | plugins/file_count/check_file_count.cpp:54-73 | an accepted name matches the pattern |
| `Glob.StarFreeIsExact` | plugins/file_count/check_file_count.cpp:65-73 | without stars a name is accepted if and only if it matches |
| `Glob.TrailingStarIsExact` | plugins/file_count/check_file_count.cpp:55-58 | a star-free text and a final star accept exactly the names that have more than a matching prefix |
| `Glob.LeadingStarIsExact` | plugins/file_count/check_file_count.cpp:55-64 | a star and a star-free text accept exactly the names that match from the first place of its first character on |
| `Glob.CompleteIff` | plugins/file_count/check_file_count.cpp:47-74 | every non-empty text that matches is accepted if and only if the pattern has no star or is `*` |
| `Glob.CompleteOnNamesIff` | plugins/file_count/check_file_count.cpp:47-74 | every file name that matches is accepted if and only if the pattern has no star, is `*`, `.*` or `..*`, or holds a slash or NUL |
| `Glob.MissedOf` | plugins/file_count/check_file_count.cpp:54-64 | for every pattern with a star but `*` a non-empty text that it misses, and a file name unless the pattern is one of the others above |
| `FileCount.CountFiles` | plugins/file_count/check_file_count.cpp:76-134 | -1 if and only if the root is unreadable, otherwise the number of reachable wanted entries, over every finite tree with unreadable directories |
| `FileCount.EntryAdds` | plugins/file_count/check_file_count.cpp:115-127 | an entry at any place of a listing adds nothing when it is `.` or `..`; otherwise one if its name matches and it is a file or folders count, and with recursion the count of a readable folder |
| `FileCount.OrderIsIrrelevant` | plugins/file_count/check_file_count.cpp:112-128 | reordering the listings at any depth keeps the count |
| `FileCount.SwitchesOnlyAdd` | plugins/file_count/check_file_count.cpp:120-127 | turning recursion or counting of directories on never makes the count smaller |
| `Ntp.DecodeUndoesEncode` | src/common/ntp_client.cpp:203-210 | big-endian decoding inverts encoding |
| `Ntp.EncodeUndoesDecode` | src/common/ntp_client.cpp:203-210 | and conversely, so each timestamp has one encoding |
| `Ntp.EpochDifference` | src/common/ntp_client.cpp:29 | the constant is 86400 times the days from 1900 to 1970, counted with the leap years of the Gregorian calendar |
| `Ntp.SecondsOfTimeval` | src/common/ntp_client.cpp:72-75 | a clock reading in seconds is its whole number of microseconds divided by a million |
| `Ntp.UnixTimeIsMonotone` | src/common/ntp_client.cpp:132-135 | Unix times are ordered exactly as the pairs (seconds, fraction) |
| `Ntp.StampRoundsDown` | src/common/ntp_client.cpp:132-135 | the stamp of a time converts back to that time less its eras, rounded down by less than 2^-32 seconds |
| `Ntp.ReplyTellsTheTime` | src/common/ntp_client.cpp:203-210 | the transmit time read from the bytes of a reply is the server's time less its eras up to that rounding |
| `Ntp.QueryNtpOffset` | src/common/ntp_client.cpp:137-218 | succeeds exactly when every step does and then gives local midpoint minus the transmit timestamp; any failure leaves offset and stratum 0 and an error text |
| `Ntp.QueryTimeProtocolOffset` | src/common/ntp_client.cpp:220-291 | the same for the four-byte time protocol |
| `Ntp.OffsetError` | src/common/ntp_client.cpp:212-215 | the computed offset is within half the round trip, plus the rounding of the stamp, of the true one |
| `Ntp.Check` | plugins/ntp/check_ntp.cpp:23-49 | a failed query is CRITICAL, otherwise the absolute offset is compared with the critical threshold before the warning one |
| `Ntp.VerdictOfOffset` | plugins/ntp/check_ntp.cpp:39-49 | CRITICAL exactly outside the critical threshold, WARNING exactly outside the warning one but not the critical one, OK otherwise; a threshold that is not positive is off |
| `Ntp.VerdictIsSound` | plugins/ntp/check_ntp.cpp:39-49 | for positive thresholds each verdict bounds the true offset by its threshold and half the round trip, and a true offset clear of the thresholds by that much forces OK, WARNING or CRITICAL |
| `Ntp.VerdictOnReply` | plugins/ntp/check_ntp.cpp:39-49 | the same from the bytes of the reply to the exit code, with the seconds of the lost eras added to the true offset |
| `Ntp.EraRollover` | src/common/ntp_client.cpp:203-215 | for a reply on the wire and a round trip shorter than an era, the offset is within half the round trip and the rounding if and only if the server's time is in era 0; otherwise it is wrong by the lost eras |
| `Ntp.TimeProtocolRollover` | src/common/ntp_client.cpp:281-289 | the same for the time protocol |
| `Ntp.CorrectServerIsCritical` | plugins/ntp/check_ntp.cpp:39-49 | outside era 0 a server that agrees with the local clock is CRITICAL |
| `Disk.GetDiskInfo` | plugins/disk/check_disk.cpp:65-74 | for consistent figures used, available and reserved megabytes add up to the total less at most 2, and the free percentage of a non-empty file system is in [0,100] |
| `Disk.Accounting` | plugins/disk/check_disk.cpp:65-74 | the same with the percentage of an empty file system, which is not a number |
| `Disk.FiguresInMegabytes` | plugins/disk/check_disk.cpp:65-71 | for consistent figures total, used and available are the blocks in all, in use and available, in units of 1048576 bytes |
| `Disk.SizeWraps` | plugins/disk/check_disk.cpp:65-71 | a size of 2^64 bytes is reported as 0, and one of 2^64 - 1 bytes is not |
| `Disk.ThresholdsMean` | plugins/disk/check_disk.cpp:114-125 | for any figures the verdict of a path is CRITICAL iff fewer megabytes than the critical minimum are available or, multiplied out, a smaller share is free; WARNING iff it is not critical and the same holds of the warning thresholds; UNKNOWN iff there are no figures; a threshold that is not positive is off |
| `Disk.CodesMean` | plugins/disk/check_disk.cpp:108-148 | the verdict for each path of a list is that of its own figures |
| `Disk.Check` | plugins/disk/check_disk.cpp:94-159 | over the list, or the path `/` when it is empty, the overall code is CRITICAL if and only if some path is critical, otherwise that of the first path that is not OK, otherwise OK |
| `Disk.LessSpaceIsNeverBetter` | plugins/disk/check_disk.cpp:65-125 | of two consistent file systems of the same size the one with fewer free blocks is never judged better, whatever the thresholds |
| `Disk.AggregateIsUnique` | plugins/disk/check_disk.cpp:104-153 | that rule determines the overall code |
| `Disk.OrderOfPaths` | plugins/disk/check_disk.cpp:127-153 | the order of the paths cannot change whether the code is CRITICAL or OK, but can choose between WARNING and UNKNOWN |

## Left out

- JsonLookup.NestedValueOnTree: strings with escaped quotes are not in the tree model, because the expressions of the code end a string at the first quote.
- JsonReading.ExtractionIsRightIff: on a path through an object whose braces are unbalanced only strings reached by scans that run too far are covered (`OverrunIsHarmless`), not scans that stop too early.
- JsonTruncated.TruncatedDocument: texts with vertical tabs or form feeds are excluded; JSON allows neither outside strings nor, unescaped, in them.
- JsonLookup.SearchValue: keys with regex metacharacters are excluded; the code splices keys into the expression unescaped, and general regular expressions are not modelled.
- Kubernetes.CountsTheItems: arrays whose elements are not all objects are not covered (the API lists objects only), nor, except as `TwoItemsMerged` and `NullItemsMiscounted` say, null lists and elements or later entries whose braces, the ones in strings included, are unbalanced; there the count can be right by accident.
- FileCount.CountFiles: trees are finite, so symbolic link cycles are not modelled, and the `int` count is unbounded.
- Occurrences.CountOccurrences: the `int` counter is unbounded.
- PingStats.PingHost: rounding of doubles is not modelled.
- `extractJsonNumber` and `extractJsonBoolean`: `std::stod` and lower-casing on top of the modelled extractors.
- Sockets, name resolution, TLS, timeouts and the Windows variants: replaced by arbitrary chunks, clock readings and results.
- Message and performance data formatting, argument parsing, usage texts.
- The mail, news, FTP, IRC, SIP, XMPP and telnet dialogs, placeholder plugins and single-value threshold cascades: no property beyond reading a branch.
- The regex-driven plugins (apache, phpfpm, prometheus, log).
