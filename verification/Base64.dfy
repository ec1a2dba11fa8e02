/** The Basic credential that `httpGetAuth` puts in its request, against RFC 4648, section 4. */
module Base64 {
  import opened Text
  import opened Machine

  type Sextet = x: int | 0 <= x < 64

  // ----- RFC 4648 -----

  /** The alphabet: A-Z, a-z, 0-9, + and /. */
  function Symbol(k: Sextet): char {
    if k < 26 then 'A' + k as char
    else if k < 52 then 'a' + (k - 26) as char
    else if k < 62 then '0' + (k - 52) as char
    else if k == 62 then '+'
    else '/'
  }

  function SymbolValue(c: char): Option<Sextet> {
    if 'A' <= c <= 'Z' then Some((c - 'A') as Sextet)
    else if 'a' <= c <= 'z' then Some((c - 'a') as int + 26)
    else if '0' <= c <= '9' then Some((c - '0') as int + 52)
    else if c == '+' then Some(62)
    else if c == '/' then Some(63)
    else None
  }

  lemma SymbolValueUndoesSymbol(k: Sextet)
    ensures SymbolValue(Symbol(k)) == Some(k)
  {
  }

  // Three bytes as four sextets, and back.
  function S1(b1: Byte): Sextet { b1 / 4 }
  function S2(b1: Byte, b2: Byte): Sextet { b1 % 4 * 16 + b2 / 16 }
  function S3(b2: Byte, b3: Byte): Sextet { b2 % 16 * 4 + b3 / 64 }
  function S4(b3: Byte): Sextet { b3 % 64 }
  function B1(v1: Sextet, v2: Sextet): Byte { v1 * 4 + v2 / 16 }
  function B2(v2: Sextet, v3: Sextet): Byte { v2 % 16 * 16 + v3 / 4 }
  function B3(v3: Sextet, v4: Sextet): Byte { v3 % 4 * 64 + v4 }

  lemma BytesUndoSextets(b1: Byte, b2: Byte, b3: Byte)
    ensures B1(S1(b1), S2(b1, b2)) == b1
    ensures B2(S2(b1, b2), S3(b2, b3)) == b2
    ensures B3(S3(b2, b3), S4(b3)) == b3
  {
  }

  function Group(b1: Byte, b2: Byte, b3: Byte): string {
    [Symbol(S1(b1)), Symbol(S2(b1, b2)), Symbol(S3(b2, b3)), Symbol(S4(b3))]
  }

  function Encode(bytes: seq<Byte>): string {
    if |bytes| == 0 then ""
    else if |bytes| == 1 then [Symbol(S1(bytes[0])), Symbol(S2(bytes[0], 0)), '=', '=']
    else if |bytes| == 2 then [Symbol(S1(bytes[0])), Symbol(S2(bytes[0], bytes[1])), Symbol(S3(bytes[1], 0)), '=']
    else Group(bytes[0], bytes[1], bytes[2]) + Encode(bytes[3..])
  }

  /** The decoder of the RFC: padding only in the last group, unused bits zero. */
  function Decode(token: string): Option<seq<Byte>> {
    if token == "" then Some([])
    else if |token| < 4 then None
    else
      match (SymbolValue(token[0]), SymbolValue(token[1]), SymbolValue(token[2]), SymbolValue(token[3]))
      case (Some(v1), Some(v2), None, None) =>
        if token[2..] == "==" && v2 % 16 == 0 then Some([B1(v1, v2)]) else None
      case (Some(v1), Some(v2), Some(v3), None) =>
        if token[3..] == "=" && v3 % 4 == 0 then Some([B1(v1, v2), B2(v2, v3)]) else None
      case (Some(v1), Some(v2), Some(v3), Some(v4)) =>
        (match Decode(token[4..])
         case Some(rest) => Some([B1(v1, v2), B2(v2, v3), B3(v3, v4)] + rest)
         case None => None)
      case _ => None
  }

  lemma {:induction false} DecodeUndoesEncode(bytes: seq<Byte>)
    ensures Decode(Encode(bytes)) == Some(bytes)
  {
    if |bytes| == 1 {
      DecodeOne(bytes[0]);
      assert bytes == [bytes[0]];
    } else if |bytes| == 2 {
      DecodeTwo(bytes[0], bytes[1]);
      assert bytes == [bytes[0], bytes[1]];
    } else if |bytes| >= 3 {
      DecodeUndoesEncode(bytes[3..]);
      DecodeGroup(bytes, Encode(bytes), Encode(bytes[3..]));
    }
  }

  lemma DecodeOne(b1: Byte)
    ensures Decode(Encode([b1])) == Some([b1])
  {
    SymbolValueUndoesSymbol(S1(b1));
    SymbolValueUndoesSymbol(S2(b1, 0));
    assert S2(b1, 0) / 16 == b1 % 4 && S2(b1, 0) % 16 == 0;
    assert Encode([b1])[2..] == "==";
  }

  lemma DecodeTwo(b1: Byte, b2: Byte)
    ensures Decode(Encode([b1, b2])) == Some([b1, b2])
  {
    GroupValues(b1, b2, 0);
    BytesUndoSextets(b1, b2, 0);
    assert Encode([b1, b2])[3..] == "=";
  }

  lemma EncodeInjective(bytes: seq<Byte>, bytes': seq<Byte>)
    requires Encode(bytes) == Encode(bytes')
    ensures bytes == bytes'
  {
    DecodeUndoesEncode(bytes);
    DecodeUndoesEncode(bytes');
  }

  lemma DecodeGroup(bytes: seq<Byte>, token: string, rest: string)
    requires |bytes| >= 3 && token == Group(bytes[0], bytes[1], bytes[2]) + rest
    requires Decode(rest) == Some(bytes[3..])
    ensures Decode(token) == Some(bytes)
  {
    var b1, b2, b3 := bytes[0], bytes[1], bytes[2];
    GroupValues(b1, b2, b3);
    BytesUndoSextets(b1, b2, b3);
    assert token[4..] == rest;
    assert bytes == [b1, b2, b3] + bytes[3..];
  }

  lemma GroupValues(b1: Byte, b2: Byte, b3: Byte)
    ensures var g := Group(b1, b2, b3);
            && SymbolValue(g[0]) == Some(S1(b1)) && SymbolValue(g[1]) == Some(S2(b1, b2))
            && SymbolValue(g[2]) == Some(S3(b2, b3)) && SymbolValue(g[3]) == Some(S4(b3))
  {
    SymbolValueUndoesSymbol(S1(b1));
    SymbolValueUndoesSymbol(S2(b1, b2));
    SymbolValueUndoesSymbol(S3(b2, b3));
    SymbolValueUndoesSymbol(S4(b3));
  }

  /** The decoder is strict: a token that it accepts is the encoding of what it returns. */
  lemma {:induction false} EncodeUndoesDecode(token: string)
    requires Decode(token).Some?
    ensures Encode(Decode(token).value) == token
  {
    if token != "" {
      SymbolUndoesValue(token[0]);
      SymbolUndoesValue(token[1]);
      SymbolUndoesValue(token[2]);
      SymbolUndoesValue(token[3]);
      var c1, c2, c3, c4 := SymbolValue(token[0]), SymbolValue(token[1]), SymbolValue(token[2]), SymbolValue(token[3]);
      if c3.None? {
        LastByteOf(token, c1.value, c2.value);
      } else if c4.None? {
        LastTwoOf(token, c1.value, c2.value, c3.value);
      } else {
        EncodeUndoesDecode(token[4..]);
        GroupOf(token, c1.value, c2.value, c3.value, c4.value, Decode(token[4..]).value);
      }
    }
  }

  lemma SymbolUndoesValue(c: char)
    ensures SymbolValue(c).Some? ==> Symbol(SymbolValue(c).value) == c
  {
  }

  lemma SextetsUndoBytes(v1: Sextet, v2: Sextet, v3: Sextet, v4: Sextet)
    ensures S1(B1(v1, v2)) == v1 && S2(B1(v1, v2), B2(v2, v3)) == v2
    ensures S3(B2(v2, v3), B3(v3, v4)) == v3 && S4(B3(v3, v4)) == v4
  {
  }

  lemma LastByteOf(token: string, v1: Sextet, v2: Sextet)
    requires |token| >= 4 && token[..2] == [Symbol(v1), Symbol(v2)] && token[2..] == "==" && v2 % 16 == 0
    ensures Encode([B1(v1, v2)]) == token
  {
    PaddedSextets(v1, v2);
    assert token == token[..2] + token[2..];
  }

  lemma PaddedSextets(v1: Sextet, v2: Sextet)
    requires v2 % 16 == 0
    ensures S1(B1(v1, v2)) == v1 && S2(B1(v1, v2), 0) == v2
  {
    assert B2(v2, 0) == 0;
    SextetsUndoBytes(v1, v2, 0, 0);
  }

  lemma LastTwoOf(token: string, v1: Sextet, v2: Sextet, v3: Sextet)
    requires |token| >= 4 && token[..3] == [Symbol(v1), Symbol(v2), Symbol(v3)] && token[3..] == "=" && v3 % 4 == 0
    ensures Encode([B1(v1, v2), B2(v2, v3)]) == token
  {
    SextetsUndoBytes(v1, v2, v3, 0);
    assert token == token[..3] + token[3..];
  }

  lemma GroupOf(token: string, v1: Sextet, v2: Sextet, v3: Sextet, v4: Sextet, rest: seq<Byte>)
    requires |token| >= 4 && token[..4] == [Symbol(v1), Symbol(v2), Symbol(v3), Symbol(v4)] && Encode(rest) == token[4..]
    ensures Encode([B1(v1, v2), B2(v2, v3), B3(v3, v4)] + rest) == token
  {
    GroupOfSextets(v1, v2, v3, v4);
    EncodeGroupAndRest(B1(v1, v2), B2(v2, v3), B3(v3, v4), rest);
    assert token == token[..4] + token[4..];
  }

  lemma GroupOfSextets(v1: Sextet, v2: Sextet, v3: Sextet, v4: Sextet)
    ensures Group(B1(v1, v2), B2(v2, v3), B3(v3, v4)) == [Symbol(v1), Symbol(v2), Symbol(v3), Symbol(v4)]
  {
    SextetsUndoBytes(v1, v2, v3, v4);
  }

  lemma EncodeGroupAndRest(b1: Byte, b2: Byte, b3: Byte, rest: seq<Byte>)
    ensures Encode([b1, b2, b3] + rest) == Group(b1, b2, b3) + Encode(rest)
  {
    assert ([b1, b2, b3] + rest)[3..] == rest;
  }

  // ----- The code -----

  /** The credential filled with zero bytes to a multiple of three. */
  function ZeroFill(bytes: seq<Byte>): (r: seq<Byte>)
    ensures |r| % 3 == 0 && bytes <= r && |r| < |bytes| + 3
  {
    bytes + if |bytes| % 3 == 0 then [] else if |bytes| % 3 == 1 then [0, 0] else [0]
  }

  /** What the loop produces: the unused places of the last group are zero-filled, not padded. */
  function Token(auth: seq<Byte>): string {
    if |auth| == 1 then [Symbol(S1(auth[0])), Symbol(S2(auth[0], 0)), '=', 'A'] else Encode(ZeroFill(auth))
  }

  method EncodeCredential(auth: seq<Byte>) returns (encoded: string)
    requires |auth| < TWO_TO_THE_64
    ensures encoded == Token(auth)
  {
    encoded := "";
    var i := 0;
    PendingEnds(auth);
    while i < |auth|
      invariant 0 <= i <= |auth|
      invariant |auth| != 1 ==> encoded + Pending(auth, i) == Pending(auth, 0)
      invariant |auth| == 1 ==> encoded == if i == 0 then "" else Token(auth)
    {
      ghost var start := i;
      var b1, b2: Byte, b3: Byte := auth[i], 0, 0;
      i := i + 1;
      if i < |auth| { b2 := auth[i]; i := i + 1; }
      if i < |auth| { b3 := auth[i]; i := i + 1; }
      var group := EncodeGroup(b1, b2, b3, i, |auth|);
      if |auth| == 1 {
        LoneByte(auth);
      } else {
        PendingStep(auth, start, i, b1, b2, b3);
        Appended(encoded, group, Pending(auth, i));
      }
      encoded := encoded + group;
    }
  }

  lemma Appended(encoded: string, group: string, rest: string)
    ensures (encoded + group) + rest == encoded + (group + rest)
  {
  }

  /** What the loop has still to append when it stands at `i`. */
  ghost function Pending(auth: seq<Byte>, i: nat): string
    requires i <= |auth|
  {
    Encode(ZeroFill(auth[i..]))
  }

  lemma PendingEnds(auth: seq<Byte>)
    ensures Pending(auth, 0) == Encode(ZeroFill(auth)) && Pending(auth, |auth|) == ""
  {
    assert auth[0..] == auth && ZeroFill(auth[|auth|..]) == [];
  }

  lemma PendingStep(auth: seq<Byte>, start: nat, i: nat, b1: Byte, b2: Byte, b3: Byte)
    requires start < i <= |auth| && i == (if start + 3 <= |auth| then start + 3 else |auth|)
    requires b1 == auth[start]
    requires b2 == if start + 1 < |auth| then auth[start + 1] else 0
    requires b3 == if start + 2 < |auth| then auth[start + 2] else 0
    ensures Pending(auth, start) == Group(b1, b2, b3) + Pending(auth, i)
  {
    ZeroFillStep(auth[start..]);
    assert auth[start..][i - start..] == auth[i..];
  }

  lemma Wrapped(x: int)
    requires -TWO_TO_THE_64 <= x < TWO_TO_THE_64
    ensures x % TWO_TO_THE_64 == if x < 0 then x + TWO_TO_THE_64 else x
  {
  }

  /** The four characters appended in one turn; `i` is the index after the bytes were read. */
  method EncodeGroup(b1: Byte, b2: Byte, b3: Byte, i: nat, length: nat) returns (group: string)
    requires 0 < i <= length < TWO_TO_THE_64 && (i == 1 ==> length == 1)
    ensures group == if length == 1 then Group(b1, b2, b3)[2 := '='] else Group(b1, b2, b3)
  {
    var combined := b1 * 0x1_0000 + b2 * 0x100 + b3;
    Wrapped(i - 2);
    Wrapped(i - 1);
    FourSextets(combined, S1(b1), S2(b1, b2), S3(b2, b3), S4(b3));
    var s1, s2, s3, s4 := combined / 0x4_0000 % 64, combined / 0x1000 % 64, combined / 0x40 % 64, combined % 64;
    var third := if (i - 2) % TWO_TO_THE_64 < length then Symbol(s3) else '=';
    var fourth := if (i - 1) % TWO_TO_THE_64 < length then Symbol(s4) else '=';
    group := [Symbol(s1), Symbol(s2), third, fourth];
  }

  lemma FourSextets(x: nat, s1: Sextet, s2: Sextet, s3: Sextet, s4: Sextet)
    requires x == 0x4_0000 * s1 + 0x1000 * s2 + 0x40 * s3 + s4
    ensures x / 0x4_0000 % 64 == s1 && x / 0x1000 % 64 == s2 && x / 0x40 % 64 == s3 && x % 64 == s4
  {
    assert x / 0x40 == 0x1000 * s1 + 0x40 * s2 + s3;
    assert x / 0x1000 == 0x40 * s1 + s2;
    assert x / 0x4_0000 == s1;
  }

  lemma LoneByte(auth: seq<Byte>)
    requires |auth| == 1
    ensures Token(auth) == Group(auth[0], 0, 0)[2 := '=']
  {
  }

  lemma LoneByteIsNotStandard(auth: seq<Byte>)
    requires |auth| == 1
    ensures Token(auth) != Encode(auth)
  {
  }

  /** One turn of the loop encodes one group of the zero-filled credential. */
  lemma ZeroFillStep(auth: seq<Byte>)
    requires auth != []
    ensures var n := if |auth| < 3 then |auth| else 3;
            Encode(ZeroFill(auth))
            == Group(auth[0], if n > 1 then auth[1] else 0, if n > 2 then auth[2] else 0) + Encode(ZeroFill(auth[n..]))
  {
    var filled := ZeroFill(auth);
    ZeroFillTail(auth);
    assert Encode(filled) == Group(filled[0], filled[1], filled[2]) + Encode(filled[3..]);
  }

  lemma ZeroFillTail(auth: seq<Byte>)
    requires auth != []
    ensures var n, filled := if |auth| < 3 then |auth| else 3, ZeroFill(auth);
            && |filled| >= 3 && filled[3..] == ZeroFill(auth[n..])
            && filled[0] == auth[0]
            && filled[1] == (if n > 1 then auth[1] else 0)
            && filled[2] == (if n > 2 then auth[2] else 0)
  {
  }

  // ----- Consequences -----

  /** What a server reads out of the token: the credential, then zero bytes. */
  lemma TokenDecodesToZeroFill(auth: seq<Byte>)
    requires |auth| >= 2
    ensures Decode(Token(auth)) == Some(ZeroFill(auth))
  {
    DecodeUndoesEncode(ZeroFill(auth));
  }

  lemma ZeroFillFixes(auth: seq<Byte>)
    ensures ZeroFill(auth) == auth <==> |auth| % 3 == 0
  {
  }

  /** The token is the one of RFC 4648 exactly when no padding is due. */
  lemma TokenIsStandardIff(auth: seq<Byte>)
    ensures Token(auth) == Encode(auth) <==> |auth| % 3 == 0
  {
    if |auth| == 1 {
      LoneByteIsNotStandard(auth);
    } else {
      ZeroFillFixes(auth);
      if Token(auth) == Encode(auth) { EncodeInjective(auth, ZeroFill(auth)); }
    }
  }

  /** Two credentials share a token exactly when they differ by zero bytes lost in the filling. */
  lemma SharedTokens(auth: seq<Byte>, auth': seq<Byte>)
    requires |auth| >= 2 && |auth'| >= 2
    ensures Token(auth) == Token(auth') <==> ZeroFill(auth) == ZeroFill(auth')
    ensures 0 !in auth && 0 !in auth' && Token(auth) == Token(auth') ==> auth == auth'
  {
    TokenDecodesToZeroFill(auth);
    TokenDecodesToZeroFill(auth');
    if 0 !in auth && 0 !in auth' && ZeroFill(auth) == ZeroFill(auth') { SharedFill(auth, auth'); }
  }

  lemma SharedFill(auth: seq<Byte>, auth': seq<Byte>)
    requires 0 !in auth && 0 !in auth' && ZeroFill(auth) == ZeroFill(auth')
    ensures auth == auth'
  {
    UpToZeroUndoesFill(auth, ZeroFill(auth)[|auth|..]);
    UpToZeroUndoesFill(auth', ZeroFill(auth')[|auth'|..]);
  }

  function UpToZero(bytes: seq<Byte>): seq<Byte> {
    if bytes == [] || bytes[0] == 0 then [] else [bytes[0]] + UpToZero(bytes[1..])
  }

  lemma UpToZeroUndoesFill(auth: seq<Byte>, zeros: seq<Byte>)
    requires 0 !in auth && forall z :: z in zeros ==> z == 0
    ensures UpToZero(auth + zeros) == auth
  {
    if auth != [] {
      assert (auth + zeros)[1..] == auth[1..] + zeros;
    } else if zeros != [] {
      assert zeros[0] in zeros;
    }
  }

  // ----- User names and passwords (RFC 7617, section 2) -----

  const COLON: Byte := 0x3A

  function Credential(username: seq<Byte>, password: seq<Byte>): seq<Byte> {
    username + [COLON] + password
  }

  /** The user name and password that a server reads: up to and after the first colon. */
  function SplitCredential(auth: seq<Byte>): Option<(seq<Byte>, seq<Byte>)> {
    if auth == [] then None
    else if auth[0] == COLON then Some(([], auth[1..]))
    else match SplitCredential(auth[1..])
      case None => None
      case Some(pair) => Some(([auth[0]] + pair.0, pair.1))
  }

  lemma {:induction false} SplitUndoesCredential(username: seq<Byte>, password: seq<Byte>)
    requires COLON !in username
    ensures SplitCredential(Credential(username, password)) == Some((username, password))
  {
    var auth := Credential(username, password);
    if username == [] {
      assert auth[1..] == password;
    } else {
      assert auth[1..] == Credential(username[1..], password);
      SplitUndoesCredential(username[1..], password);
      assert username == [auth[0]] + username[1..];
    }
  }

  /** A standard server sees the right user name, and the password followed by the filling; so it
      sees the right password exactly when the credential's length is a multiple of three. */
  lemma ServerSees(username: seq<Byte>, password: seq<Byte>) returns (seen: seq<Byte>, zeros: seq<Byte>)
    requires username != [] && 0x3A !in username
    ensures Decode(Token(username + [0x3A] + password)) == Some(seen)
    ensures SplitCredential(seen) == Some((username, password + zeros))
    ensures forall z :: z in zeros ==> z == 0
    ensures password + zeros == password <==> (|username| + 1 + |password|) % 3 == 0
  {
    var auth := Credential(username, password);
    assert auth == username + [0x3A] + password;
    seen := ZeroFill(auth);
    TokenDecodesToZeroFill(auth);
    zeros := FillingFollowsPassword(username, password);
  }

  lemma FillingFollowsPassword(username: seq<Byte>, password: seq<Byte>) returns (zeros: seq<Byte>)
    requires COLON !in username
    ensures SplitCredential(ZeroFill(Credential(username, password))) == Some((username, password + zeros))
    ensures forall z :: z in zeros ==> z == 0
    ensures password + zeros == password <==> |Credential(username, password)| % 3 == 0
  {
    var auth := Credential(username, password);
    zeros := ZeroFill(auth)[|auth|..];
    assert ZeroFill(auth) == Credential(username, password + zeros);
    SplitUndoesCredential(username, password + zeros);
    assert |password + zeros| == |password| + |zeros|;
  }
}
