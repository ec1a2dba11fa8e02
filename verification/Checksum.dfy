/** The Internet checksum of the ICMP packets that ping and fping send (RFC 1071, section 1). */
module Checksum {
  import opened Machine

  type Word = x: int | 0 <= x < 0x1_0000

  /** The C++ `int`: verification of the code below shows that its sum never overflows. */
  newtype int32 = x: int | -0x8000_0000 <= x < 0x8000_0000

  /** How the machine reads an `unsigned short` out of two bytes of memory. */
  datatype ByteOrder = Little | Big {
    function Load(first: Byte, second: Byte): Word {
      if this == Little then first + 0x100 * second else 0x100 * first + second
    }

    function Store(w: Word): (Byte, Byte) {
      if this == Little then (w % 0x100, w / 0x100) else (w / 0x100, w % 0x100)
    }
  }

  /** The 16-bit words of a buffer; an odd last byte is padded with a zero byte. */
  function Words(order: ByteOrder, buf: seq<Byte>): (ws: seq<Word>)
    ensures |ws| == (|buf| + 1) / 2
  {
    if |buf| == 0 then []
    else if |buf| == 1 then [order.Load(buf[0], 0)]
    else [order.Load(buf[0], buf[1])] + Words(order, buf[2..])
  }

  /** 16-bit one's complement addition, with the carry added back at once. */
  function OnesAdd(a: Word, b: Word): Word {
    if a + b < 0x1_0000 then a + b else a + b - 0xFFFF
  }

  /** The one's complement sum of RFC 1071: end-around carry at every step. */
  function OnesSum(ws: seq<Word>): Word {
    if ws == [] then 0 else OnesAdd(OnesSum(ws[..|ws| - 1]), ws[|ws| - 1])
  }

  function Complement(w: Word): Word {
    0xFFFF - w
  }

  /** The checksum that RFC 1071 asks for. */
  function Rfc1071(ws: seq<Word>): Word {
    Complement(OnesSum(ws))
  }

  function Swap(w: Word): Word {
    w % 0x100 * 0x100 + w / 0x100
  }

  function Total(ws: seq<Word>): nat {
    if ws == [] then 0 else Total(ws[..|ws| - 1]) + ws[|ws| - 1]
  }

  // ----- The code -----

  const MAX_LENGTH := 0x1_0000

  method InCksum(order: ByteOrder, addr: array<Byte>, len: int) returns (answer: Word)
    requires len <= addr.Length && len <= MAX_LENGTH
    ensures answer == Rfc1071(Words(order, addr[..if len < 0 then 0 else len]))
  {
    var nleft, sum: int32, w := len, 0, 0;
    ghost var buf: seq<Byte> := addr[..if len < 0 then 0 else len];
    ghost var ws := Words(order, buf);
    while nleft > 1
      invariant 0 <= w <= |ws| && 2 * w == len - nleft && (len >= 0 ==> nleft >= 0)
      invariant sum as int == Total(ws[..w])
    {
      WordAt(order, buf, w);
      TotalStep(ws, w);
      sum := sum + order.Load(addr[2 * w], addr[2 * w + 1]) as int32;
      w := w + 1;
      nleft := nleft - 2;
    }
    if nleft == 1 {
      WordAt(order, buf, w);
      TotalStep(ws, w);
      sum := sum + order.Load(addr[2 * w], 0) as int32;
      w := w + 1;
    }
    assert ws[..w] == ws;
    answer := FoldAndComplement(sum);
    SumIsResidue(ws);
  }

  method FoldAndComplement(unfolded: int32) returns (answer: Word)
    requires unfolded >= 0
    ensures answer == Complement(Residue(unfolded as int))
  {
    var sum := unfolded;
    TwoFoldsSuffice(sum as int);
    sum := sum / 0x1_0000 + sum % 0x1_0000;
    sum := sum + sum / 0x1_0000;
    answer := (-1 - sum as int) % 0x1_0000;
  }

  ghost function Patch(buf: seq<Byte>, field: nat, first: Byte, second: Byte): seq<Byte>
    requires field + 2 <= |buf|
  {
    buf[..field] + [first, second] + buf[field + 2..]
  }

  /** Assignment to an `unsigned short` member at offset `field`. */
  method StoreField(order: ByteOrder, packet: array<Byte>, field: nat, w: Word)
    requires field + 2 <= packet.Length
    modifies packet
    ensures packet[..] == Stored(order, old(packet[..]), field, w)
  {
    var bytes := order.Store(w);
    packet[field], packet[field + 1] := bytes.0, bytes.1;
    assert packet[..] == Stored(order, old(packet[..]), field, w);
  }

  ghost function Stored(order: ByteOrder, buf: seq<Byte>, field: nat, w: Word): seq<Byte>
    requires field + 2 <= |buf|
  {
    Patch(buf, field, order.Store(w).0, order.Store(w).1)
  }

  /** Zero the checksum field at an even offset, compute the checksum, store it. */
  method InsertChecksum(order: ByteOrder, packet: array<Byte>, field: nat)
    requires packet.Length <= MAX_LENGTH && field % 2 == 0 && field + 2 <= packet.Length
    modifies packet
    ensures var zeroed := Stored(order, old(packet[..]), field, 0);
            packet[..] == Stored(order, old(packet[..]), field, Rfc1071(Words(order, zeroed)))
    ensures Rfc1071(Words(order, packet[..])) == 0
  {
    StoreField(order, packet, field, 0);
    ghost var zeroed := packet[..];
    assert zeroed == packet[..packet.Length];
    var answer := InCksum(order, packet, packet.Length);
    StoreField(order, packet, field, answer);
    StoredAgain(order, old(packet[..]), field, 0, answer);
    StoredFieldVerifies(order, zeroed, field);
  }

  /** The last value stored stays. */
  lemma StoredAgain(order: ByteOrder, buf: seq<Byte>, field: nat, w: Word, w': Word)
    requires field + 2 <= |buf|
    ensures Stored(order, Stored(order, buf, field, w), field, w') == Stored(order, buf, field, w')
    ensures Stored(order, buf, field, 0)[field] == Stored(order, buf, field, 0)[field + 1] == 0
  {
  }

  lemma StoredFieldVerifies(order: ByteOrder, zeroed: seq<Byte>, field: nat)
    requires field % 2 == 0 && field + 2 <= |zeroed| && zeroed[field] == zeroed[field + 1] == 0
    ensures Rfc1071(Words(order, Stored(order, zeroed, field, Rfc1071(Words(order, zeroed))))) == 0
  {
    var answer := Rfc1071(Words(order, zeroed));
    LoadUndoesStore(order, answer);
    WordsUpdate(order, zeroed, field, order.Store(answer).0, order.Store(answer).1);
    WordAt(order, zeroed, field / 2);
    InsertedSumIsOnes(Words(order, zeroed), field / 2);
  }

  lemma LoadUndoesStore(order: ByteOrder, w: Word)
    ensures order.Load(order.Store(w).0, order.Store(w).1) == w
  {
  }

  // ----- Words of a buffer -----

  lemma {:induction false} WordAt(order: ByteOrder, buf: seq<Byte>, k: nat)
    requires 2 * k < |buf|
    ensures Words(order, buf)[k] == order.Load(buf[2 * k], if 2 * k + 1 < |buf| then buf[2 * k + 1] else 0)
  {
    if k > 0 {
      WordAt(order, buf[2..], k - 1);
    }
  }

  lemma {:induction false} WordsUpdate(order: ByteOrder, buf: seq<Byte>, field: nat, first: Byte, second: Byte)
    requires field % 2 == 0 && field + 2 <= |buf|
    ensures Words(order, Patch(buf, field, first, second))
         == Words(order, buf)[field / 2 := order.Load(first, second)]
  {
    var buf' := Patch(buf, field, first, second);
    if field == 0 {
      assert buf'[2..] == buf[2..];
    } else {
      assert buf'[2..] == Patch(buf[2..], field - 2, first, second);
      WordsUpdate(order, buf[2..], field - 2, first, second);
    }
  }

  // ----- Deferred carries -----

  lemma TotalBound(ws: seq<Word>)
    ensures Total(ws) <= 0xFFFF * |ws|
  {
  }

  lemma TotalStep(ws: seq<Word>, w: nat)
    requires w < |ws|
    ensures Total(ws[..w + 1]) == Total(ws[..w]) + ws[w]
    ensures |ws| <= MAX_LENGTH / 2 ==> Total(ws[..w + 1]) < 0x8000_0000
  {
    assert ws[..w + 1][..w] == ws[..w];
    TotalBound(ws[..w + 1]);
  }

  /** The representative of `x` modulo 65535 in 1..65535, except that only 0 is sent to 0. */
  function Residue(x: nat): Word {
    if x == 0 then 0 else (x - 1) % 0xFFFF + 1
  }

  /** Two folds of any sum below 2^31 leave the residue in the low 16 bits. */
  lemma TwoFoldsSuffice(sum: nat)
    requires sum < 0x8000_0000
    ensures var once := sum / 0x1_0000 + sum % 0x1_0000;
            var twice := once + once / 0x1_0000;
            twice < 0x8000_0000 && (-1 - twice) % 0x1_0000 == Complement(Residue(sum))
  {
    var hi, lo := sum / 0x1_0000, sum % 0x1_0000;
    var once := hi + lo;
    assert sum == 0x1_0000 * hi + lo;
    if once == 0 {
    } else {
      var low := if once < 0x1_0000 then once else once - 0xFFFF;
      assert sum - 1 == 0xFFFF * (if once < 0x1_0000 then hi else hi + 1) + (low - 1);
      ResidueIs(sum, low, if once < 0x1_0000 then hi else hi + 1);
    }
  }

  lemma ResidueIs(x: nat, r: Word, q: nat)
    requires x == 0xFFFF * q + r && (r == 0 ==> q == 0)
    ensures Residue(x) == r
  {
  }

  lemma ResidueQuotient(x: nat) returns (q: nat)
    ensures x == 0xFFFF * q + Residue(x)
  {
    q := if x == 0 then 0 else (x - 1) / 0xFFFF;
  }

  /** End-around carry at every step and one reduction at the end agree, for any number of words. */
  lemma {:induction false} SumIsResidue(ws: seq<Word>)
    ensures OnesSum(ws) == Residue(Total(ws))
  {
    if ws != [] {
      var front, last := ws[..|ws| - 1], ws[|ws| - 1];
      SumIsResidue(front);
      var q := ResidueQuotient(Total(front));
      var a: int := OnesSum(front);
      ResidueIs(Total(ws), OnesAdd(a, last), if a + last < 0x1_0000 then q else q + 1);
    }
  }

  lemma {:induction false} ZeroSumOnlyOfZeros(ws: seq<Word>)
    ensures OnesSum(ws) == 0 <==> forall i :: 0 <= i < |ws| ==> ws[i] == 0
  {
    SumIsResidue(ws);
    ZeroTotal(ws);
  }

  lemma ZeroTotal(ws: seq<Word>)
    ensures Total(ws) == 0 <==> forall i :: 0 <= i < |ws| ==> ws[i] == 0
  {
  }

  lemma {:induction false} TotalOfConstant(ws: seq<Word>, w: Word)
    requires forall i :: 0 <= i < |ws| ==> ws[i] == w
    ensures Total(ws) == w * |ws|
  {
    if ws != [] {
      TotalOfConstant(ws[..|ws| - 1], w);
    }
  }

  /** The length bound cannot be relaxed: one more word of ones would overflow the `int`. */
  lemma {:induction false} LengthBoundIsTight(order: ByteOrder, buf: seq<Byte>)
    requires |buf| == MAX_LENGTH + 2 && forall i :: 0 <= i < |buf| ==> buf[i] == 0xFF
    ensures Total(Words(order, buf)) >= 0x8000_0000
  {
    var ws := Words(order, buf);
    forall k | 0 <= k < |ws|
      ensures ws[k] == 0xFFFF
    {
      WordAt(order, buf, k);
    }
    TotalOfConstant(ws, 0xFFFF);
  }

  // ----- Verification by the receiver -----

  lemma TotalUpdate(ws: seq<Word>, i: nat, w: Word)
    requires i < |ws|
    ensures Total(ws[i := w]) == Total(ws) - ws[i] + w
  {
    var front := ws[..|ws| - 1];
    if i == |ws| - 1 {
      assert ws[i := w][..|ws| - 1] == front;
    } else {
      assert ws[i := w][..|ws| - 1] == front[i := w];
      TotalUpdate(front, i, w);
    }
  }

  /** Storing the checksum in its zeroed field makes the whole packet sum to all ones. */
  lemma InsertedSumIsOnes(ws: seq<Word>, i: nat)
    requires i < |ws| && ws[i] == 0
    ensures Rfc1071(ws[i := Rfc1071(ws)]) == 0
  {
    SumIsResidue(ws);
    var sent := ws[i := Rfc1071(ws)];
    TotalUpdate(ws, i, Rfc1071(ws));
    SumIsResidue(sent);
    var q := ResidueQuotient(Total(ws));
    assert Total(sent) == 0xFFFF * (q + 1);
    ResidueIs(Total(sent), 0xFFFF, q);
  }

  // ----- Byte order -----

  lemma {:induction false} TotalCons(w: Word, ws: seq<Word>)
    ensures Total([w] + ws) == w + Total(ws)
  {
    if ws == [] {
      assert ([w] + ws)[..0] == [];
    } else {
      TotalCons(w, ws[..|ws| - 1]);
      assert ([w] + ws)[..|ws|] == [w] + ws[..|ws| - 1];
    }
  }

  /** Read in the other order, each word is multiplied by 256 modulo 65535. */
  lemma {:induction false} TotalsOfBothOrders(buf: seq<Byte>) returns (q: nat)
    ensures 0x100 * Total(Words(Big, buf)) == Total(Words(Little, buf)) + 0xFFFF * q
    ensures Total(Words(Big, buf)) == 0 <==> Total(Words(Little, buf)) == 0
  {
    if |buf| < 2 {
      q := if |buf| == 0 then 0 else buf[0];
    } else {
      var q' := TotalsOfBothOrders(buf[2..]);
      TotalCons(Big.Load(buf[0], buf[1]), Words(Big, buf[2..]));
      TotalCons(Little.Load(buf[0], buf[1]), Words(Little, buf[2..]));
      q := q' + buf[0];
    }
  }

  lemma SwapIsTimes256(big: nat, little: nat, q: nat)
    requires 0x100 * big == little + 0xFFFF * q && (big == 0 <==> little == 0)
    ensures Residue(little) == Swap(Residue(big))
  {
    var qb := ResidueQuotient(big);
    var ql := ResidueQuotient(little);
    var r: int, s: int := Residue(big), Residue(little);
    assert 0x100 * r == Swap(r) + 0xFFFF * (r / 0x100);
    assert Swap(r) - s == 0xFFFF * (ql + q - 0x100 * qb - r / 0x100);
  }

  lemma SwapCommutesWithComplement(w: Word)
    ensures Swap(Complement(w)) == Complement(Swap(w))
  {
    var hi, lo := w / 0x100, w % 0x100;
    assert Complement(w) == (0xFF - hi) * 0x100 + (0xFF - lo);
    assert Complement(w) / 0x100 == 0xFF - hi;
  }

  /** RFC 1071, section 2(B): the checksum computed in one byte order is the other one byte-swapped. */
  lemma ByteOrderIndependence(buf: seq<Byte>)
    ensures Rfc1071(Words(Little, buf)) == Swap(Rfc1071(Words(Big, buf)))
  {
    var q := TotalsOfBothOrders(buf);
    SumIsResidue(Words(Little, buf));
    SumIsResidue(Words(Big, buf));
    SwapIsTimes256(Total(Words(Big, buf)), Total(Words(Little, buf)), q);
    SwapCommutesWithComplement(OnesSum(Words(Big, buf)));
  }

  /** Hence both kinds of machine put the same two bytes on the wire. */
  lemma SameBytesOnTheWire(buf: seq<Byte>)
    ensures Little.Store(Rfc1071(Words(Little, buf))) == Big.Store(Rfc1071(Words(Big, buf)))
  {
    ByteOrderIndependence(buf);
  }

  // ----- Order of the words, and what is detected -----

  lemma {:induction false} TotalRemove(ws: seq<Word>, i: nat)
    requires i < |ws|
    ensures Total(ws) == ws[i] + Total(ws[..i] + ws[i + 1..])
  {
    var front := ws[..|ws| - 1];
    if i == |ws| - 1 {
      assert ws[..i] + ws[i + 1..] == front;
    } else {
      TotalRemove(front, i);
      assert (ws[..i] + ws[i + 1..])[..|ws| - 2] == front[..i] + front[i + 1..];
    }
  }

  lemma {:induction false} TotalOfPermutation(ws: seq<Word>, ws': seq<Word>)
    requires multiset(ws) == multiset(ws')
    ensures Total(ws) == Total(ws')
    decreases |ws|
  {
    if ws == [] {
      assert |multiset(ws')| == |ws'|;
    } else {
      var last := ws[|ws| - 1];
      assert last in multiset(ws');
      var i :| 0 <= i < |ws'| && ws'[i] == last;
      var rest, rest' := ws[..|ws| - 1], ws'[..i] + ws'[i + 1..];
      assert ws == rest + [last];
      assert ws' == ws'[..i] + [last] + ws'[i + 1..];
      assert multiset(rest) == multiset(ws) - multiset{last} == multiset(ws') - multiset{last} == multiset(rest');
      TotalOfPermutation(rest, rest');
      TotalRemove(ws', i);
    }
  }

  lemma OrderOfWordsIsIrrelevant(ws: seq<Word>, ws': seq<Word>)
    requires multiset(ws) == multiset(ws')
    ensures Rfc1071(ws) == Rfc1071(ws')
  {
    SumIsResidue(ws);
    SumIsResidue(ws');
    TotalOfPermutation(ws, ws');
  }

  /** A change of one word escapes the checksum in one case only: it turns 0x0000 into 0xFFFF or
      back while some other word is not zero. */
  lemma SingleWordChange(ws: seq<Word>, i: nat, w: Word)
    requires i < |ws| && w != ws[i]
    ensures Rfc1071(ws[i := w]) == Rfc1071(ws)
       <==> {w, ws[i]} == {0, 0xFFFF} && exists j :: 0 <= j < |ws| && j != i && ws[j] != 0
  {
    var ws' := ws[i := w];
    SumIsResidue(ws);
    SumIsResidue(ws');
    TotalUpdate(ws, i, w);
    var q := ResidueQuotient(Total(ws));
    var q' := ResidueQuotient(Total(ws'));
    OthersZero(ws, i);
    if OnesSum(ws) == OnesSum(ws') {
      assert ws[i] as int - w as int == 0xFFFF * (q as int - q' as int);
      assert w == 0 || ws[i] == 0;
      assert {w, ws[i]} == {0, 0xFFFF};
    } else if {w, ws[i]} == {0, 0xFFFF} && Total(ws) != ws[i] {
      assert w in {0, 0xFFFF} && ws[i] in {0, 0xFFFF};
      ResidueIs(Total(ws'), Residue(Total(ws)), if w == 0 then q - 1 else q + 1);
    }
  }

  lemma OthersZero(ws: seq<Word>, i: nat)
    requires i < |ws|
    ensures Total(ws) != ws[i] <==> exists j :: 0 <= j < |ws| && j != i && ws[j] != 0
  {
    TotalUpdate(ws, i, 0);
    ZeroTotal(ws[i := 0]);
    assert forall j :: 0 <= j < |ws| && j != i ==> ws[i := 0][j] == ws[j];
  }
}
