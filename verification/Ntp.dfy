/** The SNTP and time protocol clients, and the verdict of check_ntp. */
module Ntp {
  import opened Text
  import opened Plugin
  import opened Machine

  const NTP_UNIX_EPOCH_DIFF := 2208988800
  const NTP_PACKET_SIZE := 48
  const TWO_TO_THE_32 := 4294967296.0

  datatype Timeval = Timeval(sec: int, usec: int)

  function TimevalToSeconds(tv: Timeval): real {
    tv.sec as real + tv.usec as real / 1000000.0
  }

  /** A clock reading is a whole number of microseconds. */
  lemma SecondsOfTimeval(tv: Timeval)
    ensures TimevalToSeconds(tv) * 1000000.0 == (1000000 * tv.sec + tv.usec) as real
  {
    assert tv.usec as real / 1000000.0 * 1000000.0 == tv.usec as real;
  }

  /** The days of the years from `from` up to, not including, `to` of the Gregorian calendar. */
  function Days(from: nat, to: nat): nat
    decreases to
  {
    if to <= from then 0 else Days(from, to - 1) + if IsLeap(to - 1) then 366 else 365
  }

  predicate IsLeap(year: nat) {
    year % 4 == 0 && (year % 100 != 0 || year % 400 == 0)
  }

  /** Between the epochs of NTP and Unix lie the 70 years from 1900 to 1970. */
  lemma EpochDifference()
    ensures NTP_UNIX_EPOCH_DIFF == 86400 * Days(1900, 1970)
  {
    DaysSince1900(70);
  }

  lemma {:induction false} DaysSince1900(years: nat)
    requires 1 <= years <= 100
    ensures Days(1900, 1900 + years) == 365 * years + (years - 1) / 4
  {
    if years == 1 {
      assert Days(1900, 1900) == 0 && !IsLeap(1900);
    } else {
      DaysSince1900(years - 1);
      LeapDay(years - 1);
    }
  }

  lemma LeapDay(k: nat)
    requires 1 <= k < 100
    ensures IsLeap(1900 + k) <==> k % 4 == 0
    ensures k / 4 == (k - 1) / 4 + if k % 4 == 0 then 1 else 0
  {
  }

  function NtpTimestampToUnix(sec: uint32, frac: uint32): real {
    (sec as real - NTP_UNIX_EPOCH_DIFF as real) + frac as real / TWO_TO_THE_32
  }

  /** Four bytes as an unsigned number, most significant first. */
  function Decode32(b: seq<Byte>): uint32
    requires |b| == 4
  {
    BigEndian(b[0], b[1], b[2], b[3])
  }

  function BigEndian(b0: int, b1: int, b2: int, b3: int): int {
    b0 * 0x100_0000 + b1 * 0x1_0000 + b2 * 0x100 + b3
  }

  function Encode32(x: uint32): seq<Byte> {
    [x / 0x100 / 0x100 / 0x100, x / 0x100 / 0x100 % 0x100, x / 0x100 % 0x100, x % 0x100]
  }

  datatype NtpQueryResult = NtpQueryResult(ok: bool, offset_seconds: real, stratum: int, error: string)

  /** What the system calls of one query give: None is a failed clock reading; `data` is what the
      datagram holds, cut at the size of the buffer; `received` is the result of `recvfrom`. */
  datatype Exchange = Exchange(
    socketError: string, timeoutSet: bool, sendTime: Option<Timeval>, sent: int,
    received: int, data: seq<Byte>, recvTime: Option<Timeval>)
  {
    ghost predicate Valid(size: nat) {
      received == -1 || (0 <= received == |data| <= size)
    }

    /** The query succeeds with a full response of the given size. */
    predicate Complete(size: nat) {
      socketError == "" && timeoutSet && sendTime.Some? && recvTime.Some? && received == size
    }

    function Midpoint(): real
      requires sendTime.Some? && recvTime.Some?
    {
      (TimevalToSeconds(sendTime.value) + TimevalToSeconds(recvTime.value)) / 2.0
    }

    function RoundTrip(): real
      requires sendTime.Some? && recvTime.Some?
    {
      TimevalToSeconds(recvTime.value) - TimevalToSeconds(sendTime.value)
    }
  }

  /** The transmit timestamp of an NTP packet. */
  function TransmitTime(data: seq<Byte>): real
    requires |data| == 48
  {
    NtpTimestampToUnix(Decode32(data[40..44]), Decode32(data[44..48]))
  }

  method QueryNtpOffset(x: Exchange) returns (result: NtpQueryResult)
    requires x.Valid(48)
    ensures result.ok <==> x.Complete(48) && x.sent == 48
    ensures result.ok ==> result == NtpQueryResult(true, x.Midpoint() - TransmitTime(x.data), x.data[1], "")
    ensures !result.ok ==> result.offset_seconds == 0.0 && result.stratum == 0 && result.error != ""
  {
    result := NtpQueryResult(false, 0.0, 0, "");
    if x.socketError != "" { return result.(error := x.socketError); }
    if !x.timeoutSet { return result.(error := "Failed to set socket timeout"); }
    if x.sendTime.None? { return result.(error := "Failed to read local time"); }
    if x.sent != NTP_PACKET_SIZE { return result.(error := "Failed to send NTP request"); }
    if x.recvTime.None? { return result.(error := "Failed to read local time"); }
    if x.received < NTP_PACKET_SIZE { return result.(error := "No NTP response received"); }
    var response := x.data;
    result := result.(stratum := response[1]);
    var txSec: uint32 := BigEndian(response[40], response[41], response[42], response[43]);
    var txFrac: uint32 := BigEndian(response[44], response[45], response[46], response[47]);
    var serverTime := NtpTimestampToUnix(txSec, txFrac);
    var localMidpoint := (TimevalToSeconds(x.sendTime.value) + TimevalToSeconds(x.recvTime.value)) / 2.0;
    result := result.(offset_seconds := localMidpoint - serverTime);
    result := result.(ok := true);
  }

  method QueryTimeProtocolOffset(x: Exchange) returns (result: NtpQueryResult)
    requires x.Valid(4)
    ensures result.ok <==> x.Complete(4) && x.sent >= 0
    ensures result.ok ==> result == NtpQueryResult(true, x.Midpoint() - NtpTimestampToUnix(Decode32(x.data), 0), 0, "")
    ensures !result.ok ==> result.offset_seconds == 0.0 && result.stratum == 0 && result.error != ""
  {
    result := NtpQueryResult(false, 0.0, 0, "");
    if x.socketError != "" { return result.(error := x.socketError); }
    if !x.timeoutSet { return result.(error := "Failed to set socket timeout"); }
    if x.sendTime.None? { return result.(error := "Failed to read local time"); }
    if x.sent < 0 { return result.(error := "Failed to send time protocol request"); }
    if x.recvTime.None? { return result.(error := "Failed to read local time"); }
    if x.received < 4 { return result.(error := "No time protocol response received"); }
    var response := x.data;
    var ntpSec: uint32 := BigEndian(response[0], response[1], response[2], response[3]);
    var serverTime := NtpTimestampToUnix(ntpSec, 0);
    var localMidpoint := (TimevalToSeconds(x.sendTime.value) + TimevalToSeconds(x.recvTime.value)) / 2.0;
    result := result.(offset_seconds := localMidpoint - serverTime);
    result := result.(ok := true);
  }

  // ----- Timestamps -----

  lemma DecodeUndoesEncode(x: uint32)
    ensures Decode32(Encode32(x)) == x
  {
    var y := x / 0x100;
    assert y == 0x100 * (y / 0x100) + y % 0x100;
  }

  lemma EncodeUndoesDecode(b: seq<Byte>)
    requires |b| == 4
    ensures Encode32(Decode32(b)) == b
  {
    var b0: int, b1: int, b2: int, b3: int := b[0], b[1], b[2], b[3];
    LastByte(b0 * 0x1_0000 + b1 * 0x100 + b2, b3);
    LastByte(b0 * 0x100 + b1, b2);
    LastByte(b0, b1);
  }

  lemma LastByte(q: int, r: int)
    requires 0 <= r < 0x100
    ensures (0x100 * q + r) / 0x100 == q && (0x100 * q + r) % 0x100 == r
  {
  }

  /** Timestamps are ordered as their pairs of seconds and fraction. */
  lemma UnixTimeIsMonotone(sec: uint32, frac: uint32, sec': uint32, frac': uint32)
    ensures NtpTimestampToUnix(sec, frac) < NtpTimestampToUnix(sec', frac')
       <==> sec < sec' || (sec == sec' && frac < frac')
  {
    var f, f' := frac as real / TWO_TO_THE_32, frac' as real / TWO_TO_THE_32;
    assert f * TWO_TO_THE_32 == frac as real && f' * TWO_TO_THE_32 == frac' as real;
    assert 0.0 <= f < 1.0 && 0.0 <= f' < 1.0;
    assert f < f' <==> frac < frac';
    assert sec < sec' ==> sec as real + 1.0 <= sec' as real;
    assert sec' < sec ==> sec' as real + 1.0 <= sec as real;
  }

  /** The timestamp of a Unix time, as a server makes it: the seconds since 1900 wrap around, the
      fraction is rounded down. */
  datatype Stamp = Stamp(sec: uint32, frac: uint32)

  function StampOf(t: real): Stamp {
    var ntp := t + NTP_UNIX_EPOCH_DIFF as real;
    Stamp(ntp.Floor % 0x1_0000_0000, ((ntp - ntp.Floor as real) * TWO_TO_THE_32).Floor)
  }

  /** The eras of 2^32 seconds between 1900 and a time (RFC 5905, section 6); era 0 ends in 2036. */
  function Era(t: real): int {
    (t + NTP_UNIX_EPOCH_DIFF as real).Floor / 0x1_0000_0000
  }

  function Wrap(t: real): real {
    Era(t) as real * TWO_TO_THE_32
  }

  const RESOLUTION := 1.0 / TWO_TO_THE_32

  lemma EraAndSeconds(t: real)
    ensures Wrap(t) + NtpTimestampToUnix(StampOf(t).sec, 0) <= t < Wrap(t) + NtpTimestampToUnix(StampOf(t).sec, 0) + 1.0
  {
  }

  lemma StampRoundsDown(t: real)
    ensures var unix := NtpTimestampToUnix(StampOf(t).sec, StampOf(t).frac);
            Wrap(t) + unix <= t < Wrap(t) + unix + RESOLUTION
  {
    EraAndSeconds(t);
    var ntp := t + NTP_UNIX_EPOCH_DIFF as real;
    assert ntp.Floor as real == Wrap(t) + StampOf(t).sec as real by {
      assert ntp.Floor == Era(t) * 0x1_0000_0000 + StampOf(t).sec;
    }
    var part := (ntp - ntp.Floor as real) * TWO_TO_THE_32;
    assert part.Floor as real <= part < part.Floor as real + 1.0;
    assert part / TWO_TO_THE_32 == ntp - ntp.Floor as real;
  }

  /** A packet with the timestamp of `server`; all else in it, the stratum too, is arbitrary. */
  predicate Carries(data: seq<Byte>, server: real) {
    && |data| == 48
    && data[40..44] == Encode32(StampOf(server).sec) && data[44..48] == Encode32(StampOf(server).frac)
  }

  /** The plugin reads the server's clock to within 2^-32 seconds, but for the lost era. */
  lemma ReplyTellsTheTime(data: seq<Byte>, server: real)
    requires Carries(data, server)
    ensures Wrap(server) + TransmitTime(data) <= server < Wrap(server) + TransmitTime(data) + RESOLUTION
  {
    DecodeUndoesEncode(StampOf(server).sec);
    DecodeUndoesEncode(StampOf(server).frac);
    StampRoundsDown(server);
  }

  // ----- The error of the computed offset -----

  function Abs(x: real): real {
    if x < 0.0 then -x else x
  }

  /** One exchange seen from outside: when the server stamped its reply, the local clock showed
      `local` and the server's clock showed `server`, which the stamp gives rounded down by at most
      `resolution`. */
  ghost predicate Stamped(x: Exchange, stamp: real, local: real, server: real, resolution: real) {
    && x.sendTime.Some? && x.recvTime.Some?
    && TimevalToSeconds(x.sendTime.value) <= local <= TimevalToSeconds(x.recvTime.value)
    && stamp <= server <= stamp + resolution
  }

  /** The computed offset differs from the true one by at most half the round trip and the rounding. */
  lemma OffsetError(x: Exchange, stamp: real, local: real, server: real, resolution: real)
    requires Stamped(x, stamp, local, server, resolution)
    ensures Abs((x.Midpoint() - stamp) - (local - server)) <= x.RoundTrip() / 2.0 + resolution
  {
  }

  /** A stamp that lost the era of the server's time shifts the offset by the lost seconds, so the
      offset is right within its bound in era 0 and in no other. */
  lemma LostEra(x: Exchange, stamp: real, local: real, server: real, resolution: real)
    requires Stamped(x, Wrap(server) + stamp, local, server, resolution)
    requires x.RoundTrip() + 2.0 * resolution < TWO_TO_THE_32
    ensures var error, bound := (x.Midpoint() - stamp) - (local - server), x.RoundTrip() / 2.0 + resolution;
            Abs(error - Wrap(server)) <= bound && (Abs(error) <= bound <==> Era(server) == 0)
  {
  }

  lemma WholeEras(t: real)
    ensures if Era(t) == 0 then Wrap(t) == 0.0 else Abs(Wrap(t)) >= TWO_TO_THE_32
  {
  }

  /** One NTP exchange on the wire: the local clock showed `local` and the server's clock `server`
      when the server stamped the reply. */
  ghost predicate Answered(x: Exchange, local: real, server: real) {
    && x.sendTime.Some? && x.recvTime.Some?
    && TimevalToSeconds(x.sendTime.value) <= local <= TimevalToSeconds(x.recvTime.value)
    && Carries(x.data, server)
  }

  /** The offset that the plugin computes from a reply. */
  function ReplyOffset(x: Exchange): real
    requires x.sendTime.Some? && x.recvTime.Some? && |x.data| == 48
  {
    x.Midpoint() - TransmitTime(x.data)
  }

  /** The computed offset is within half the round trip and the rounding of the true one exactly as
      long as the server's time is in era 0; later it is wrong by the seconds of the eras that passed,
      because the code does not add them back. */
  lemma EraRollover(x: Exchange, local: real, server: real)
    requires Answered(x, local, server) && x.RoundTrip() + 2.0 * RESOLUTION < TWO_TO_THE_32
    ensures var error, bound := ReplyOffset(x) - (local - server), x.RoundTrip() / 2.0 + RESOLUTION;
            Abs(error - Wrap(server)) <= bound && (Abs(error) <= bound <==> Era(server) == 0)
  {
    ReplyTellsTheTime(x.data, server);
    LostEra(x, TransmitTime(x.data), local, server, RESOLUTION);
  }

  /** The same for the time protocol, which has whole seconds only. */
  lemma TimeProtocolRollover(x: Exchange, local: real, server: real)
    requires x.sendTime.Some? && x.recvTime.Some? && x.data == Encode32(StampOf(server).sec)
    requires TimevalToSeconds(x.sendTime.value) <= local <= TimevalToSeconds(x.recvTime.value)
    requires x.RoundTrip() + 2.0 < TWO_TO_THE_32
    ensures var offset := x.Midpoint() - NtpTimestampToUnix(Decode32(x.data), 0);
            var error, bound := offset - (local - server), x.RoundTrip() / 2.0 + 1.0;
            Abs(error - Wrap(server)) <= bound && (Abs(error) <= bound <==> Era(server) == 0)
  {
    DecodeUndoesEncode(StampOf(server).sec);
    EraAndSeconds(server);
    LostEra(x, NtpTimestampToUnix(Decode32(x.data), 0), local, server, 1.0);
  }

  // ----- The verdict -----

  function Verdict(result: NtpQueryResult, warningOffset: real, criticalOffset: real): ExitCode {
    if !result.ok then CRITICAL
    else if criticalOffset > 0.0 && Abs(result.offset_seconds) > criticalOffset then CRITICAL
    else if warningOffset > 0.0 && Abs(result.offset_seconds) > warningOffset then WARNING
    else OK
  }

  method Check(x: Exchange, warningOffset: real, criticalOffset: real) returns (code: ExitCode)
    requires x.Valid(48)
    ensures x.Complete(48) && x.sent == 48 ==>
              code == Verdict(NtpQueryResult(true, ReplyOffset(x), x.data[1], ""), warningOffset, criticalOffset)
    ensures !(x.Complete(48) && x.sent == 48) ==> code == CRITICAL
  {
    var result := QueryNtpOffset(x);
    if !result.ok { return CRITICAL; }
    var offset := result.offset_seconds;
    code := OK;
    if criticalOffset > 0.0 && Abs(offset) > criticalOffset {
      code := CRITICAL;
    } else if warningOffset > 0.0 && Abs(offset) > warningOffset {
      code := WARNING;
    }
  }

  /** Each verdict on an offset, threshold by threshold: a threshold that is not positive is off, and
      the critical one goes first. */
  lemma VerdictOfOffset(result: NtpQueryResult, warning: real, critical: real)
    ensures !result.ok ==> Verdict(result, warning, critical) == CRITICAL
    ensures result.ok ==>
            var offset, code := result.offset_seconds, Verdict(result, warning, critical);
            && (code == CRITICAL <==> critical > 0.0 && !(-critical <= offset <= critical))
            && (code == WARNING <==> code != CRITICAL && warning > 0.0 && !(-warning <= offset <= warning))
            && (code == OK <==> ((critical > 0.0 ==> -critical <= offset <= critical)
                                 && (warning > 0.0 ==> -warning <= offset <= warning)))
  {
  }

  /** What a verdict on a measured offset says about the true offset, when they differ by at most
      `slack`. */
  ghost predicate Vouches(code: ExitCode, offset: real, slack: real, warning: real, critical: real) {
    && (code == OK || code == WARNING || code == CRITICAL)
    && (code == OK ==> Abs(offset) <= warning + slack && Abs(offset) <= critical + slack)
    && (code == WARNING ==> Abs(offset) >= warning - slack && Abs(offset) <= critical + slack)
    && (code == CRITICAL ==> Abs(offset) >= critical - slack)
    && (Abs(offset) > critical + slack ==> code == CRITICAL)
    && (Abs(offset) > warning + slack ==> code != OK)
    && (warning + slack < Abs(offset) < critical - slack ==> code == WARNING)
    && (Abs(offset) < warning - slack && Abs(offset) < critical - slack ==> code == OK)
  }

  /** What the verdict says about the true offset, for positive thresholds. */
  lemma VerdictIsSound(x: Exchange, local: real, server: real, resolution: real, warning: real, critical: real)
    requires |x.data| == 48 && Stamped(x, TransmitTime(x.data), local, server, resolution)
    requires warning > 0.0 && critical > 0.0
    ensures Vouches(Verdict(NtpQueryResult(true, ReplyOffset(x), x.data[1], ""), warning, critical),
                    local - server, x.RoundTrip() / 2.0 + resolution, warning, critical)
  {
    OffsetError(x, TransmitTime(x.data), local, server, resolution);
  }

  /** From the bytes of a reply to the exit code: the verdict is right, up to half the round trip and
      2^-32 seconds, for the true offset and the seconds of the eras that passed. */
  lemma VerdictOnReply(x: Exchange, local: real, server: real, warning: real, critical: real)
    requires Answered(x, local, server) && warning > 0.0 && critical > 0.0
    ensures Vouches(Verdict(NtpQueryResult(true, ReplyOffset(x), x.data[1], ""), warning, critical),
                    local - server + Wrap(server), x.RoundTrip() / 2.0 + RESOLUTION, warning, critical)
  {
    ReplyTellsTheTime(x.data, server);
    VerdictIsSound(x, local, server - Wrap(server), RESOLUTION, warning, critical);
    assert local - (server - Wrap(server)) == local - server + Wrap(server);
  }

  /** From 2036 on a server that agrees with the local clock is CRITICAL, for every threshold and
      round trip that are not themselves of the length of an era. */
  lemma CorrectServerIsCritical(x: Exchange, server: real, warning: real, critical: real)
    requires Answered(x, server, server) && Era(server) != 0
    requires critical > 0.0 && critical + x.RoundTrip() / 2.0 + RESOLUTION < TWO_TO_THE_32
    ensures Verdict(NtpQueryResult(true, ReplyOffset(x), x.data[1], ""), warning, critical) == CRITICAL
  {
    VerdictOnReply(x, server, server, critical, critical);
    WholeEras(server);
  }
}
