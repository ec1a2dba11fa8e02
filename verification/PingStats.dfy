/** The loop of `pingHost` in ping and fping that turns echo replies into loss and RTT figures. */
module PingStats {
  import opened Text

  /** A quotient of doubles: 0.0 / 0 is not a number. */
  datatype Percent = NotANumber | Percent(value: real)

  /** The source's PingResult. */
  datatype PingResult = PingResult(
    packetsSent: int, packetsReceived: int, minRTT: real, maxRTT: real, avgRTT: real, packetLoss: Percent)

  const UNSEEN_MIN := 999999.0

  /** The round-trip times of the packets that were answered, in order. */
  function Observed(outcomes: seq<Option<real>>): seq<real> {
    if outcomes == [] then []
    else
      var front, last := outcomes[..|outcomes| - 1], outcomes[|outcomes| - 1];
      if last.Some? then Observed(front) + [last.value] else Observed(front)
  }

  function Sum(rtts: seq<real>): real {
    if rtts == [] then 0.0 else Sum(rtts[..|rtts| - 1]) + rtts[|rtts| - 1]
  }

  ghost predicate IsMin(x: real, rtts: seq<real>) {
    x in rtts && forall r :: r in rtts ==> x <= r
  }

  ghost predicate IsMax(x: real, rtts: seq<real>) {
    x in rtts && forall r :: r in rtts ==> r <= x
  }

  /** What the accumulators of the loop say about the replies seen so far. */
  ghost predicate Tally(seen: seq<real>, total: real, low: real, high: real) {
    && total == Sum(seen)
    && Extremes(seen, low, high)
    && Between(|seen|, total, low, high)
  }

  ghost predicate Between(n: nat, total: real, low: real, high: real) {
    low * n as real <= total <= high * n as real
  }

  ghost predicate Extremes(seen: seq<real>, low: real, high: real) {
    && (low == UNSEEN_MIN || low in seen) && low <= UNSEEN_MIN && (forall r :: r in seen ==> low <= r)
    && (high == 0.0 || high in seen) && 0.0 <= high && (forall r :: r in seen ==> r <= high)
  }

  /** What the reported figures say about all the replies.  The minimum is the true one unless every
      reply took longer than 999999 ms; the maximum is the true one unless every measurement is
      negative (the clock was set back). */
  ghost predicate Summarises(result: PingResult, rtts: seq<real>) {
    && result.minRTT <= result.avgRTT <= result.maxRTT
    && result.avgRTT * |rtts| as real == Sum(rtts)
    && (IsMin(result.minRTT, rtts) <==> exists r :: r in rtts && r <= 999999.0)
    && (IsMax(result.maxRTT, rtts) <==> exists r :: r in rtts && r >= 0.0)
  }

  /** The percentage of the packets sent that were lost. */
  ghost predicate IsLoss(loss: real, sent: int, received: int) {
    loss * sent as real == 100.0 * (sent - received) as real && 0.0 <= loss <= 100.0
  }

  /** `outcomes[i]` is the round-trip time of packet i, or None when no reply came. */
  method PingHost(count: int, outcomes: seq<Option<real>>) returns (result: PingResult)
    requires |outcomes| == if count < 0 then 0 else count
    ensures result.packetsSent == count && result.packetsReceived == |Observed(outcomes)|
    ensures count == 0 <==> result.packetLoss == NotANumber
    ensures count > 0 ==> IsLoss(result.packetLoss.value, count, |Observed(outcomes)|)
    ensures count > 0 ==> (result.packetLoss.value == 0.0 <==> forall i :: 0 <= i < |outcomes| ==> outcomes[i].Some?)
    ensures count > 0 ==> (result.packetLoss.value == 100.0 <==> forall i :: 0 <= i < |outcomes| ==> outcomes[i].None?)
    ensures Observed(outcomes) == [] ==> result.minRTT == result.maxRTT == result.avgRTT == 0.0
    ensures Observed(outcomes) != [] ==> Summarises(result, Observed(outcomes))
  {
    result := PingResult(count, 0, 0.0, 0.0, 0.0, NotANumber);
    var totalRTT, minRTT, maxRTT := 0.0, UNSEEN_MIN, 0.0;
    var i := 0;
    while i < count
      invariant 0 <= i <= |outcomes|
      invariant result == PingResult(count, |Observed(outcomes[..i])|, 0.0, 0.0, 0.0, NotANumber)
      invariant Tally(Observed(outcomes[..i]), totalRTT, minRTT, maxRTT)
    {
      assert outcomes[..i + 1][..i] == outcomes[..i];
      if outcomes[i].Some? {
        var rtt := outcomes[i].value;
        TallyStep(Observed(outcomes[..i]), totalRTT, minRTT, maxRTT, rtt);
        result := result.(packetsReceived := result.packetsReceived + 1);
        totalRTT := totalRTT + rtt;
        if rtt < minRTT { minRTT := rtt; }
        if rtt > maxRTT { maxRTT := rtt; }
      }
      i := i + 1;
    }
    assert outcomes[..i] == outcomes;
    ObservedCount(outcomes);
    if result.packetsReceived > 0 {
      result := result.(avgRTT := totalRTT / result.packetsReceived as real);
      result := result.(minRTT := minRTT, maxRTT := maxRTT);
      TallySummarises(Observed(outcomes), totalRTT, minRTT, maxRTT);
    }
    if result.packetsSent != 0 {
      var loss := (result.packetsSent - result.packetsReceived) as real * 100.0 / result.packetsSent as real;
      if count > 0 { LossBounds(count, result.packetsReceived); }
      result := result.(packetLoss := Percent(loss));
    }
  }

  lemma {:induction false} ObservedCount(outcomes: seq<Option<real>>)
    ensures |Observed(outcomes)| <= |outcomes|
    ensures |Observed(outcomes)| == |outcomes| <==> forall i :: 0 <= i < |outcomes| ==> outcomes[i].Some?
    ensures |Observed(outcomes)| == 0 <==> forall i :: 0 <= i < |outcomes| ==> outcomes[i].None?
  {
    if outcomes != [] {
      var front := outcomes[..|outcomes| - 1];
      ObservedCount(front);
      assert forall i :: 0 <= i < |front| ==> front[i] == outcomes[i];
    }
  }

  lemma TallyStep(seen: seq<real>, total: real, low: real, high: real, rtt: real)
    requires Tally(seen, total, low, high)
    ensures Tally(seen + [rtt], total + rtt, if rtt < low then rtt else low, if rtt > high then rtt else high)
  {
    assert total + rtt == Sum(seen + [rtt]) by { assert (seen + [rtt])[..|seen|] == seen; }
    ExtremesStep(seen, low, high, rtt);
    BoundsStep(|seen|, total, low, high, rtt);
    assert |seen + [rtt]| == |seen| + 1;
  }

  lemma ExtremesStep(seen: seq<real>, low: real, high: real, rtt: real)
    requires Extremes(seen, low, high)
    ensures Extremes(seen + [rtt], if rtt < low then rtt else low, if rtt > high then rtt else high)
  {
  }

  lemma BoundsStep(n: nat, total: real, low: real, high: real, rtt: real)
    requires Between(n, total, low, high)
    ensures Between(n + 1, total + rtt, if rtt < low then rtt else low, if rtt > high then rtt else high)
  {
  }

  lemma TallySummarises(seen: seq<real>, total: real, low: real, high: real)
    requires seen != [] && Tally(seen, total, low, high)
    ensures forall result: PingResult ::
              result.minRTT == low && result.maxRTT == high && result.avgRTT == total / |seen| as real
              ==> Summarises(result, seen)
  {
    AverageBounds(|seen|, total, low, high);
    assert seen[0] in seen;
  }

  lemma AverageBounds(n: nat, total: real, low: real, high: real)
    requires n > 0 && Between(n, total, low, high)
    ensures low <= total / n as real <= high && total / n as real * n as real == total
  {
  }

  lemma LossBounds(sent: int, received: int)
    requires 0 <= received <= sent && sent > 0
    ensures var loss := (sent - received) as real * 100.0 / sent as real;
            IsLoss(loss, sent, received) && (loss == 0.0 <==> received == sent) && (loss == 100.0 <==> received == 0)
  {
    var lost, n := (sent - received) as real, sent as real;
    var loss := lost * 100.0 / n;
    assert loss * n == lost * 100.0;
    SignOfProduct(loss, n);
    assert (100.0 - loss) * n == 100.0 * received as real;
    SignOfProduct(100.0 - loss, n);
  }

  lemma SignOfProduct(x: real, y: real)
    requires y > 0.0
    ensures (x * y > 0.0 <==> x > 0.0) && (x * y == 0.0 <==> x == 0.0)
  {
  }
}
