/**
  The network prober's accounting: a fixed number of rounds, each of which succeeds with a round-trip
  time, fails, or finds the overall deadline passed, and the figures reported from them.
  Durations are nanoseconds in 64 bits, and sums of them wrap around.
 */
module Prober {
  import opened Division

  datatype Reply = Answered(rtt: int, status: int) | Broken

  /** What one round meets: the deadline before it, the deadline during the pause, the probe itself. */
  datatype Round = Round(lateBefore: bool, lateInPause: bool, probe: Reply)

  datatype Metric = Metric(rtt: int, jitter: int, packetLoss: real, statusCode: int, reachable: bool)

  const UNREACHABLE_RTT_MS := 5000
  const UNREACHABLE_JITTER_MS := 5001

  predicate Late(rounds: seq<Round>, i: nat)
    requires i < |rounds|
  {
    rounds[i].lateBefore || (i > 0 && rounds[i].lateInPause)
  }

  /** The first late round from i on, or n. */
  function Stop(rounds: seq<Round>, i: nat, n: nat): (k: nat)
    requires i <= n <= |rounds|
    ensures i <= k <= n && (k < n ==> rounds[k].lateBefore || (k > 0 && rounds[k].lateInPause))
    ensures forall j :: i <= j < k ==> !rounds[j].lateBefore && (j > 0 ==> !rounds[j].lateInPause)
    decreases n - i
  {
    if i == n || Late(rounds, i) then i else Stop(rounds, i + 1, n)
  }

  /** The answers of the first k rounds. */
  function Answers(rounds: seq<Round>, k: nat): (r: seq<Reply>)
    requires k <= |rounds|
    ensures |r| <= k && forall j :: 0 <= j < |r| ==> r[j].Answered?
  {
    if k == 0 then []
    else Answers(rounds, k - 1) + (if rounds[k - 1].probe.Answered? then [rounds[k - 1].probe] else [])
  }

  /** Every answer is there, in its place: as many answers precede it as were given before. */
  lemma {:induction false} AnswerAt(rounds: seq<Round>, k: nat, i: nat)
    requires i < k <= |rounds| && rounds[i].probe.Answered?
    ensures var before := |Answers(rounds, i)|;
            before < |Answers(rounds, k)| && Answers(rounds, k)[before] == rounds[i].probe
  {
    if i < k - 1 {
      AnswerAt(rounds, k - 1, i);
    }
  }

  /** The rounds among the first k that were answered. */
  function AnsweredRounds(rounds: seq<Round>, k: nat): set<nat>
    requires k <= |rounds|
  {
    set i: nat | i < k && rounds[i].probe.Answered?
  }

  lemma AnsweredNext(rounds: seq<Round>, k: nat)
    requires k < |rounds|
    ensures k !in AnsweredRounds(rounds, k)
    ensures AnsweredRounds(rounds, k + 1) ==
            AnsweredRounds(rounds, k) + if rounds[k].probe.Answered? then {k} else {}
  {
  }

  /** And nothing else is. */
  lemma {:induction false} AnswersCounted(rounds: seq<Round>, k: nat)
    requires k <= |rounds|
    ensures |Answers(rounds, k)| == |AnsweredRounds(rounds, k)|
  {
    if k > 0 {
      AnswersCounted(rounds, k - 1);
      AnsweredNext(rounds, k - 1);
      hide AnsweredRounds;
    }
  }

  /** Probe's loop: rounds not run because the deadline passed count as failures. */
  method Probe(probeCount: nat, rounds: seq<Round>) returns (answers: seq<Reply>, failures: nat, lastStatus: int)
    requires probeCount <= |rounds|
    ensures answers == Answers(rounds, Stop(rounds, 0, probeCount))
    ensures |answers| + failures == probeCount
    ensures lastStatus == if answers == [] then 0 else answers[|answers| - 1].status
  {
    answers, failures, lastStatus := [], 0, 0;
    var i := 0;
    while i < probeCount
      invariant i <= probeCount && |answers| + failures == i
      invariant answers == Answers(rounds, i) && Stop(rounds, i, probeCount) == Stop(rounds, 0, probeCount)
      invariant lastStatus == if answers == [] then 0 else answers[|answers| - 1].status
    {
      if rounds[i].lateBefore {
        failures := failures + (probeCount - i);
        return;
      }
      if i > 0 && rounds[i].lateInPause {
        failures := failures + (probeCount - i);
        return;
      }
      if rounds[i].probe.Broken? {
        failures := failures + 1;
      } else {
        answers := answers + [rounds[i].probe];
        lastStatus := rounds[i].probe.status;
      }
      i := i + 1;
    }
  }

  // ---------------------------------------------------------------- averages

  /** Go's integer division, which rounds toward zero. */
  function TruncDiv(a: int, b: int): int
    requires b > 0
  {
    if a >= 0 then a / b else -((-a) / b)
  }

  function Sum(values: seq<int>): int {
    if values == [] then 0 else Sum(values[..|values| - 1]) + values[|values| - 1]
  }

  /** What a sum is, whatever the order in which it is taken. */
  lemma {:induction false} SumConcat(a: seq<int>, b: seq<int>)
    ensures Sum(a + b) == Sum(a) + Sum(b)
  {
    if b == [] {
      assert a + b == a;
    } else {
      var n := |b| - 1;
      SumConcat(a, b[..n]);
      assert (a + b)[..|a + b| - 1] == a + b[..n];
    }
  }

  lemma SumOne(x: int)
    ensures Sum([x]) == x
  {
    assert [x][..0] == [];
  }

  function Abs(x: int): int {
    if x < 0 then -x else x
  }

  /** The total of the absolute differences of neighbours. */
  function Variation(values: seq<int>): int {
    if |values| < 2 then 0
    else Variation(values[..|values| - 1]) + Abs(values[|values| - 1] - values[|values| - 2])
  }

  /** Where two sequences meet, the step from one to the other is added. */
  lemma {:induction false} VariationConcat(a: seq<int>, b: seq<int>)
    requires a != [] && b != []
    ensures Variation(a + b) == Variation(a) + Abs(b[0] - a[|a| - 1]) + Variation(b)
  {
    var n := |b| - 1;
    assert (a + b)[..|a + b| - 1] == a + b[..n];
    if n == 0 {
      assert a + b[..n] == a;
    } else {
      VariationConcat(a, b[..n]);
    }
  }

  function Average(values: seq<int>): int {
    if values == [] then 0 else TruncDiv(Sum(values), |values|)
  }

  function Jitter(values: seq<int>): int {
    if |values| < 2 then 0 else TruncDiv(Variation(values), |values| - 1)
  }

  /** What the code computes: the sum wraps around. */
  function Average64(values: seq<int>): int {
    if values == [] then 0 else TruncDiv(Wrap64(Sum(values)), |values|)
  }

  function Abs64(d: int64): int64 {
    if d < 0 then Sub64(0, d) else d
  }

  function Variation64(values: seq<int>): int64 {
    if |values| < 2 then 0
    else Add64(Variation64(values[..|values| - 1]), Abs64(Sub64(values[|values| - 1], values[|values| - 2])))
  }

  function Jitter64(values: seq<int>): int {
    if |values| < 2 then 0 else TruncDiv(Variation64(values), |values| - 1)
  }

  method AverageDuration(values: seq<int64>) returns (r: int)
    requires |values| < TWO_63
    ensures r == Average64(values)
    ensures r == Average(values) <==> Fits64(Sum(values))
  {
    AverageIff(values);
    hide Wrap64;
    if |values| == 0 {
      return 0;
    }
    var total: int64 := 0;
    WrapFits(0);
    for i := 0 to |values|
      invariant total == Wrap64(Sum(values[..i]))
    {
      assert values[..i + 1][..i] == values[..i];
      WrapAdd(Sum(values[..i]), values[i]);
      total := Add64(total, values[i]);
    }
    assert values[..|values|] == values;
    r := TruncDiv(total, |values|);
  }

  method JitterDuration(values: seq<int64>) returns (r: int)
    requires |values| < TWO_63
    ensures r == Jitter64(values)
    ensures Near(values) ==> (r == Jitter(values) <==> Fits64(Variation(values)))
  {
    if Near(values) {
      JitterIff(values);
    }
    hide Wrap64, Near;
    if |values| < 2 {
      return 0;
    }
    var total: int64 := 0;
    for i := 1 to |values|
      invariant total == Variation64(values[..i])
    {
      assert values[..i + 1][..i] == values[..i];
      var diff := Sub64(values[i], values[i - 1]);
      if diff < 0 {
        diff := Sub64(0, diff);
      }
      total := Add64(total, diff);
    }
    assert values[..|values|] == values;
    r := TruncDiv(total, |values| - 1);
  }

  lemma TruncNear(t: int, n: int)
    requires n > 0
    ensures t >= 0 ==> t - n < n * TruncDiv(t, n) <= t
    ensures t <= 0 ==> t <= n * TruncDiv(t, n) < t + n
  {
    var a := if t >= 0 then t else -t;
    assert a == n * (a / n) + a % n;
    assert n * -(a / n) == -(n * (a / n));
  }

  /** Numbers 2 * n apart have different quotients. */
  lemma TruncApart(a: int, b: int, n: int)
    requires n > 0 && (a <= b - 2 * n || a >= b + 2 * n)
    ensures TruncDiv(a, n) != TruncDiv(b, n)
  {
    TruncNear(a, n);
    TruncNear(b, n);
  }

  /** The average is the true one if and only if the sum fits 64 bits. */
  lemma AverageIff(values: seq<int>)
    requires |values| < TWO_63
    ensures Average64(values) == Average(values) <==> Fits64(Sum(values))
  {
    hide Wrap64, TruncDiv;
    WrapFits(Sum(values));
    if values != [] && !Fits64(Sum(values)) {
      WrapFar(Sum(values));
      TruncApart(Wrap64(Sum(values)), Sum(values), |values|);
    }
  }

  /** Neighbours differ by less than 2^63, as durations that are not negative do. */
  predicate Near(values: seq<int>) {
    forall i :: 0 < i < |values| ==> -TWO_63 < values[i] - values[i - 1] < TWO_63
  }

  lemma {:induction false} VariationWraps(values: seq<int>)
    requires Near(values)
    ensures Variation64(values) == Wrap64(Variation(values))
  {
    hide Wrap64;
    WrapFits(0);
    if |values| >= 2 {
      var n := |values| - 1;
      var d := values[n] - values[n - 1];
      VariationWraps(values[..n]);
      WrapFits(d);
      WrapFits(-d);
      WrapAdd(Variation(values[..n]), Abs(d));
    }
  }

  /** The jitter is the true one if and only if the total fits 64 bits. */
  lemma JitterIff(values: seq<int>)
    requires |values| < TWO_63 && Near(values)
    ensures Jitter64(values) == Jitter(values) <==> Fits64(Variation(values))
  {
    VariationWraps(values);
    hide Wrap64, TruncDiv;
    WrapFits(Variation(values));
    if |values| >= 2 && !Fits64(Variation(values)) {
      WrapFar(Variation(values));
      TruncApart(Wrap64(Variation(values)), Variation(values), |values| - 1);
    }
  }

  lemma DivBetween(t: int, n: int, lo: int, hi: int)
    requires n > 0 && n * lo <= t <= n * hi
    ensures lo <= TruncDiv(t, n) <= hi
  {
    if t >= 0 {
      Quotient(t, n, lo);
      Quotient(t, n, hi);
    } else {
      assert n * -lo == -(n * lo) && n * -hi == -(n * hi);
      Quotient(-t, n, -lo);
      Quotient(-t, n, -hi);
    }
  }

  predicate Between(values: seq<int>, lo: int, hi: int) {
    forall i :: 0 <= i < |values| ==> lo <= values[i] <= hi
  }

  lemma {:induction false} SumBetween(values: seq<int>, lo: int, hi: int)
    requires Between(values, lo, hi)
    ensures |values| * lo <= Sum(values) <= |values| * hi
  {
    if values != [] {
      var n := |values| - 1;
      SumBetween(values[..n], lo, hi);
      assert (n + 1) * lo == n * lo + lo && (n + 1) * hi == n * hi + hi;
    }
  }

  /** The average lies between the smallest and the largest value. */
  lemma AverageBetween(values: seq<int>, lo: int, hi: int)
    requires values != [] && Between(values, lo, hi)
    ensures lo <= Average(values) <= hi
  {
    SumBetween(values, lo, hi);
    DivBetween(Sum(values), |values|, lo, hi);
  }

  lemma {:induction false} VariationBounds(values: seq<int>, lo: int, hi: int)
    requires values != [] && Between(values, lo, hi)
    ensures 0 <= Variation(values) <= (|values| - 1) * (hi - lo)
    ensures Abs(values[|values| - 1] - values[0]) <= Variation(values)
  {
    var n := |values| - 1;
    if n > 0 {
      VariationBounds(values[..n], lo, hi);
      assert n * (hi - lo) == (n - 1) * (hi - lo) + (hi - lo);
    }
  }

  lemma Remainder(t: int, n: int)
    requires n > 0 && t >= 0
    ensures t < n * (t / n + 1)
  {
    assert t == n * (t / n) + t % n;
    assert n * (t / n + 1) == n * (t / n) + n;
  }

  /** Jitter is at most the spread, and the drift from first to last is bounded by it. */
  lemma JitterBounds(values: seq<int>, lo: int, hi: int)
    requires |values| >= 2 && Between(values, lo, hi)
    ensures 0 <= Jitter(values) <= hi - lo
    ensures Abs(values[|values| - 1] - values[0]) < (|values| - 1) * (Jitter(values) + 1)
  {
    VariationBounds(values, lo, hi);
    var n, t := |values| - 1, Variation(values);
    hide Variation, Between;
    assert n * 0 == 0;
    DivBetween(t, n, 0, hi - lo);
    Remainder(t, n);
  }

  // ---------------------------------------------------------------- the report

  /** int32(d.Milliseconds()), with the wrap-around of the conversion. */
  function Millis32(d: int): int {
    var ms := TruncDiv(d, 1_000_000);
    (ms + 0x8000_0000) % 0x1_0000_0000 - 0x8000_0000
  }

  /** The conversion keeps the low 32 bits, whatever the time. */
  lemma MillisWrap(d: int)
    ensures -0x8000_0000 <= Millis32(d) < 0x8000_0000
    ensures (TruncDiv(d, 1_000_000) - Millis32(d)) % 0x1_0000_0000 == 0
  {
    var x := TruncDiv(d, 1_000_000) + 0x8000_0000;
    assert x - x % 0x1_0000_0000 == 0x1_0000_0000 * (x / 0x1_0000_0000);
  }

  function Rtts(answers: seq<Reply>): seq<int>
    requires forall k :: 0 <= k < |answers| ==> answers[k].Answered?
  {
    seq(|answers|, k requires 0 <= k < |answers| => answers[k].rtt)
  }

  function BuildResult(rtts: seq<int>, failures: nat, lastStatus: int, probeCount: nat): Metric
    requires probeCount > 0
  {
    if rtts == [] then Metric(UNREACHABLE_RTT_MS, UNREACHABLE_JITTER_MS, 1.0, 0, false)
    else
      var ms := Millis32(Average64(rtts));
      Metric(if ms == 0 then 1 else ms, Millis32(Jitter64(rtts)),
             failures as real / probeCount as real, lastStatus, true)
  }

  /**
    Whatever the rounds bring, the reported loss is the failed share of all probes, in [0, 1], and the
    unreachable report is made exactly when every probe failed.
   */
  lemma ReportAccounts(probeCount: nat, rounds: seq<Round>, lastStatus: int)
    requires 0 < probeCount <= |rounds|
    ensures var answers := Answers(rounds, Stop(rounds, 0, probeCount));
            var failures := probeCount - |answers|;
            var m := BuildResult(Rtts(answers), failures, lastStatus, probeCount);
            && m.packetLoss == failures as real / probeCount as real
            && 0.0 <= m.packetLoss <= 1.0
            && (!m.reachable <==> failures == probeCount)
            && (m.packetLoss == 1.0 <==> failures == probeCount)
            && (failures == probeCount ==> m == Metric(5000, 5001, 1.0, 0, false))
            && (failures < probeCount ==> m.statusCode == lastStatus)
  {
    var f: nat, n := probeCount - |Answers(rounds, Stop(rounds, 0, probeCount))|, probeCount;
    RatioBounds(f, n);
  }

  lemma RatioBounds(f: nat, n: nat)
    requires f <= n && n > 0
    ensures 0.0 <= f as real / n as real <= 1.0
    ensures f as real / n as real == 1.0 <==> f == n
  {
    var q, d := f as real / n as real, n as real;
    assert q * d == f as real;
    assert (q - 1.0) * d == f as real - d;
    assert q < 0.0 ==> q * d < 0.0;
    assert q > 1.0 ==> (q - 1.0) * d > 0.0;
    assert q < 1.0 ==> (q - 1.0) * d < 0.0;
  }

  /**
    With answers that took between 0 and hi nanoseconds, hi below 2^31 ms and the sum within 64 bits, the
    figures are not distorted: they are the mean and the mean difference of neighbours in whole ms.
   */
  lemma ReportedTimes(rtts: seq<int>, failures: nat, lastStatus: int, probeCount: nat, hi: int)
    requires probeCount > 0 && rtts != [] && Between(rtts, 0, hi)
    requires hi < 0x8000_0000 * 1_000_000 && |rtts| * hi < TWO_63 && |rtts| < TWO_63
    ensures var m := BuildResult(rtts, failures, lastStatus, probeCount);
            && 1 <= m.rtt && (m.rtt == 1 || m.rtt * 1_000_000 <= hi)
            && 0 <= m.jitter && m.jitter * 1_000_000 <= hi
            && m.rtt == AtLeastOne(Sum(rtts) / |rtts| / 1_000_000)
            && m.jitter == (if |rtts| < 2 then 0 else Variation(rtts) / (|rtts| - 1) / 1_000_000)
            && m.statusCode == lastStatus && m.reachable
  {
    SumBetween(rtts, 0, hi);
    VariationBounds(rtts, 0, hi);
    assert |rtts| * 0 == 0 && (|rtts| - 1) * hi == |rtts| * hi - hi;
    assert Near(rtts);
    AverageIff(rtts);
    JitterIff(rtts);
    AverageBetween(rtts, 0, hi);
    if |rtts| >= 2 {
      JitterBounds(rtts, 0, hi);
    }
    assert Average(rtts) == Sum(rtts) / |rtts|;
    assert |rtts| >= 2 ==> Jitter(rtts) == Variation(rtts) / (|rtts| - 1);
    hide Average, Jitter, Average64, Jitter64, Sum, Variation;
    MillisExact(Average(rtts));
    MillisExact(Jitter(rtts));
  }

  function AtLeastOne(ms: int): int {
    if ms < 1 then 1 else ms
  }

  lemma MillisExact(d: int)
    requires 0 <= d < 0x8000_0000 * 1_000_000
    ensures Millis32(d) == d / 1_000_000
  {
  }
}
