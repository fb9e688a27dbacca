/** Latency samples, their budgets, and the two-of-three regression rule. */
module Budgets {
  import opened Ordering
  import opened Results

  datatype Verdict = Within | Over | InsufficientSamples | Unavailable

  // ----- collecting samples -----

  datatype Response = Valid(elapsed: real) | Invalid(reason: string)

  datatype Sample = Sample(number: nat, elapsed: real)

  datatype Discard = Discard(attempt: nat, reason: string)

  datatype Collected = Collected(valid: seq<Sample>, discarded: seq<Discard>)

  function ValidAmong(responses: nat -> Response, k: nat): (valid: seq<Sample>) {
    if k == 0 then []
    else
      var valid := ValidAmong(responses, k - 1);
      match responses(k - 1)
      case Valid(elapsed) => valid + [Sample(|valid|, elapsed)]
      case Invalid(_) => valid
  }

  function DiscardedAmong(responses: nat -> Response, k: nat): (discarded: seq<Discard>) {
    if k == 0 then []
    else
      match responses(k - 1)
      case Valid(_) => DiscardedAmong(responses, k - 1)
      case Invalid(reason) => DiscardedAmong(responses, k - 1) + [Discard(k, reason)]
  }

  function MaxAttempts(repeat: int): nat {
    if repeat < 0 then 0 else (repeat + 1) * 3
  }

  // collect_valid_dispatch_samples: stops right after the wanted number of valid responses.
  method CollectSamples(responses: nat -> Response, repeat: int) returns (r: Option<Collected>, attempts: nat)
    ensures r.Some? <==> |ValidAmong(responses, MaxAttempts(repeat))| >= repeat
    ensures r.Some? ==> r.value == Collected(ValidAmong(responses, attempts), DiscardedAmong(responses, attempts))
    ensures r.Some? ==> |r.value.valid| == (if repeat < 0 then 0 else repeat)
    ensures attempts <= MaxAttempts(repeat) && (r.Some? && attempts > 0 ==> responses(attempts - 1).Valid?)
    ensures r.None? ==> attempts == 3 * repeat + 3
  {
    var valid, discarded := [], [];
    attempts := 0;
    var maxAttempts := (repeat + 1) * 3;
    while |valid| < repeat && attempts < maxAttempts
      invariant attempts <= MaxAttempts(repeat)
      invariant valid == ValidAmong(responses, attempts) && discarded == DiscardedAmong(responses, attempts)
      invariant |valid| <= if repeat < 0 then 0 else repeat
      invariant attempts > 0 && |valid| >= repeat ==> responses(attempts - 1).Valid?
    {
      attempts := attempts + 1;
      match responses(attempts - 1) {
        case Valid(elapsed) => valid := valid + [Sample(|valid|, elapsed)];
        case Invalid(reason) => discarded := discarded + [Discard(attempts, reason)];
      }
    }
    if |valid| < repeat {
      return None, attempts;
    }
    ValidGrows(responses, attempts, MaxAttempts(repeat));
    r := Some(Collected(valid, discarded));
  }

  lemma {:induction false} ValidGrows(responses: nat -> Response, k: nat, n: nat)
    requires k <= n
    ensures ValidAmong(responses, k) <= ValidAmong(responses, n)
    decreases n
  {
    if k < n { ValidGrows(responses, k, n - 1); }
  }

  // Every attempt is kept or discarded, once; samples are numbered without gaps.
  lemma {:induction false} AttemptsAccounted(responses: nat -> Response, k: nat)
    ensures |ValidAmong(responses, k)| + |DiscardedAmong(responses, k)| == k
    ensures forall i :: 0 <= i < |ValidAmong(responses, k)| ==> ValidAmong(responses, k)[i].number == i
    ensures forall j: nat :: j < k ==>
              match responses(j)
              case Valid(elapsed) =>
                var i := |ValidAmong(responses, j)|;
                i < |ValidAmong(responses, k)| && ValidAmong(responses, k)[i] == Sample(i, elapsed)
              case Invalid(reason) => Discard(j + 1, reason) in DiscardedAmong(responses, k)
  {
    if k > 0 { AttemptsAccounted(responses, k - 1); }
  }

  // Discards keep the order and the number of their attempts.
  lemma {:induction false} DiscardsInOrder(responses: nat -> Response, k: nat)
    ensures forall i, j :: 0 <= i < j < |DiscardedAmong(responses, k)| ==>
              DiscardedAmong(responses, k)[i].attempt < DiscardedAmong(responses, k)[j].attempt
    ensures forall i :: 0 <= i < |DiscardedAmong(responses, k)| ==>
              && 1 <= DiscardedAmong(responses, k)[i].attempt <= k
              && responses(DiscardedAmong(responses, k)[i].attempt - 1)
                 == Invalid(DiscardedAmong(responses, k)[i].reason)
  {
    if k > 0 { DiscardsInOrder(responses, k - 1); }
  }

  // ----- one row -----

  datatype Statistic = P95 | Max | OtherStatistic

  datatype Budget = Budget(required: Option<int>, limit: real, statistic: Statistic)

  datatype Summary =
    | Insufficient(n: nat, required: int)
    | Measured(n: nat, min: real, median: real, p95: real, max: real, value: real, verdict: Verdict)

  datatype Refusal = NoSamples | UnknownStatistic

  predicate Less(a: real, b: real) {
    a < b
  }

  // ceil(95 n / 100), exactly.
  function Ceil95(n: nat): nat {
    (95 * n + 99) / 100
  }

  lemma {:induction false} Ceil95Bounds(n: nat)
    ensures 100 * Ceil95(n) >= 95 * n > 100 * (Ceil95(n) - 1)
    ensures n > 0 ==> 1 <= Ceil95(n) <= n && Ceil95(n) > n / 2
  {
  }

  function NearestRank(values: seq<real>): real
    requires values != []
  {
    Ceil95Bounds(|values|);
    values[Ceil95(|values|) - 1]
  }

  function Median(values: seq<real>): real
    requires values != []
  {
    var m := |values| / 2;
    if |values| % 2 == 1 then values[m] else (values[m - 1] + values[m]) / 2.0
  }

  function Summarize(values: seq<real>, budget: Budget): Result<Summary, Refusal> {
    if values == [] then Err(NoSamples)
    else
      SortKeeps(Less, values);
      var ordered := Sort(Less, values);
      var n := |ordered|;
      if budget.required.Some? && n < budget.required.value then Ok(Insufficient(n, budget.required.value))
      else if budget.statistic == OtherStatistic then Err(UnknownStatistic)
      else
        var value := if budget.statistic == P95 then NearestRank(ordered) else ordered[n - 1];
        Ok(Measured(n, ordered[0], Median(ordered), NearestRank(ordered), ordered[n - 1], value,
                    if value <= budget.limit then Within else Over))
  }

  function VerdictOf(summary: Summary): Verdict {
    if summary.Insufficient? then InsufficientSamples else summary.verdict
  }

  // How many samples meet the limit.
  function AtMost(values: seq<real>, limit: real): (count: nat)
    ensures count <= |values|
  {
    if values == [] then 0 else (if values[0] <= limit then 1 else 0) + AtMost(values[1..], limit)
  }

  lemma {:induction false} InsertCounts(x: real, values: seq<real>, limit: real)
    ensures AtMost(Insert(Less, x, values), limit) == AtMost([x] + values, limit)
  {
    if values != [] && values[0] < x {
      InsertCounts(x, values[1..], limit);
      assert ([x] + values)[1..] == values && ([x] + values[1..])[1..] == values[1..];
      assert ([values[0]] + Insert(Less, x, values[1..]))[1..] == Insert(Less, x, values[1..]);
    }
  }

  lemma {:induction false} SortCounts(values: seq<real>, limit: real)
    ensures AtMost(Sort(Less, values), limit) == AtMost(values, limit)
  {
    if values != [] {
      SortCounts(values[1..], limit);
      InsertCounts(values[0], Sort(Less, values[1..]), limit);
      assert ([values[0]] + Sort(Less, values[1..]))[1..] == Sort(Less, values[1..]);
    }
  }

  // In a sorted list the k-th element meets the limit exactly when k of them do.
  lemma {:induction false} RankCounts(values: seq<real>, k: nat, limit: real)
    requires Ascending(Less, values) && k < |values|
    ensures values[k] <= limit <==> AtMost(values, limit) > k
  {
    forall j | 0 <= j <= k ensures values[k] <= limit ==> values[j] <= limit {
      assert j < k ==> !Less(values[k], values[j]);
    }
    if values[0] > limit {
      NoneAtMost(values, limit);
    } else if k > 0 {
      RankCounts(values[1..], k - 1, limit);
    }
  }

  lemma {:induction false} NoneAtMost(values: seq<real>, limit: real)
    requires Ascending(Less, values) && values != [] && values[0] > limit
    ensures AtMost(values, limit) == 0
  {
    if |values| > 1 {
      assert !Less(values[1], values[0]);
      NoneAtMost(values[1..], limit);
    }
  }

  lemma {:induction false} RealsOrdered()
    ensures StrictTotal(Less)
  {
  }

  predicate Enough(values: seq<real>, budget: Budget) {
    budget.required.Some? ==> |values| >= budget.required.value
  }

  // A p95 row is within its budget exactly when there are enough samples and 95 in 100 of them, rounded up, meet it.
  lemma {:induction false} WithinExact(values: seq<real>, budget: Budget)
    requires values != [] && budget.statistic == P95
    ensures Summarize(values, budget).Ok?
    ensures VerdictOf(Summarize(values, budget).value) == Within <==>
              Enough(values, budget) && 100 * AtMost(values, budget.limit) >= 95 * |values|
    ensures VerdictOf(Summarize(values, budget).value) == InsufficientSamples <==> !Enough(values, budget)
  {
    hide Sort, Median, AtMost, Ceil95;
    RealsOrdered();
    SortKeeps(Less, values);
    SortAscending(Less, values);
    SortCounts(values, budget.limit);
    Ceil95Bounds(|values|);
    RankCounts(Sort(Less, values), Ceil95(|values|) - 1, budget.limit);
  }

  // A max row is within exactly when there are enough samples and every one meets the budget.
  lemma {:induction false} MaxExact(values: seq<real>, budget: Budget)
    requires values != [] && budget.statistic == Max
    ensures Summarize(values, budget).Ok?
    ensures VerdictOf(Summarize(values, budget).value) == Within <==>
              Enough(values, budget) && forall x :: x in values ==> x <= budget.limit
  {
    hide Sort, Median, NearestRank;
    RealsOrdered();
    SortKeeps(Less, values);
    SortAscending(Less, values);
    var ordered := Sort(Less, values);
    forall x | x in values ensures x <= ordered[|ordered| - 1] {
      assert x in ordered;
      var i :| 0 <= i < |ordered| && ordered[i] == x;
      assert i < |ordered| - 1 ==> !Less(ordered[|ordered| - 1], ordered[i]);
    }
    assert ordered[|ordered| - 1] in ordered;
  }

  // The order in which samples were taken is irrelevant.
  lemma {:induction false} SummaryOrderFree(values: seq<real>, others: seq<real>, budget: Budget)
    requires multiset(values) == multiset(others)
    ensures Summarize(values, budget) == Summarize(others, budget)
  {
    RealsOrdered();
    SamePermutation(values, others);
    SortForgets(Less, values, others);
  }

  // The reported statistics bracket each other.
  lemma {:induction false} StatisticsOrdered(values: seq<real>, budget: Budget)
    requires Summarize(values, budget).Ok? && Summarize(values, budget).value.Measured?
    ensures var s := Summarize(values, budget).value;
            s.min <= s.median <= s.p95 <= s.max && s.n == |values| && forall x :: x in values ==> s.min <= x <= s.max
  {
    RealsOrdered();
    SortKeeps(Less, values);
    SortAscending(Less, values);
    var ordered := Sort(Less, values);
    Ceil95Bounds(|values|);
    hide Sort, Ceil95;
    forall i, j | 0 <= i <= j < |ordered| ensures ordered[i] <= ordered[j] {
      assert i < j ==> !Less(ordered[j], ordered[i]);
    }
    forall x | x in values ensures ordered[0] <= x <= ordered[|ordered| - 1] {
      assert x in ordered;
    }
  }

  // ----- all rows -----

  function Severity(v: Verdict): nat {
    match v
    case Within => 0
    case Unavailable => 1
    case InsufficientSamples => 2
    case Over => 3
  }

  function GlobalVerdict(rows: map<string, Verdict>): Verdict {
    if Over in rows.Values then Over
    else if InsufficientSamples in rows.Values then InsufficientSamples
    else if Unavailable in rows.Values then Unavailable
    else Within
  }

  // The global verdict is the worst one, and comes from some row unless there is none.
  lemma {:induction false} GlobalIsWorst(rows: map<string, Verdict>)
    ensures forall id :: id in rows ==> Severity(rows[id]) <= Severity(GlobalVerdict(rows))
    ensures GlobalVerdict(rows) == Within || exists id :: id in rows && rows[id] == GlobalVerdict(rows)
  {
    forall id | id in rows ensures Severity(rows[id]) <= Severity(GlobalVerdict(rows)) {
      assert rows[id] in rows.Values;
    }
  }

  // A row of a report: what was measured, or that nothing could be.
  datatype Measurement = Missing | Sampled(values: seq<real>)

  // A row that summarize can handle.
  predicate Summarizable(m: Measurement, budget: Budget) {
    m.Sampled? ==> m.values != [] && budget.statistic != OtherStatistic
  }

  function RowVerdict(m: Measurement, budget: Budget): Verdict
    requires Summarizable(m, budget)
  {
    if m.Missing? then Unavailable
    else
      var summary := Summarize(m.values, budget);
      if summary.Ok? then VerdictOf(summary.value) else Unavailable
  }

  // 95 in 100 of the samples, rounded up, or for a max row all of them.
  ghost predicate Meets(values: seq<real>, budget: Budget) {
    if budget.statistic == P95 then 100 * AtMost(values, budget.limit) >= 95 * |values|
    else forall x :: x in values ==> x <= budget.limit
  }

  // What each verdict of a row means.
  lemma {:induction false} RowExact(m: Measurement, budget: Budget)
    requires Summarizable(m, budget)
    ensures m.Sampled? ==> Summarize(m.values, budget).Ok?
    ensures RowVerdict(m, budget) == Unavailable <==> m.Missing?
    ensures RowVerdict(m, budget) == InsufficientSamples <==> m.Sampled? && !Enough(m.values, budget)
    ensures RowVerdict(m, budget) == Within <==> m.Sampled? && Enough(m.values, budget) && Meets(m.values, budget)
    ensures RowVerdict(m, budget) == Over <==> m.Sampled? && Enough(m.values, budget) && !Meets(m.values, budget)
  {
    if m.Sampled? {
      if budget.statistic == P95 { WithinExact(m.values, budget); } else { MaxExact(m.values, budget); }
      SummaryVerdict(m.values, budget);
      hide Summarize, AtMost;
    }
  }

  // A summary is insufficient or measured, never unavailable.
  lemma {:induction false} SummaryVerdict(values: seq<real>, budget: Budget)
    requires values != [] && budget.statistic != OtherStatistic
    ensures Summarize(values, budget).Ok?
    ensures VerdictOf(Summarize(values, budget).value) != Unavailable
    ensures VerdictOf(Summarize(values, budget).value) == InsufficientSamples <==> !Enough(values, budget)
  {
    SortKeeps(Less, values);
    hide Sort, Median, NearestRank;
  }

  ghost predicate RowWithin(m: Measurement, budget: Budget) {
    m.Sampled? && Enough(m.values, budget) && Meets(m.values, budget)
  }

  ghost predicate RowOver(m: Measurement, budget: Budget) {
    m.Sampled? && Enough(m.values, budget) && !Meets(m.values, budget)
  }

  predicate RowShort(m: Measurement, budget: Budget) {
    m.Sampled? && !Enough(m.values, budget)
  }

  // A report is over exactly when some row had enough samples and missed its budget, else insufficient exactly when
  // some row had too few, else unavailable exactly when some row was not measured, and within exactly when every row
  // met it.
  lemma {:induction false} ReportExact(rows: map<string, Measurement>, budgets: map<string, Budget>)
    requires rows.Keys == budgets.Keys && forall id :: id in rows ==> Summarizable(rows[id], budgets[id])
    ensures var verdict := GlobalVerdict(map id | id in rows :: RowVerdict(rows[id], budgets[id]));
            var over := exists id :: id in rows && RowOver(rows[id], budgets[id]);
            var short := exists id :: id in rows && RowShort(rows[id], budgets[id]);
            && (verdict == Over <==> over) && (verdict == InsufficientSamples <==> short && !over)
            && (verdict == Unavailable <==> !over && !short && exists id :: id in rows && rows[id].Missing?)
            && (verdict == Within <==> forall id :: id in rows ==> RowWithin(rows[id], budgets[id]))
  {
    hide Summarize, AtMost, Enough, Meets, RowVerdict, GlobalVerdict, Summarizable;
    var verdicts := map id | id in rows :: RowVerdict(rows[id], budgets[id]);
    forall id | id in rows
      ensures verdicts[id] == Unavailable <==> rows[id].Missing?
      ensures verdicts[id] == InsufficientSamples <==> RowShort(rows[id], budgets[id])
      ensures verdicts[id] == Within <==> RowWithin(rows[id], budgets[id])
      ensures verdicts[id] == Over <==> RowOver(rows[id], budgets[id])
    {
      RowExact(rows[id], budgets[id]);
    }
    GlobalIsWorst(verdicts);
  }

  // ----- the reported statistics, by counting -----

  // Every further sample counts for one if it meets the limit.
  lemma {:induction false} AtMostPush(values: seq<real>, x: real, limit: real)
    ensures AtMost([], limit) == 0
    ensures AtMost(values + [x], limit) == AtMost(values, limit) + if x <= limit then 1 else 0
  {
    if values == [] {
      assert values + [x] == [x] && [x][1..] == [];
    } else {
      AtMostPush(values[1..], x, limit);
      assert (values + [x])[1..] == values[1..] + [x];
    }
  }

  // The k-th of the sorted samples: a sample that a limit covers exactly if it covers more than k of them.
  ghost predicate Ranks(x: real, values: seq<real>, k: int) {
    x in values && forall limit: real :: x <= limit <==> AtMost(values, limit) > k
  }

  lemma {:induction false} RankOf(values: seq<real>, k: nat)
    requires k < |values| && |Sort(Less, values)| == |values|
    ensures Ranks(Sort(Less, values)[k], values, k)
  {
    RealsOrdered();
    SortKeeps(Less, values);
    SortAscending(Less, values);
    var ordered := Sort(Less, values);
    hide Sort, AtMost;
    assert ordered[k] in ordered;
    forall limit: real ensures ordered[k] <= limit <==> AtMost(values, limit) > k {
      SortCounts(values, limit);
      RankCounts(ordered, k, limit);
    }
  }

  // Half the sum of two ranked samples.
  ghost predicate Halves(x: real, values: seq<real>, i: int, j: int) {
    exists lo, hi :: Ranks(lo, values, i) && Ranks(hi, values, j) && x + x == lo + hi
  }

  // A covered limit is one that at least 95 in 100 samples meet.
  ghost predicate Percentile(x: real, values: seq<real>) {
    x in values && forall limit: real :: x <= limit <==> 100 * AtMost(values, limit) >= 95 * |values|
  }

  lemma {:induction false} PercentileRank(x: real, values: seq<real>)
    requires values != [] && Ranks(x, values, Ceil95(|values|) - 1)
    ensures Percentile(x, values)
  {
    Ceil95Bounds(|values|);
    hide AtMost, Ceil95;
  }

  lemma {:induction false} MiddleRanks(values: seq<real>)
    requires |values| > 0 && |Sort(Less, values)| == |values|
    ensures Halves(Median(Sort(Less, values)), values, (|values| - 1) / 2, |values| / 2)
  {
    var n, ordered := |values|, Sort(Less, values);
    RankOf(values, (n - 1) / 2);
    RankOf(values, n / 2);
    hide Sort, Ranks;
    var lo, hi := ordered[(n - 1) / 2], ordered[n / 2];
    assert Median(ordered) + Median(ordered) == lo + hi;
  }

  // Every figure of a summary, by counting samples.
  lemma {:induction false} SummaryFields(values: seq<real>, budget: Budget)
    requires Summarize(values, budget).Ok? && Summarize(values, budget).value.Measured?
    ensures var s := Summarize(values, budget).value;
            && s.n == |values| && Ranks(s.min, values, 0) && Ranks(s.max, values, |values| - 1)
            && Halves(s.median, values, (|values| - 1) / 2, |values| / 2) && Percentile(s.p95, values)
            && (budget.statistic == P95 ==> s.value == s.p95) && (budget.statistic == Max ==> s.value == s.max)
            && (s.value <= budget.limit ==> s.verdict == Within) && (s.value > budget.limit ==> s.verdict == Over)
  {
    SortKeeps(Less, values);
    Ceil95Bounds(|values|);
    RankOf(values, 0);
    RankOf(values, |values| - 1);
    RankOf(values, Ceil95(|values|) - 1);
    MiddleRanks(values);
    hide Sort, Ranks, Percentile, Ceil95, Median, Halves;
    PercentileRank(Sort(Less, values)[Ceil95(|values|) - 1], values);
  }

  // Every other outcome.
  lemma {:induction false} SummaryOutcomes(values: seq<real>, budget: Budget)
    ensures |values| == 0 ==> Summarize(values, budget) == Err(NoSamples)
    ensures |values| > 0 && budget.required.Some? && |values| < budget.required.value ==>
              Summarize(values, budget) == Ok(Insufficient(|values|, budget.required.value))
    ensures |values| > 0 && (budget.required.None? || |values| >= budget.required.value) ==>
              if budget.statistic == OtherStatistic then Summarize(values, budget) == Err(UnknownStatistic)
              else Summarize(values, budget).Ok? && Summarize(values, budget).value.Measured?
  {
    SortKeeps(Less, values);
    hide Sort, Median, NearestRank;
  }
}
