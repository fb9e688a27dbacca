/** The two-of-three regression rule over consecutive receipts. */
module Regression {
  import opened Budgets
  import opened Ordering
  import opened Results
  import opened Text

  // A measurements row: without a verdict, with one of the four, or with anything else.
  datatype RowVerdict = NoVerdict | Known(verdict: Verdict) | Strange

  // measurements is None when it is not an object.
  datatype Receipt = Receipt(budgets: Option<string>, profile: Option<string>, measurements: Option<map<string,
                             RowVerdict>>)

  datatype Outcome = Regressed | NotRegressed | Indeterminate

  datatype Row = Row(verdicts: seq<Verdict>, over: nat, unavailable: nat, outcome: Outcome, regressed: bool)

  datatype Refusal = NotThree | MixedBudgets | MixedProfiles | BadMeasurements | BadMagnitude | BadVerdict

  predicate Unresolved(v: Verdict) {
    v == Unavailable || v == InsufficientSamples
  }

  function Count(verdicts: seq<Verdict>, p: Verdict -> bool): (n: nat)
    ensures n <= |verdicts|
  {
    if verdicts == [] then 0 else (if p(verdicts[0]) then 1 else 0) + Count(verdicts[1..], p)
  }

  function Overs(verdicts: seq<Verdict>): nat {
    Count(verdicts, v => v == Over)
  }

  function Decide(verdicts: seq<Verdict>): Row {
    var over := Overs(verdicts);
    var unavailable := Count(verdicts, Unresolved);
    var outcome :=
      if over >= 2 then Regressed
      else if over + unavailable < 2 then NotRegressed
      else Indeterminate;
    Row(verdicts, over, unavailable, outcome, outcome == Regressed)
  }

  // ----- what the decision means -----

  // A way the missing measurements could have come out.
  ghost predicate Completes(full: seq<Verdict>, verdicts: seq<Verdict>) {
    && |full| == |verdicts|
    && forall i :: 0 <= i < |full| ==>
         (full[i] == Within || full[i] == Over) && (Unresolved(verdicts[i]) || full[i] == verdicts[i])
  }

  function Resolve(verdicts: seq<Verdict>, guess: Verdict): (full: seq<Verdict>)
    ensures |full| == |verdicts|
  {
    seq(|verdicts|, i requires 0 <= i < |verdicts| => if Unresolved(verdicts[i]) then guess else verdicts[i])
  }

  lemma {:induction false} CompletionRange(full: seq<Verdict>, verdicts: seq<Verdict>)
    requires Completes(full, verdicts)
    ensures Overs(verdicts) <= Overs(full) <= Overs(verdicts) + Count(verdicts, Unresolved)
  {
    if verdicts != [] { CompletionRange(full[1..], verdicts[1..]); }
  }

  lemma {:induction false} ResolvedOvers(verdicts: seq<Verdict>, guess: Verdict)
    requires guess == Within || guess == Over
    ensures Completes(Resolve(verdicts, guess), verdicts)
    ensures Overs(Resolve(verdicts, guess))
         == Overs(verdicts) + if guess == Over then Count(verdicts, Unresolved) else 0
  {
    if verdicts != [] {
      ResolvedOvers(verdicts[1..], guess);
      assert Resolve(verdicts, guess)[1..] == Resolve(verdicts[1..], guess);
    }
  }

  // The rule is the exact three-valued decision: it answers only what every completion agrees on.
  lemma {:induction false} DecisionExact(verdicts: seq<Verdict>)
    ensures Decide(verdicts).outcome == Regressed <==> forall full :: Completes(full, verdicts) ==> Overs(full) >= 2
    ensures Decide(verdicts).outcome == NotRegressed <==> forall full :: Completes(full, verdicts) ==> Overs(full) < 2
    ensures Decide(verdicts).outcome == Indeterminate <==>
              (exists full :: Completes(full, verdicts) && Overs(full) >= 2)
              && (exists full :: Completes(full, verdicts) && Overs(full) < 2)
  {
    hide Completes, Overs, Count, Resolve;
    forall full | Completes(full, verdicts)
      ensures Overs(verdicts) <= Overs(full) <= Overs(verdicts) + Count(verdicts, Unresolved)
    {
      CompletionRange(full, verdicts);
    }
    ResolvedOvers(verdicts, Within);
    ResolvedOvers(verdicts, Over);
  }

  // ----- reading the receipts -----

  predicate IdChars(s: string) {
    && s != [] && 'a' <= s[0] <= 'z'
    && forall i :: 1 <= i < |s| ==> 'a' <= s[i] <= 'z' || '0' <= s[i] <= '9' || s[i] == '_'
  }

  // The pattern's `$` also matches before one last newline, and the match leaves that newline out.
  function KnownId(raw: string): Option<string> {
    if IdChars(raw) then Some(raw)
    else if raw != [] && Last(raw) == '\n' && IdChars(Front(raw)) then Some(Front(raw))
    else None
  }

  function VerdictAt(receipt: Receipt, id: string): Option<Verdict> {
    if receipt.measurements.None? || id !in receipt.measurements.value then Some(Unavailable)
    else
      match receipt.measurements.value[id]
      case NoVerdict => Some(Unavailable)
      case Known(v) => Some(v)
      case Strange => None
  }

  predicate Readable(receipts: seq<Receipt>, raw: string) {
    KnownId(raw).Some? && forall i :: 0 <= i < |receipts| ==> VerdictAt(receipts[i], KnownId(raw).value).Some?
  }

  function VerdictsAt(receipts: seq<Receipt>, id: string): seq<Verdict>
    requires forall i :: 0 <= i < |receipts| ==> VerdictAt(receipts[i], id).Some?
  {
    seq(|receipts|, i requires 0 <= i < |receipts| => VerdictAt(receipts[i], id).value)
  }

  function Magnitudes(receipts: seq<Receipt>): set<string> {
    set i, id | 0 <= i < |receipts| && receipts[i].measurements.Some? && id in receipts[i].measurements.value :: id
  }

  predicate SameSetting(receipts: seq<Receipt>) {
    && |receipts| == 3
    && receipts[0].budgets.Some? && receipts[1].budgets == receipts[0].budgets
    && receipts[2].budgets == receipts[0].budgets
    && receipts[0].profile.Some? && receipts[1].profile == receipts[0].profile
    && receipts[2].profile == receipts[0].profile
    && forall i :: 0 <= i < 3 ==> receipts[i].measurements.Some?
  }

  // One row for each id read so far, decided from the three verdicts at that id.
  ghost predicate Decided(result: map<string, Row>, receipts: seq<Receipt>, raws: set<string>) {
    && (forall raw :: raw in raws ==> Readable(receipts, raw) && KnownId(raw).value in result)
    && (forall id :: id in result ==> exists raw :: raw in raws && KnownId(raw) == Some(id))
    && forall raw :: raw in raws ==> result[KnownId(raw).value] == Decide(VerdictsAt(receipts, KnownId(raw).value))
  }

  // regression_verdict
  method RegressionVerdict(receipts: seq<Receipt>) returns (r: Result<map<string, Row>, Refusal>)
    ensures r.Ok? <==> SameSetting(receipts) && forall raw :: raw in Magnitudes(receipts) ==> Readable(receipts, raw)
    ensures r.Ok? ==> Decided(r.value, receipts, Magnitudes(receipts))
  {
    hide *;
    var refusal := CheckSetting(receipts);
    if refusal.Some? { return Err(refusal.value); }
    var raws := InOrder(Magnitudes(receipts));
    var result: map<string, Row> := map[];
    NothingDecided(receipts, raws);
    for i := 0 to |raws|
      invariant Decided(result, receipts, Elements(raws[..i]))
      invariant forall j :: 0 <= j < i ==> Readable(receipts, raws[j])
    {
      refusal := CheckMagnitude(receipts, raws[i]);
      if refusal.Some? { return Err(refusal.value); }
      DecideNext(result, receipts, raws, i);
      var id := KnownId(raws[i]).value;
      result := result[id := Decide(VerdictsAt(receipts, id))];
    }
    assert raws[..|raws|] == raws;
    r := Ok(result);
  }

  method CheckSetting(receipts: seq<Receipt>) returns (refusal: Option<Refusal>)
    ensures refusal.None? <==> SameSetting(receipts)
  {
    if |receipts| != 3 { return Some(NotThree); }
    if receipts[0].budgets.None? || exists i :: 0 <= i < 3 && receipts[i].budgets != receipts[0].budgets {
      return Some(MixedBudgets);
    }
    if receipts[0].profile.None? || exists i :: 0 <= i < 3 && receipts[i].profile != receipts[0].profile {
      return Some(MixedProfiles);
    }
    if exists i :: 0 <= i < 3 && receipts[i].measurements.None? { return Some(BadMeasurements); }
    return None;
  }

  method CheckMagnitude(receipts: seq<Receipt>, raw: string) returns (refusal: Option<Refusal>)
    ensures refusal.None? <==> Readable(receipts, raw)
  {
    var id := KnownId(raw);
    if id.None? { return Some(BadMagnitude); }
    if exists k :: 0 <= k < |receipts| && VerdictAt(receipts[k], id.value).None? { return Some(BadVerdict); }
    return None;
  }

  lemma {:induction false} NothingDecided(receipts: seq<Receipt>, raws: seq<string>)
    ensures Decided(map[], receipts, Elements(raws[..0]))
  {
  }

  lemma {:induction false} DecideNext(result: map<string, Row>, receipts: seq<Receipt>, raws: seq<string>, i: nat)
    requires i < |raws| && Decided(result, receipts, Elements(raws[..i])) && Readable(receipts, raws[i])
    ensures KnownId(raws[i]).Some? && forall k :: 0 <= k < |receipts| ==>
            VerdictAt(receipts[k], KnownId(raws[i]).value).Some?
    ensures Decided(result[KnownId(raws[i]).value := Decide(VerdictsAt(receipts, KnownId(raws[i]).value))], receipts,
                    Elements(raws[..i + 1]))
  {
    hide Decide, VerdictsAt, IdChars, KnownId, VerdictAt;
    var raw := raws[i];
    var id := KnownId(raw).value;
    var more := result[id := Decide(VerdictsAt(receipts, id))];
    assert Elements(raws[..i + 1]) == Elements(raws[..i]) + {raw};
    forall other | other in more ensures exists x :: x in Elements(raws[..i + 1]) && KnownId(x) == Some(other) {
      if other == id {
        assert raw in Elements(raws[..i + 1]);
      } else {
        var x :| x in Elements(raws[..i]) && KnownId(x) == Some(other);
        assert x in Elements(raws[..i + 1]);
      }
    }
  }

  // Every row answers for its id, in all three outcomes, what the completions of its three verdicts agree on.
  lemma {:induction false} OutcomeExact(result: map<string, Row>, receipts: seq<Receipt>, id: string)
    requires SameSetting(receipts) && Decided(result, receipts, Magnitudes(receipts)) && id in result
    ensures forall i :: 0 <= i < 3 ==> VerdictAt(receipts[i], id).Some?
    ensures var verdicts, outcome := VerdictsAt(receipts, id), result[id].outcome;
            && (outcome == Regressed <==> forall full :: Completes(full, verdicts) ==> Overs(full) >= 2)
            && (outcome == NotRegressed <==> forall full :: Completes(full, verdicts) ==> Overs(full) < 2)
            && (outcome == Indeterminate <==>
                 (exists full :: Completes(full, verdicts) && Overs(full) >= 2)
                 && (exists full :: Completes(full, verdicts) && Overs(full) < 2))
            && (result[id].regressed <==> outcome == Regressed)
  {
    hide Magnitudes, KnownId, VerdictAt, VerdictsAt, Completes, Overs;
    var raw :| raw in Magnitudes(receipts) && KnownId(raw) == Some(id);
    DecisionExact(VerdictsAt(receipts, id));
  }

  // ----- the verdicts stored under a key -----

  // What the receipts hold under exactly this key; None where that is not a verdict.
  function Stored(receipts: seq<Receipt>, raw: string): (verdicts: seq<Option<Verdict>>)
    ensures |verdicts| == |receipts|
  {
    seq(|receipts|, i requires 0 <= i < |receipts| => VerdictAt(receipts[i], raw))
  }

  function Found(verdicts: seq<Verdict>): (found: seq<Option<Verdict>>)
    ensures |found| == |verdicts|
  {
    seq(|verdicts|, i requires 0 <= i < |verdicts| => Some(verdicts[i]))
  }

  // A key's row decides the verdicts stored under that key, exactly if the key has no final newline or the key without
  // it holds the same verdicts.
  lemma {:induction false} KeyDecided(result: map<string, Row>, receipts: seq<Receipt>, raw: string)
    requires SameSetting(receipts) && Decided(result, receipts, Magnitudes(receipts)) && raw in Magnitudes(receipts)
    ensures raw != "" && KnownId(raw).Some? && KnownId(raw).value in result
    ensures KnownId(raw).value == if Last(raw) == '\n' then Front(raw) else raw
    ensures Found(result[KnownId(raw).value].verdicts) == Stored(receipts, raw) <==>
              Last(raw) != '\n' || Stored(receipts, raw) == Stored(receipts, Front(raw))
  {
    hide Magnitudes, Count, VerdictAt;
    KeyShape(raw);
    hide KnownId;
    var id := KnownId(raw).value;
    assert Readable(receipts, raw);
    var verdicts := VerdictsAt(receipts, id);
    assert result[id].verdicts == verdicts;
    assert Found(verdicts) == Stored(receipts, id) by {
      forall i | 0 <= i < |receipts| ensures Some(verdicts[i]) == VerdictAt(receipts[i], id) { }
    }
  }

  lemma {:induction false} KeyShape(raw: string)
    requires KnownId(raw).Some?
    ensures raw != "" && KnownId(raw).value == if Last(raw) == '\n' then Front(raw) else raw
  {
  }

  // Verdicts can be lost: three overs under a key with a final newline are reported as undecided.
  const LOST: Receipt := Receipt(Some("b"), Some("core"), Some(map["m\n" := Known(Over)]))

  function ThreeLost(): (receipts: seq<Receipt>)
    ensures |receipts| == 3 && forall i :: 0 <= i < 3 ==> receipts[i] == LOST
  {
    [LOST, LOST, LOST]
  }

  lemma {:induction false} LostKey()
    ensures KnownId("m\n") == Some("m")
    ensures VerdictAt(LOST, "m\n") == Some(Over) && VerdictAt(LOST, "m") == Some(Unavailable)
  {
    assert "m\n"[1] == '\n';
    assert Front("m\n") == "m" && IdChars("m") && !IdChars("m\n");
    assert |"m"| != |"m\n"|;
  }

  lemma {:induction false} LostSetting()
    ensures SameSetting(ThreeLost()) && Magnitudes(ThreeLost()) == {"m\n"}
  {
    var receipts := ThreeLost();
    assert "m\n" in receipts[0].measurements.value;
    hide ThreeLost;
  }

  lemma {:induction false} FinalNewlineLosesVerdicts(result: map<string, Row>)
    requires Decided(result, ThreeLost(), Magnitudes(ThreeLost()))
    ensures SameSetting(ThreeLost()) && Magnitudes(ThreeLost()) == {"m\n"} && Readable(ThreeLost(), "m\n")
    ensures Stored(ThreeLost(), "m\n") == Found([Over, Over, Over]) && Decide([Over, Over, Over]).outcome == Regressed
    ensures "m" in result && result["m"].outcome == Indeterminate
  {
    var receipts := ThreeLost();
    LostSetting();
    LostKey();
    Triple(Unavailable);
    Triple(Over);
    hide ThreeLost, Magnitudes, KnownId, VerdictAt, Decide;
    assert "m\n" in Magnitudes(receipts);
    assert Readable(receipts, "m\n");
    assert VerdictsAt(receipts, "m") == [Unavailable, Unavailable, Unavailable];
  }

  lemma {:induction false} Triple(v: Verdict)
    ensures Decide([v, v, v]).outcome
         == if v == Over then Regressed else if Unresolved(v) then Indeterminate else NotRegressed
  {
    assert [v, v, v][1..] == [v, v] && [v, v][1..] == [v] && [v][1..] == [];
    assert Overs([v]) == if v == Over then 1 else 0;
    assert Count([v], Unresolved) == if Unresolved(v) then 1 else 0;
    assert Overs([v, v]) == 2 * Overs([v]) && Count([v, v], Unresolved) == 2 * Count([v], Unresolved);
  }

  // ----- keys and rows, field by field -----

  // A lower-case letter, then lower-case letters, digits and underscores, by their code points.
  ghost predicate PlainId(id: string) {
    && |id| > 0 && 97 <= id[0] as int <= 122
    && forall i :: 1 <= i < |id| ==>
         97 <= id[i] as int <= 122 || 48 <= id[i] as int <= 57 || id[i] as int == 95
  }

  lemma {:induction false} IdCharsExact(id: string)
    ensures IdChars(id) <==> PlainId(id)
  {
    assert 'a' as int == 97 && 'z' as int == 122 && '0' as int == 48 && '9' as int == 57 && '_' as int == 95;
  }

  // A key names the id it spells, with or without one final newline, and no other.
  lemma {:induction false} KnownIdExact(raw: string, id: string)
    ensures KnownId(raw) == Some(id) <==> PlainId(id) && (raw == id || raw == id + "\n")
  {
    IdCharsExact(id);
    if raw != "" { assert raw == Front(raw) + [Last(raw)]; }
    assert Front(id + "\n") == id && Last(id + "\n") == '\n';
    NewlineOut(id);
    hide PlainId, IdChars;
  }

  lemma {:induction false} NewlineOut(id: string)
    ensures !IdChars(id + "\n")
  {
    assert (id + "\n")[|id|] == '\n';
  }

  // A missing row, one without a verdict, and one that says so are all unavailable.
  lemma {:induction false} VerdictFields(receipt: Receipt, id: string)
    requires receipt.measurements.Some?
    ensures id !in receipt.measurements.value ==> VerdictAt(receipt, id) == Some(Unavailable)
    ensures id in receipt.measurements.value && receipt.measurements.value[id] == NoVerdict ==>
              VerdictAt(receipt, id) == Some(Unavailable)
    ensures id in receipt.measurements.value && receipt.measurements.value[id] == Strange ==>
              VerdictAt(receipt, id) == None
    ensures forall v :: id in receipt.measurements.value && receipt.measurements.value[id] == Known(v) ==>
              VerdictAt(receipt, id) == Some(v)
  {
  }

  lemma {:induction false} MagnitudesExact(receipts: seq<Receipt>, raw: string)
    ensures raw in Magnitudes(receipts)
       <==> exists i :: && 0 <= i < |receipts| && receipts[i].measurements.Some?
                        && raw in receipts[i].measurements.value
  {
  }

  function One(holds: bool): nat {
    if holds then 1 else 0
  }

  // A row for three verdicts: how many are over, how many are unavailable or insufficient, and what follows.
  ghost predicate RowHolds(row: Row, a: Verdict, b: Verdict, c: Verdict) {
    && row.verdicts == [a, b, c]
    && row.over == One(a == Over) + One(b == Over) + One(c == Over)
    && row.unavailable == One(a == Unavailable || a == InsufficientSamples)
                        + One(b == Unavailable || b == InsufficientSamples)
                        + One(c == Unavailable || c == InsufficientSamples)
    && (row.outcome == Regressed <==> row.over >= 2)
    && (row.outcome == NotRegressed <==> row.over + row.unavailable <= 1)
    && (row.regressed <==> row.over >= 2)
  }

  lemma {:induction false} DecideHolds(a: Verdict, b: Verdict, c: Verdict)
    ensures RowHolds(Decide([a, b, c]), a, b, c)
  {
    assert [a, b, c][1..] == [b, c] && [b, c][1..] == [c] && [c][1..] == [];
    assert Overs([c]) == One(c == Over) && Overs([b, c]) == One(b == Over) + Overs([c]);
    assert Overs([a, b, c]) == One(a == Over) + Overs([b, c]);
    assert Count([c], Unresolved) == One(Unresolved(c));
    assert Count([b, c], Unresolved) == One(Unresolved(b)) + Count([c], Unresolved);
    assert Count([a, b, c], Unresolved) == One(Unresolved(a)) + Count([b, c], Unresolved);
  }

  // Every row of the result counts the three verdicts of its id.
  lemma {:induction false} ResultRows(result: map<string, Row>, receipts: seq<Receipt>, id: string)
    requires SameSetting(receipts) && Decided(result, receipts, Magnitudes(receipts)) && id in result
    ensures forall i :: 0 <= i < 3 ==> VerdictAt(receipts[i], id).Some?
    ensures RowHolds(result[id], VerdictAt(receipts[0], id).value, VerdictAt(receipts[1], id).value,
                     VerdictAt(receipts[2], id).value)
  {
    hide Magnitudes, KnownId, VerdictAt, Decide, RowHolds;
    var raw :| raw in Magnitudes(receipts) && KnownId(raw) == Some(id);
    assert Readable(receipts, raw);
    var verdicts := VerdictsAt(receipts, id);
    assert verdicts == [verdicts[0], verdicts[1], verdicts[2]];
    DecideHolds(verdicts[0], verdicts[1], verdicts[2]);
  }
}
