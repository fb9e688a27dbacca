/** The qualifier's patch language: reading hunks, binding them to a source and splicing them in. */
module UpdatePatch {
  import opened Results
  import opened Text

  datatype HunkLine = HunkLine(op: char, text: string)

  type Hunk = seq<HunkLine>

  datatype PatchError = Envelope | HunkAbsent | LineInvalid | EmptyHunk | InsertionUnsupported | NotUnique

  // ----- str.splitlines -----

  predicate IsBreak(c: char) {
    c in {'\n', '\r', '\U{B}', '\U{C}', '\U{1C}', '\U{1D}', '\U{1E}', '\U{85}', '\U{2028}', '\U{2029}'}
  }

  ghost predicate BreakFree(s: string) {
    forall i :: 0 <= i < |s| ==> !IsBreak(s[i])
  }

  function LineLength(s: string): (n: nat)
    ensures n <= |s| && BreakFree(s[..n]) && (n < |s| ==> IsBreak(s[n]))
  {
    if s == "" || IsBreak(s[0]) then 0
    else
      var n := LineLength(s[1..]);
      assert s[..n + 1] == [s[0]] + s[1..][..n];
      n + 1
  }

  // The separator after the first line: "\r\n" counts as one.
  function BreakLength(rest: string): (n: nat)
    ensures n <= |rest| && (rest != "" ==> n >= 1)
  {
    if rest == "" then 0 else if |rest| >= 2 && rest[0] == '\r' && rest[1] == '\n' then 2 else 1
  }

  function SplitLines(s: string): (lines: seq<string>)
    ensures forall i :: 0 <= i < |lines| ==> BreakFree(lines[i])
    decreases |s|
  {
    if s == "" then []
    else
      var n := LineLength(s);
      var m := BreakLength(s[n..]);
      [s[..n]] + SplitLines(s[n + m..])
  }

  // "\n".join(lines)
  function JoinLines(lines: seq<string>): string {
    if lines == [] then "" else Join(lines, '\n')
  }

  // ----- reading -----

  predicate ValidLine(line: string) {
    line != "" && line[0] in {' ', '+', '-'}
  }

  const NO_NEWLINE := "\\ No newline at end of file"
  const BEGIN := "*** Begin Patch"
  const UPDATE := "*** Update File: src/lib.rs"
  const END := "*** End Patch"

  // What one body line does to the hunks read so far.
  function ReadLine(hunks: seq<Hunk>, line: string): Result<seq<Hunk>, PatchError> {
    if "@@" <= line then Ok(hunks + [[]])
    else if hunks == [] then Err(HunkAbsent)
    else if line == NO_NEWLINE then Ok(hunks)
    else if !ValidLine(line) then Err(LineInvalid)
    else Ok(Front(hunks) + [Last(hunks) + [HunkLine(line[0], line[1..])]])
  }

  function ReadBody(body: seq<string>): Result<seq<Hunk>, PatchError> {
    if body == [] then Ok([])
    else
      var hunks := ReadBody(body[..|body| - 1]);
      if hunks.Err? then hunks else ReadLine(hunks.value, body[|body| - 1])
  }

  function ReadPatch(patch: string): Result<seq<Hunk>, PatchError> {
    var lines := SplitLines(patch);
    if |lines| < 5 || lines[0] != BEGIN || lines[|lines| - 1] != END || lines[1] != UPDATE then Err(Envelope)
    else
      var hunks := ReadBody(lines[2..|lines| - 1]);
      if hunks.Err? then hunks
      else if hunks.value == [] || [] in hunks.value then Err(EmptyHunk)
      else hunks
  }

  method ParsePatch(patch: string) returns (r: Result<seq<Hunk>, PatchError>)
    ensures r == ReadPatch(patch)
  {
    var lines := SplitLines(patch);
    if |lines| < 5 || lines[0] != BEGIN || lines[|lines| - 1] != END || lines[1] != UPDATE {
      return Err(Envelope);
    }
    var body := lines[2..|lines| - 1];
    var hunks: seq<Hunk> := [];
    for i := 0 to |body|
      invariant ReadBody(body[..i]) == Ok(hunks)
    {
      var line := body[i];
      assert body[..i + 1][..i] == body[..i];
      var step := ReadLine(hunks, line);
      if step.Err? {
        ReadStops(body, i + 1);
        return step;
      }
      if "@@" <= line {
        hunks := hunks + [[]];
      } else if line != NO_NEWLINE {
        hunks := Front(hunks) + [Last(hunks) + [HunkLine(line[0], line[1..])]];
      }
    }
    assert body[..|body|] == body;
    if hunks == [] || [] in hunks {
      return Err(EmptyHunk);
    }
    r := Ok(hunks);
  }

  // The first refused line decides the error.
  lemma {:induction false} ReadStops(body: seq<string>, i: nat)
    requires i <= |body| && ReadBody(body[..i]).Err?
    ensures ReadBody(body) == ReadBody(body[..i])
    decreases |body|
  {
    if i == |body| {
      assert body[..i] == body;
    } else {
      var n := |body| - 1;
      assert body[..n][..i] == body[..i];
      ReadStops(body[..n], i);
    }
  }

  // ----- binding and splicing -----

  function Texts(hunk: Hunk, ops: set<char>): seq<string> {
    if hunk == [] then []
    else (if hunk[0].op in ops then [hunk[0].text] else []) + Texts(hunk[1..], ops)
  }

  function Old(hunk: Hunk): seq<string> {
    Texts(hunk, {' ', '-'})
  }

  function New(hunk: Hunk): seq<string> {
    Texts(hunk, {' ', '+'})
  }

  predicate MatchAt(lines: seq<string>, wanted: seq<string>, i: nat) {
    i + |wanted| <= |lines| && lines[i..i + |wanted|] == wanted
  }

  // The range(cursor, len(lines)-len(old)+1) positions at which the lines equal the hunk's old text.
  function MatchesFrom(lines: seq<string>, wanted: seq<string>, i: nat): (ps: seq<nat>)
    ensures forall p :: p in ps <==> i <= p && MatchAt(lines, wanted, p)
    ensures forall j, k :: 0 <= j < k < |ps| ==> ps[j] < ps[k]
    decreases |lines| - i
  {
    if i + |wanted| > |lines| then []
    else
      var later := if i < |lines| then MatchesFrom(lines, wanted, i + 1) else [];
      assert forall k :: 0 <= k < |later| ==> later[k] in later;
      (if MatchAt(lines, wanted, i) then [i] else []) + later
  }

  ghost predicate OnlyMatch(lines: seq<string>, wanted: seq<string>, p: nat) {
    MatchAt(lines, wanted, p) && forall k: nat :: MatchAt(lines, wanted, k) ==> k == p
  }

  // gaps[i] is the number of untouched lines before hunk i, counted from the end of the hunk before it.
  ghost predicate Placed(source: seq<string>, hunks: seq<Hunk>, gaps: seq<nat>)
    decreases |hunks|
  {
    if hunks == [] then gaps == []
    else
      && gaps != [] && MatchAt(source, Old(hunks[0]), gaps[0])
      && Placed(source[gaps[0] + |Old(hunks[0])|..], hunks[1..], gaps[1..])
  }

  // Each hunk matches exactly once in what follows the hunk before it.
  ghost predicate Binds(source: seq<string>, hunks: seq<Hunk>, gaps: seq<nat>)
    decreases |hunks|
  {
    if hunks == [] then gaps == []
    else
      && gaps != [] && OnlyMatch(source, Old(hunks[0]), gaps[0])
      && Binds(source[gaps[0] + |Old(hunks[0])|..], hunks[1..], gaps[1..])
  }

  // p0 + new1 + p1 + ... + newn + pn, where the source is p0 + old1 + p1 + ... + oldn + pn.
  ghost function Rebuilt(source: seq<string>, hunks: seq<Hunk>, gaps: seq<nat>): seq<string>
    requires Placed(source, hunks, gaps)
    decreases |hunks|
  {
    if hunks == [] then source
    else
      source[..gaps[0]] + New(hunks[0]) +
      Rebuilt(source[gaps[0] + |Old(hunks[0])|..], hunks[1..], gaps[1..])
  }

  ghost predicate NoInsertions(hunks: seq<Hunk>) {
    forall h :: h in hunks ==> Old(h) != []
  }

  lemma {:induction false} BindsPlaced(source: seq<string>, hunks: seq<Hunk>, gaps: seq<nat>)
    requires Binds(source, hunks, gaps)
    ensures Placed(source, hunks, gaps)
    decreases |hunks|
  {
    if hunks != [] {
      BindsPlaced(source[gaps[0] + |Old(hunks[0])|..], hunks[1..], gaps[1..]);
    }
  }

  // Hunk by hunk uniqueness, each searched after the previous one, is uniqueness of the whole placement.
  lemma {:induction false} BindsOnly(source: seq<string>, hunks: seq<Hunk>, gaps: seq<nat>, other: seq<nat>)
    requires Binds(source, hunks, gaps) && Placed(source, hunks, other)
    ensures other == gaps
    decreases |hunks|
  {
    if hunks != [] {
      assert other[0] == gaps[0];
      BindsOnly(source[gaps[0] + |Old(hunks[0])|..], hunks[1..], gaps[1..], other[1..]);
      assert other == [other[0]] + other[1..] && gaps == [gaps[0]] + gaps[1..];
    }
  }

  // The splice as a value: the unique match of the first hunk, then the rest of the source with the other hunks.
  ghost function Spliced(rest: seq<string>, hunks: seq<Hunk>): Option<seq<string>>
    decreases |hunks|
  {
    if hunks == [] then Some(rest)
    else if Old(hunks[0]) == [] || !exists p: nat :: OnlyMatch(rest, Old(hunks[0]), p) then None
    else
      var p: nat :| OnlyMatch(rest, Old(hunks[0]), p);
      var later := Spliced(rest[p + |Old(hunks[0])|..], hunks[1..]);
      if later.None? then None else Some(rest[..p] + New(hunks[0]) + later.value)
  }

  lemma {:induction false} MatchShifts(done: seq<string>, rest: seq<string>, wanted: seq<string>, k: nat)
    ensures MatchAt(done + rest, wanted, k + |done|) <==> MatchAt(rest, wanted, k)
  {
    if k + |wanted| <= |rest| {
      assert (done + rest)[|done| + k..|done| + k + |wanted|] == rest[k..k + |wanted|];
    }
  }

  ghost predicate ListsMatches(ps: seq<nat>, cursor: nat, rest: seq<string>, wanted: seq<string>) {
    && (forall q :: q in ps <==> cursor <= q && MatchAt(rest, wanted, q - cursor))
    && (forall j, k :: 0 <= j < k < |ps| ==> ps[j] < ps[k])
  }

  lemma {:induction false} OneMatch(ps: seq<nat>, cursor: nat, rest: seq<string>, wanted: seq<string>) returns (p: nat)
    requires ListsMatches(ps, cursor, rest, wanted) && |ps| == 1
    ensures OnlyMatch(rest, wanted, p) && ps == [cursor + p] && p + |wanted| <= |rest|
  {
    OneMatchInside(ps, cursor, rest, wanted);
    hide MatchAt;
    assert ps[0] in ps;
    p := ps[0] - cursor;
    forall k: nat | MatchAt(rest, wanted, k) ensures k == p {
      var q := cursor + k;
      assert q in ps;
    }
  }

  lemma {:induction false} OneMatchInside(ps: seq<nat>, cursor: nat, rest: seq<string>, wanted: seq<string>)
    requires ListsMatches(ps, cursor, rest, wanted) && |ps| == 1
    ensures cursor <= ps[0] && ps[0] - cursor + |wanted| <= |rest|
  {
    assert ps[0] in ps;
  }

  lemma {:induction false} MatchIsOnly(ps: seq<nat>, cursor: nat, rest: seq<string>, wanted: seq<string>, p: nat)
    requires ListsMatches(ps, cursor, rest, wanted) && OnlyMatch(rest, wanted, p)
    ensures ps == [cursor + p]
  {
    hide MatchAt;
    var q := cursor + p;
    assert q in ps;
    if |ps| >= 2 {
      TwoMatches(ps, cursor, rest, wanted);
      assert false;
    }
  }

  lemma {:induction false} TwoMatches(ps: seq<nat>, cursor: nat, rest: seq<string>, wanted: seq<string>)
    requires ListsMatches(ps, cursor, rest, wanted) && |ps| >= 2
    ensures exists j: nat, k: nat :: j != k && MatchAt(rest, wanted, j) && MatchAt(rest, wanted, k)
  {
    hide MatchAt;
    assert ps[0] in ps && ps[1] in ps && ps[0] < ps[1];
    var j: nat, k: nat := ps[0] - cursor, ps[1] - cursor;
    assert MatchAt(rest, wanted, j) && MatchAt(rest, wanted, k);
  }

  lemma {:induction false} MatchListed(done: seq<string>, rest: seq<string>, wanted: seq<string>, q: nat)
    ensures q in MatchesFrom(done + rest, wanted, |done|) <==> |done| <= q && MatchAt(rest, wanted, q - |done|)
  {
    hide MatchesFrom;
    if |done| <= q { MatchShifts(done, rest, wanted, q - |done|); }
    hide MatchAt;
    assert q in MatchesFrom(done + rest, wanted, |done|) <==> |done| <= q && MatchAt(done + rest, wanted, q);
  }

  // Searching the spliced list from the cursor is searching the untouched rest of the source.
  lemma {:induction false} MatchesListed(done: seq<string>, rest: seq<string>, wanted: seq<string>)
    ensures ListsMatches(MatchesFrom(done + rest, wanted, |done|), |done|, rest, wanted)
  {
    hide MatchAt, MatchesFrom;
    forall q: nat ensures q in MatchesFrom(done + rest, wanted, |done|) <==>
        |done| <= q && MatchAt(rest, wanted, q - |done|) {
      MatchListed(done, rest, wanted, q);
    }
  }

  lemma {:induction false} NoOnlyMatch(ps: seq<nat>, cursor: nat, rest: seq<string>, wanted: seq<string>)
    requires ListsMatches(ps, cursor, rest, wanted) && |ps| != 1
    ensures !exists p: nat :: OnlyMatch(rest, wanted, p)
  {
    hide OnlyMatch, ListsMatches;
    forall p: nat | OnlyMatch(rest, wanted, p) ensures false {
      MatchIsOnly(ps, cursor, rest, wanted, p);
    }
  }

  method SpliceHunks(source: seq<string>, hunks: seq<Hunk>) returns (r: Result<seq<string>, PatchError>)
    ensures r.Ok? <==> Spliced(source, hunks).Some?
    ensures r.Ok? ==> Spliced(source, hunks) == Some(r.value)
  {
    hide Old, New, MatchAt, MatchesFrom, ListsMatches;
    var sourceLines, cursor := source, 0;
    ghost var done, rest := [], source;
    assert hunks[0..] == hunks;
    assert Spliced(source, hunks).Some? ==> [] + Spliced(source, hunks).value == Spliced(source, hunks).value;
    for i := 0 to |hunks|
      invariant sourceLines == done + rest && cursor == |done|
      invariant Spliced(source, hunks)
             == if Spliced(rest, hunks[i..]).None? then None else Some(done + Spliced(rest, hunks[i..]).value)
    {
      var wanted, replacement := Old(hunks[i]), New(hunks[i]);
      assert hunks[i..][0] == hunks[i] && hunks[i..][1..] == hunks[i + 1..];
      if wanted == [] {
        return Err(InsertionUnsupported);
      }
      var matches := MatchesFrom(sourceLines, wanted, cursor);
      MatchesListed(done, rest, wanted);
      if |matches| != 1 {
        NoOnlyMatch(matches, cursor, rest, wanted);
        return Err(NotUnique);
      }
      var pos := matches[0];
      ghost var p := OneMatch(matches, cursor, rest, wanted);
      assert sourceLines[..pos] == done + rest[..p] && sourceLines[pos + |wanted|..] == rest[p + |wanted|..];
      sourceLines := sourceLines[..pos] + replacement + sourceLines[pos + |wanted|..];
      cursor := pos + |replacement|;
      SplicedStep(rest, hunks[i..], p, done);
      done, rest := done + rest[..p] + replacement, rest[p + |wanted|..];
    }
    r := Ok(sourceLines);
  }

  lemma {:induction false} SplicedStep(rest: seq<string>, hunks: seq<Hunk>, p: nat, done: seq<string>)
    requires hunks != [] && Old(hunks[0]) != [] && OnlyMatch(rest, Old(hunks[0]), p)
    ensures var later := Spliced(rest[p + |Old(hunks[0])|..], hunks[1..]);
            var whole := Spliced(rest, hunks);
            && (whole.None? <==> later.None?)
            && (whole.Some? ==> whole.value == rest[..p] + New(hunks[0]) + later.value)
            && (whole.Some? ==> done + whole.value == done + rest[..p] + New(hunks[0]) + later.value)
  {
    hide Old, New;
    var later := Spliced(rest[p + |Old(hunks[0])|..], hunks[1..]);
    if later.Some? {
      assert done + (rest[..p] + New(hunks[0]) + later.value) == done + rest[..p] + New(hunks[0]) + later.value;
    }
  }

  lemma {:induction false} SplicedBinds(source: seq<string>, hunks: seq<Hunk>) returns (gaps: seq<nat>)
    requires Spliced(source, hunks).Some?
    ensures NoInsertions(hunks) && Binds(source, hunks, gaps)
    decreases |hunks|
  {
    if hunks == [] {
      gaps := [];
    } else {
      var wanted := Old(hunks[0]);
      var p: nat :| OnlyMatch(source, wanted, p);
      SplicedStep(source, hunks, p, []);
      var tail := SplicedBinds(source[p + |wanted|..], hunks[1..]);
      gaps := [p] + tail;
      assert gaps[1..] == tail;
      assert forall h :: h in hunks ==> h == hunks[0] || h in hunks[1..];
    }
  }

  lemma {:induction false} BindsSpliced(source: seq<string>, hunks: seq<Hunk>, gaps: seq<nat>)
    requires NoInsertions(hunks) && Binds(source, hunks, gaps)
    ensures Placed(source, hunks, gaps) && Spliced(source, hunks) == Some(Rebuilt(source, hunks, gaps))
    decreases |hunks|
  {
    if hunks != [] {
      assert forall h :: h in hunks[1..] ==> h in hunks;
      BindsSpliced(source[gaps[0] + |Old(hunks[0])|..], hunks[1..], gaps[1..]);
      SplicedStep(source, hunks, gaps[0], []);
    }
  }

  // Every hunk has old text, and each matches exactly once after the one before it.
  ghost predicate Bindable(source: seq<string>, hunks: seq<Hunk>) {
    NoInsertions(hunks) && exists gaps :: Binds(source, hunks, gaps)
  }

  // The hunks stand at `gaps` and nowhere else, and `result` is the source with their replacements put there.
  ghost predicate OnlyPlacement(source: seq<string>, hunks: seq<Hunk>, gaps: seq<nat>, result: seq<string>) {
    && Placed(source, hunks, gaps) && result == Rebuilt(source, hunks, gaps)
    && forall other :: Placed(source, hunks, other) ==> other == gaps
  }

  lemma {:induction false} SplicedPlacement(source: seq<string>, hunks: seq<Hunk>) returns (gaps: seq<nat>)
    requires Spliced(source, hunks).Some?
    ensures Bindable(source, hunks) && OnlyPlacement(source, hunks, gaps, Spliced(source, hunks).value)
  {
    gaps := SplicedBinds(source, hunks);
    BindsSpliced(source, hunks, gaps);
    forall other | Placed(source, hunks, other) ensures other == gaps { BindsOnly(source, hunks, gaps, other); }
  }

  // The splice succeeds exactly on a hunk-by-hunk unique placement. That placement is then the only way to place the
  // hunks in order and apart anywhere in the source, and every replacement stands where its old text was.
  lemma {:induction false} SplicedExact(source: seq<string>, hunks: seq<Hunk>)
    ensures Spliced(source, hunks).Some? <==> Bindable(source, hunks)
    ensures Spliced(source, hunks).Some? ==>
              exists gaps :: OnlyPlacement(source, hunks, gaps, Spliced(source, hunks).value)
  {
    if Spliced(source, hunks).Some? {
      var gaps := SplicedPlacement(source, hunks);
    } else if Bindable(source, hunks) {
      var gaps :| Binds(source, hunks, gaps);
      BindsSpliced(source, hunks, gaps);
    }
  }

  lemma {:induction false} OldOfRemoval(text: string)
    ensures Old([HunkLine('-', text)]) == [text]
  {
    var h := [HunkLine('-', text)];
    assert h[1..] == [];
    assert Texts(h, {' ', '-'}) == [text] + Texts(h[1..], {' ', '-'});
  }

  lemma {:induction false} PlacedTwo(source: seq<string>, a: Hunk, b: Hunk, gaps: seq<nat>)
    requires |Old(a)| == 1 && |Old(b)| == 1
    ensures Placed(source, [a, b], gaps) <==>
              && |gaps| == 2 && gaps[0] + gaps[1] + 2 <= |source|
              && source[gaps[0]] == Old(a)[0] && source[gaps[0] + 1 + gaps[1]] == Old(b)[0]
  {
    hide Old;
    var hunks := [a, b];
    assert hunks[1..] == [b] && hunks[1..][1..] == [];
    if |gaps| >= 1 && gaps[0] + 1 <= |source| {
      var rest := source[gaps[0] + 1..];
      MatchOne(source, Old(a), gaps[0]);
      if |gaps| >= 2 && gaps[1] + 1 <= |rest| {
        MatchOne(rest, Old(b), gaps[1]);
        assert rest[gaps[1]] == source[gaps[0] + 1 + gaps[1]];
        assert gaps[1..][0] == gaps[1] && gaps[1..][1..] == gaps[2..];
        assert Placed(rest[gaps[1] + 1..], [], gaps[2..]) <==> gaps[2..] == [];
      }
    }
  }

  lemma {:induction false} MatchOne(lines: seq<string>, wanted: seq<string>, i: nat)
    requires |wanted| == 1 && i < |lines|
    ensures MatchAt(lines, wanted, i) <==> lines[i] == wanted[0]
  {
    assert lines[i..i + 1] == [lines[i]];
  }

  // A unique placement is not enough: a first hunk that also matches later is refused even though the second hunk
  // leaves it only one place.
  lemma {:induction false} UniquePlacementRefused()
    ensures var source := ["a", "b", "a"]; var hunks := [[HunkLine('-', "a")], [HunkLine('-', "b")]];
            && Placed(source, hunks, [0, 0]) && (forall gaps :: Placed(source, hunks, gaps) ==> gaps == [0, 0])
            && Spliced(source, hunks).None?
  {
    var source := ["a", "b", "a"];
    var first, second := [HunkLine('-', "a")], [HunkLine('-', "b")];
    OldOfRemoval("a");
    OldOfRemoval("b");
    MatchOne(source, ["a"], 0);
    MatchOne(source, ["a"], 2);
    hide Old, MatchAt, Placed;
    assert !exists p: nat :: OnlyMatch(source, ["a"], p);
    forall gaps ensures Placed(source, [first, second], gaps) <==> gaps == [0, 0] {
      PlacedTwo(source, first, second, gaps);
    }
  }

  // ----- hunks line by line -----

  // How many of the first k lines of a hunk come from the source.
  ghost function SourceLines(h: Hunk, k: nat): nat
    requires k <= |h|
  {
    if k == 0 then 0 else SourceLines(h, k - 1) + if h[k - 1].op == ' ' || h[k - 1].op == '-' then 1 else 0
  }

  // How many of them go to the result.
  ghost function ResultLines(h: Hunk, k: nat): nat
    requires k <= |h|
  {
    if k == 0 then 0 else ResultLines(h, k - 1) + if h[k - 1].op == ' ' || h[k - 1].op == '+' then 1 else 0
  }

  // Each of the first n lines that comes from the source is the source line as many lines after p as come before it.
  ghost predicate StandsUpTo(source: seq<string>, h: Hunk, p: nat, n: nat)
    requires n <= |h|
  {
    && p + SourceLines(h, n) <= |source|
    && forall k :: 0 <= k < n && (h[k].op == ' ' || h[k].op == '-') ==>
         p + SourceLines(h, k) < |source| && source[p + SourceLines(h, k)] == h[k].text
  }

  ghost predicate StandsIn(source: seq<string>, h: Hunk, p: nat) {
    StandsUpTo(source, h, p, |h|)
  }

  ghost predicate WrittenUpTo(result: seq<string>, h: Hunk, p: nat, n: nat)
    requires n <= |h|
  {
    && p + ResultLines(h, n) <= |result|
    && forall k :: 0 <= k < n && (h[k].op == ' ' || h[k].op == '+') ==>
         p + ResultLines(h, k) < |result| && result[p + ResultLines(h, k)] == h[k].text
  }

  ghost predicate WrittenIn(result: seq<string>, h: Hunk, p: nat) {
    WrittenUpTo(result, h, p, |h|)
  }

  // Where the source goes on before hunk i, and where the result does.
  ghost function SourceFrom(hunks: seq<Hunk>, at: seq<nat>, i: nat, from: nat): nat
    requires i <= |hunks| && i <= |at|
  {
    if i == 0 then from else at[i - 1] + SourceLines(hunks[i - 1], |hunks[i - 1]|)
  }

  ghost function ResultFrom(hunks: seq<Hunk>, at: seq<nat>, i: nat, from: nat): nat
    requires i <= |hunks| && i <= |at|
  {
    if i == 0 then from else at[i - 1] + ResultLines(hunks[i - 1], |hunks[i - 1]|)
  }

  // Each hunk takes some line, and stands at its place and nowhere else behind the hunk before it.
  ghost predicate BindsAt(source: seq<string>, hunks: seq<Hunk>, at: seq<nat>, from: nat) {
    && |at| == |hunks|
    && forall i :: 0 <= i < |hunks| ==>
         && SourceLines(hunks[i], |hunks[i]|) > 0
         && SourceFrom(hunks, at, i, from) <= at[i] && StandsIn(source, hunks[i], at[i])
         && forall p: nat :: p >= SourceFrom(hunks, at, i, from) && StandsIn(source, hunks[i], p) ==> p == at[i]
  }

  // What is before a hunk is copied; its kept and removed lines stand in the source, its kept and added ones in the
  // result.
  ghost predicate HunkApplied(source: seq<string>, h: Hunk, from: nat, at: nat, result: seq<string>, into: nat, to: nat)
  {
    && from <= at <= |source| && into <= to <= |result| && source[from..at] == result[into..to]
    && StandsIn(source, h, at) && WrittenIn(result, h, to)
  }

  ghost predicate TailCopied(source: seq<string>, from: nat, result: seq<string>, into: nat) {
    from <= |source| && into <= |result| && source[from..] == result[into..]
  }

  // Hunk by hunk, and what is behind the last hunk is copied.
  ghost predicate PatchedAt(source: seq<string>, hunks: seq<Hunk>, at: seq<nat>, to: seq<nat>, result: seq<string>,
                            from: nat, into: nat) {
    && |at| == |to| == |hunks|
    && (forall i :: 0 <= i < |hunks| ==>
          HunkApplied(source, hunks[i], SourceFrom(hunks, at, i, from), at[i],
                      result, ResultFrom(hunks, to, i, into), to[i]))
    && TailCopied(source, SourceFrom(hunks, at, |hunks|, from), result, ResultFrom(hunks, to, |hunks|, into))
  }

  lemma {:induction false} TextsHead(h: Hunk, ops: set<char>)
    ensures Texts([], ops) == []
    ensures h != [] ==> Texts(h, ops) == (if h[0].op in ops then [h[0].text] else []) + Texts(h[1..], ops)
  {
  }

  lemma {:induction false} TextsPush(h: Hunk, l: HunkLine, ops: set<char>)
    ensures Texts(h + [l], ops) == Texts(h, ops) + if l.op in ops then [l.text] else []
  {
    hide Texts;
    var all := h + [l];
    TextsHead(h, ops);
    TextsHead(all, ops);
    if h == [] {
      assert all[1..] == [];
    } else {
      assert all[1..] == h[1..] + [l] && all[0] == h[0];
      TextsPush(h[1..], l, ops);
    }
  }

  lemma {:induction false} OldCounts(h: Hunk, n: nat)
    requires n <= |h|
    ensures |Old(h[..n])| == SourceLines(h, n) && |New(h[..n])| == ResultLines(h, n)
    ensures n > 0 ==> Old(h[..n]) == Old(h[..n - 1]) + if h[n - 1].op in {' ', '-'} then [h[n - 1].text] else []
    ensures n > 0 ==> New(h[..n]) == New(h[..n - 1]) + if h[n - 1].op in {' ', '+'} then [h[n - 1].text] else []
  {
    if n > 0 {
      OldCounts(h, n - 1);
      assert h[..n] == h[..n - 1] + [h[n - 1]];
      TextsPush(h[..n - 1], h[n - 1], {' ', '-'});
      TextsPush(h[..n - 1], h[n - 1], {' ', '+'});
    }
  }

  // A hunk matches where its lines stand.
  lemma {:induction false} StandsMatches(source: seq<string>, h: Hunk, p: nat, n: nat)
    requires n <= |h|
    ensures StandsUpTo(source, h, p, n) <==> MatchAt(source, Old(h[..n]), p)
  {
    OldCounts(h, n);
    if n > 0 {
      StandsMatches(source, h, p, n - 1);
      hide Old, New;
      MatchMore(source, Old(h[..n - 1]), p, h[n - 1].text);
    }
  }

  lemma {:induction false} MatchMore(lines: seq<string>, wanted: seq<string>, p: nat, text: string)
    ensures MatchAt(lines, wanted + [text], p) <==>
              MatchAt(lines, wanted, p) && p + |wanted| < |lines| && lines[p + |wanted|] == text
    ensures wanted + [] == wanted
  {
    var n, more := p + |wanted|, wanted + [text];
    assert more[..|wanted|] == wanted && more[|wanted|] == text;
    if n < |lines| {
      assert lines[p..n + 1] == lines[p..n] + [lines[n]] && lines[p..n + 1][..|wanted|] == lines[p..n];
    }
  }

  // And its new text, wherever it is put, is written there.
  lemma {:induction false} NewWritten(result: seq<string>, h: Hunk, p: nat, n: nat)
    requires n <= |h| && MatchAt(result, New(h[..n]), p)
    ensures WrittenUpTo(result, h, p, n)
  {
    OldCounts(h, n);
    if n > 0 {
      hide Old, New;
      if h[n - 1].op in {' ', '+'} {
        MatchMore(result, New(h[..n - 1]), p, h[n - 1].text);
      }
      NewWritten(result, h, p, n - 1);
    }
  }

  lemma {:induction false} StandsInRest(source: seq<string>, h: Hunk, from: nat, q: nat)
    requires from <= |source|
    ensures MatchAt(source[from..], Old(h), q) <==> StandsIn(source, h, from + q)
    ensures |Old(h)| == SourceLines(h, |h|) && |New(h)| == ResultLines(h, |h|)
  {
    assert h[..|h|] == h;
    StandsMatches(source, h, from + q, |h|);
    OldCounts(h, |h|);
    hide Old, New, MatchAt;
    assert source[..from] + source[from..] == source;
    MatchShifts(source[..from], source[from..], Old(h), q);
  }

  lemma {:induction false} OnlyStands(source: seq<string>, h: Hunk, from: nat, q: nat)
    requires from <= |source| && OnlyMatch(source[from..], Old(h), q)
    ensures StandsIn(source, h, from + q) && from + q + SourceLines(h, |h|) <= |source|
    ensures forall p: nat :: p >= from && StandsIn(source, h, p) ==> p == from + q
  {
    StandsInRest(source, h, from, q);
    hide Old, StandsUpTo;
    forall p: nat | p >= from && StandsIn(source, h, p) ensures p == from + q {
      StandsInRest(source, h, from, p - from);
    }
  }

  lemma {:induction false} StandsOnly(source: seq<string>, h: Hunk, from: nat, p: nat)
    requires from <= p && from <= |source| && StandsIn(source, h, p)
    requires forall q: nat :: q >= from && StandsIn(source, h, q) ==> q == p
    ensures OnlyMatch(source[from..], Old(h), p - from)
  {
    hide Old, MatchAt, StandsUpTo;
    forall q: nat ensures MatchAt(source[from..], Old(h), q) <==> StandsIn(source, h, from + q) {
      StandsInRest(source, h, from, q);
    }
  }

  lemma {:induction false} BindsHead(source: seq<string>, from: nat, hunks: seq<Hunk>, gaps: seq<nat>)
    returns (next: nat)
    requires from <= |source| && NoInsertions(hunks) && Binds(source[from..], hunks, gaps) && hunks != []
    ensures gaps != [] && SourceLines(hunks[0], |hunks[0]|) > 0 && StandsIn(source, hunks[0], from + gaps[0])
    ensures forall p: nat :: p >= from && StandsIn(source, hunks[0], p) ==> p == from + gaps[0]
    ensures next == from + gaps[0] + SourceLines(hunks[0], |hunks[0]|) <= |source|
    ensures NoInsertions(hunks[1..]) && Binds(source[next..], hunks[1..], gaps[1..])
  {
    var h, p := hunks[0], gaps[0];
    OnlyStands(source, h, from, p);
    StandsInRest(source, h, from, p);
    assert h in hunks && forall x :: x in hunks[1..] ==> x in hunks;
    next := from + p + SourceLines(h, |h|);
    assert source[from..][p + |Old(h)|..] == source[next..];
    hide Old, StandsIn, OnlyMatch, MatchAt;
  }

  // Binding in what is left of the source is binding at line numbers.
  lemma {:induction false} BindsPositions(source: seq<string>, from: nat, hunks: seq<Hunk>, gaps: seq<nat>)
    returns (at: seq<nat>)
    requires from <= |source| && NoInsertions(hunks) && Binds(source[from..], hunks, gaps)
    ensures BindsAt(source, hunks, at, from)
    decreases |hunks|
  {
    hide NoInsertions, Binds, StandsIn, SourceLines;
    at := [];
    if hunks != [] {
      var next := BindsHead(source, from, hunks, gaps);
      var later := BindsPositions(source, next, hunks[1..], gaps[1..]);
      at := [from + gaps[0]] + later;
      assert at[1..] == later && |later| == |hunks[1..]|;
      hide *;
      BindsFirst(source, hunks, at, from);
    }
  }

  lemma {:induction false} BindsFirst(source: seq<string>, hunks: seq<Hunk>, at: seq<nat>, from: nat)
    requires |at| == |hunks| > 0 && from <= at[0] && SourceLines(hunks[0], |hunks[0]|) > 0
    requires StandsIn(source, hunks[0], at[0])
    requires forall p: nat :: p >= from && StandsIn(source, hunks[0], p) ==> p == at[0]
    requires BindsAt(source, hunks[1..], at[1..], at[0] + SourceLines(hunks[0], |hunks[0]|))
    ensures BindsAt(source, hunks, at, from)
  {
    hide StandsIn, SourceLines;
    var next := at[0] + SourceLines(hunks[0], |hunks[0]|);
    forall i | 1 <= i < |hunks|
      ensures hunks[i] == hunks[1..][i - 1] && at[i] == at[1..][i - 1]
      ensures SourceFrom(hunks, at, i, from) == SourceFrom(hunks[1..], at[1..], i - 1, next)
    {
    }
  }

  lemma {:induction false} BindsRest(source: seq<string>, hunks: seq<Hunk>, at: seq<nat>, from: nat)
    requires hunks != [] && BindsAt(source, hunks, at, from)
    ensures BindsAt(source, hunks[1..], at[1..], at[0] + SourceLines(hunks[0], |hunks[0]|))
  {
    hide StandsIn, SourceLines;
    var next := at[0] + SourceLines(hunks[0], |hunks[0]|);
    forall i | 0 <= i < |hunks| - 1
      ensures hunks[1..][i] == hunks[i + 1] && at[1..][i] == at[i + 1]
      ensures SourceFrom(hunks[1..], at[1..], i, next) == SourceFrom(hunks, at, i + 1, from)
    {
    }
  }

  lemma {:induction false} PositionsBind(source: seq<string>, from: nat, hunks: seq<Hunk>, at: seq<nat>)
    returns (gaps: seq<nat>)
    requires from <= |source| && BindsAt(source, hunks, at, from)
    ensures NoInsertions(hunks) && Binds(source[from..], hunks, gaps)
    decreases |hunks|
  {
    gaps := [];
    if hunks != [] {
      var h, p := hunks[0], at[0] - from;
      assert SourceFrom(hunks, at, 0, from) == from;
      StandsOnly(source, h, from, at[0]);
      StandsInRest(source, h, from, p);
      BindsRest(source, hunks, at, from);
      var next := at[0] + SourceLines(h, |h|);
      assert source[from..][p + |Old(h)|..] == source[next..];
      var later := PositionsBind(source, next, hunks[1..], at[1..]);
      gaps := [p] + later;
      assert gaps[1..] == later && hunks == [h] + hunks[1..];
      hide Old, StandsIn, OnlyMatch, MatchAt, BindsAt;
    }
  }

  // The same for the result: where the rebuilt lines take each hunk and copy the rest.
  lemma {:induction false} RebuiltPositions(source: seq<string>, from: nat, hunks: seq<Hunk>, gaps: seq<nat>,
                                            at: seq<nat>, result: seq<string>, into: nat) returns (to: seq<nat>)
    requires from <= |source| && into <= |result| && Binds(source[from..], hunks, gaps)
    requires BindsAt(source, hunks, at, from)
    requires Placed(source[from..], hunks, gaps) && result[into..] == Rebuilt(source[from..], hunks, gaps)
    ensures PatchedAt(source, hunks, at, to, result, from, into)
    decreases |hunks|
  {
    hide *;
    to := [];
    if hunks == [] {
      NothingPatched(source, from, gaps, at, result, into);
    } else {
      var next, onto := FirstApplied(source, from, hunks, gaps, at, result, into);
      var later := RebuiltPositions(source, next, hunks[1..], gaps[1..], at[1..], result, onto);
      to := [into + gaps[0]] + later;
      PatchedFirst(source, hunks, at, into + gaps[0], later, result, from, into);
    }
  }

  lemma {:induction false} FirstApplied(source: seq<string>, from: nat, hunks: seq<Hunk>, gaps: seq<nat>, at: seq<nat>,
                                        result: seq<string>, into: nat) returns (next: nat, onto: nat)
    requires from <= |source| && into <= |result| && hunks != [] && Binds(source[from..], hunks, gaps)
    requires BindsAt(source, hunks, at, from)
    requires Placed(source[from..], hunks, gaps) && result[into..] == Rebuilt(source[from..], hunks, gaps)
    ensures gaps != [] && |at| == |hunks| && next == at[0] + SourceLines(hunks[0], |hunks[0]|) <= |source|
    ensures onto == into + gaps[0] + ResultLines(hunks[0], |hunks[0]|) <= |result|
    ensures HunkApplied(source, hunks[0], from, at[0], result, into, into + gaps[0])
    ensures Binds(source[next..], hunks[1..], gaps[1..]) && BindsAt(source, hunks[1..], at[1..], next)
    ensures Placed(source[next..], hunks[1..], gaps[1..])
    ensures result[onto..] == Rebuilt(source[next..], hunks[1..], gaps[1..])
  {
    hide *;
    BindsRest(source, hunks, at, from);
    FirstPlace(source, from, hunks, gaps, at);
    var h, p := hunks[0], gaps[0];
    next, onto := at[0] + SourceLines(h, |h|), into + p + ResultLines(h, |h|);
    RebuiltFirst(source, from, hunks, gaps, next);
    FirstWritten(source, from, h, p, Rebuilt(source[next..], hunks[1..], gaps[1..]), result, into);
  }

  lemma {:induction false} NothingPatched(source: seq<string>, from: nat, gaps: seq<nat>, at: seq<nat>,
                                          result: seq<string>, into: nat)
    requires from <= |source| && into <= |result| && BindsAt(source, [], at, from)
    requires Placed(source[from..], [], gaps) && result[into..] == Rebuilt(source[from..], [], gaps)
    ensures PatchedAt(source, [], at, [], result, from, into)
  {
  }

  lemma {:induction false} RebuiltFirst(source: seq<string>, from: nat, hunks: seq<Hunk>, gaps: seq<nat>, next: nat)
    requires from <= |source| && hunks != []
    requires Binds(source[from..], hunks, gaps) && Placed(source[from..], hunks, gaps)
    requires next == from + gaps[0] + SourceLines(hunks[0], |hunks[0]|) <= |source|
    ensures Binds(source[next..], hunks[1..], gaps[1..]) && Placed(source[next..], hunks[1..], gaps[1..])
    ensures Rebuilt(source[from..], hunks, gaps)
         == source[from..][..gaps[0]] + New(hunks[0]) + Rebuilt(source[next..], hunks[1..], gaps[1..])
  {
    StandsInRest(source, hunks[0], from, gaps[0]);
    assert source[from..][gaps[0] + |Old(hunks[0])|..] == source[next..];
  }

  lemma {:induction false} FirstPlace(source: seq<string>, from: nat, hunks: seq<Hunk>, gaps: seq<nat>, at: seq<nat>)
    requires from <= |source| && hunks != [] && Binds(source[from..], hunks, gaps) && BindsAt(source, hunks, at, from)
    ensures gaps != [] && |at| == |hunks| && at[0] == from + gaps[0]
    ensures at[0] + SourceLines(hunks[0], |hunks[0]|) <= |source|
    ensures StandsIn(source, hunks[0], at[0])
  {
    OnlyStands(source, hunks[0], from, gaps[0]);
    assert SourceFrom(hunks, at, 0, from) == from;
    hide StandsUpTo, Old, OnlyMatch;
  }

  lemma {:induction false} SliceBehind<T>(s: seq<T>, from: nat, a: nat, b: nat)
    requires from + b <= |s| && a <= b
    ensures s[from..][a..b] == s[from + a..from + b]
    ensures from + b == |s| ==> s[from..][a..] == s[from + a..]
    ensures a == 0 ==> s[from..][..b] == s[from..from + b]
  {
  }

  lemma {:induction false} FirstWritten(source: seq<string>, from: nat, h: Hunk, p: nat, rest: seq<string>,
                                        result: seq<string>, into: nat)
    requires from + p <= |source| && into <= |result|
    requires result[into..] == source[from..][..p] + New(h) + rest
    ensures into + p + ResultLines(h, |h|) <= |result|
    ensures source[from..from + p] == result[into..into + p] && WrittenIn(result, h, into + p)
    ensures result[into + p + ResultLines(h, |h|)..] == rest
    ensures StandsIn(source, h, from + p) ==> HunkApplied(source, h, from, from + p, result, into, into + p)
  {
    assert h[..|h|] == h;
    OldCounts(h, |h|);
    var copied, written := source[from..][..p], New(h);
    hide New;
    SlicesOf(copied, written, rest);
    SliceBehind(source, from, 0, p);
    SliceBehind(result, into, 0, p);
    SliceBehind(result, into, p, p + |written|);
    SliceBehind(result, into, p + |written|, |result| - into);
    NewWritten(result, h, into + p, |h|);
  }

  lemma {:induction false} PatchedFirst(source: seq<string>, hunks: seq<Hunk>, at: seq<nat>, first: nat,
                                        later: seq<nat>, result: seq<string>, from: nat, into: nat)
    requires |at| == |hunks| > 0 && HunkApplied(source, hunks[0], from, at[0], result, into, first)
    requires PatchedAt(source, hunks[1..], at[1..], later, result, at[0] + SourceLines(hunks[0], |hunks[0]|),
                       first + ResultLines(hunks[0], |hunks[0]|))
    ensures PatchedAt(source, hunks, at, [first] + later, result, from, into)
  {
    hide HunkApplied, TailCopied, SourceLines, ResultLines, SourceFrom, ResultFrom;
    var to := [first] + later;
    var next, onto := at[0] + SourceLines(hunks[0], |hunks[0]|), first + ResultLines(hunks[0], |hunks[0]|);
    FromBehind(hunks, at, to, from, into, 0);
    forall i | 0 < i <= |hunks|
      ensures SourceFrom(hunks, at, i, from) == SourceFrom(hunks[1..], at[1..], i - 1, next)
      ensures ResultFrom(hunks, to, i, into) == ResultFrom(hunks[1..], later, i - 1, onto)
      ensures i < |hunks| ==> hunks[i] == hunks[1..][i - 1] && at[i] == at[1..][i - 1] && to[i] == later[i - 1]
    {
      assert to[1..] == later;
      FromBehind(hunks, at, to, from, into, i);
    }
  }

  // Where the i-th hunk's search starts does not depend on the hunks before the one before it.
  lemma {:induction false} FromBehind(hunks: seq<Hunk>, at: seq<nat>, to: seq<nat>, from: nat, into: nat, i: nat)
    requires |at| == |to| == |hunks| > 0 && i <= |hunks|
    ensures i == 0 ==> SourceFrom(hunks, at, i, from) == from && ResultFrom(hunks, to, i, into) == into
    ensures i > 0 ==>
              && SourceFrom(hunks, at, i, from)
                 == SourceFrom(hunks[1..], at[1..], i - 1, at[0] + SourceLines(hunks[0], |hunks[0]|))
              && ResultFrom(hunks, to, i, into)
                 == ResultFrom(hunks[1..], to[1..], i - 1, to[0] + ResultLines(hunks[0], |hunks[0]|))
  {
    hide SourceLines, ResultLines;
  }

  // The whole splice, line by line: it succeeds exactly if every hunk takes some line and stands behind the one before
  // it in one place only, and the result is then patched at those places.
  lemma {:induction false} SplicedLineByLine(source: seq<string>, hunks: seq<Hunk>)
    ensures Bindable(source, hunks) <==> exists at :: BindsAt(source, hunks, at, 0)
    ensures forall gaps, result :: OnlyPlacement(source, hunks, gaps, result) && Bindable(source, hunks) ==>
              exists at, to :: BindsAt(source, hunks, at, 0) && PatchedAt(source, hunks, at, to, result, 0, 0)
  {
    assert source[0..] == source;
    hide BindsAt, PatchedAt, Binds, Placed, NoInsertions, Rebuilt;
    if exists at :: BindsAt(source, hunks, at, 0) {
      var at :| BindsAt(source, hunks, at, 0);
      var gaps := PositionsBind(source, 0, hunks, at);
    }
    if Bindable(source, hunks) {
      var gaps :| Binds(source, hunks, gaps);
      var at := BindsPositions(source, 0, hunks, gaps);
      BindsPlaced(source, hunks, gaps);
      forall other, result | OnlyPlacement(source, hunks, other, result)
        ensures exists at, to :: BindsAt(source, hunks, at, 0) && PatchedAt(source, hunks, at, to, result, 0, 0)
      {
        assert other == gaps && result[0..] == result;
        var to := RebuiltPositions(source, 0, hunks, gaps, at, result, 0);
      }
    }
  }

  // ----- apply_update_patch -----

  function Render(lines: seq<string>, trailing: bool): string {
    JoinLines(lines) + if trailing then "\n" else ""
  }

  predicate EndsWithNewline(s: string) {
    s != "" && s[|s| - 1] == '\n'
  }

  method ApplyUpdatePatch(source: string, patch: string) returns (r: Result<string, PatchError>)
    ensures r.Ok? <==> ReadPatch(patch).Ok? && Bindable(SplitLines(source), ReadPatch(patch).value)
    ensures r.Ok? <==> ReadPatch(patch).Ok? && exists at :: BindsAt(SplitLines(source), ReadPatch(patch).value, at, 0)
    ensures r.Ok? ==> exists at, to, lines ::
              && BindsAt(SplitLines(source), ReadPatch(patch).value, at, 0)
              && PatchedAt(SplitLines(source), ReadPatch(patch).value, at, to, lines, 0, 0)
              && r.value == Render(lines, EndsWithNewline(source))
    ensures r.Ok? ==> exists gaps, lines ::
              && OnlyPlacement(SplitLines(source), ReadPatch(patch).value, gaps, lines)
              && r.value == Render(lines, EndsWithNewline(source))
              && (SplitLines(r.value) == lines <==> Spelled(source, ReadPatch(patch).value, gaps))
  {
    hide *;
    var hunks := ParsePatch(patch);
    if hunks.Err? {
      return Err(hunks.error);
    }
    var lines := SplitLines(source);
    SplicedExact(lines, hunks.value);
    SplicedLineByLine(lines, hunks.value);
    var spliced := SpliceHunks(lines, hunks.value);
    if spliced.Err? {
      return Err(spliced.error);
    }
    var trailing := source != "" && source[|source| - 1] == '\n';
    TrailingNewline(source);
    r := Ok(Render(spliced.value, trailing));
    ghost var gaps :| OnlyPlacement(lines, hunks.value, gaps, spliced.value);
    AppliedReads(source, patch, gaps, spliced.value);
  }

  lemma {:induction false} TrailingNewline(s: string)
    ensures EndsWithNewline(s) <==> s != "" && s[|s| - 1] == '\n'
  {
  }

  // ----- lines and text -----

  lemma {:induction false} LineLengthOf(line: string, rest: string)
    requires BreakFree(line) && (rest == "" || IsBreak(rest[0]))
    ensures LineLength(line + rest) == |line|
  {
    if line != "" {
      assert (line + rest)[1..] == line[1..] + rest;
      LineLengthOf(line[1..], rest);
    } else {
      assert line + rest == rest;
    }
  }

  ghost predicate LinesBreakFree(lines: seq<string>) {
    forall i :: 0 <= i < |lines| ==> BreakFree(lines[i])
  }

  lemma {:induction false} SplitOne(line: string)
    requires BreakFree(line) || line == ""
    ensures SplitLines(line) == if line == "" then [] else [line]
  {
    LineLengthOf(line, "");
    assert line + "" == line && line[..|line|] == line && line[|line|..] == "";
  }

  lemma {:induction false} SplitMore(line: string, rest: string)
    requires BreakFree(line)
    ensures SplitLines(line + ['\n'] + rest) == [line] + SplitLines(rest)
  {
    var text := line + ['\n'] + rest;
    assert text == line + (['\n'] + rest);
    LineLengthOf(line, ['\n'] + rest);
    assert text[|line|..] == ['\n'] + rest && text[|line| + 1..] == rest && text[..|line|] == line;
  }

  // Splitting undoes joining, except that a text ending in a newline has no empty last line.
  lemma {:induction false} SplitJoined(lines: seq<string>)
    requires LinesBreakFree(lines)
    ensures SplitLines(JoinLines(lines)) == if lines != [] && Last(lines) == "" then Front(lines) else lines
    decreases |lines|
  {
    hide SplitLines, BreakFree;
    SplitOne("");
    if |lines| == 1 {
      SplitOne(lines[0]);
      assert lines == [lines[0]] && JoinLines(lines) == lines[0];
    } else if lines != [] {
      assert JoinLines(lines) == lines[0] + ['\n'] + JoinLines(lines[1..]);
      hide JoinLines;
      SplitJoined(lines[1..]);
      SplitMore(lines[0], JoinLines(lines[1..]));
      assert Last(lines) == Last(lines[1..]);
      assert [lines[0]] + lines[1..] == lines && [lines[0]] + Front(lines[1..]) == Front(lines);
    }
  }

  lemma {:induction false} JoinAppend(lines: seq<string>)
    requires lines != []
    ensures JoinLines(lines + [""]) == JoinLines(lines) + "\n"
    decreases |lines|
  {
    var more := lines + [""];
    if |lines| == 1 {
      assert more[1..] == [""];
      assert Join(more[1..], '\n') == "";
      assert JoinLines(more) == more[0] + ['\n'] + Join(more[1..], '\n');
    } else {
      assert more[1..] == lines[1..] + [""];
      JoinAppend(lines[1..]);
      var a, b := lines[0] + ['\n'], JoinLines(lines[1..]);
      assert a + (b + "\n") == (a + b) + "\n";
    }
  }

  // Rendered lines are spelled by their text, with two exceptions: an emptied file keeps a lone newline, and a file
  // without a final newline that comes to end in an empty line loses that line.
  lemma {:induction false} RenderedLines(lines: seq<string>, trailing: bool)
    requires LinesBreakFree(lines)
    ensures SplitLines(Render(lines, trailing)) == lines
       <==> if trailing then lines != [] else lines == [] || Last(lines) != ""
  {
    if trailing {
      if lines == [] {
        assert Render(lines, trailing) == "\n" == JoinLines(["", ""]) by {
          assert JoinLines([""]) == "";
          assert ["", ""][1..] == [""];
        }
        assert Front(["", ""]) == [""];
        SplitJoined(["", ""]);
      } else {
        JoinAppend(lines);
        SplitJoined(lines + [""]);
        assert Front(lines + [""]) == lines;
      }
    } else {
      assert JoinLines(lines) + "" == JoinLines(lines);
      SplitJoined(lines);
      if lines != [] { assert |Front(lines)| < |lines|; }
    }
  }

  // ----- when the returned text spells the new lines -----

  function OldTotal(hunks: seq<Hunk>): nat {
    if hunks == [] then 0 else |Old(hunks[0])| + OldTotal(hunks[1..])
  }

  // Some line of the source lies outside every old text, or some hunk has new text.
  ghost predicate SomethingLeft(source: seq<string>, hunks: seq<Hunk>) {
    OldTotal(hunks) < |source| || exists h :: h in hunks && New(h) != []
  }

  // The last line that is kept or added: behind the last hunk, else the last of its new text, else before it.
  ghost function LastLine(source: seq<string>, hunks: seq<Hunk>, gaps: seq<nat>): Option<string>
    requires Placed(source, hunks, gaps)
    decreases |hunks|
  {
    if hunks == [] then if source == [] then None else Some(Last(source))
    else
      var later := LastLine(source[gaps[0] + |Old(hunks[0])|..], hunks[1..], gaps[1..]);
      if later.Some? then later
      else if New(hunks[0]) != [] then Some(Last(New(hunks[0])))
      else if gaps[0] > 0 then Some(source[gaps[0] - 1])
      else None
  }

  // The exact condition under which the text returned for a source splits into the new lines.
  ghost predicate Spelled(source: string, hunks: seq<Hunk>, gaps: seq<nat>) {
    && Placed(SplitLines(source), hunks, gaps)
    && if EndsWithNewline(source) then SomethingLeft(SplitLines(source), hunks)
       else LastLine(SplitLines(source), hunks, gaps) != Some("")
  }

  lemma {:induction false} NothingLeft(source: seq<string>, hunks: seq<Hunk>, gaps: seq<nat>)
    requires Placed(source, hunks, gaps)
    ensures OldTotal(hunks) <= |source| && (Rebuilt(source, hunks, gaps) == [] <==> !SomethingLeft(source, hunks))
    decreases |hunks|
  {
    hide Old, New;
    if hunks != [] {
      var rest, more := source[gaps[0] + |Old(hunks[0])|..], hunks[1..];
      assert hunks == [hunks[0]] + more;
      assert forall h :: h in hunks <==> h == hunks[0] || h in more;
      NothingLeft(rest, more, gaps[1..]);
      assert SomethingLeft(source, hunks) <==> gaps[0] > 0 || New(hunks[0]) != [] || SomethingLeft(rest, more);
    }
  }

  lemma {:induction false} LastLineIs(source: seq<string>, hunks: seq<Hunk>, gaps: seq<nat>)
    requires Placed(source, hunks, gaps)
    ensures LastLine(source, hunks, gaps)
         == var lines := Rebuilt(source, hunks, gaps); if lines == [] then None else Some(Last(lines))
    decreases |hunks|
  {
    hide Old, New;
    if hunks != [] {
      LastLineIs(source[gaps[0] + |Old(hunks[0])|..], hunks[1..], gaps[1..]);
    }
  }

  // ----- lines that hold no separator -----

  ghost predicate TextsBreakFree(hunks: seq<Hunk>) {
    forall h, line :: h in hunks && line in h ==> BreakFree(line.text)
  }

  lemma {:induction false} BodyBreakFree(body: seq<string>)
    requires LinesBreakFree(body)
    ensures ReadBody(body).Ok? ==> TextsBreakFree(ReadBody(body).value)
    decreases |body|
  {
    if body != [] {
      var n := |body| - 1;
      BodyBreakFree(body[..n]);
      var hunks := ReadBody(body[..n]);
      if hunks.Ok? { LineBreakFree(hunks.value, body[n]); }
    }
  }

  lemma {:induction false} LineBreakFree(hunks: seq<Hunk>, line: string)
    requires TextsBreakFree(hunks) && BreakFree(line)
    ensures ReadLine(hunks, line).Ok? ==> TextsBreakFree(ReadLine(hunks, line).value)
  {
    if hunks != [] && line != "" {
      assert BreakFree(line[1..]) && Last(hunks) in hunks;
      assert forall h :: h in Front(hunks) ==> h in hunks;
    }
  }

  lemma {:induction false} NewBreakFree(h: Hunk)
    requires forall line :: line in h ==> BreakFree(line.text)
    ensures LinesBreakFree(New(h))
  {
    hide BreakFree;
    if h != [] {
      assert h[0] in h;
      NewBreakFree(h[1..]);
    }
  }

  lemma {:induction false} RebuiltBreakFree(source: seq<string>, hunks: seq<Hunk>, gaps: seq<nat>)
    requires Placed(source, hunks, gaps) && LinesBreakFree(source) && TextsBreakFree(hunks)
    ensures LinesBreakFree(Rebuilt(source, hunks, gaps))
    decreases |hunks|
  {
    hide Old, New, BreakFree;
    if hunks != [] {
      var rest := source[gaps[0] + |Old(hunks[0])|..];
      assert hunks[0] in hunks && forall h :: h in hunks[1..] ==> h in hunks;
      RebuiltBreakFree(rest, hunks[1..], gaps[1..]);
      NewBreakFree(hunks[0]);
    }
  }

  lemma {:induction false} PatchBreakFree(patch: string)
    requires ReadPatch(patch).Ok?
    ensures TextsBreakFree(ReadPatch(patch).value)
  {
    var lines := SplitLines(patch);
    BodyBreakFree(lines[2..|lines| - 1]);
  }

  // The returned text splits into the new lines exactly if, with a final newline, some hunk has new text or some source
  // line lies outside every old text, and, without one, the last line kept or added is not empty.
  lemma {:induction false} AppliedReads(source: string, patch: string, gaps: seq<nat>, lines: seq<string>)
    requires ReadPatch(patch).Ok? && OnlyPlacement(SplitLines(source), ReadPatch(patch).value, gaps, lines)
    ensures SplitLines(Render(lines, EndsWithNewline(source))) == lines <==>
            Spelled(source, ReadPatch(patch).value, gaps)
  {
    var hunks := ReadPatch(patch).value;
    PatchBreakFree(patch);
    hide ReadPatch, SplitLines, Rebuilt, Placed, SomethingLeft, LastLine, BreakFree, TextsBreakFree;
    NothingLeft(SplitLines(source), hunks, gaps);
    LastLineIs(SplitLines(source), hunks, gaps);
    RebuiltBreakFree(SplitLines(source), hunks, gaps);
    RenderedLines(lines, EndsWithNewline(source));
  }

  lemma {:induction false} RemovalPlaced(text: string)
    ensures var h := [HunkLine('-', text)];
            && Bindable([text], [h]) && OnlyPlacement([text], [h], [0], []) && New(h) == [] && OldTotal([h]) == 1
  {
    var h := [HunkLine('-', text)];
    var hunks := [h];
    OldOfRemoval(text);
    assert New(h) == [] by {
      assert h[1..] == [];
      assert Texts(h, {' ', '+'}) == [] + Texts(h[1..], {' ', '+'});
    }
    hide Old, New;
    var gaps: seq<nat> := [0];
    assert hunks[1..] == [] && gaps[1..] == [] && OldTotal(hunks[1..]) == 0;
    assert [text][0..1] == [text] && OnlyMatch([text], [text], 0);
    assert NoInsertions(hunks) && Binds([text], hunks, gaps);
    BindsSpliced([text], hunks, gaps);
    hide Placed;
    forall other | Placed([text], hunks, other) ensures other == gaps { BindsOnly([text], hunks, gaps, other); }
    assert Rebuilt([text], hunks, gaps) == [] + [] + Rebuilt([text][1..], hunks[1..], gaps[1..]) == [];
  }

  lemma {:induction false} OneLine(text: string)
    requires BreakFree(text)
    ensures EndsWithNewline(text + "\n") && SplitLines(text + "\n") == [text]
  {
    SplitMore(text, "");
    assert text + "\n" == text + ['\n'] + "";
    assert SplitLines("") == [];
  }

  // Deleting the only line of a file leaves a newline, which is one empty line and not none.
  lemma {:induction false} EmptiedFileKeepsNewline(text: string)
    requires BreakFree(text)
    ensures var source, hunks := text + "\n", [[HunkLine('-', text)]];
            && ReadPatch(PrintPatch(hunks, "@@")) == Ok(hunks) && Bindable(SplitLines(source), hunks)
            && OnlyPlacement(SplitLines(source), hunks, [0], []) && !Spelled(source, hunks, [0])
            && Render([], EndsWithNewline(source)) == "\n" && SplitLines("\n") == [""]
  {
    var h := [HunkLine('-', text)];
    assert PrintableHunk(h) && BreakFree("@@");
    PrintedReads([h], "@@");
    OneLine(text);
    OneLine("");
    assert "" + "\n" == "\n" && JoinLines([]) == "";
    RemovalPlaced(text);
    hide ReadPatch, SplitLines, OnlyPlacement, Bindable, PrintPatch, Old, JoinLines;
    assert forall other :: other in [h] ==> other == h;
  }

  // ----- undoing a patch -----

  function Flip(hunk: Hunk): Hunk {
    if hunk == [] then []
    else
      var op := hunk[0].op;
      [HunkLine(if op == '+' then '-' else if op == '-' then '+' else op, hunk[0].text)] + Flip(hunk[1..])
  }

  function FlipAll(hunks: seq<Hunk>): seq<Hunk> {
    if hunks == [] then [] else [Flip(hunks[0])] + FlipAll(hunks[1..])
  }

  lemma {:induction false} FlipSwaps(hunk: Hunk)
    ensures Old(Flip(hunk)) == New(hunk) && New(Flip(hunk)) == Old(hunk)
  {
    if hunk != [] {
      FlipSwaps(hunk[1..]);
      assert Flip(hunk)[1..] == Flip(hunk[1..]);
    }
  }

  lemma {:induction false} PlacedHead(source: seq<string>, hunks: seq<Hunk>, gaps: seq<nat>) returns (rest: seq<string>)
    requires hunks != [] && Placed(source, hunks, gaps)
    ensures gaps != [] && gaps[0] <= |source| && source == source[..gaps[0]] + Old(hunks[0]) + rest
    ensures Placed(rest, hunks[1..], gaps[1..])
    ensures Rebuilt(source, hunks, gaps)
         == source[..gaps[0]] + New(hunks[0]) + Rebuilt(rest, hunks[1..], gaps[1..])
  {
    hide Old, New;
    rest := source[gaps[0] + |Old(hunks[0])|..];
  }

  lemma {:induction false} PlacedOnTop(front: seq<string>, hunk: Hunk, rest: seq<string>, hunks: seq<Hunk>,
                                       gaps: seq<nat>)
    requires Placed(rest, hunks, gaps)
    ensures var source, all, places := front + Old(hunk) + rest, [hunk] + hunks, [|front|] + gaps;
            && Placed(source, all, places)
            && Rebuilt(source, all, places) == front + New(hunk) + Rebuilt(rest, hunks, gaps)
  {
    var source, all, places := front + Old(hunk) + rest, [hunk] + hunks, [|front|] + gaps;
    assert all[0] == hunk && all[1..] == hunks && places[0] == |front| && places[1..] == gaps;
    SlicesOf(front, Old(hunk), rest);
    hide Old, New;
    assert MatchAt(source, Old(all[0]), places[0]);
  }

  lemma {:induction false} FlipAllHead(hunks: seq<Hunk>)
    requires hunks != []
    ensures FlipAll(hunks) == [Flip(hunks[0])] + FlipAll(hunks[1..])
  {
  }

  lemma {:induction false} FlipPlaced(source: seq<string>, hunks: seq<Hunk>, gaps: seq<nat>)
    requires Placed(source, hunks, gaps)
    ensures Placed(Rebuilt(source, hunks, gaps), FlipAll(hunks), gaps)
    ensures Rebuilt(Rebuilt(source, hunks, gaps), FlipAll(hunks), gaps) == source
    decreases |hunks|
  {
    if hunks != [] {
      hide *;
      var rest := PlacedHead(source, hunks, gaps);
      FlipPlaced(rest, hunks[1..], gaps[1..]);
      FlipSwaps(hunks[0]);
      FlipAllHead(hunks);
      var inner := Rebuilt(rest, hunks[1..], gaps[1..]);
      PlacedOnTop(source[..gaps[0]], Flip(hunks[0]), inner, FlipAll(hunks[1..]), gaps[1..]);
      assert gaps == [|source[..gaps[0]]|] + gaps[1..];
    }
  }

  lemma {:induction false} SlicesOf<T>(a: seq<T>, b: seq<T>, c: seq<T>)
    ensures (a + b + c)[..|a|] == a && (a + b + c)[|a|..|a| + |b|] == b && (a + b + c)[|a| + |b|..] == c
  {
  }

  // Whenever the reversed hunks apply to the result at all, they restore the source lines.
  lemma {:induction false} ReversedPatchRestores(source: seq<string>, hunks: seq<Hunk>)
    requires Spliced(source, hunks).Some? && Spliced(Spliced(source, hunks).value, FlipAll(hunks)).Some?
    ensures Spliced(Spliced(source, hunks).value, FlipAll(hunks)) == Some(source)
  {
    var gaps := SplicedPlacement(source, hunks);
    var result := Spliced(source, hunks).value;
    var back := SplicedPlacement(result, FlipAll(hunks));
    FlipPlaced(source, hunks, gaps);
    assert gaps == back;
  }

  // ----- printing hunks -----

  function PrintHunk(hunk: Hunk): seq<string> {
    if hunk == [] then [] else PrintHunk(hunk[..|hunk| - 1]) + [[hunk[|hunk| - 1].op] + hunk[|hunk| - 1].text]
  }

  function PrintBody(hunks: seq<Hunk>, header: string): seq<string> {
    if hunks == [] then []
    else PrintBody(hunks[..|hunks| - 1], header) + [header] + PrintHunk(hunks[|hunks| - 1])
  }

  function PrintPatch(hunks: seq<Hunk>, header: string): string {
    JoinLines([BEGIN, UPDATE] + PrintBody(hunks, header) + [END])
  }

  ghost predicate Printable(hunks: seq<Hunk>) {
    forall h :: h in hunks ==> h != [] && PrintableHunk(h)
  }

  ghost predicate PrintableHunk(h: Hunk) {
    forall line :: line in h ==> line.op in {' ', '+', '-'} && BreakFree(line.text)
  }

  lemma {:induction false} NotHeader(line: string)
    requires line != "" && line[0] != '@'
    ensures !("@@" <= line)
  {
  }

  lemma {:induction false} ReadMore(before: seq<string>, hunks: seq<Hunk>, line: string)
    requires ReadBody(before) == Ok(hunks)
    ensures ReadBody(before + [line]) == ReadLine(hunks, line)
  {
    assert (before + [line])[..|before|] == before;
  }

  lemma {:induction false} ReadHunkLine(hunks: seq<Hunk>, h: Hunk, l: HunkLine)
    requires l.op in {' ', '-', '+'}
    ensures ReadLine(hunks + [h], [l.op] + l.text) == Ok(hunks + [h + [l]])
  {
    var line, grown := [l.op] + l.text, hunks + [h];
    NotHeader(line);
    assert line[0] == l.op && line[1..] == l.text && Front(grown) == hunks && Last(grown) == h;
  }

  lemma {:induction false} ReadHunk(body: seq<string>, hunks: seq<Hunk>, header: string, h: Hunk)
    requires ReadBody(body) == Ok(hunks) && "@@" <= header && PrintableHunk(h)
    ensures ReadBody(body + [header] + PrintHunk(h)) == Ok(hunks + [h])
    decreases |h|
  {
    if h == [] {
      ReadMore(body, hunks, header);
      assert body + [header] + PrintHunk(h) == body + [header];
    } else {
      var front, last := h[..|h| - 1], h[|h| - 1];
      assert last in h && PrintableHunk(front);
      var line, before := [last.op] + last.text, body + [header] + PrintHunk(front);
      assert body + [header] + PrintHunk(h) == before + [line] && front + [last] == h;
      hide *;
      ReadHunk(body, hunks, header, front);
      ReadMore(before, hunks + [front], line);
      ReadHunkLine(hunks, front, last);
    }
  }

  lemma {:induction false} ReadPrinted(hunks: seq<Hunk>, header: string)
    requires "@@" <= header && Printable(hunks)
    ensures ReadBody(PrintBody(hunks, header)) == Ok(hunks)
    decreases |hunks|
  {
    if hunks != [] {
      var n := |hunks| - 1;
      assert hunks == hunks[..n] + [hunks[n]];
      ReadPrinted(hunks[..n], header);
      ReadHunk(PrintBody(hunks[..n], header), hunks[..n], header, hunks[n]);
    }
  }

  lemma {:induction false} PrintHunkBreakFree(h: Hunk)
    requires PrintableHunk(h)
    ensures LinesBreakFree(PrintHunk(h)) && |PrintHunk(h)| == |h|
    decreases |h|
  {
    if h != [] {
      var n := |h| - 1;
      PrintHunkBreakFree(h[..n]);
      assert h[n] in h;
    }
  }

  lemma {:induction false} PrintBodyBreakFree(hunks: seq<Hunk>, header: string)
    requires Printable(hunks) && BreakFree(header)
    ensures LinesBreakFree(PrintBody(hunks, header)) && |PrintBody(hunks, header)| >= 2 * |hunks|
    decreases |hunks|
  {
    if hunks != [] {
      var n := |hunks| - 1;
      assert hunks == hunks[..n] + [hunks[n]];
      PrintBodyBreakFree(hunks[..n], header);
      assert hunks[n] in hunks;
      PrintHunkBreakFree(hunks[n]);
    }
  }

  lemma {:induction false} EnvelopeBreakFree()
    ensures BreakFree(BEGIN) && BreakFree(UPDATE) && BreakFree(END)
  {
  }

  // Printing hunks and reading them back undo each other.
  lemma {:induction false} PrintedReads(hunks: seq<Hunk>, header: string)
    requires hunks != [] && Printable(hunks) && "@@" <= header && BreakFree(header)
    ensures ReadPatch(PrintPatch(hunks, header)) == Ok(hunks)
  {
    var body := PrintBody(hunks, header);
    var lines := [BEGIN, UPDATE] + body + [END];
    PrintBodyBreakFree(hunks, header);
    EnvelopeBreakFree();
    assert Last(lines) == END;
    SplitJoined(lines);
    assert lines[2..|lines| - 1] == body;
    ReadPrinted(hunks, header);
  }

  // ----- patch_from_file_change -----

  // extraKeys: the kind object has keys besides "type" and "move_path".
  datatype ChangeKind = ChangeKind(kind: string, movePath: Option<string>, extraKeys: bool)

  datatype Change = Change(path: string, kind: Option<ChangeKind>, diff: Option<string>)

  datatype FileChange = FileChange(status: string, id: string, changes: Option<seq<Change>>)

  datatype ChangeError = Sequence | Confinement

  // A completed change of the one source file, named as such, by an update without a move whose diff is whole lines of
  // hunks.
  ghost predicate ConfinedChange(item: FileChange, fixture: string) {
    && item.status == "completed" && item.id != "" && item.changes.Some? && |item.changes.value| == 1
    && var change := item.changes.value[0];
       && (change.path == "src/lib.rs" || change.path == fixture + "/src/lib.rs")
       && change.kind == Some(ChangeKind("update", None, false))
       && change.diff.Some? && |change.diff.value| >= 2 && change.diff.value[..2] == "@@"
       && change.diff.value[|change.diff.value| - 1] == '\n'
  }

  // A file change becomes a patch exactly if it is confined, and the patch is its diff in the envelope of the source
  // file.
  lemma {:induction false} FileChangeExact(item: FileChange, fixture: string)
    ensures PatchFromFileChange(item, fixture).Ok? <==> ConfinedChange(item, fixture)
    ensures PatchFromFileChange(item, fixture).Ok? ==>
              PatchFromFileChange(item, fixture).value
                == "*** Begin Patch" + "\n" + "*** Update File: src/lib.rs" + "\n" + item.changes.value[0].diff.value
                   + "*** End Patch"
  {
    if item.changes.Some? && |item.changes.value| == 1 && item.changes.value[0].kind.Some? {
      var kind := item.changes.value[0].kind.value;
      assert kind == ChangeKind(kind.kind, kind.movePath, kind.extraKeys);
    }
  }

  function PatchFromFileChange(item: FileChange, fixture: string): Result<string, ChangeError> {
    if item.status != "completed" || item.id == "" || item.changes.None? || |item.changes.value| != 1 then Err(Sequence)
    else
      var change := item.changes.value[0];
      if change.path !in {"src/lib.rs", fixture + "/src/lib.rs"} || change.kind.None? || change.kind.value.extraKeys
         || change.kind.value.kind != "update" || change.kind.value.movePath.Some? || change.diff.None?
         || !("@@" <= change.diff.value) || !EndsWithNewline(change.diff.value) then Err(Confinement)
      else Ok(BEGIN + "\n" + UPDATE + "\n" + change.diff.value + END)
  }

  lemma {:induction false} JoinConcat(a: seq<string>, b: seq<string>)
    requires a != [] && b != []
    ensures JoinLines(a + b) == JoinLines(a) + "\n" + JoinLines(b)
    decreases |a|
  {
    var all := a + b;
    assert JoinLines(all) == all[0] + ['\n'] + JoinLines(all[1..]);
    if |a| == 1 {
      assert all[1..] == b;
    } else {
      assert all[1..] == a[1..] + b;
      JoinConcat(a[1..], b);
      assert JoinLines(a) == a[0] + ['\n'] + JoinLines(a[1..]);
      hide JoinLines;
      var x, y, z := a[0] + ['\n'], JoinLines(a[1..]), JoinLines(b);
      assert x + (y + "\n" + z) == (x + y) + "\n" + z;
    }
  }

  // A file change that carries printed hunks as its diff yields exactly those hunks.
  lemma {:induction false} FileChangeReads(item: FileChange, fixture: string, hunks: seq<Hunk>, header: string)
    requires hunks != [] && Printable(hunks) && "@@" <= header && BreakFree(header)
    requires PatchFromFileChange(item, fixture).Ok?
    requires item.changes.value[0].diff.value == JoinLines(PrintBody(hunks, header)) + "\n"
    ensures ReadPatch(PatchFromFileChange(item, fixture).value) == Ok(hunks)
  {
    var body := PrintBody(hunks, header);
    PrintBodyBreakFree(hunks, header);
    JoinConcat([BEGIN, UPDATE], body);
    JoinConcat([BEGIN, UPDATE] + body, [END]);
    assert JoinLines([END]) == END;
    assert JoinLines([BEGIN, UPDATE]) == BEGIN + ['\n'] + JoinLines([UPDATE]) by {
      assert [BEGIN, UPDATE][1..] == [UPDATE];
    }
    PrintedReads(hunks, header);
    var text := JoinLines(body);
    assert BEGIN + "\n" + UPDATE + "\n" + (text + "\n") + END == BEGIN + "\n" + UPDATE + "\n" + text + "\n" + END;
  }

  // ----- lines and patches, character by character -----

  // The ten separators of str.splitlines by their code points.
  lemma {:induction false} IsBreakExact(c: char)
    ensures IsBreak(c) <==> c as int in [10, 11, 12, 13, 28, 29, 30, 133, 8232, 8233]
  {
    var codes := [10, 11, 12, 13, 28, 29, 30, 133, 8232, 8233];
    assert codes[0] == 10 && codes[1] == 11 && codes[2] == 12 && codes[3] == 13 && codes[4] == 28;
    assert codes[5] == 29 && codes[6] == 30 && codes[7] == 133 && codes[8] == 8232 && codes[9] == 8233;
  }

  // One separator; a carriage return takes the line feed behind it.
  ghost predicate Separates(sep: string, rest: string) {
    || (sep == "\r\n")
    || (|sep| == 1 && sep[0] as int in [10, 11, 12, 28, 29, 30, 133, 8232, 8233])
    || (sep == "\r" && (rest == "" || rest[0] != '\n'))
  }

  // A line is taken off the front with its separator, which only the end of the text can replace.
  ghost predicate LineTaken(s: string, line: string, sep: string, rest: string) {
    && s == line + sep + rest
    && (Separates(sep, rest) || (sep == "" && rest == "" && line != ""))
  }

  // The lines one after the other.
  ghost predicate Separated(s: string, lines: seq<string>)
    decreases |lines|
  {
    if lines == [] then s == ""
    else exists sep, rest :: LineTaken(s, lines[0], sep, rest) && Separated(rest, lines[1..])
  }

  lemma {:induction false} SplitHead(s: string) returns (line: string, sep: string, rest: string)
    requires s != ""
    ensures LineTaken(s, line, sep, rest) && |rest| < |s| && SplitLines(s) == [line] + SplitLines(rest)
  {
    var n := LineLength(s);
    var m := BreakLength(s[n..]);
    line, sep, rest := s[..n], s[n..n + m], s[n + m..];
    BreakTaken(s, n, m);
    hide Separates, IsBreak;
    assert s == line + sep + rest;
    assert |rest| < |s| by { if n == |s| { assert n > 0; } }
  }

  lemma {:induction false} SplitSeparated(s: string)
    ensures Separated(s, SplitLines(s))
    decreases |s|
  {
    if s != "" {
      hide *;
      var line, sep, rest := SplitHead(s);
      SplitSeparated(rest);
      LineOnTop(s, line, sep, rest, SplitLines(rest));
    }
  }

  lemma {:induction false} LineOnTop(s: string, line: string, sep: string, rest: string, lines: seq<string>)
    requires LineTaken(s, line, sep, rest) && Separated(rest, lines)
    ensures Separated(s, [line] + lines)
  {
    hide LineTaken;
    var all := [line] + lines;
    assert all[0] == line && all[1..] == lines;
    assert LineTaken(s, all[0], sep, rest) && Separated(rest, all[1..]);
  }

  lemma {:induction false} BreakTaken(s: string, n: nat, m: nat)
    requires s != "" && n == LineLength(s) && m == BreakLength(s[n..])
    ensures Separates(s[n..n + m], s[n + m..]) || (s[n..n + m] == "" && s[n + m..] == "" && s[..n] != "")
  {
    if n < |s| {
      IsBreakExact(s[n]);
      var sep, rest := s[n..n + m], s[n + m..];
      if m == 2 {
        assert sep == "\r\n";
      } else {
        assert sep == [s[n]] && (rest != "" ==> rest[0] == s[n..][1]);
        CarriageCode(s[n]);
      }
    }
  }

  lemma {:induction false} CarriageCode(c: char)
    ensures c as int in [10, 11, 12, 13, 28, 29, 30, 133, 8232, 8233]
       <==> c == '\r' || c as int in [10, 11, 12, 28, 29, 30, 133, 8232, 8233]
  {
    var all, most := [10, 11, 12, 13, 28, 29, 30, 133, 8232, 8233], [10, 11, 12, 28, 29, 30, 133, 8232, 8233];
    assert all == most[..3] + [13] + most[3..] && '\r' as int == 13;
    if c as int in all { assert c as int in most[..3] || c as int == 13 || c as int in most[3..]; }
    if c as int in most { assert most == most[..3] + most[3..]; }
  }

  ghost predicate HeadsHunk(line: string) {
    |line| >= 2 && line[0] == '@' && line[1] == '@'
  }

  ghost predicate ChangesLine(line: string) {
    |line| >= 1 && (line[0] == ' ' || line[0] == '+' || line[0] == '-')
  }

  // What a body line does: it opens a hunk, is skipped, or is put last in the last hunk; anything else is refused.
  lemma {:induction false} ReadLineExact(hunks: seq<Hunk>, line: string)
    ensures HeadsHunk(line) ==> ReadLine(hunks, line) == Ok(hunks + [[]])
    ensures !HeadsHunk(line) && hunks == [] ==> ReadLine(hunks, line) == Err(HunkAbsent)
    ensures hunks != [] && line == "\\ No newline at end of file" ==> ReadLine(hunks, line) == Ok(hunks)
    ensures hunks != [] && ChangesLine(line) ==>
              ReadLine(hunks, line)
              == Ok(hunks[|hunks| - 1 := hunks[|hunks| - 1] + [HunkLine(line[0], line[1..])]])
    ensures hunks != [] && !HeadsHunk(line) && line != "\\ No newline at end of file" && !ChangesLine(line) ==>
              ReadLine(hunks, line) == Err(LineInvalid)
  {
    assert "@@" <= line <==> HeadsHunk(line) by { if HeadsHunk(line) { assert line[..2] == "@@"; } }
    assert NO_NEWLINE[0] == '\\';
    if hunks != [] && ChangesLine(line) {
      var last := Last(hunks) + [HunkLine(line[0], line[1..])];
      assert Front(hunks) + [last] == hunks[|hunks| - 1 := last];
    }
  }

  // Exactly the bodies are read that open with a hunk and hold nothing else than the three kinds of lines.
  lemma {:induction false} BodyExact(body: seq<string>)
    ensures ReadBody(body).Ok? <==>
              && (body != [] ==> HeadsHunk(body[0]))
              && forall i :: 0 <= i < |body| ==>
                   HeadsHunk(body[i]) || ChangesLine(body[i]) || body[i] == "\\ No newline at end of file"
    ensures ReadBody(body).Ok? ==> (body == [] <==> ReadBody(body).value == [])
    decreases |body|
  {
    if body != [] {
      var n := |body| - 1;
      BodyExact(body[..n]);
      if ReadBody(body[..n]).Ok? { ReadLineExact(ReadBody(body[..n]).value, body[n]); }
      hide ReadLine, HeadsHunk, ChangesLine;
      assert forall i :: 0 <= i < n ==> body[..n][i] == body[i];
    }
  }

  // A patch is read exactly inside its envelope, with such a body and no empty hunk.
  lemma {:induction false} PatchExact(patch: string)
    ensures var lines := SplitLines(patch);
            (ReadPatch(patch).Ok? <==>
              && |lines| >= 5 && lines[0] == "*** Begin Patch" && lines[1] == "*** Update File: src/lib.rs"
              && lines[|lines| - 1] == "*** End Patch" && ReadBody(lines[2..|lines| - 1]).Ok?
              && forall h :: h in ReadBody(lines[2..|lines| - 1]).value ==> |h| > 0)
    ensures ReadPatch(patch).Ok? ==>
              ReadPatch(patch) == ReadBody(SplitLines(patch)[2..|SplitLines(patch)| - 1])
  {
    var lines := SplitLines(patch);
    if |lines| >= 5 { BodyExact(lines[2..|lines| - 1]); }
    hide SplitLines, ReadBody;
  }
}
