/** The transcript automaton of the qualifier: which item lists a phase accepts. */
module PhaseState {
  import opened Results
  import opened UpdatePatch

  datatype Phase = Repair | MissingRuntime

  datatype Runtime = Runtime(imageId: string, rustVersion: string, cargoVersion: string, platform: string,
                             configuration: string, execution: string)

  // refs and codes: every "project_ref" and "code" found anywhere in the structured content.
  datatype Payload = Payload(status: string, refs: seq<string>, codes: set<string>, errorCode: Option<string>,
                             errorMessage: Option<string>, dataNull: bool, evidenceLocal: bool,
                             runtime: Option<Runtime>)

  datatype Arguments = Arguments(path: Option<string>, projectRef: Option<string>, extraKeys: bool)

  // payload is None when the structured content is not an object with exactly the contract's keys.
  datatype Item =
    | Plan(status: Option<string>, text: Option<string>)
    | Change(change: FileChange)
    | Call(server: string, tool: string, arguments: Arguments, lifecycle: string, failed: bool,
           payload: Option<Payload>)
    | Unrelated

  datatype Config = Config(phase: Phase, fixture: string, runtime: Runtime, missingMessage: string)

  datatype State = State(stage: nat, first: Option<string>, current: Option<string>, changes: nat, probes: nat,
                         postInspects: nat, runtime: Option<Runtime>, filePatch: Option<string>)

  const START := State(0, None, None, 0, 0, 0, None, None)

  const OPEN := "rust.project.open"
  const INSPECT := "rust.project.inspect"
  const CHECK := "rust.check"
  const GATE := "rust.quality.gate"
  const SERVER := "rust_engineering"

  // common(item, status): a clean lifecycle around a payload of the wanted status.
  function Common(item: Item, status: string): Option<Payload>
    requires item.Call?
  {
    if item.lifecycle != (if status == "blocked" then "failed" else "completed") || item.failed then None
    else if item.payload.None? || item.payload.value.status != status then None
    else item.payload
  }

  predicate Fingerprint(s: string) {
    "sha256:" <= s && |s| == 71 && forall i :: 7 <= i < 71 ==> '0' <= s[i] <= '9' || 'a' <= s[i] <= 'f'
  }

  // validate_runtime
  function Approved(payload: Payload, expected: Runtime): Option<Runtime> {
    if payload.runtime.None? then None
    else
      var r := payload.runtime.value;
      if r.(configuration := "", execution := "") != expected.(configuration := "", execution := "") then None
      else if !Fingerprint(r.configuration) || !Fingerprint(r.execution) then None
      else Some(r)
  }

  predicate ValidPlan(c: Config, item: Item)
    requires item.Plan?
  {
    c.phase == Repair && item.status in {None, Some("completed")} && item.text.Some? && item.text.value != ""
  }

  predicate Relative(item: Item)
    requires item.Call?
  {
    item.tool == OPEN && item.arguments == Arguments(Some("."), None, false)
  }

  predicate GoodProbe(item: Item)
    requires item.Call?
  {
    var p := Common(item, "blocked");
    && p.Some? && p.value.errorCode == Some("INVALID_PROJECT")
    && p.value.errorMessage == Some("Project structure is invalid or unsupported")
    && p.value.dataNull && p.value.evidenceLocal
  }

  function Opened(c: Config, item: Item): Option<string>
    requires item.Call?
  {
    var p := Common(item, "passed");
    if item.arguments.path == Some(c.fixture) && p.Some? && |p.value.refs| == 1 then Some(p.value.refs[0]) else None
  }

  // One item of the loop; None where the source raises.
  function Step(c: Config, s: State, item: Item): Option<State> {
    match item
    case Plan(_, _) => if ValidPlan(c, item) then Some(s) else None
    case Unrelated => Some(s)
    case Change(change) =>
      if c.phase != Repair || s.stage != 3 then None
      else
        var patch := PatchFromFileChange(change, c.fixture);
        if patch.Err? then None else Some(s.(changes := s.changes + 1, stage := 4, filePatch := Some(patch.value)))
    case Call(_, _, _, _, _, _) => if item.server != SERVER then None else CallStep(c, s, item)
  }

  function CallStep(c: Config, s: State, item: Item): Option<State>
    requires item.Call?
  {
    if Relative(item) && s.stage == 0 then
      if s.probes > 0 || !GoodProbe(item) then None else Some(s.(probes := s.probes + 1))
    else if item.tool == OPEN && (s.stage == 0 || (c.phase == Repair && s.stage == 4)) then
      var ref := Opened(c, item);
      if ref.None? || (s.stage != 0 && ref == s.first) then None
      else
        var first := if s.stage == 0 then ref else s.first;
        Some(s.(first := first, current := ref, stage := if c.phase == MissingRuntime || ref == first then 1 else 5))
    else if c.phase == Repair && item.tool == INSPECT && s.stage == 1 then
      if item.arguments.projectRef != s.current || Common(item, "passed").None? then None else Some(s.(stage := 2))
    else if c.phase == Repair && item.tool == CHECK && s.stage == 2 then
      var p := Common(item, "failed");
      if item.arguments.projectRef != s.current || p.None? || "E0502" !in p.value.codes then None
      else Some(s.(stage := 3))
    else if c.phase == Repair && item.tool == INSPECT && s.stage == 5 then
      if s.postInspects > 0 || item.arguments.projectRef != s.current || Common(item, "passed").None? then None
      else Some(s.(postInspects := s.postInspects + 1))
    else if c.phase == Repair && item.tool in {CHECK, GATE} && s.stage == 5 then
      var p := Common(item, "passed");
      if item.arguments.projectRef != s.current || p.None? || Approved(p.value, c.runtime).None? then None
      else Some(s.(runtime := Approved(p.value, c.runtime), stage := 6))
    else if c.phase == MissingRuntime && item.tool == CHECK && s.stage == 1 then
      var p := Common(item, "blocked");
      if item.arguments.projectRef == s.current && p.Some? && p.value.errorCode == Some("SANDBOX_DENIED")
         && p.value.errorMessage == Some(c.missingMessage) && p.value.dataNull && p.value.evidenceLocal
      then Some(s.(stage := 2)) else None
    else None
  }

  function Run(c: Config, s: State, items: seq<Item>): Option<State>
    decreases |items|
  {
    if items == [] then Some(s)
    else
      var next := Step(c, s, items[0]);
      if next.None? then None else Run(c, next.value, items[1..])
  }

  function FinalStage(c: Config): nat {
    if c.phase == Repair then 6 else 2
  }

  ghost predicate Accepted(c: Config, s: State, items: seq<Item>) {
    Run(c, s, items).Some? && Run(c, s, items).value.stage == FinalStage(c)
  }

  // ----- the language -----

  // Everything the language is about: plan items and unrelated ones left out.
  ghost function Relevant(items: seq<Item>): seq<Item> {
    if items == [] then []
    else (if items[0].Plan? || items[0].Unrelated? then [] else [items[0]]) + Relevant(items[1..])
  }

  ghost predicate PlansValid(c: Config, items: seq<Item>) {
    forall item :: item in items && item.Plan? ==>
      c.phase == Repair && (item.status == None || item.status == Some("completed"))
      && item.text.Some? && item.text.value != ""
  }

  ghost predicate OurCall(item: Item, tool: string) {
    item.Call? && item.server == "rust_engineering" && item.tool == tool
  }

  // A finished call, without an error, whose payload has this status; a blocked one is a failed item.
  ghost predicate Finished(item: Item, status: string)
    requires item.Call?
  {
    && !item.failed && item.payload.Some? && item.payload.value.status == status
    && (status == "blocked" ==> item.lifecycle == "failed") && (status != "blocked" ==> item.lifecycle == "completed")
  }

  // A refusal by the product itself: the code, the message, no data and local evidence.
  ghost predicate Blocked(item: Item, code: string, message: string)
    requires item.Call?
  {
    && Finished(item, "blocked") && item.payload.value.errorCode == Some(code)
    && item.payload.value.errorMessage == Some(message)
    && item.payload.value.dataNull && item.payload.value.evidenceLocal
  }

  ghost predicate OpensHere(item: Item) {
    OurCall(item, "rust.project.open") && item.arguments == Arguments(Some("."), None, false)
  }

  ghost predicate IsProbe(item: Item) {
    OpensHere(item) && Blocked(item, "INVALID_PROJECT", "Project structure is invalid or unsupported")
  }

  // Opens the fixture and yields exactly the reference `ref`.
  ghost predicate Opens(c: Config, item: Item, ref: string) {
    && OurCall(item, "rust.project.open") && item.arguments.path == Some(c.fixture)
    && Finished(item, "passed") && item.payload.value.refs == [ref]
  }

  ghost predicate Inspects(item: Item, ref: string) {
    && OurCall(item, "rust.project.inspect") && item.arguments.projectRef == Some(ref) && Finished(item, "passed")
  }

  ghost predicate FailsBorrow(item: Item, ref: string) {
    && OurCall(item, "rust.check") && item.arguments.projectRef == Some(ref)
    && Finished(item, "failed") && "E0502" in item.payload.value.codes
  }

  ghost predicate Edits(c: Config, item: Item) {
    item.Change? && ConfinedChange(item.change, c.fixture)
  }

  ghost predicate IsFingerprint(text: string) {
    && |text| == 71 && text[..7] == "sha256:"
    && forall i :: 7 <= i < 71 ==> text[i] in "0123456789abcdef"
  }

  // The four expected fields, and two well-formed fingerprints.
  ghost predicate RuntimeApproved(runtime: Runtime, expected: Runtime) {
    && runtime.imageId == expected.imageId && runtime.rustVersion == expected.rustVersion
    && runtime.cargoVersion == expected.cargoVersion && runtime.platform == expected.platform
    && IsFingerprint(runtime.configuration) && IsFingerprint(runtime.execution)
  }

  ghost predicate PassesApproved(c: Config, item: Item, ref: string) {
    && (OurCall(item, "rust.check") || OurCall(item, "rust.quality.gate")) && item.arguments.projectRef == Some(ref)
    && Finished(item, "passed") && item.payload.value.runtime.Some?
    && RuntimeApproved(item.payload.value.runtime.value, c.runtime)
  }

  ghost predicate Denied(c: Config, item: Item, ref: string) {
    && OurCall(item, "rust.check") && item.arguments.projectRef == Some(ref)
    && Blocked(item, "SANDBOX_DENIED", c.missingMessage)
  }

  // The tail after the second open: at most one inspection, then one approved passing run, and nothing more.
  ghost predicate Concludes(c: Config, xs: seq<Item>, p2: string) {
    || (|xs| == 1 && PassesApproved(c, xs[0], p2))
    || (|xs| == 2 && Inspects(xs[0], p2) && PassesApproved(c, xs[1], p2))
  }

  ghost predicate Repairs(c: Config, xs: seq<Item>, p1: string, p2: string) {
    && |xs| >= 5 && p1 != p2
    && Opens(c, xs[0], p1) && !OpensHere(xs[0]) && Inspects(xs[1], p1) && FailsBorrow(xs[2], p1) && Edits(c, xs[3])
    && Opens(c, xs[4], p2) && Concludes(c, xs[5..], p2)
  }

  ghost predicate Refuses(c: Config, xs: seq<Item>, p1: string) {
    |xs| == 2 && Opens(c, xs[0], p1) && !OpensHere(xs[0]) && Denied(c, xs[1], p1)
  }

  // The phase's script, after an optional relative probe.
  ghost predicate Scripted(c: Config, xs: seq<Item>) {
    if c.phase == Repair then exists p1, p2 :: Repairs(c, xs, p1, p2) else exists p1 :: Refuses(c, xs, p1)
  }

  ghost predicate InLanguage(c: Config, items: seq<Item>) {
    && PlansValid(c, items)
    && var xs := Relevant(items);
       Scripted(c, xs) || (xs != [] && IsProbe(xs[0]) && Scripted(c, xs[1..]))
  }

  // ----- proofs -----

  // What the code's tests of one item ask.
  lemma {:induction false} CommonExact(item: Item, status: string)
    requires item.Call?
    ensures Common(item, status) == if Finished(item, status) then item.payload else None
  {
  }

  lemma {:induction false} FingerprintExact(text: string)
    ensures Fingerprint(text) <==> IsFingerprint(text)
  {
    if |text| == 71 {
      forall i | 7 <= i < 71
        ensures text[i] in "0123456789abcdef" <==> '0' <= text[i] <= '9' || 'a' <= text[i] <= 'f'
      {
        HexDigit(text[i]);
      }
    }
  }

  lemma {:induction false} HexDigit(d: char)
    ensures d in "0123456789abcdef" <==> '0' <= d <= '9' || 'a' <= d <= 'f'
  {
    var hex := "0123456789abcdef";
    assert hex[0] == '0' && hex[1] == '1' && hex[2] == '2' && hex[3] == '3' && hex[4] == '4' && hex[5] == '5';
    assert hex[6] == '6' && hex[7] == '7' && hex[8] == '8' && hex[9] == '9' && hex[10] == 'a' && hex[11] == 'b';
    assert hex[12] == 'c' && hex[13] == 'd' && hex[14] == 'e' && hex[15] == 'f';
  }

  lemma {:induction false} ApprovedExact(payload: Payload, expected: Runtime)
    ensures Approved(payload, expected)
         == if payload.runtime.Some? && RuntimeApproved(payload.runtime.value, expected) then payload.runtime else None
  {
    if payload.runtime.Some? {
      FingerprintExact(payload.runtime.value.configuration);
      FingerprintExact(payload.runtime.value.execution);
    }
    hide Fingerprint, IsFingerprint;
  }

  lemma {:induction false} ProbeExact(item: Item)
    requires item.Call? && item.server == SERVER
    ensures Relative(item) <==> OpensHere(item)
    ensures Relative(item) && GoodProbe(item) <==> IsProbe(item)
  {
    CommonExact(item, "blocked");
    hide Common;
  }

  lemma {:induction false} OpenExact(c: Config, item: Item)
    requires item.Call? && item.server == SERVER && item.tool == OPEN
    ensures forall ref :: Opened(c, item) == Some(ref) <==> Opens(c, item, ref)
  {
    CommonExact(item, "passed");
    hide Common;
    forall ref ensures Opened(c, item) == Some(ref) <==> Opens(c, item, ref) {
      if Finished(item, "passed") && |item.payload.value.refs| == 1 {
        assert item.payload.value.refs == [item.payload.value.refs[0]];
      }
    }
  }

  // What each test of one item means, all at once.
  lemma {:induction false} ItemExact(c: Config, item: Item)
    ensures item.Call? ==>
              && Common(item, "passed") == (if Finished(item, "passed") then item.payload else None)
              && Common(item, "failed") == (if Finished(item, "failed") then item.payload else None)
              && Common(item, "blocked") == (if Finished(item, "blocked") then item.payload else None)
    ensures item.Call? && item.payload.Some? ==>
              Approved(item.payload.value, c.runtime)
                == if item.payload.value.runtime.Some? && RuntimeApproved(item.payload.value.runtime.value, c.runtime)
                   then item.payload.value.runtime else None
    ensures item.Call? && item.server == SERVER ==>
              (Relative(item) <==> OpensHere(item)) && (Relative(item) && GoodProbe(item) <==> IsProbe(item))
    ensures item.Call? && item.server == SERVER && item.tool == OPEN ==>
              forall ref :: Opened(c, item) == Some(ref) <==> Opens(c, item, ref)
    ensures item.Change? ==> (PatchFromFileChange(item.change, c.fixture).Ok? <==> Edits(c, item))
  {
    hide *;
    if item.Call? {
      CommonExact(item, "passed");
      CommonExact(item, "failed");
      CommonExact(item, "blocked");
      if item.payload.Some? { ApprovedExact(item.payload.value, c.runtime); }
      if item.server == SERVER { ProbeExact(item); }
      if item.server == SERVER && item.tool == OPEN { OpenExact(c, item); }
    } else if item.Change? {
      EditExact(c, item);
    }
  }

  lemma {:induction false} EditExact(c: Config, item: Item)
    requires item.Change?
    ensures PatchFromFileChange(item.change, c.fixture).Ok? <==> Edits(c, item)
  {
    FileChangeExact(item.change, c.fixture);
    hide PatchFromFileChange, ConfinedChange;
  }

  lemma {:induction false} RunRelevant(c: Config, s: State, items: seq<Item>)
    ensures Accepted(c, s, items) <==> PlansValid(c, items) && Accepted(c, s, Relevant(items))
    decreases |items|
  {
    hide CallStep, Relevant;
    RelevantCons(items);
    if items != [] {
      var item, rest := items[0], items[1..];
      assert items == [item] + rest;
      var next := Step(c, s, item);
      if item.Plan? || item.Unrelated? {
        RunRelevant(c, s, rest);
      } else {
        assert Relevant(items)[0] == item && Relevant(items)[1..] == Relevant(rest);
        if next.Some? { RunRelevant(c, next.value, rest); }
      }
    }
  }

  lemma {:induction false} RelevantCons(items: seq<Item>)
    ensures items == [] ==> Relevant(items) == []
    ensures items != [] ==>
              Relevant(items) == if items[0].Plan? || items[0].Unrelated? then Relevant(items[1..])
                                 else [items[0]] + Relevant(items[1..])
  {
  }

  lemma {:induction false} RelevantCalls(items: seq<Item>)
    ensures Calls(Relevant(items))
  {
    if items != [] { RelevantCalls(items[1..]); }
  }

  lemma {:induction false} RunTail(c: Config, s: State, xs: seq<Item>)
    ensures xs == [] ==> (Accepted(c, s, xs) <==> s.stage == FinalStage(c))
    ensures xs != [] ==>
            (Accepted(c, s, xs) <==> Step(c, s, xs[0]).Some? && Accepted(c, Step(c, s, xs[0]).value, xs[1..]))
  {
  }

  ghost predicate Calls(xs: seq<Item>) {
    forall x :: x in xs ==> x.Call? || x.Change?
  }

  lemma {:induction false} FromFinal(c: Config, s: State, xs: seq<Item>)
    requires Calls(xs) && s.stage == FinalStage(c)
    ensures Accepted(c, s, xs) <==> xs == []
  {
    RunTail(c, s, xs);
    if xs != [] { assert xs[0] in xs; }
  }

  lemma {:induction false} FromFive(c: Config, s: State, xs: seq<Item>, p2: string)
    requires Calls(xs) && c.phase == Repair && s.stage == 5 && s.current == Some(p2)
    ensures Accepted(c, s, xs) <==>
              || (|xs| == 1 && PassesApproved(c, xs[0], p2))
              || (|xs| == 2 && s.postInspects == 0 && Inspects(xs[0], p2) && PassesApproved(c, xs[1], p2))
    decreases |xs|
  {
    RunTail(c, s, xs);
    if xs != [] {
      assert xs[0] in xs && forall x :: x in xs[1..] ==> x in xs;
      ItemExact(c, xs[0]);
      var next := Step(c, s, xs[0]);
      hide Run, Approved, Common;
      if next.Some? {
        if next.value.stage == 6 {
          FromFinal(c, next.value, xs[1..]);
        } else {
          FromFive(c, next.value, xs[1..], p2);
        }
      }
    }
  }

  // A stage that only one kind of item can leave: the tail decides from the next state.
  lemma {:induction false} FromFour(c: Config, s: State, xs: seq<Item>, p1: string)
    requires Calls(xs) && c.phase == Repair && s.stage == 4 && s.first == Some(p1) && s.postInspects == 0
    ensures Accepted(c, s, xs) <==>
              xs != [] && exists p2 :: p1 != p2 && Opens(c, xs[0], p2) && Concludes(c, xs[1..], p2)
  {
    RunTail(c, s, xs);
    if xs != [] {
      assert xs[0] in xs && forall x :: x in xs[1..] ==> x in xs;
      ItemExact(c, xs[0]);
      var next := Step(c, s, xs[0]);
      if next.Some? {
        var p2 := next.value.current.value;
        FromFive(c, next.value, xs[1..], p2);
        assert Opens(c, xs[0], p2) && (Accepted(c, next.value, xs[1..]) <==> Concludes(c, xs[1..], p2));
      }
      assert forall p2 :: Opens(c, xs[0], p2) ==> Opened(c, xs[0]) == Some(p2);
      hide Run, Approved, Common, GoodProbe, Concludes;
    }
  }

  lemma {:induction false} FromThree(c: Config, s: State, xs: seq<Item>, p1: string)
    requires Calls(xs) && c.phase == Repair && s.stage == 3 && s.first == Some(p1) && s.postInspects == 0
    ensures Accepted(c, s, xs) <==>
              && |xs| >= 2 && Edits(c, xs[0])
              && exists p2 :: p1 != p2 && Opens(c, xs[1], p2) && Concludes(c, xs[2..], p2)
  {
    RunTail(c, s, xs);
    if xs != [] {
      assert xs[0] in xs && forall x :: x in xs[1..] ==> x in xs;
      ItemExact(c, xs[0]);
      var next := Step(c, s, xs[0]);
      if next.Some? { FromFour(c, next.value, xs[1..], p1); }
      assert |xs| >= 2 ==> xs[1..][1..] == xs[2..];
      hide Run, Approved, Common, GoodProbe, PatchFromFileChange;
    }
  }

  lemma {:induction false} FromTwo(c: Config, s: State, xs: seq<Item>, p1: string)
    requires Calls(xs) && c.phase == Repair && s.stage == 2 && s.first == s.current == Some(p1) && s.postInspects == 0
    ensures Accepted(c, s, xs) <==>
              && |xs| >= 3 && FailsBorrow(xs[0], p1) && Edits(c, xs[1])
              && exists p2 :: p1 != p2 && Opens(c, xs[2], p2) && Concludes(c, xs[3..], p2)
  {
    RunTail(c, s, xs);
    if xs != [] {
      assert xs[0] in xs && forall x :: x in xs[1..] ==> x in xs;
      ItemExact(c, xs[0]);
      var next := Step(c, s, xs[0]);
      if next.Some? { FromThree(c, next.value, xs[1..], p1); }
      assert |xs| >= 3 ==> xs[1..][2..] == xs[3..];
      hide Run, Approved, Common, GoodProbe, Concludes, Opens, Edits;
    }
  }

  lemma {:induction false} FromOne(c: Config, s: State, xs: seq<Item>, p1: string)
    requires Calls(xs) && c.phase == Repair && s.stage == 1 && s.first == s.current == Some(p1) && s.postInspects == 0
    ensures Accepted(c, s, xs) <==>
              && |xs| >= 4 && Inspects(xs[0], p1) && FailsBorrow(xs[1], p1) && Edits(c, xs[2])
              && exists p2 :: p1 != p2 && Opens(c, xs[3], p2) && Concludes(c, xs[4..], p2)
  {
    RunTail(c, s, xs);
    if xs != [] {
      assert xs[0] in xs && forall x :: x in xs[1..] ==> x in xs;
      ItemExact(c, xs[0]);
      var next := Step(c, s, xs[0]);
      if next.Some? { FromTwo(c, next.value, xs[1..], p1); }
      assert |xs| >= 4 ==> xs[1..][3..] == xs[4..];
      hide Run, Approved, Common, GoodProbe, Concludes, Opens, Edits, FailsBorrow;
    }
  }

  lemma {:induction false} FromOneMissing(c: Config, s: State, xs: seq<Item>, p1: string)
    requires Calls(xs) && c.phase == MissingRuntime && s.stage == 1 && s.current == Some(p1)
    ensures Accepted(c, s, xs) <==> |xs| == 1 && Denied(c, xs[0], p1)
  {
    RunTail(c, s, xs);
    if xs != [] {
      assert xs[0] in xs && forall x :: x in xs[1..] ==> x in xs;
      ItemExact(c, xs[0]);
      var next := Step(c, s, xs[0]);
      if next.Some? { FromFinal(c, next.value, xs[1..]); }
      hide Run, Approved, Common, GoodProbe;
    }
  }

  // Nothing opened yet: the fixture must be opened now, unless a first relative probe comes before.
  lemma {:induction false} FromStart(c: Config, s: State, xs: seq<Item>)
    requires Calls(xs) && s == START.(probes := s.probes)
    ensures Accepted(c, s, xs) <==>
            Scripted(c, xs) || (s.probes == 0 && xs != [] && IsProbe(xs[0]) && Scripted(c, xs[1..]))
    decreases |xs|
  {
    RunTail(c, s, xs);
    if xs != [] {
      assert xs[0] in xs && forall x :: x in xs[1..] ==> x in xs;
      ItemExact(c, xs[0]);
      var next := Step(c, s, xs[0]);
      if next.Some? {
        if next.value.stage == 0 {
          FromStart(c, next.value, xs[1..]);
          ProbeNotScript(c, xs);
        } else if c.phase == Repair {
          FromOne(c, next.value, xs[1..], next.value.current.value);
          ScriptAfterOpen(c, xs, next.value.current.value);
        } else {
          FromOneMissing(c, next.value, xs[1..], next.value.current.value);
          ScriptAfterOpen(c, xs, next.value.current.value);
        }
      } else {
        NoStepNoScript(c, s, xs);
      }
      hide Run, Approved, Common, GoodProbe, Scripted;
    }
  }

  lemma {:induction false} ProbeNotScript(c: Config, xs: seq<Item>)
    requires xs != [] && OpensHere(xs[0])
    ensures !Scripted(c, xs)
  {
  }

  lemma {:induction false} NoStepNoScript(c: Config, s: State, xs: seq<Item>)
    requires xs != [] && s == START.(probes := s.probes) && Step(c, s, xs[0]).None?
    ensures !Scripted(c, xs) && (s.probes == 0 ==> !IsProbe(xs[0]))
  {
    ItemExact(c, xs[0]);
    hide Approved, Common, Concludes, Edits, FailsBorrow, Inspects, Denied;
  }

  lemma {:induction false} ScriptAfterOpen(c: Config, xs: seq<Item>, p1: string)
    requires xs != [] && Opens(c, xs[0], p1) && !OpensHere(xs[0])
    ensures c.phase == Repair ==> (Scripted(c, xs) <==>
              && |xs| >= 5 && Inspects(xs[1], p1) && FailsBorrow(xs[2], p1) && Edits(c, xs[3])
              && exists p2 :: p1 != p2 && Opens(c, xs[4], p2) && Concludes(c, xs[5..], p2))
    ensures c.phase == MissingRuntime ==> (Scripted(c, xs) <==> |xs| == 2 && Denied(c, xs[1], p1))
    ensures |xs| >= 5 ==> xs[1..][4..] == xs[5..]
    ensures !IsProbe(xs[0])
  {
    hide Concludes, Edits, FailsBorrow, Inspects, Denied, OpensHere;
    forall q ensures Opens(c, xs[0], q) <==> q == p1 {
    }
    if c.phase == Repair {
      if |xs| >= 5 && exists p2 :: p1 != p2 && Opens(c, xs[4], p2) && Concludes(c, xs[5..], p2) {
        var p2 :| p1 != p2 && Opens(c, xs[4], p2) && Concludes(c, xs[5..], p2);
        assert Inspects(xs[1], p1) && FailsBorrow(xs[2], p1) && Edits(c, xs[3]) ==> Repairs(c, xs, p1, p2);
      }
    } else {
      assert |xs| == 2 && Denied(c, xs[1], p1) ==> Refuses(c, xs, p1);
    }
  }

  // phase_state's loop accepts exactly the phase's language, wherever plan items and unrelated items stand.
  lemma {:induction false} LoopAccepts(c: Config, items: seq<Item>)
    ensures Accepted(c, START, items) <==> InLanguage(c, items)
  {
    RunRelevant(c, START, items);
    RelevantCalls(items);
    FromStart(c, START, Relevant(items));
  }

  // ----- the state an accepted list leaves -----

  lemma {:induction false} RunSkips(c: Config, s: State, items: seq<Item>)
    requires PlansValid(c, items)
    ensures Run(c, s, items) == Run(c, s, Relevant(items))
    decreases |items|
  {
    hide CallStep, Relevant;
    RelevantCons(items);
    if items != [] {
      var item, rest := items[0], items[1..];
      assert items == [item] + rest;
      var next := Step(c, s, item);
      if item.Plan? || item.Unrelated? {
        RunSkips(c, s, rest);
      } else {
        assert Relevant(items)[0] == item && Relevant(items)[1..] == Relevant(rest);
        if next.Some? { RunSkips(c, next.value, rest); }
      }
    }
  }

  lemma {:induction false} RunOne(c: Config, s: State, xs: seq<Item>, t: State)
    requires xs != [] && Step(c, s, xs[0]) == Some(t)
    ensures Run(c, s, xs) == Run(c, t, xs[1..])
  {
    hide Step;
  }

  lemma {:induction false} StepProbe(c: Config, s: State, x: Item)
    requires IsProbe(x) && s.stage == 0 && s.probes == 0
    ensures Step(c, s, x) == Some(s.(probes := 1))
  {
    ItemExact(c, x);
    hide Common, Relative, GoodProbe, Opened;
  }

  lemma {:induction false} StepOpen(c: Config, s: State, x: Item, ref: string)
    requires Opens(c, x, ref) && !OpensHere(x) && s.stage == 0
    ensures Step(c, s, x) == Some(s.(first := Some(ref), current := Some(ref), stage := 1))
  {
    ItemExact(c, x);
    hide Common, Relative, GoodProbe, Opened;
  }

  lemma {:induction false} StepReopen(c: Config, s: State, x: Item, ref: string)
    requires Opens(c, x, ref) && c.phase == Repair && s.stage == 4 && s.first != Some(ref)
    ensures Step(c, s, x) == Some(s.(current := Some(ref), stage := 5))
  {
    ItemExact(c, x);
    hide Common, Relative, GoodProbe, Opened;
  }

  lemma {:induction false} StepInspect(c: Config, s: State, x: Item, ref: string)
    requires Inspects(x, ref) && c.phase == Repair && s.current == Some(ref)
    ensures s.stage == 1 ==> Step(c, s, x) == Some(s.(stage := 2))
    ensures s.stage == 5 && s.postInspects == 0 ==> Step(c, s, x) == Some(s.(postInspects := 1))
  {
    ItemExact(c, x);
    hide Common, Relative, GoodProbe, Opened;
  }

  lemma {:induction false} StepBorrow(c: Config, s: State, x: Item, ref: string)
    requires FailsBorrow(x, ref) && c.phase == Repair && s.current == Some(ref) && s.stage == 2
    ensures Step(c, s, x) == Some(s.(stage := 3))
  {
    ItemExact(c, x);
    hide Common, Relative, GoodProbe, Opened;
  }

  // The patch a file change carries, in its envelope.
  ghost function PatchText(item: Item): string
    requires item.Change? && item.change.changes.Some? && |item.change.changes.value| == 1
    requires item.change.changes.value[0].diff.Some?
  {
    "*** Begin Patch" + "\n" + "*** Update File: src/lib.rs" + "\n" + item.change.changes.value[0].diff.value
    + "*** End Patch"
  }

  lemma {:induction false} StepEdit(c: Config, s: State, x: Item)
    requires Edits(c, x) && c.phase == Repair && s.stage == 3
    ensures Step(c, s, x) == Some(s.(changes := s.changes + 1, stage := 4, filePatch := Some(PatchText(x))))
  {
    FileChangeExact(x.change, c.fixture);
    hide PatchFromFileChange;
  }

  lemma {:induction false} StepPass(c: Config, s: State, x: Item, ref: string)
    requires PassesApproved(c, x, ref) && c.phase == Repair && s.current == Some(ref) && s.stage == 5
    ensures Step(c, s, x) == Some(s.(runtime := x.payload.value.runtime, stage := 6))
  {
    ItemExact(c, x);
    hide Common, Relative, GoodProbe, Opened, Approved;
  }

  lemma {:induction false} StepDeny(c: Config, s: State, x: Item, ref: string)
    requires Denied(c, x, ref) && c.phase == MissingRuntime && s.current == Some(ref) && s.stage == 1
    ensures Step(c, s, x) == Some(s.(stage := 2))
  {
    ItemExact(c, x);
    hide Common, Relative, GoodProbe, Opened, Approved;
  }

  // The state after a repair: both references, one change with its patch, and the runtime of the passing run.
  ghost predicate Repaired(xs: seq<Item>, p1: string, p2: string, probes: nat, t: State) {
    && |xs| >= 6 && xs[|xs| - 1].Call? && xs[|xs| - 1].payload.Some?
    && xs[3].Change? && xs[3].change.changes.Some? && |xs[3].change.changes.value| == 1
    && xs[3].change.changes.value[0].diff.Some?
    && t == State(6, Some(p1), Some(p2), 1, probes, |xs| - 6, xs[|xs| - 1].payload.value.runtime,
                  Some(PatchText(xs[3])))
  }

  lemma {:induction false} RepairRuns(c: Config, s: State, xs: seq<Item>, p1: string, p2: string) returns (t: State)
    requires c.phase == Repair && Repairs(c, xs, p1, p2) && s == START.(probes := s.probes)
    ensures Run(c, s, xs) == Some(t) && Repaired(xs, p1, p2, s.probes, t)
  {
    var s1 := s.(first := Some(p1), current := Some(p1), stage := 1);
    var s2, s3 := s1.(stage := 2), s1.(stage := 3);
    var s4 := s3.(changes := 1, stage := 4, filePatch := Some(PatchText(xs[3])));
    var s5 := s4.(current := Some(p2), stage := 5);
    StepOpen(c, s, xs[0], p1);
    StepInspect(c, s1, xs[1], p1);
    StepBorrow(c, s2, xs[2], p1);
    StepEdit(c, s3, xs[3]);
    StepReopen(c, s4, xs[4], p2);
    t := ConcludeRuns(c, s5, xs[5..], p2);
    hide Step, Run, Opens, Inspects, FailsBorrow, PassesApproved, OpensHere, Edits;
    RunFive(c, xs, s, s1, s2, s3, s4, s5);
    assert xs[5..][|xs| - 6] == xs[|xs| - 1];
  }

  lemma {:induction false} RunFive(c: Config, xs: seq<Item>, s: State, s1: State, s2: State, s3: State, s4: State,
                                   s5: State)
    requires |xs| >= 5 && Step(c, s, xs[0]) == Some(s1) && Step(c, s1, xs[1]) == Some(s2)
    requires Step(c, s2, xs[2]) == Some(s3) && Step(c, s3, xs[3]) == Some(s4) && Step(c, s4, xs[4]) == Some(s5)
    ensures Run(c, s, xs) == Run(c, s5, xs[5..])
  {
    hide Step, Run;
    RunOne(c, s, xs, s1);
    RunOne(c, s1, xs[1..], s2);
    RunOne(c, s2, xs[2..], s3);
    RunOne(c, s3, xs[3..], s4);
    RunOne(c, s4, xs[4..], s5);
    assert xs[1..][1..] == xs[2..] && xs[2..][1..] == xs[3..] && xs[3..][1..] == xs[4..] && xs[4..][1..] == xs[5..];
  }

  lemma {:induction false} ConcludeRuns(c: Config, s: State, xs: seq<Item>, p2: string) returns (t: State)
    requires c.phase == Repair && Concludes(c, xs, p2) && s.current == Some(p2) && s.stage == 5 && s.postInspects == 0
    ensures xs[|xs| - 1].Call? && xs[|xs| - 1].payload.Some?
    ensures t == s.(stage := 6, postInspects := |xs| - 1, runtime := xs[|xs| - 1].payload.value.runtime)
    ensures Run(c, s, xs) == Some(t)
  {
    t := s.(stage := 6, postInspects := |xs| - 1, runtime := xs[|xs| - 1].payload.value.runtime);
    assert xs[1..] == if |xs| == 1 then [] else [xs[1]];
    if |xs| == 1 {
      StepPass(c, s, xs[0], p2);
      RunOne(c, s, xs, t);
    } else {
      var u := s.(postInspects := 1);
      StepInspect(c, s, xs[0], p2);
      StepPass(c, u, xs[1], p2);
      RunOne(c, s, xs, u);
      RunOne(c, u, [xs[1]], t);
    }
    hide Step, Run;
    assert Run(c, t, []) == Some(t) by { RunNothing(c, t); }
  }

  lemma {:induction false} RunNothing(c: Config, s: State)
    ensures Run(c, s, []) == Some(s)
  {
  }

  lemma {:induction false} RefuseRuns(c: Config, s: State, xs: seq<Item>, p1: string)
    requires c.phase == MissingRuntime && Refuses(c, xs, p1) && s == START.(probes := s.probes)
    ensures Run(c, s, xs) == Some(State(2, Some(p1), Some(p1), 0, s.probes, 0, None, None))
  {
    var s1 := s.(first := Some(p1), current := Some(p1), stage := 1);
    StepOpen(c, s, xs[0], p1);
    StepDeny(c, s1, xs[1], p1);
    hide Step;
    RunOne(c, s, xs, s1);
    assert xs[1..] == [xs[1]] && [xs[1]][1..] == [];
    RunOne(c, s1, [xs[1]], s1.(stage := 2));
  }

  // The script of an accepted list and the state it leaves.
  ghost predicate ScriptLeaves(c: Config, xs: seq<Item>, probes: nat, t: State) {
    if c.phase == Repair then exists p1, p2 :: Repairs(c, xs, p1, p2) && Repaired(xs, p1, p2, probes, t)
    else exists p1 :: Refuses(c, xs, p1) && t == State(2, Some(p1), Some(p1), 0, probes, 0, None, None)
  }

  ghost predicate Leaves(c: Config, items: seq<Item>, t: State) {
    var xs := Relevant(items);
    ScriptLeaves(c, xs, 0, t) || (xs != [] && IsProbe(xs[0]) && ScriptLeaves(c, xs[1..], 1, t))
  }

  lemma {:induction false} ScriptRuns(c: Config, s: State, xs: seq<Item>) returns (t: State)
    requires Scripted(c, xs) && s == START.(probes := s.probes)
    ensures Run(c, s, xs) == Some(t) && ScriptLeaves(c, xs, s.probes, t)
  {
    hide Repairs, Refuses, Run, Repaired;
    if c.phase == Repair {
      var p1, p2 :| Repairs(c, xs, p1, p2);
      t := RepairRuns(c, s, xs, p1, p2);
    } else {
      var p1 :| Refuses(c, xs, p1);
      RefuseRuns(c, s, xs, p1);
      t := State(2, Some(p1), Some(p1), 0, s.probes, 0, None, None);
    }
  }

  // An accepted list leaves exactly what its script says.
  lemma {:induction false} AcceptedLeaves(c: Config, items: seq<Item>)
    requires InLanguage(c, items)
    ensures Run(c, START, items).Some? && Leaves(c, items, Run(c, START, items).value)
  {
    RunSkips(c, START, items);
    hide Relevant, Run, Scripted, ScriptLeaves, PlansValid;
    var xs := Relevant(items);
    if Scripted(c, xs) {
      var t := ScriptRuns(c, START, xs);
    } else {
      StepProbe(c, START, xs[0]);
      hide IsProbe, Step;
      RunOne(c, START, xs, START.(probes := 1));
      var t := ScriptRuns(c, START.(probes := 1), xs[1..]);
    }
  }

  // ----- the action trace -----

  // The action kinds the checks name: "e0502", "raw_patch_call", "raw_patch_output", "fileChange",
  // "raw:mcp_list_tools", "item:mcpToolCall", "raw:reasoning" and "raw:message".
  datatype Kind = Borrow | PatchCall | PatchOutput | FileChanged | ListTools | ToolCall | Reasoning | Message
                | OtherKind(name: string)

  datatype Action = Action(kind: Kind, patch: Option<string>)

  function Kinds(actions: seq<Action>, skipped: set<Kind>): seq<Kind> {
    if actions == [] then []
    else (if actions[0].kind in skipped then [] else [actions[0].kind]) + Kinds(actions[1..], skipped)
  }

  function PatchCalls(actions: seq<Action>): seq<Action> {
    if actions == [] then []
    else (if actions[0].kind == PatchCall then [actions[0]] else []) + PatchCalls(actions[1..])
  }

  function Count(kinds: seq<Kind>, k: Kind): nat {
    if kinds == [] then 0 else (if kinds[0] == k then 1 else 0) + Count(kinds[1..], k)
  }

  // list.index; None where it raises.
  function Index(kinds: seq<Kind>, k: Kind): (i: Option<nat>)
    ensures i.None? <==> k !in kinds
    ensures i.Some? ==> i.value < |kinds| && kinds[i.value] == k && k !in kinds[..i.value]
  {
    if kinds == [] then None
    else if kinds[0] == k then Some(0)
    else
      var later := Index(kinds[1..], k);
      if later.None? then None
      else
        assert kinds[..later.value + 1] == [kinds[0]] + kinds[1..][..later.value];
        Some(later.value + 1)
  }

  predicate ListingOk(kinds: seq<Kind>) {
    && Count(kinds, ListTools) <= 1
    && (ListTools in kinds ==>
          ToolCall in kinds && Index(kinds, ListTools).value <= Index(kinds, ToolCall).value)
  }

  predicate PatchOrderOk(kinds: seq<Kind>, calls: seq<Action>, filePatch: Option<string>) {
    var e, f := Index(kinds, Borrow), Index(kinds, FileChanged);
    if e.None? || f.None? then false
    else if calls != [] then
      var c, o := Index(kinds, PatchCall), Index(kinds, PatchOutput);
      && c.Some? && o.Some? && |calls| == 1 && Count(kinds, PatchOutput) == 1 && e.value < c.value
      && o.value == c.value + 1 && f.value == o.value + 1 && calls[0].patch == filePatch
    else Count(kinds, PatchOutput) == 0 && e.value < f.value
  }

  // The action part of phase_state, after the loop has left `changes` and `filePatch`.
  predicate ActionsOk(c: Config, actions: seq<Action>, changes: nat, filePatch: Option<string>) {
    if c.phase == Repair then
      var kinds := Kinds(actions, {Reasoning, Message});
      && PatchOrderOk(kinds, PatchCalls(actions), filePatch) && ListingOk(kinds)
      && changes == 1 && Count(kinds, FileChanged) == 1
    else
      PatchCalls(actions) == [] && ListingOk(Kinds(actions, {}))
  }

  // `k` occurs once, with `a` before it and `b` after it.
  ghost predicate Once(kinds: seq<Kind>, k: Kind, a: seq<Kind>, b: seq<Kind>) {
    kinds == a + [k] + b && k !in a && k !in b
  }

  // Tool listing is absent, or happens once with every tool call after it.
  ghost predicate ListsFirst(kinds: seq<Kind>) {
    ListTools !in kinds || exists a, b :: Once(kinds, ListTools, a, b) && ToolCall !in a && ToolCall in b
  }

  // With no raw patch, the only file change comes after a borrow error.
  ghost predicate EditsPlain(kinds: seq<Kind>) {
    PatchOutput !in kinds && exists a, b :: Once(kinds, FileChanged, a, b) && Borrow in a
  }

  ghost predicate PatchFree(kinds: seq<Kind>) {
    PatchCall !in kinds && PatchOutput !in kinds && FileChanged !in kinds
  }

  ghost predicate RawAt(kinds: seq<Kind>, a: seq<Kind>, b: seq<Kind>) {
    kinds == a + [PatchCall, PatchOutput, FileChanged] + b && Borrow in a && PatchFree(a) && PatchFree(b)
  }

  // The only edit happens once: after a borrow error, and if by raw patch then as adjacent call, output and file
  // change, with the very patch that was called.
  ghost predicate EditsOnce(kinds: seq<Kind>, calls: seq<Action>, filePatch: Option<string>) {
    if calls == [] then EditsPlain(kinds)
    else |calls| == 1 && calls[0].patch == filePatch && exists a, b :: RawAt(kinds, a, b)
  }

  lemma {:induction false} CountAppend(a: seq<Kind>, b: seq<Kind>, k: Kind)
    ensures Count(a + b, k) == Count(a, k) + Count(b, k)
  {
    if a == [] {
      assert a + b == b;
    } else {
      assert (a + b)[1..] == a[1..] + b;
      CountAppend(a[1..], b, k);
    }
  }

  lemma {:induction false} CountZero(kinds: seq<Kind>, k: Kind)
    ensures Count(kinds, k) == 0 <==> k !in kinds
  {
    if kinds != [] {
      CountZero(kinds[1..], k);
    }
  }

  lemma {:induction false} CountAt(kinds: seq<Kind>, k: Kind, i: nat)
    requires i < |kinds| && kinds[i] == k
    ensures Count(kinds, k) == 1 <==> Once(kinds, k, kinds[..i], kinds[i + 1..])
  {
    var a, b := kinds[..i], kinds[i + 1..];
    assert kinds == a + ([k] + b) == a + [k] + b;
    CountAppend(a, [k] + b, k);
    CountAppend([k], b, k);
    assert Count([k], k) == 1 + Count([k][1..], k) == 1;
    CountZero(a, k);
    CountZero(b, k);
  }

  lemma {:induction false} IndexFirst(kinds: seq<Kind>, k: Kind, i: nat)
    requires i < |kinds| && kinds[i] == k && k !in kinds[..i]
    ensures Index(kinds, k) == Some(i)
  {
    if i > 0 {
      assert kinds[..i][0] == kinds[0] && kinds[..i][1..] == kinds[1..][..i - 1];
      IndexFirst(kinds[1..], k, i - 1);
    }
  }

  lemma {:induction false} OnceIndex(kinds: seq<Kind>, k: Kind, a: seq<Kind>, b: seq<Kind>)
    requires Once(kinds, k, a, b)
    ensures Count(kinds, k) == 1 && Index(kinds, k) == Some(|a|) && a == kinds[..|a|] && b == kinds[|a| + 1..]
  {
    assert kinds[|a|] == k && a == kinds[..|a|] && b == kinds[|a| + 1..];
    CountAt(kinds, k, |a|);
    IndexFirst(kinds, k, |a|);
  }

  lemma {:induction false} ListingSound(kinds: seq<Kind>)
    requires ListingOk(kinds)
    ensures ListsFirst(kinds)
  {
    if ListTools in kinds {
      CountZero(kinds, ListTools);
      var i, j := Index(kinds, ListTools).value, Index(kinds, ToolCall).value;
      CountAt(kinds, ListTools, i);
      hide Count, Index;
      var a, b := kinds[..i], kinds[i + 1..];
      assert forall x :: x in a ==> x in kinds[..j];
      assert b[j - i - 1] == ToolCall;
      assert Once(kinds, ListTools, a, b) && ToolCall !in a && ToolCall in b;
    }
  }

  lemma {:induction false} ListingComplete(kinds: seq<Kind>)
    requires ListsFirst(kinds)
    ensures ListingOk(kinds)
  {
    CountZero(kinds, ListTools);
    if ListTools in kinds {
      var a, b :| Once(kinds, ListTools, a, b) && ToolCall !in a && ToolCall in b;
      OnceIndex(kinds, ListTools, a, b);
      hide Count;
      assert forall x :: x in b ==> x in kinds;
      assert forall k :: 0 <= k < |a| ==> kinds[k] == a[k] && a[k] != ToolCall;
    }
  }

  lemma {:induction false} ListingExact(kinds: seq<Kind>)
    ensures ListingOk(kinds) <==> ListsFirst(kinds)
  {
    if ListingOk(kinds) { ListingSound(kinds); }
    if ListsFirst(kinds) { ListingComplete(kinds); }
  }

  lemma {:induction false} CallsCounted(actions: seq<Action>, skipped: set<Kind>)
    requires PatchCall !in skipped
    ensures |PatchCalls(actions)| == Count(Kinds(actions, skipped), PatchCall)
  {
    if actions != [] {
      CallsCounted(actions[1..], skipped);
      var rest := Kinds(actions[1..], skipped);
      if actions[0].kind !in skipped {
        assert ([actions[0].kind] + rest)[1..] == rest;
      } else {
        assert Kinds(actions, skipped) == rest;
      }
    }
  }

  lemma {:induction false} PlainOrder(kinds: seq<Kind>, filePatch: Option<string>)
    requires Count(kinds, PatchCall) == 0
    ensures PatchOrderOk(kinds, [], filePatch) && Count(kinds, FileChanged) == 1 <==> EditsPlain(kinds)
  {
    CountZero(kinds, PatchOutput);
    if PatchOrderOk(kinds, [], filePatch) && Count(kinds, FileChanged) == 1 {
      var e, f := Index(kinds, Borrow).value, Index(kinds, FileChanged).value;
      CountAt(kinds, FileChanged, f);
      assert kinds[..f][e] == Borrow;
    }
    if EditsPlain(kinds) {
      var a, b :| Once(kinds, FileChanged, a, b) && Borrow in a;
      OnceIndex(kinds, FileChanged, a, b);
      EarlierIndex(kinds, Borrow, a);
    }
  }

  lemma {:induction false} RawPositions(kinds: seq<Kind>, calls: seq<Action>, filePatch: Option<string>)
    returns (e: nat, c: nat)
    requires |calls| == 1 && PatchOrderOk(kinds, calls, filePatch)
    ensures e < c && c + 2 < |kinds| && kinds[e] == Borrow && Count(kinds, PatchOutput) == 1
    ensures kinds[c] == PatchCall && kinds[c + 1] == PatchOutput && kinds[c + 2] == FileChanged
  {
    hide Count;
    e, c := Index(kinds, Borrow).value, Index(kinds, PatchCall).value;
  }

  lemma {:induction false} RawOrderSound(kinds: seq<Kind>, calls: seq<Action>, filePatch: Option<string>)
    requires |calls| == 1 == Count(kinds, PatchCall)
    requires PatchOrderOk(kinds, calls, filePatch) && Count(kinds, FileChanged) == 1
    ensures exists a, b :: RawAt(kinds, a, b)
  {
    hide Count, Index, PatchOrderOk;
    var e, c := RawPositions(kinds, calls, filePatch);
    CountAt(kinds, PatchCall, c);
    CountAt(kinds, PatchOutput, c + 1);
    CountAt(kinds, FileChanged, c + 2);
    var a, b := kinds[..c], kinds[c + 3..];
    OnceApart(kinds, PatchCall, c, c, c + 3);
    OnceApart(kinds, PatchOutput, c + 1, c, c + 3);
    OnceApart(kinds, FileChanged, c + 2, c, c + 3);
    hide Once;
    assert a[e] == Borrow;
    assert kinds == a + [PatchCall, PatchOutput, FileChanged] + b;
    assert RawAt(kinds, a, b);
  }

  lemma {:induction false} OnceApart(kinds: seq<Kind>, k: Kind, i: nat, lo: nat, hi: nat)
    requires lo <= i < hi <= |kinds| && Once(kinds, k, kinds[..i], kinds[i + 1..])
    ensures k !in kinds[..lo] && k !in kinds[hi..]
  {
    assert kinds[..lo] == kinds[..i][..lo] && kinds[hi..] == kinds[i + 1..][hi - i - 1..];
  }

  lemma {:induction false} RawOrderComplete(kinds: seq<Kind>, calls: seq<Action>, filePatch: Option<string>,
                                            a: seq<Kind>, b: seq<Kind>)
    requires |calls| == 1 && calls[0].patch == filePatch && RawAt(kinds, a, b)
    ensures PatchOrderOk(kinds, calls, filePatch) && Count(kinds, FileChanged) == 1
  {
    assert kinds == a + [PatchCall] + ([PatchOutput, FileChanged] + b);
    assert kinds == (a + [PatchCall]) + [PatchOutput] + ([FileChanged] + b);
    assert kinds == (a + [PatchCall, PatchOutput]) + [FileChanged] + b;
    EarlierIndex(kinds, Borrow, a);
    OnceIndex(kinds, PatchCall, a, [PatchOutput, FileChanged] + b);
    OnceIndex(kinds, PatchOutput, a + [PatchCall], [FileChanged] + b);
    OnceIndex(kinds, FileChanged, a + [PatchCall, PatchOutput], b);
  }

  lemma {:induction false} OrderExact(kinds: seq<Kind>, calls: seq<Action>, filePatch: Option<string>)
    requires |calls| == Count(kinds, PatchCall)
    ensures PatchOrderOk(kinds, calls, filePatch) && Count(kinds, FileChanged) == 1 <==>
            EditsOnce(kinds, calls, filePatch)
  {
    hide Count, RawAt, EditsPlain;
    if calls == [] {
      PlainOrder(kinds, filePatch);
    } else {
      if PatchOrderOk(kinds, calls, filePatch) && Count(kinds, FileChanged) == 1 {
        RawOrderSound(kinds, calls, filePatch);
      }
      if EditsOnce(kinds, calls, filePatch) {
        var a, b :| RawAt(kinds, a, b);
        RawOrderComplete(kinds, calls, filePatch, a, b);
      }
    }
  }

  lemma {:induction false} EarlierIndex(kinds: seq<Kind>, k: Kind, a: seq<Kind>)
    requires a <= kinds && k in a
    ensures Index(kinds, k).Some? && Index(kinds, k).value < |a|
  {
    var i :| 0 <= i < |a| && a[i] == k;
    assert kinds[i] == k;
    var j := Index(kinds, k).value;
    assert forall x :: 0 <= x < j ==> kinds[..j][x] == kinds[x];
  }

  // The action checks accept exactly the traces with one well-placed edit and early tool listing.
  lemma {:induction false} ActionsExact(c: Config, actions: seq<Action>, changes: nat, filePatch: Option<string>)
    ensures c.phase == Repair ==>
              (ActionsOk(c, actions, changes, filePatch) <==>
                 var kinds := Kinds(actions, {Reasoning, Message});
                 changes == 1 && ListsFirst(kinds) && EditsOnce(kinds, PatchCalls(actions), filePatch))
    ensures c.phase == MissingRuntime ==>
              (ActionsOk(c, actions, changes, filePatch) <==>
                 PatchCalls(actions) == [] && ListsFirst(Kinds(actions, {})))
  {
    var skipped := if c.phase == Repair then {Reasoning, Message} else {};
    var kinds, calls := Kinds(actions, skipped), PatchCalls(actions);
    ListingExact(kinds);
    CallsCounted(actions, skipped);
    hide ListingOk, ListsFirst;
    OrderExact(kinds, calls, filePatch);
    hide PatchOrderOk, EditsOnce, Count;
  }

  // ----- phase_state -----

  datatype Receipt = Receipt(state: State, plans: nat, rawPatches: nat, patch: Option<string>)

  function CountPlans(items: seq<Item>): nat {
    if items == [] then 0 else CountPlans(items[..|items| - 1]) + if items[|items| - 1].Plan? then 1 else 0
  }

  // The patch of the last file change, of which the language has at most one.
  ghost function EditPatch(c: Config, items: seq<Item>, before: Option<string>): Option<string> {
    if items == [] then before
    else EditPatch(c, items[1..], if Edits(c, items[0]) then Some(PatchText(items[0])) else before)
  }

  // A repair has made its one change once it is past stage three.
  predicate EditsCounted(c: Config, s: State) {
    s.changes == if c.phase == Repair && s.stage >= 4 then 1 else 0
  }

  lemma {:induction false} RunEdits(c: Config, s: State, items: seq<Item>)
    requires Run(c, s, items).Some? && EditsCounted(c, s)
    ensures EditsCounted(c, Run(c, s, items).value)
    ensures Run(c, s, items).value.filePatch == EditPatch(c, items, s.filePatch)
    decreases |items|
  {
    if items != [] {
      StepEdits(c, s, items[0]);
      hide Step;
      RunEdits(c, Step(c, s, items[0]).value, items[1..]);
    }
  }

  lemma {:induction false} StepEdits(c: Config, s: State, item: Item)
    requires Step(c, s, item).Some? && EditsCounted(c, s)
    ensures EditsCounted(c, Step(c, s, item).value)
    ensures Step(c, s, item).value.filePatch == EditPatch(c, [item], s.filePatch)
    ensures forall items :: items != [] && items[0] == item ==>
              EditPatch(c, items, s.filePatch) == EditPatch(c, items[1..], Step(c, s, item).value.filePatch)
  {
    if item.Change? { FileChangeExact(item.change, c.fixture); }
    hide Common, Approved, PatchFromFileChange, GoodProbe, Opened, ValidPlan;
  }

  // A phase is accepted: its items are in the language, tools are listed early, and the trace's one edit is the file
  // change's own, or, without a runtime, there is no raw patch.
  ghost predicate PhaseAccepted(c: Config, items: seq<Item>, actions: seq<Action>) {
    && InLanguage(c, items)
    && if c.phase == Repair then
         var kinds := Kinds(actions, {Reasoning, Message});
         ListsFirst(kinds) && EditsOnce(kinds, PatchCalls(actions), EditPatch(c, items, None))
       else
         ListsFirst(Kinds(actions, {})) && PatchCalls(actions) == []
  }

  // The loop and the action checks together accept exactly that.
  lemma {:induction false} PhaseExact(c: Config, items: seq<Item>, actions: seq<Action>)
    ensures PhaseAccepted(c, items, actions) <==>
              && Accepted(c, START, items)
              && ActionsOk(c, actions, Run(c, START, items).value.changes, Run(c, START, items).value.filePatch)
  {
    LoopAccepts(c, items);
    hide InLanguage, ListsFirst, EditsOnce, ActionsOk, Step, Kinds, PatchCalls;
    if Accepted(c, START, items) {
      RunEdits(c, START, items);
      var t := Run(c, START, items).value;
      ActionsExact(c, actions, t.changes, t.filePatch);
    }
  }

  lemma {:induction false} RelevantListed(items: seq<Item>)
    ensures forall x :: x in Relevant(items) ==> x in items
  {
    if items != [] { RelevantListed(items[1..]); }
  }

  // A repair leaves the runtime of an approved run in the list.
  lemma {:induction false} RuntimeLeft(c: Config, items: seq<Item>, t: State)
    requires c.phase == Repair && Leaves(c, items, t)
    ensures exists item :: item in items && item.Call? && item.payload.Some? && item.payload.value.runtime.Some?
              && RuntimeApproved(item.payload.value.runtime.value, c.runtime) && t.runtime == item.payload.value.runtime
  {
    RelevantListed(items);
    var xs := Relevant(items);
    if ScriptLeaves(c, xs, 0, t) {
      RuntimeLast(c, xs, 0, t);
    } else {
      RuntimeLast(c, xs[1..], 1, t);
    }
    hide RuntimeApproved, ScriptLeaves, IsProbe;
  }

  lemma {:induction false} RuntimeLast(c: Config, xs: seq<Item>, probes: nat, t: State)
    requires c.phase == Repair && ScriptLeaves(c, xs, probes, t)
    ensures xs != [] && xs[|xs| - 1] in xs
    ensures var item := xs[|xs| - 1];
            && item.Call? && item.payload.Some? && item.payload.value.runtime.Some?
            && RuntimeApproved(item.payload.value.runtime.value, c.runtime) && t.runtime == item.payload.value.runtime
  {
    hide RuntimeApproved, Opens, Inspects, FailsBorrow, OpensHere, Edits;
    var p1, p2 :| Repairs(c, xs, p1, p2) && Repaired(xs, p1, p2, probes, t);
    assert xs[5..][|xs| - 6] == xs[|xs| - 1];
  }

  // A repair is refused if every runtime its items show differs from the expected one in one of the four fields.
  lemma {:induction false} OtherRuntimeRefused(c: Config, items: seq<Item>, actions: seq<Action>)
    requires c.phase == Repair
    requires forall item :: item in items && item.Call? && item.payload.Some? && item.payload.value.runtime.Some? ==>
               var rt := item.payload.value.runtime.value;
               || rt.imageId != c.runtime.imageId || rt.rustVersion != c.runtime.rustVersion
               || rt.cargoVersion != c.runtime.cargoVersion || rt.platform != c.runtime.platform
    ensures !PhaseAccepted(c, items, actions)
  {
    if InLanguage(c, items) {
      AcceptedLeaves(c, items);
      RuntimeLeft(c, items, Run(c, START, items).value);
    }
    hide InLanguage, Leaves, Run, EditsOnce, ListsFirst, Kinds, PatchCalls, EditPatch;
  }

  // The compared kinds are those of the actions in their order, the skipped ones left out.
  lemma {:induction false} KindsExact(actions: seq<Action>, last: Action, skipped: set<Kind>)
    ensures Kinds([], skipped) == []
    ensures Kinds(actions + [last], skipped)
         == Kinds(actions, skipped) + if last.kind in skipped then [] else [last.kind]
  {
    var all := actions + [last];
    if actions == [] {
      assert all == [last] && [last][1..] == [];
    } else {
      assert all[1..] == actions[1..] + [last];
      KindsExact(actions[1..], last, skipped);
    }
  }

  // And the patch calls are the actions of that kind, in their order.
  lemma {:induction false} PatchCallsExact(actions: seq<Action>, last: Action)
    ensures PatchCalls([]) == []
    ensures PatchCalls(actions + [last]) == PatchCalls(actions) + if last.kind == PatchCall then [last] else []
  {
    var all := actions + [last];
    if actions == [] {
      assert all == [last] && [last][1..] == [];
    } else {
      PatchCallsExact(actions[1..], last);
      assert all[1..] == actions[1..] + [last] && all[0] == actions[0];
      var first, rest := if actions[0].kind == PatchCall then [actions[0]] else [], PatchCalls(actions[1..]);
      assert PatchCalls(actions) == first + rest && PatchCalls(all) == first + PatchCalls(all[1..]);
      hide PatchCalls;
    }
  }

  method PhaseState(c: Config, items: seq<Item>, actions: seq<Action>) returns (r: Option<Receipt>)
    ensures r.Some? <==> PhaseAccepted(c, items, actions)
    ensures r.Some? ==>
              && Leaves(c, items, r.value.state) && r.value.plans == CountPlans(items)
              && r.value.rawPatches == |PatchCalls(actions)|
              && r.value.patch == (if PatchCalls(actions) != [] then PatchCalls(actions)[0].patch
                                   else EditPatch(c, items, None))
    ensures r.Some? && c.phase == Repair ==>
              exists item :: item in items && item.Call? && item.payload.Some? && item.payload.value.runtime.Some?
                && RuntimeApproved(item.payload.value.runtime.value, c.runtime)
                && r.value.state.runtime == item.payload.value.runtime
  {
    PhaseExact(c, items, actions);
    if Run(c, START, items).Some? { RunEdits(c, START, items); }
    if InLanguage(c, items) {
      AcceptedLeaves(c, items);
      if c.phase == Repair { RuntimeLeft(c, items, Run(c, START, items).value); }
    }
    assert PhaseAccepted(c, items, actions) ==> InLanguage(c, items);
    hide Step, PhaseAccepted, ActionsOk, EditPatch, InLanguage, Leaves, RuntimeApproved;
    var s, plans := START, 0;
    assert items[0..] == items;
    for i := 0 to |items|
      invariant Run(c, START, items) == Run(c, s, items[i..])
      invariant plans == CountPlans(items[..i])
    {
      assert items[i..][0] == items[i] && items[i..][1..] == items[i + 1..];
      assert items[..i + 1][..i] == items[..i];
      var next := Step(c, s, items[i]);
      if next.None? {
        return None;
      }
      if items[i].Plan? {
        plans := plans + 1;
      }
      s := next.value;
    }
    assert items[..|items|] == items && items[|items|..] == [];
    if s.stage != FinalStage(c) || !ActionsOk(c, actions, s.changes, s.filePatch) {
      return None;
    }
    var calls := PatchCalls(actions);
    r := Some(Receipt(s, plans, |calls|, if calls != [] then calls[0].patch else s.filePatch));
  }
}
