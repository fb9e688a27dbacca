/** The contract freeze: recording tool contracts, verifying them against the record, and diffing two tool sets. */
module ContractFreeze {
  import opened Ordering
  import opened Results
  import opened Text

  type bytes = seq<bv8>

  // A snapshot as parsed: the three hashed values appear as their canonical texts.
  datatype Spec = Spec(name: string, annotations: map<string, bool>, input: string, output: string, description: string)

  // JSON parsing with its checks, and the two uses of SHA-256.
  datatype Codec = Codec(parse: bytes -> Option<Spec>, digest: bytes -> string, canonical: string -> string)

  datatype Class = Stable | Preview | OtherClass(text: string)

  datatype Entry = Entry(stability: Class, annotations: map<string, bool>, input: string, output: string,
                         description: string, snapshot: string)

  // A recorded entry as read back from the manifest; a missing compared field is None.
  datatype Recorded = Recorded(stability: Class, annotations: Option<map<string, bool>>, input: Option<string>,
                               output: Option<string>, description: Option<string>)

  datatype Manifest = Manifest(format: Option<int>, canonical: Option<string>, tools: map<string, Recorded>,
                               count: Option<int>)

  datatype Field = Annotations | InputSchema | OutputSchema | Description

  const CANONICAL := "json sort_keys separators(',',':') ensure_ascii=False sha256"

  const PREVIEW_NAMES := {"rust.analyzer.symbols", "rust.analyzer.references", "rust.analyzer.diagnostics",
                          "rust.analyzer.actions", "rust.analyzer.action.apply"}

  function StabilityOf(name: string): Class {
    if name in PREVIEW_NAMES then Preview else Stable
  }

  function ToolEntry(codec: Codec, spec: Spec, raw: bytes): Entry {
    Entry(StabilityOf(spec.name), spec.annotations, codec.canonical(spec.input), codec.canonical(spec.output),
          codec.canonical(spec.description), codec.digest(raw))
  }

  // This entry comes from this snapshot of a tool of this name.
  ghost predicate EntryFrom(codec: Codec, name: string, entry: Entry, raw: bytes) {
    var spec := codec.parse(raw);
    spec.Some? && spec.value.name == name && entry == ToolEntry(codec, spec.value, raw)
  }

  // The last file that describes each name.
  ghost predicate LoadedFrom(codec: Codec, tools: map<string, Entry>, files: seq<bytes>) {
    && (forall i :: 0 <= i < |files| ==> codec.parse(files[i]).Some? && codec.parse(files[i]).value.name in tools)
    && forall name :: name in tools ==> exists i :: 0 <= i < |files| && LastFor(codec, name, tools[name], files, i)
  }

  ghost predicate LastFor(codec: Codec, name: string, entry: Entry, files: seq<bytes>, i: nat)
    requires i < |files|
  {
    && EntryFrom(codec, name, entry, files[i])
    && forall j :: i < j < |files| ==> codec.parse(files[j]).Some? && codec.parse(files[j]).value.name != name
  }

  // load_current_tools and load_ref_tools, over the snapshots in path order.
  method LoadTools(codec: Codec, files: seq<bytes>) returns (tools: Option<map<string, Entry>>)
    ensures tools.Some? <==> forall i :: 0 <= i < |files| ==> codec.parse(files[i]).Some?
    ensures tools.Some? ==> LoadedFrom(codec, tools.value, files)
  {
    var loaded: map<string, Entry> := map[];
    assert LoadedFrom(codec, loaded, files[..0]);
    for i := 0 to |files|
      invariant forall j :: 0 <= j < i ==> codec.parse(files[j]).Some?
      invariant LoadedFrom(codec, loaded, files[..i])
    {
      var spec := codec.parse(files[i]);
      if spec.None? {
        return None;
      }
      LoadNext(codec, loaded, files[..i], files[i]);
      assert files[..i + 1] == files[..i] + [files[i]];
      loaded := loaded[spec.value.name := ToolEntry(codec, spec.value, files[i])];
    }
    assert files[..|files|] == files;
    tools := Some(loaded);
  }

  lemma {:induction false} LoadNext(codec: Codec, tools: map<string, Entry>, files: seq<bytes>, raw: bytes)
    requires LoadedFrom(codec, tools, files) && codec.parse(raw).Some?
    ensures var spec := codec.parse(raw).value;
            LoadedFrom(codec, tools[spec.name := ToolEntry(codec, spec, raw)], files + [raw])
  {
    hide ToolEntry;
    var spec, more := codec.parse(raw).value, files + [raw];
    var all := tools[spec.name := ToolEntry(codec, spec, raw)];
    forall name | name in all ensures exists i :: 0 <= i < |more| && LastFor(codec, name, all[name], more, i) {
      if name == spec.name {
        assert LastFor(codec, name, all[name], more, |files|);
      } else {
        var i :| 0 <= i < |files| && LastFor(codec, name, tools[name], files, i);
        assert LastFor(codec, name, all[name], more, i);
      }
    }
  }

  // ----- generate and verify -----

  function Record(entry: Entry): Recorded {
    Recorded(entry.stability, Some(entry.annotations), Some(entry.input), Some(entry.output), Some(entry.description))
  }

  // What cmd_generate writes, as far as cmd_verify reads it.
  function Generate(tools: map<string, Entry>): Manifest {
    Manifest(Some(1), Some(CANONICAL), map name | name in tools :: Record(tools[name]), Some(|tools|))
  }

  function Differences(recorded: Recorded, entry: Entry): seq<Field> {
    (if recorded.annotations != Some(entry.annotations) then [Annotations] else [])
    + (if recorded.input != Some(entry.input) then [InputSchema] else [])
    + (if recorded.output != Some(entry.output) then [OutputSchema] else [])
    + (if recorded.description != Some(entry.description) then [Description] else [])
  }

  datatype Change =
    | Removed(name: string)
    | Added(name: string)
    | Fields(name: string, fields: seq<Field>)
    | Reclassified(name: string, before: Class, after: Class)

  datatype Report = Report(formatErrors: seq<string>, classChanged: seq<Change>, stableChanged: seq<Change>,
                           previewChanged: seq<Change>, countMismatch: bool, passed: bool)

  // The class that decides which list a change of this name goes to.
  function Bucket(recorded: map<string, Recorded>, current: map<string, Entry>, name: string): Class
    requires name in recorded || name in current
  {
    if name in recorded then recorded[name].stability else current[name].stability
  }

  // Present on both sides with equal compared fields.
  predicate Kept(recorded: map<string, Recorded>, current: map<string, Entry>, name: string) {
    && name in recorded && name in current
    && recorded[name].annotations == Some(current[name].annotations)
    && recorded[name].input == Some(current[name].input)
    && recorded[name].output == Some(current[name].output)
    && recorded[name].description == Some(current[name].description)
  }

  // This change is true of the two sides.
  predicate True(recorded: map<string, Recorded>, current: map<string, Entry>, c: Change) {
    match c
    case Removed(name) => name in recorded && name !in current
    case Added(name) => name !in recorded && name in current
    case Fields(name, fields) =>
      name in recorded && name in current && fields != [] && fields == Differences(recorded[name], current[name])
    case Reclassified(name, before, after) =>
      name in recorded && name in current && before == recorded[name].stability && after == current[name].stability
          && before != after
  }

  // The lists hold exactly the true changes of the names seen so far, each in its list.
  ghost predicate Sorted(recorded: map<string, Recorded>, current: map<string, Entry>, names: set<string>, r: Report) {
    && names <= recorded.Keys + current.Keys
    && (forall c :: c in r.classChanged <==> c.Reclassified? && c.name in names && True(recorded, current, c))
    && (forall c :: c in r.stableChanged <==>
          !c.Reclassified? && c.name in names && True(recorded, current, c)
              && Bucket(recorded, current, c.name) == Stable)
    && (forall c :: c in r.previewChanged <==>
          !c.Reclassified? && c.name in names && True(recorded, current, c)
              && Bucket(recorded, current, c.name) != Stable)
  }

  ghost predicate NamesAscend(changes: seq<Change>) {
    forall i, j :: 0 <= i < j < |changes| ==> Before(changes[i].name, changes[j].name)
  }

  // Each list holds at most one change of a name, by name.
  ghost predicate ListsAscend(r: Report) {
    NamesAscend(r.classChanged) && NamesAscend(r.stableChanged) && NamesAscend(r.previewChanged)
  }

  function Put(r: Report, stability: Class, c: Change): Report {
    if stability == Stable then r.(stableChanged := r.stableChanged + [c])
    else r.(previewChanged := r.previewChanged + [c])
  }

  // What the freeze demands.
  ghost predicate Frozen(m: Manifest, current: map<string, Entry>, strict: bool) {
    && m.format == Some(1) && m.canonical == Some(CANONICAL) && m.count == Some(|current|)
    && FrozenTools(m.tools, current, strict)
  }

  ghost predicate FrozenTools(recorded: map<string, Recorded>, current: map<string, Entry>, strict: bool) {
    forall name :: name in recorded || name in current ==>
      && (name in recorded && name in current ==> recorded[name].stability == current[name].stability)
      && (strict || Bucket(recorded, current, name) == Stable ==> Kept(recorded, current, name))
  }

  // cmd_verify: passes exactly when the contract is frozen, and reports exactly what changed.
  method Verify(m: Manifest, current: map<string, Entry>, strict: bool) returns (r: Report)
    ensures r.passed <==> Frozen(m, current, strict)
    ensures Sorted(m.tools, current, m.tools.Keys + current.Keys, r) && ListsAscend(r)
    ensures r.formatErrors == (if m.format != Some(1) then ["format_version"] else [])
            + (if m.canonical != Some(CANONICAL) then ["canonical"] else [])
    ensures r.countMismatch <==> m.count != Some(|current|)
  {
    hide *;
    var formatErrors := [];
    if m.format != Some(1) { formatErrors := formatErrors + ["format_version"]; }
    if m.canonical != Some(CANONICAL) { formatErrors := formatErrors + ["canonical"]; }
    r := CompareAll(m.tools, current, Report(formatErrors, [], [], [], false, false));
    var mismatch := m.count != Some(|current|);
    var passed := r.formatErrors == [] && r.classChanged == [] && r.stableChanged == [] && !mismatch
                  && !(strict && r.previewChanged != []);
    StillSorted(m.tools, current, m.tools.Keys + current.Keys, r, mismatch, passed);
    StillAscends(r, mismatch, passed);
    r := r.(countMismatch := mismatch, passed := passed);
    PassedExact(m, current, strict, r);
  }

  method CompareAll(recorded: map<string, Recorded>, current: map<string, Entry>, r0: Report) returns (r: Report)
    requires r0.classChanged == [] && r0.stableChanged == [] && r0.previewChanged == []
    ensures Sorted(recorded, current, recorded.Keys + current.Keys, r) && ListsAscend(r)
    ensures r.formatErrors == r0.formatErrors
  {
    hide *;
    r := r0;
    NothingAscends(r);
    var names := InOrder(recorded.Keys + current.Keys);
    NothingSorted(recorded, current, r);
    assert Elements(names[..0]) == {} by { NoElements(names); }
    for i := 0 to |names|
      invariant Sorted(recorded, current, Elements(names[..i]), r) && ListsAscend(r)
      invariant r.formatErrors == r0.formatErrors
    {
      ElementsPush(names, i);
      assert names[i] in names;
      LaterName(names, i);
      AscendsStill(recorded, current, Elements(names[..i]), names[i], r);
      SortedGrows(recorded, current, Elements(names[..i]), names[i], r);
      r := Compare(recorded, current, names[i], r);
    }
    assert names[..|names|] == names;
  }

  lemma {:induction false} NoElements(names: seq<string>)
    ensures Elements(names[..0]) == {}
  {
  }

  // One turn of the loop.
  function Compare(recorded: map<string, Recorded>, current: map<string, Entry>, name: string, r: Report): Report
    requires name in recorded || name in current
  {
    if name !in current then Put(r, recorded[name].stability, Removed(name))
    else if name !in recorded then Put(r, current[name].stability, Added(name))
    else
      var before, after := recorded[name].stability, current[name].stability;
      var s := if before != after then r.(classChanged := r.classChanged + [Reclassified(name, before, after)]) else r;
      var fields := Differences(recorded[name], current[name]);
      if fields != [] then Put(s, before, Fields(name, fields)) else s
  }

  lemma {:induction false} NothingSorted(recorded: map<string, Recorded>, current: map<string, Entry>, r: Report)
    requires r.classChanged == [] && r.stableChanged == [] && r.previewChanged == []
    ensures Sorted(recorded, current, {}, r)
  {
  }

  // The true changes of one name.
  lemma {:induction false} TrueAt(recorded: map<string, Recorded>, current: map<string, Entry>, name: string, c: Change)
    requires c.name == name && (name in recorded || name in current)
    ensures name !in current ==> (True(recorded, current, c) <==> c == Removed(name))
    ensures name !in recorded ==> (True(recorded, current, c) <==> c == Added(name))
    ensures name in recorded && name in current ==>
              var fields := Differences(recorded[name], current[name]);
              var before, after := recorded[name].stability, current[name].stability;
              (True(recorded, current, c) <==>
                (c == Fields(name, fields) && fields != [])
                    || (c == Reclassified(name, before, after) && before != after))
  {
    hide Differences;
  }

  lemma {:induction false} ReportGrows(recorded: map<string, Recorded>, current: map<string, Entry>, name: string,
                                       r: Report, c: Change)
    requires name in recorded || name in current
    ensures var s := Compare(recorded, current, name, r);
            var own := c.name == name && True(recorded, current, c);
            && (c in s.classChanged <==> c in r.classChanged || (own && c.Reclassified?))
            && (c in s.stableChanged <==>
                 c in r.stableChanged || (own && !c.Reclassified? && Bucket(recorded, current, name) == Stable))
            && (c in s.previewChanged <==>
                 c in r.previewChanged || (own && !c.Reclassified? && Bucket(recorded, current, name) != Stable))
  {
    hide Differences, True;
    if c.name == name { TrueAt(recorded, current, name, c); }
  }

  lemma {:induction false} SortedGrows(recorded: map<string, Recorded>, current: map<string, Entry>, names: set<string>,
                                       name: string, r: Report)
    requires Sorted(recorded, current, names, r) && (name in recorded || name in current)
    ensures Sorted(recorded, current, names + {name}, Compare(recorded, current, name, r))
    ensures Compare(recorded, current, name, r).formatErrors == r.formatErrors
  {
    assert Compare(recorded, current, name, r).formatErrors == r.formatErrors by { hide Differences; }
    hide Differences, True, Compare, Bucket;
    var s, all := Compare(recorded, current, name, r), names + {name};
    forall c ensures c in s.classChanged <==> c.Reclassified? && c.name in all && True(recorded, current, c) {
      ReportGrows(recorded, current, name, r, c);
    }
    forall c ensures c in s.stableChanged <==>
      !c.Reclassified? && c.name in all && True(recorded, current, c) && Bucket(recorded, current, c.name) == Stable {
      ReportGrows(recorded, current, name, r, c);
    }
    forall c ensures c in s.previewChanged <==>
      !c.Reclassified? && c.name in all && True(recorded, current, c) && Bucket(recorded, current, c.name) != Stable {
      ReportGrows(recorded, current, name, r, c);
    }
  }

  lemma {:induction false} NothingAscends(r: Report)
    requires r.classChanged == [] && r.stableChanged == [] && r.previewChanged == []
    ensures ListsAscend(r)
  {
  }

  lemma {:induction false} AscendsStill(recorded: map<string, Recorded>, current: map<string, Entry>,
                                        names: set<string>, name: string, r: Report)
    requires Sorted(recorded, current, names, r) && ListsAscend(r) && (name in recorded || name in current)
    requires forall other :: other in names ==> Before(other, name)
    ensures ListsAscend(Compare(recorded, current, name, r))
  {
    hide Differences, True, Bucket, Before;
    assert forall c :: c in r.classChanged || c in r.stableChanged || c in r.previewChanged ==> Before(c.name, name);
    hide Sorted;
  }

  lemma {:induction false} StillAscends(r: Report, mismatch: bool, passed: bool)
    requires ListsAscend(r)
    ensures ListsAscend(r.(countMismatch := mismatch, passed := passed))
  {
  }

  lemma {:induction false} StillSorted(recorded: map<string, Recorded>, current: map<string, Entry>, names: set<string>,
                                       r: Report, mismatch: bool, passed: bool)
    requires Sorted(recorded, current, names, r)
    ensures Sorted(recorded, current, names, r.(countMismatch := mismatch, passed := passed))
  {
  }

  lemma {:induction false} KeptExact(recorded: map<string, Recorded>, current: map<string, Entry>, name: string)
    requires name in recorded && name in current
    ensures Kept(recorded, current, name) <==> Differences(recorded[name], current[name]) == []
  {
  }

  // What a name of the two sides does to the lists.
  lemma {:induction false} NameExact(recorded: map<string, Recorded>, current: map<string, Entry>, r: Report,
                                     name: string)
    requires Sorted(recorded, current, recorded.Keys + current.Keys, r) && (name in recorded || name in current)
    ensures r.stableChanged == [] && Bucket(recorded, current, name) == Stable ==> Kept(recorded, current, name)
    ensures r.previewChanged == [] && Bucket(recorded, current, name) != Stable ==> Kept(recorded, current, name)
    ensures r.classChanged == [] && name in recorded && name in current ==>
            recorded[name].stability == current[name].stability
  {
    hide Differences, Kept;
    if name !in current {
      assert True(recorded, current, Removed(name));
    } else if name !in recorded {
      assert True(recorded, current, Added(name));
    } else {
      KeptExact(recorded, current, name);
      var fields := Differences(recorded[name], current[name]);
      assert fields != [] ==> True(recorded, current, Fields(name, fields));
      var before, after := recorded[name].stability, current[name].stability;
      assert before != after ==> True(recorded, current, Reclassified(name, before, after));
    }
  }

  lemma {:induction false} ChangeExact(recorded: map<string, Recorded>, current: map<string, Entry>, c: Change)
    requires True(recorded, current, c)
    ensures c.name in recorded || c.name in current
    ensures !c.Reclassified? ==> !Kept(recorded, current, c.name)
    ensures c.Reclassified? ==>
              c.name in recorded && c.name in current && recorded[c.name].stability != current[c.name].stability
  {
    hide Differences;
    if c.Fields? { KeptExact(recorded, current, c.name); }
  }

  lemma {:induction false} PassedExact(m: Manifest, current: map<string, Entry>, strict: bool, r: Report)
    requires Sorted(m.tools, current, m.tools.Keys + current.Keys, r)
    requires r.formatErrors == [] <==> m.format == Some(1) && m.canonical == Some(CANONICAL)
    requires r.countMismatch <==> m.count != Some(|current|)
    requires r.passed <==> r.formatErrors == [] && r.classChanged == [] && r.stableChanged == [] && !r.countMismatch
                           && !(strict && r.previewChanged != [])
    ensures r.passed <==> Frozen(m, current, strict)
  {
    hide Kept, True;
    if r.passed {
      forall name | name in m.tools || name in current
        ensures (strict || Bucket(m.tools, current, name) == Stable ==> Kept(m.tools, current, name))
        ensures name in m.tools && name in current ==> m.tools[name].stability == current[name].stability
      {
        NameExact(m.tools, current, r, name);
      }
    }
    if Frozen(m, current, strict) {
      if r.stableChanged != [] { ChangeExact(m.tools, current, r.stableChanged[0]); }
      if r.classChanged != [] { ChangeExact(m.tools, current, r.classChanged[0]); }
      if strict && r.previewChanged != [] { ChangeExact(m.tools, current, r.previewChanged[0]); }
    }
  }

  // A manifest that was just generated always verifies, strict or not.
  lemma {:induction false} GeneratedVerifies(tools: map<string, Entry>, strict: bool)
    ensures Frozen(Generate(tools), tools, strict)
  {
  }

  // Two tools with the same compared contract.
  predicate SameContract(a: Spec, b: Spec) {
    a.annotations == b.annotations && a.input == b.input && a.output == b.output && a.description == b.description
  }

  ghost predicate Injective(f: string -> string) {
    forall x, y :: f(x) == f(y) ==> x == y
  }

  ghost predicate InjectiveBytes(f: bytes -> string) {
    forall x, y :: f(x) == f(y) ==> x == y
  }

  // Verification against the record of earlier snapshots: it passes exactly when the number of tools is kept and
  // every stable tool (under strict, every tool) of either side is on both sides with the same contract.
  lemma {:induction false} FreezeExact(codec: Codec, earlier: map<string, Entry>, earlierFiles: seq<bytes>,
                                       current: map<string, Entry>, files: seq<bytes>, strict: bool)
    requires Injective(codec.canonical) && LoadedFrom(codec, earlier, earlierFiles) && LoadedFrom(codec, current, files)
    ensures Frozen(Generate(earlier), current, strict) <==>
              && |earlier| == |current|
              && forall name :: (name in earlier || name in current) && (strict || StabilityOf(name) == Stable) ==>
                   name in earlier && name in current
                   && SameContract(SpecFor(codec, name, earlierFiles), SpecFor(codec, name, files))
  {
    hide *;
    var m := Generate(earlier);
    assert m.tools.Keys == earlier.Keys && (Frozen(m, current, strict) <==>
           FrozenTools(m.tools, current, strict) && |earlier| == |current|) by {
      GeneratedFrozen(earlier, current, strict);
    }
    FrozenToolsExact(codec, earlier, earlierFiles, current, files, strict);
  }

  lemma {:induction false} FrozenToolsExact(codec: Codec, earlier: map<string, Entry>, earlierFiles: seq<bytes>,
                                            current: map<string, Entry>, files: seq<bytes>, strict: bool)
    requires Injective(codec.canonical) && LoadedFrom(codec, earlier, earlierFiles) && LoadedFrom(codec, current, files)
    ensures FrozenTools(Generate(earlier).tools, current, strict) <==>
              forall name :: (name in earlier || name in current) && (strict || StabilityOf(name) == Stable) ==>
                name in earlier && name in current
                && SameContract(SpecFor(codec, name, earlierFiles), SpecFor(codec, name, files))
  {
    hide *;
    var tools := Generate(earlier).tools;
    assert tools.Keys == earlier.Keys by { GeneratedFrozen(earlier, current, strict); }
    forall name | name in earlier || name in current
      ensures Bucket(tools, current, name) == StabilityOf(name)
      ensures name in earlier && name in current ==>
                tools[name].stability == current[name].stability
                && (Kept(tools, current, name) <==>
                     SameContract(SpecFor(codec, name, earlierFiles), SpecFor(codec, name, files)))
      ensures Kept(tools, current, name) ==> name in earlier && name in current
    {
      NameFrozen(codec, earlier, earlierFiles, current, files, name);
    }
    FrozenToolsMeans(tools, current, strict);
  }

  lemma {:induction false} FrozenToolsMeans(recorded: map<string, Recorded>, current: map<string, Entry>, strict: bool)
    ensures FrozenTools(recorded, current, strict) <==>
              forall name :: name in recorded || name in current ==>
                && (name in recorded && name in current ==> recorded[name].stability == current[name].stability)
                && (strict || Bucket(recorded, current, name) == Stable ==> Kept(recorded, current, name))
  {
  }

  lemma {:induction false} GeneratedFrozen(earlier: map<string, Entry>, current: map<string, Entry>, strict: bool)
    ensures Generate(earlier).tools.Keys == earlier.Keys
    ensures Frozen(Generate(earlier), current, strict) <==>
              FrozenTools(Generate(earlier).tools, current, strict) && |earlier| == |current|
  {
  }

  lemma {:induction false} NameFrozen(codec: Codec, earlier: map<string, Entry>, earlierFiles: seq<bytes>,
                                      current: map<string, Entry>, files: seq<bytes>, name: string)
    requires Injective(codec.canonical) && LoadedFrom(codec, earlier, earlierFiles) && LoadedFrom(codec, current, files)
    requires name in earlier || name in current
    ensures var tools := Generate(earlier).tools;
            && tools.Keys == earlier.Keys && Bucket(tools, current, name) == StabilityOf(name)
            && (name in earlier && name in current ==>
                 tools[name].stability == current[name].stability
                 && (Kept(tools, current, name) <==>
                      SameContract(SpecFor(codec, name, earlierFiles), SpecFor(codec, name, files))))
            && (Kept(tools, current, name) ==> name in earlier && name in current)
  {
    hide StabilityOf, SpecFor, LoadedFrom;
    if name in earlier { SpecForEntry(codec, earlier, earlierFiles, name); }
    if name in current { SpecForEntry(codec, current, files, name); }
  }

  // The description of a tool that counts: the last file of that name.
  function SpecFor(codec: Codec, name: string, files: seq<bytes>): Spec {
    if files == [] then Spec(name, map[], "", "", "")
    else
      var spec := codec.parse(Last(files));
      if spec.Some? && spec.value.name == name then spec.value else SpecFor(codec, name, Front(files))
  }

  lemma {:induction false} SpecForLast(codec: Codec, name: string, entry: Entry, files: seq<bytes>, i: nat)
    requires i < |files| && LastFor(codec, name, entry, files, i)
    ensures codec.parse(files[i]) == Some(SpecFor(codec, name, files))
  {
    if i < |files| - 1 {
      SpecForLast(codec, name, entry, Front(files), i);
    }
  }

  lemma {:induction false} SpecForEntry(codec: Codec, tools: map<string, Entry>, files: seq<bytes>, name: string)
    requires LoadedFrom(codec, tools, files) && name in tools
    ensures var spec := SpecFor(codec, name, files);
            exists raw :: raw in files && codec.parse(raw) == Some(spec) && spec.name == name
              && tools[name] == ToolEntry(codec, spec, raw)
  {
    var i :| 0 <= i < |files| && LastFor(codec, name, tools[name], files, i);
    SpecForLast(codec, name, tools[name], files, i);
    assert files[i] in files;
  }

  // ----- diff -----

  datatype ChangedRow = ChangedRow(name: string, keysChanged: seq<Field>, inputChanged: bool, outputChanged: bool,
                                   annotationsChanged: bool, bytesIdentical: bool)

  datatype KeptRow = KeptRow(name: string, bytesIdentical: bool)

  // kept: the rows the source lists as unchanged.
  datatype Diff = Diff(added: seq<string>, removed: seq<string>, changed: seq<ChangedRow>, kept: seq<KeptRow>)

  function KeysChanged(before: Entry, after: Entry): seq<Field> {
    (if before.description != after.description then [Description] else [])
    + (if before.annotations != after.annotations then [Annotations] else [])
    + (if before.input != after.input then [InputSchema] else [])
    + (if before.output != after.output then [OutputSchema] else [])
  }

  function Restrict(tools: map<string, Entry>, only: Option<seq<string>>): map<string, Entry> {
    if only.None? || only.value == [] then tools else map name | name in tools && name in only.value :: tools[name]
  }

  // The row of a name both sides have.
  function RowOf(name: string, before: Entry, after: Entry): ChangedRow {
    var keys := KeysChanged(before, after);
    ChangedRow(name, keys, InputSchema in keys, OutputSchema in keys, Annotations in keys,
               before.snapshot == after.snapshot)
  }

  // What the four lists of a diff must be.
  ghost predicate Diffs(base: map<string, Entry>, current: map<string, Entry>, d: Diff) {
    && Increasing(Before, d.added) && (forall name :: name in d.added <==> name in current && name !in base)
    && Increasing(Before, d.removed) && (forall name :: name in d.removed <==> name in base && name !in current)
    && RowsFor(base, current, base.Keys * current.Keys, d)
  }

  // changed and kept, over some of the common names.
  ghost predicate RowsFor(base: map<string, Entry>, current: map<string, Entry>, names: set<string>, d: Diff) {
    && names <= base.Keys * current.Keys
    && (forall i, j :: 0 <= i < j < |d.changed| ==> Before(d.changed[i].name, d.changed[j].name))
    && (forall i, j :: 0 <= i < j < |d.kept| ==> Before(d.kept[i].name, d.kept[j].name))
    && (forall row :: row in d.changed <==>
          row.name in names && row == RowOf(row.name, base[row.name], current[row.name]) && row.keysChanged != [])
    && (forall row :: row in d.kept <==>
          row.name in names && KeysChanged(base[row.name], current[row.name]) == []
          && row.bytesIdentical == (base[row.name].snapshot == current[row.name].snapshot))
  }

  // cmd_diff
  method CmdDiff(base0: map<string, Entry>, current0: map<string, Entry>, only: Option<seq<string>>) returns (d: Diff)
    ensures Diffs(Restrict(base0, only), Restrict(current0, only), d)
  {
    hide *;
    var base, current := Restrict(base0, only), Restrict(current0, only);
    var added, removed := InOrder(current.Keys - base.Keys), InOrder(base.Keys - current.Keys);
    d := DiffRows(base, current, Diff(added, removed, [], []));
    DiffOfParts(base, current, d);
  }

  lemma {:induction false} DiffOfParts(base: map<string, Entry>, current: map<string, Entry>, d: Diff)
    requires Increasing(Before, d.added) && Elements(d.added) == current.Keys - base.Keys
    requires Increasing(Before, d.removed) && Elements(d.removed) == base.Keys - current.Keys
    requires RowsFor(base, current, base.Keys * current.Keys, d)
    ensures Diffs(base, current, d)
  {
    hide RowsFor, Increasing;
    forall name ensures name in d.added <==> name in Elements(d.added) { }
    forall name ensures name in d.removed <==> name in Elements(d.removed) { }
  }

  method DiffRows(base: map<string, Entry>, current: map<string, Entry>, d0: Diff) returns (d: Diff)
    requires d0.changed == [] && d0.kept == []
    ensures d.added == d0.added && d.removed == d0.removed && RowsFor(base, current, base.Keys * current.Keys, d)
  {
    d := d0;
    var names := InOrder(base.Keys * current.Keys);
    assert RowsFor(base, current, Elements(names[..0]), d);
    hide RowsFor, KeysChanged, Increasing;
    for i := 0 to |names|
      invariant RowsFor(base, current, Elements(names[..i]), d) && d.added == d0.added && d.removed == d0.removed
    {
      assert names[i] in names;
      var name := names[i];
      ElementsPush(names, i);
      LaterName(names, i);
      RowsGrow(base, current, Elements(names[..i]), name, d);
      var keysChanged := KeysChanged(base[name], current[name]);
      if keysChanged != [] {
        d := d.(changed := d.changed + [RowOf(name, base[name], current[name])]);
      } else {
        d := d.(kept := d.kept + [KeptRow(name, base[name].snapshot == current[name].snapshot)]);
      }
    }
    assert names[..|names|] == names;
  }

  lemma {:induction false} LaterName(names: seq<string>, i: nat)
    requires i < |names| && Increasing(Before, names)
    ensures forall name :: name in Elements(names[..i]) ==> Before(name, names[i])
  {
  }

  lemma {:induction false} RowsGrow(base: map<string, Entry>, current: map<string, Entry>, names: set<string>,
                                    name: string, d: Diff)
    requires RowsFor(base, current, names, d) && name in base && name in current
    requires forall other :: other in names ==> Before(other, name)
    ensures RowsFor(base, current, names + {name},
                    if KeysChanged(base[name], current[name]) != []
                    then d.(changed := d.changed + [RowOf(name, base[name], current[name])])
                    else d.(kept := d.kept + [KeptRow(name, base[name].snapshot == current[name].snapshot)]))
  {
    hide KeysChanged;
    BeforeIrreflexive(name);
    forall row | row in d.changed ensures Before(row.name, name) { }
    forall row | row in d.kept ensures Before(row.name, name) { }
  }

  // ----- what a diff says -----

  function ChangedNames(d: Diff): set<string> {
    Elements(NamesOf(d.changed, (row: ChangedRow) => row.name))
  }

  function KeptNames(d: Diff): set<string> {
    Elements(NamesOf(d.kept, (row: KeptRow) => row.name))
  }

  // The four lists share no name, repeat none, and together name every tool of either side.
  lemma {:induction false} DiffPartitions(base: map<string, Entry>, current: map<string, Entry>, d: Diff)
    requires Diffs(base, current, d)
    ensures Elements(d.added) + Elements(d.removed) + ChangedNames(d) + KeptNames(d) == base.Keys + current.Keys
    ensures Elements(d.added) !! Elements(d.removed) !! ChangedNames(d) !! KeptNames(d)
    ensures |Elements(d.added)| == |d.added| && |Elements(d.removed)| == |d.removed|
    ensures |ChangedNames(d)| == |d.changed| && |KeptNames(d)| == |d.kept|
  {
    hide *;
    CommonNames(base, current, d);
    SideNames(base, current, d);
    FourWay(base.Keys, current.Keys, Elements(d.added), Elements(d.removed), ChangedNames(d), KeptNames(d));
  }

  lemma {:induction false} FourWay(base: set<string>, current: set<string>, added: set<string>, removed: set<string>,
                                   changed: set<string>, kept: set<string>)
    requires added == current - base && removed == base - current && changed + kept == base * current && changed !! kept
    ensures added + removed + changed + kept == base + current && added !! removed !! changed !! kept
  {
  }

  lemma {:induction false} SideNames(base: map<string, Entry>, current: map<string, Entry>, d: Diff)
    requires Diffs(base, current, d)
    ensures Elements(d.added) == current.Keys - base.Keys && Elements(d.removed) == base.Keys - current.Keys
    ensures |Elements(d.added)| == |d.added| && |Elements(d.removed)| == |d.removed|
  {
    hide RowsFor, Before;
    IncreasingSize(d.added);
    IncreasingSize(d.removed);
  }

  lemma {:induction false} CommonNames(base: map<string, Entry>, current: map<string, Entry>, d: Diff)
    requires Diffs(base, current, d)
    ensures ChangedNames(d) + KeptNames(d) == base.Keys * current.Keys && ChangedNames(d) !! KeptNames(d)
    ensures |ChangedNames(d)| == |d.changed| && |KeptNames(d)| == |d.kept|
  {
    hide KeysChanged, Increasing, Before;
    NamesApart(d.changed, (row: ChangedRow) => row.name);
    NamesApart(d.kept, (row: KeptRow) => row.name);
    hide *;
    forall name
      ensures name in ChangedNames(d) <==>
              name in base && name in current && KeysChanged(base[name], current[name]) != []
      ensures name in KeptNames(d) <==> name in base && name in current && KeysChanged(base[name], current[name]) == []
    {
      CommonName(base, current, d, name);
    }
  }

  lemma {:induction false} CommonName(base: map<string, Entry>, current: map<string, Entry>, d: Diff, name: string)
    requires Diffs(base, current, d)
    ensures name in ChangedNames(d) <==> name in base && name in current && KeysChanged(base[name], current[name]) != []
    ensures name in KeptNames(d) <==> name in base && name in current && KeysChanged(base[name], current[name]) == []
  {
    hide KeysChanged, Increasing, Before;
    NamedRow(d.changed, (row: ChangedRow) => row.name, name);
    NamedRow(d.kept, (row: KeptRow) => row.name, name);
    hide NamesOf, Elements;
    if name in base && name in current {
      var row := RowOf(name, base[name], current[name]);
      var other := KeptRow(name, row.bytesIdentical);
      assert KeysChanged(base[name], current[name]) != [] <==> row in d.changed;
      assert KeysChanged(base[name], current[name]) == [] <==> other in d.kept;
    }
  }

  lemma {:induction false} NamedRow<T>(rows: seq<T>, name: T -> string, wanted: string)
    ensures wanted in Elements(NamesOf(rows, name)) <==> exists row :: row in rows && name(row) == wanted
  {
    var names := NamesOf(rows, name);
    if wanted in names {
      var i :| 0 <= i < |names| && names[i] == wanted;
      assert rows[i] in rows && name(rows[i]) == wanted;
    }
    if row :| row in rows && name(row) == wanted {
      var i :| 0 <= i < |rows| && rows[i] == row;
      assert names[i] == wanted;
    }
  }

  function NamesOf<T>(rows: seq<T>, name: T -> string): (names: seq<string>)
    ensures |names| == |rows|
  {
    seq(|rows|, i requires 0 <= i < |rows| => name(rows[i]))
  }

  lemma {:induction false} NamesApart<T>(rows: seq<T>, name: T -> string)
    requires forall i, j :: 0 <= i < j < |rows| ==> Before(name(rows[i]), name(rows[j]))
    ensures |Elements(NamesOf(rows, name))| == |rows|
  {
    hide Before;
    IncreasingSize(NamesOf(rows, name));
  }

  lemma {:induction false} IncreasingSize(names: seq<string>)
    requires Increasing(Before, names)
    ensures |Elements(names)| == |names|
  {
    if names != [] {
      IncreasingSize(Front(names));
      BeforeIrreflexive(Last(names));
      assert Last(names) !in Front(names);
      assert Elements(names) == Elements(Front(names)) + {Last(names)};
    } else {
      assert Elements(names) == {};
    }
  }

  lemma {:induction false} RowSwaps(name: string, before: Entry, after: Entry)
    ensures KeysChanged(before, after) == KeysChanged(after, before)
            && RowOf(name, before, after) == RowOf(name, after, before)
  {
    assert KeysChanged(before, after) == KeysChanged(after, before);
    hide KeysChanged;
  }

  lemma {:induction false} RowsSwap(base: map<string, Entry>, current: map<string, Entry>, names: set<string>, d: Diff)
    requires RowsFor(base, current, names, d)
    ensures RowsFor(current, base, names, Diff(d.removed, d.added, d.changed, d.kept))
  {
    hide KeysChanged, RowOf, Before;
    assert names <= current.Keys * base.Keys;
    forall name | name in names
      ensures KeysChanged(base[name], current[name]) == KeysChanged(current[name], base[name])
      ensures RowOf(name, base[name], current[name]) == RowOf(name, current[name], base[name])
    {
      RowSwaps(name, base[name], current[name]);
    }
  }

  // Exchanging the sides exchanges added and removed, and changes nothing else.
  lemma {:induction false} DiffSwaps(base: map<string, Entry>, current: map<string, Entry>, d: Diff)
    requires Diffs(base, current, d)
    ensures Diffs(current, base, Diff(d.removed, d.added, d.changed, d.kept))
  {
    hide RowsFor, Increasing;
    RowsSwap(base, current, base.Keys * current.Keys, d);
    assert base.Keys * current.Keys == current.Keys * base.Keys;
  }

  // There is only one diff of two tool sets.
  lemma {:induction false} DiffUnique(base: map<string, Entry>, current: map<string, Entry>, d: Diff, e: Diff)
    requires Diffs(base, current, d) && Diffs(base, current, e)
    ensures d == e
  {
    hide KeysChanged, RowOf;
    BeforeStrictTotal();
    IncreasingUnique(Before, d.added, e.added);
    IncreasingUnique(Before, d.removed, e.removed);
    IncreasingUnique((a: ChangedRow, b: ChangedRow) => Before(a.name, b.name), d.changed, e.changed);
    IncreasingUnique((a: KeptRow, b: KeptRow) => Before(a.name, b.name), d.kept, e.kept);
  }

  function Keep<T(!new)>(xs: seq<T>, p: T -> bool): (kept: seq<T>)
    ensures forall x :: x in kept <==> x in xs && p(x)
  {
    if xs == [] then [] else Keep(Front(xs), p) + if p(Last(xs)) then [Last(xs)] else []
  }

  lemma {:induction false} KeepIncreasing<T(!new)>(less: (T, T) -> bool, xs: seq<T>, p: T -> bool)
    requires Increasing(less, xs)
    ensures Increasing(less, Keep(xs, p))
  {
    if xs != [] {
      KeepIncreasing(less, Front(xs), p);
      forall x | x in Keep(Front(xs), p) ensures less(x, Last(xs)) {
        var i :| 0 <= i < |xs| - 1 && xs[i] == x;
      }
    }
  }

  function KeepOnly(d: Diff, only: seq<string>): Diff {
    Diff(Keep(d.added, name => name in only), Keep(d.removed, name => name in only),
         Keep(d.changed, (row: ChangedRow) => row.name in only), Keep(d.kept, (row: KeptRow) => row.name in only))
  }

  // Asking for some tools only is the full diff with the other tools left out.
  lemma {:induction false} OnlyFilters(base: map<string, Entry>, current: map<string, Entry>, only: seq<string>,
                                       d: Diff, e: Diff)
    requires only != [] && Diffs(base, current, d)
    requires Diffs(Restrict(base, Some(only)), Restrict(current, Some(only)), e)
    ensures e == KeepOnly(d, only)
  {
    hide KeepOnly, RowsFor, Restrict, Increasing;
    var some, others := Restrict(base, Some(only)), Restrict(current, Some(only));
    KeepsRows(base, current, only, d);
    KeepsNames(base, current, only, d);
    DiffUnique(some, others, e, KeepOnly(d, only));
  }

  lemma {:induction false} KeepsRows(base: map<string, Entry>, current: map<string, Entry>, only: seq<string>, d: Diff)
    requires only != [] && RowsFor(base, current, base.Keys * current.Keys, d)
    ensures var some, others := Restrict(base, Some(only)), Restrict(current, Some(only));
            RowsFor(some, others, some.Keys * others.Keys, KeepOnly(d, only))
  {
    hide KeysChanged, RowOf, Before;
    KeepIncreasing((a: ChangedRow, b: ChangedRow) => Before(a.name, b.name), d.changed, (row: ChangedRow) =>
        row.name in only);
    KeepIncreasing((a: KeptRow, b: KeptRow) => Before(a.name, b.name), d.kept, (row: KeptRow) => row.name in only);
    hide Keep, Increasing;
    assert forall name :: name in Restrict(base, Some(only)) <==> name in base && name in only;
    assert forall name :: name in Restrict(current, Some(only)) <==> name in current && name in only;
  }

  lemma {:induction false} KeepsNames(base: map<string, Entry>, current: map<string, Entry>, only: seq<string>, d: Diff)
    requires only != [] && Diffs(base, current, d)
    requires var some, others := Restrict(base, Some(only)), Restrict(current, Some(only));
             RowsFor(some, others, some.Keys * others.Keys, KeepOnly(d, only))
    ensures Diffs(Restrict(base, Some(only)), Restrict(current, Some(only)), KeepOnly(d, only))
  {
    hide RowsFor, Before;
    KeepIncreasing(Before, d.added, name => name in only);
    KeepIncreasing(Before, d.removed, name => name in only);
    hide Keep, Increasing;
  }

  // With collision-free digests a changed row never claims identical bytes, and exactly a changed contract is a changed
  // row.
  lemma {:induction false} ChangedExact(codec: Codec, base: map<string, Entry>, baseFiles: seq<bytes>,
                                        current: map<string, Entry>, files: seq<bytes>, d: Diff, name: string)
    requires Injective(codec.canonical) && InjectiveBytes(codec.digest)
    requires LoadedFrom(codec, base, baseFiles) && LoadedFrom(codec, current, files)
    requires Diffs(base, current, d) && name in base && name in current
    ensures forall row :: row in d.changed ==> !row.bytesIdentical
    ensures (exists row :: row in d.changed && row.name == name) <==>
              !SameContract(SpecFor(codec, name, baseFiles), SpecFor(codec, name, files))
  {
    hide KeysChanged, SpecFor, SameContract, LoadedFrom;
    forall row | row in d.changed ensures !row.bytesIdentical {
      ContractChanged(codec, base, baseFiles, current, files, row.name);
    }
    ContractChanged(codec, base, baseFiles, current, files, name);
    assert RowOf(name, base[name], current[name]).name == name;
  }

  lemma {:induction false} ContractChanged(codec: Codec, base: map<string, Entry>, baseFiles: seq<bytes>,
                                           current: map<string, Entry>, files: seq<bytes>, name: string)
    requires Injective(codec.canonical) && InjectiveBytes(codec.digest)
    requires LoadedFrom(codec, base, baseFiles) && LoadedFrom(codec, current, files) && name in base && name in current
    ensures KeysChanged(base[name], current[name]) == [] <==>
              SameContract(SpecFor(codec, name, baseFiles), SpecFor(codec, name, files))
    ensures base[name].snapshot == current[name].snapshot ==> KeysChanged(base[name], current[name]) == []
  {
    hide SpecFor, LoadedFrom;
    SpecForEntry(codec, base, baseFiles, name);
    SpecForEntry(codec, current, files, name);
  }

  // ----- entries, records and rows, field by field -----

  // The five preview tools by name; every other tool is stable.
  lemma {:induction false} StabilityExact(name: string)
    ensures name in ["rust.analyzer.symbols", "rust.analyzer.references", "rust.analyzer.diagnostics",
                     "rust.analyzer.actions", "rust.analyzer.action.apply"]
            ==> StabilityOf(name) == Preview
    ensures name !in ["rust.analyzer.symbols", "rust.analyzer.references", "rust.analyzer.diagnostics",
                      "rust.analyzer.actions", "rust.analyzer.action.apply"]
            ==> StabilityOf(name) == Stable
  {
    var names := ["rust.analyzer.symbols", "rust.analyzer.references", "rust.analyzer.diagnostics",
                  "rust.analyzer.actions", "rust.analyzer.action.apply"];
    assert forall x :: x in names <==>
      x == names[0] || x == names[1] || x == names[2] || x == names[3] || x == names[4];
  }

  // A loaded entry has the fields of the last file that describes its name.
  lemma {:induction false} LoadedFields(codec: Codec, tools: map<string, Entry>, files: seq<bytes>, name: string)
    requires LoadedFrom(codec, tools, files) && name in tools
    ensures exists i :: 0 <= i < |files| && codec.parse(files[i]).Some? && codec.parse(files[i]).value.name == name
              && (forall j :: i < j < |files| ==>
                    codec.parse(files[j]).Some? && codec.parse(files[j]).value.name != name)
              && EntryHolds(codec, tools[name], codec.parse(files[i]).value, files[i])
  {
    var i :| 0 <= i < |files| && LastFor(codec, name, tools[name], files, i);
    StabilityExact(name);
    hide StabilityOf;
    assert EntryHolds(codec, tools[name], codec.parse(files[i]).value, files[i]);
  }

  ghost predicate EntryHolds(codec: Codec, entry: Entry, spec: Spec, raw: bytes) {
    && entry.annotations == spec.annotations && entry.input == codec.canonical(spec.input)
    && entry.output == codec.canonical(spec.output) && entry.description == codec.canonical(spec.description)
    && entry.snapshot == codec.digest(raw)
    && (entry.stability == Preview <==>
          spec.name in ["rust.analyzer.symbols", "rust.analyzer.references", "rust.analyzer.diagnostics",
                        "rust.analyzer.actions", "rust.analyzer.action.apply"])
    && (entry.stability == Preview || entry.stability == Stable)
  }

  // What is recorded: the two fixed marks, the number of tools, and every entry but its snapshot.
  lemma {:induction false} GeneratedFields(tools: map<string, Entry>)
    ensures var m := Generate(tools);
            && m.format == Some(1) && m.count == Some(|tools|) && m.tools.Keys == tools.Keys
            && m.canonical == Some("json sort_keys separators(',',':') ensure_ascii=False sha256")
            && forall name :: name in tools ==>
                 && m.tools[name].stability == tools[name].stability
                 && m.tools[name].annotations == Some(tools[name].annotations)
                 && m.tools[name].input == Some(tools[name].input)
                 && m.tools[name].output == Some(tools[name].output)
                 && m.tools[name].description == Some(tools[name].description)
  {
  }

  ghost predicate Differs(recorded: Recorded, entry: Entry, field: Field) {
    match field
    case Annotations => recorded.annotations != Some(entry.annotations)
    case InputSchema => recorded.input != Some(entry.input)
    case OutputSchema => recorded.output != Some(entry.output)
    case Description => recorded.description != Some(entry.description)
  }

  // The order in which verify names fields, and the one in which diff does.
  ghost function VerifyRank(field: Field): nat {
    match field
    case Annotations => 0
    case InputSchema => 1
    case OutputSchema => 2
    case Description => 3
  }

  ghost function DiffRank(field: Field): nat {
    match field
    case Description => 0
    case Annotations => 1
    case InputSchema => 2
    case OutputSchema => 3
  }

  // The fields reported for a tool are those that differ, each once, in a fixed order.
  lemma {:induction false} DifferencesExact(recorded: Recorded, entry: Entry)
    ensures forall field :: field in Differences(recorded, entry) <==> Differs(recorded, entry, field)
    ensures var fields := Differences(recorded, entry);
            forall i, j :: 0 <= i < j < |fields| ==> VerifyRank(fields[i]) < VerifyRank(fields[j])
  {
    forall field ensures field in Differences(recorded, entry) <==> Differs(recorded, entry, field) {
      match field
      case Annotations =>
      case InputSchema =>
      case OutputSchema =>
      case Description =>
    }
  }

  lemma {:induction false} KeysChangedExact(before: Entry, after: Entry)
    ensures var keys := KeysChanged(before, after);
            && (Annotations in keys <==> before.annotations != after.annotations)
            && (InputSchema in keys <==> before.input != after.input)
            && (OutputSchema in keys <==> before.output != after.output)
            && (Description in keys <==> before.description != after.description)
  {
  }

  lemma {:induction false} KeysChangedOrdered(before: Entry, after: Entry)
    ensures var keys := KeysChanged(before, after);
            forall i, j :: 0 <= i < j < |keys| ==> DiffRank(keys[i]) < DiffRank(keys[j])
  {
  }

  // A changed row: the fields that differ in order, each flag for its own field, and whether the bytes are the same.
  lemma {:induction false} RowExact(name: string, before: Entry, after: Entry)
    ensures var row := RowOf(name, before, after);
            && row.name == name
            && (Annotations in row.keysChanged <==> before.annotations != after.annotations)
            && (InputSchema in row.keysChanged <==> before.input != after.input)
            && (OutputSchema in row.keysChanged <==> before.output != after.output)
            && (Description in row.keysChanged <==> before.description != after.description)
            && (forall i, j :: 0 <= i < j < |row.keysChanged| ==>
                  DiffRank(row.keysChanged[i]) < DiffRank(row.keysChanged[j]))
            && (row.inputChanged <==> before.input != after.input)
            && (row.outputChanged <==> before.output != after.output)
            && (row.annotationsChanged <==> before.annotations != after.annotations)
            && (row.bytesIdentical <==> before.snapshot == after.snapshot)
  {
    KeysChangedExact(before, after);
    KeysChangedOrdered(before, after);
    hide KeysChanged, DiffRank;
  }

  // A restriction keeps the named tools as they are, and everything if it names none.
  lemma {:induction false} RestrictExact(tools: map<string, Entry>, only: Option<seq<string>>, name: string)
    ensures name in Restrict(tools, only)
       <==> name in tools && (only == None || only == Some([]) || name in only.value)
    ensures name in Restrict(tools, only) ==> Restrict(tools, only)[name] == tools[name]
  {
  }
}
