/** The installing program's own reading of a release archive, and its manifest check. */
module InstalledArchive {
  import opened Ordering
  import opened ReleaseArchive
  import opened Results
  import opened SafePath
  import opened Text

  const MAX_MEMBER_BYTES := 536870912
  const MAX_TOTAL_BYTES := 734003200
  const MAX_JSON_BYTES := 16777216

  // ----- load_archive, from the tar entries on -----

  predicate Loadable(e: Entry, prefix: string) {
    && SafeRelative(e.name).Ok? && prefix + "/" <= e.name
    && SafeRelative(Logical(prefix, e)).Ok? && |Parts(Logical(prefix, e))| == 1
    && e.kind == Regular && Untouched(e) && |e.data| <= MAX_MEMBER_BYTES
  }

  function TotalSize(entries: seq<Entry>): nat {
    if entries == [] then 0 else TotalSize(entries[..|entries| - 1]) + |entries[|entries| - 1].data|
  }

  ghost predicate LoadAccepted(entries: seq<Entry>, prefix: string) {
    && entries != []
    && (forall e :: e in entries ==> Loadable(e, prefix))
    && NoRepeats(Logicals(prefix, entries))
    && TotalSize(entries) <= MAX_TOTAL_BYTES
  }

  // stat.S_IMODE
  function Permissions(e: Entry): nat {
    e.mode % 4096
  }

  ghost predicate Held(e: Entry, prefix: string, contents: map<string, Bytes>, modes: map<string, nat>) {
    var logical := Logical(prefix, e);
    logical in contents && logical in modes && contents[logical] == e.data && modes[logical] == Permissions(e)
  }

  // The loaded maps hold exactly these entries.
  ghost predicate Loaded(entries: seq<Entry>, prefix: string, contents: map<string, Bytes>, modes: map<string, nat>) {
    && contents.Keys == modes.Keys == Elements(Logicals(prefix, entries))
    && forall e :: e in entries ==> Held(e, prefix, contents, modes)
  }

  datatype LoadError = EntryInvalid(index: nat) | TooLarge | NoMembers

  ghost predicate LoadedSoFar(entries: seq<Entry>, i: nat, prefix: string, contents: map<string, Bytes>,
                              modes: map<string, nat>)
    requires i <= |entries|
  {
    && (forall e :: e in entries[..i] ==> Loadable(e, prefix))
    && NoRepeats(Logicals(prefix, entries[..i])) && Loaded(entries[..i], prefix, contents, modes)
  }

  method LoadArchive(entries: seq<Entry>, prefix: string)
    returns (failure: Option<LoadError>, contents: map<string, Bytes>, modes: map<string, nat>)
    ensures failure.None? <==> LoadAccepted(entries, prefix)
    ensures failure.None? ==> Loaded(entries, prefix, contents, modes)
  {
    failure, contents, modes := None, map[], map[];
    var total := 0;
    LoadEnds(entries, prefix, contents, modes);
    hide Logical, Loadable, LoadedSoFar, LoadAccepted, Loaded, TotalSize, Logicals;
    for i := 0 to |entries|
      invariant LoadedSoFar(entries, i, prefix, contents, modes)
      invariant total == TotalSize(entries[..i]) <= MAX_TOTAL_BYTES
    {
      var e := entries[i];
      LoadStep(entries, i, prefix, contents, modes);
      if !Loadable(e, prefix) || Logical(prefix, e) in contents {
        return Some(EntryInvalid(i)), contents, modes;
      }
      total := total + |e.data|;
      if total > MAX_TOTAL_BYTES {
        return Some(TooLarge), contents, modes;
      }
      contents := contents[Logical(prefix, e) := e.data];
      modes := modes[Logical(prefix, e) := Permissions(e)];
    }
    LoadEnds(entries, prefix, contents, modes);
    if contents == map[] {
      return Some(NoMembers), contents, modes;
    }
  }

  lemma {:induction false} LoadEnds(entries: seq<Entry>, prefix: string, contents: map<string, Bytes>,
                                    modes: map<string, nat>)
    ensures LoadedSoFar(entries, 0, prefix, map[], map[]) && TotalSize(entries[..0]) == 0
    ensures LoadedSoFar(entries, |entries|, prefix, contents, modes)
            && TotalSize(entries[..|entries|]) <= MAX_TOTAL_BYTES ==>
              && Loaded(entries, prefix, contents, modes)
              && (contents == map[] <==> entries == []) && (LoadAccepted(entries, prefix) <==> entries != [])
  {
    hide Logical, Loadable;
    assert entries[..|entries|] == entries;
    if LoadedSoFar(entries, |entries|, prefix, contents, modes) && entries != [] {
      assert Held(entries[0], prefix, contents, modes);
    }
  }

  lemma {:induction false} LoadStep(entries: seq<Entry>, i: nat, prefix: string, contents: map<string, Bytes>,
                                    modes: map<string, nat>)
    requires i < |entries| && LoadedSoFar(entries, i, prefix, contents, modes)
    ensures TotalSize(entries[..i + 1]) == TotalSize(entries[..i]) + |entries[i].data|
    ensures var logical := Logical(prefix, entries[i]);
            if Loadable(entries[i], prefix) && logical !in contents then
              && LoadedSoFar(entries, i + 1, prefix, contents[logical := entries[i].data],
                             modes[logical := Permissions(entries[i])])
              && (TotalSize(entries[..i + 1]) > MAX_TOTAL_BYTES ==> !LoadAccepted(entries, prefix))
            else !LoadAccepted(entries, prefix)
  {
    TotalGrows(entries, i + 1);
    assert entries[..i + 1][..i] == entries[..i];
    var logical := Logical(prefix, entries[i]);
    if Loadable(entries[i], prefix) && logical !in contents {
      LoadOne(entries, i, prefix, contents, modes);
    } else {
      LoadFails(entries, i, prefix, contents, modes);
    }
    hide LoadedSoFar, Loadable;
  }

  lemma {:induction false} LoadOne(entries: seq<Entry>, i: nat, prefix: string, contents: map<string, Bytes>,
                                   modes: map<string, nat>)
    requires i < |entries| && LoadedSoFar(entries, i, prefix, contents, modes)
    requires Loadable(entries[i], prefix) && Logical(prefix, entries[i]) !in contents
    ensures LoadedSoFar(entries, i + 1, prefix, contents[Logical(prefix, entries[i]) := entries[i].data],
                        modes[Logical(prefix, entries[i]) := Permissions(entries[i])])
  {
    assert entries[..i + 1] == entries[..i] + [entries[i]];
    hide Loadable, Permissions;
    LoadedPush(prefix, entries, i, contents, modes);
    LogicalsPush(prefix, entries, i);
    hide Logical, Logicals, Held;
  }

  lemma {:induction false} LoadFails(entries: seq<Entry>, i: nat, prefix: string, contents: map<string, Bytes>,
                                     modes: map<string, nat>)
    requires i < |entries| && LoadedSoFar(entries, i, prefix, contents, modes)
    requires !Loadable(entries[i], prefix) || Logical(prefix, entries[i]) in contents
    ensures !LoadAccepted(entries, prefix)
  {
    assert entries[i] in entries;
    LogicalsPush(prefix, entries, i);
    hide Logical, Logicals, Held, Loadable, Permissions;
  }

  lemma {:induction false} TotalGrows(entries: seq<Entry>, i: nat)
    requires i <= |entries|
    ensures TotalSize(entries[..i]) <= TotalSize(entries)
    decreases |entries|
  {
    var n := |entries| - 1;
    if i <= n {
      TotalGrows(entries[..n], i);
      assert entries[..n][..i] == entries[..i];
    } else {
      assert entries[..i] == entries;
    }
  }

  lemma {:induction false} LoadedPush(prefix: string, entries: seq<Entry>, i: nat, contents: map<string, Bytes>,
                                      modes: map<string, nat>)
    requires i < |entries| && Loaded(entries[..i], prefix, contents, modes)
    requires Logical(prefix, entries[i]) !in contents
    ensures Loaded(entries[..i + 1], prefix, contents[Logical(prefix, entries[i]) := entries[i].data],
                   modes[Logical(prefix, entries[i]) := Permissions(entries[i])])
  {
    hide *;
    var e, more := entries[i], entries[..i + 1];
    var path := Logical(prefix, e);
    var contents1, modes1 := contents[path := e.data], modes[path := Permissions(e)];
    assert more == entries[..i] + [e];
    LogicalsPush(prefix, entries, i);
    LoadedMeans(entries[..i], prefix, contents, modes);
    LoadedMeans(more, prefix, contents1, modes1);
    forall x | x in more ensures Held(x, prefix, contents1, modes1) {
      HeldStill(x, e, prefix, contents, modes);
    }
  }

  lemma {:induction false} LoadedMeans(entries: seq<Entry>, prefix: string, contents: map<string, Bytes>,
                                       modes: map<string, nat>)
    ensures Loaded(entries, prefix, contents, modes) <==>
              && contents.Keys == modes.Keys && contents.Keys == Elements(Logicals(prefix, entries))
              && forall e :: e in entries ==> Held(e, prefix, contents, modes)
  {
    hide Held, Logicals, Elements;
  }

  lemma {:induction false} HeldStill(x: Entry, e: Entry, prefix: string, contents: map<string, Bytes>,
                                     modes: map<string, nat>)
    requires Logical(prefix, e) !in contents && (x == e || Held(x, prefix, contents, modes))
    ensures Held(x, prefix, contents[Logical(prefix, e) := e.data], modes[Logical(prefix, e) := Permissions(e)])
  {
    hide Logical, Permissions;
  }

  // ----- validate_manifest -----

  function IndexedRow(path: string, data: Bytes, mode: nat, codec: Codec): ManifestRow {
    PayloadRow(path, |data|, codec.hash(data), ModeText(mode))
  }

  ghost predicate RowsIndexed(rows: seq<ManifestRow>, indexed: map<string, ManifestRow>) {
    && (forall row :: row in rows ==> SafeRelative(RowPath(row)).Ok?)
    && DistinctRows(rows)
    && indexed.Keys == (set row | row in rows :: RowPath(row))
    && forall row :: row in rows ==> RowPath(row) in indexed && indexed[RowPath(row)] == row
  }

  ghost predicate ManifestAccepted(contents: map<string, Bytes>, modes: map<string, nat>, codec: Codec)
    requires contents.Keys == modes.Keys
  {
    && MANIFEST in contents && |contents[MANIFEST]| <= MAX_JSON_BYTES
    && var manifest := codec.decode(contents[MANIFEST]);
       && manifest.Some? && manifest.value.hashed
       && RowsAccepted(manifest.value.members, contents, modes, codec)
       && modes[MANIFEST] == 420
  }

  // The rows are exactly the members: each payload file by size, hash and mode, the manifest by its own fixed row.
  ghost predicate RowsAccepted(rows: seq<ManifestRow>, contents: map<string, Bytes>, modes: map<string, nat>,
                               codec: Codec)
    requires contents.Keys == modes.Keys
  {
    && (forall row :: row in rows ==> SafeRelative(RowPath(row)).Ok?)
    && DistinctRows(rows)
    && (set row | row in rows :: RowPath(row)) == contents.Keys
    && forall row :: row in rows ==>
         if RowPath(row) == MANIFEST then row == SelfRow
         else RowPath(row) in contents && row == IndexedRow(RowPath(row), contents[RowPath(row)], modes[RowPath(row)],
                                                            codec)
  }

  datatype ManifestRefusal =
    | NotReadable | RowInvalid(path: string) | SetMismatch | SelfMismatch | RowMismatch | ModeMismatch

  method ValidateManifest(contents: map<string, Bytes>, modes: map<string, nat>, codec: Codec)
    returns (refusal: Option<ManifestRefusal>)
    requires contents.Keys == modes.Keys
    ensures refusal.None? <==> ManifestAccepted(contents, modes, codec)
  {
    AcceptedMeans(contents, modes, codec);
    hide *;
    if MANIFEST !in contents || |contents[MANIFEST]| > MAX_JSON_BYTES {
      return Some(NotReadable);
    }
    var manifest := codec.decode(contents[MANIFEST]);
    if manifest.None? || !manifest.value.hashed {
      return Some(NotReadable);
    }
    var rows := manifest.value.members;
    var indexed: map<string, ManifestRow> := map[];
    NothingIndexed();
    assert rows[..0] == [];
    for i := 0 to |rows|
      invariant RowsIndexed(rows[..i], indexed)
    {
      var row := rows[i];
      var path := RowPath(row);
      if SafeRelative(path).Err? || path in indexed {
        RowRefused(rows, i, indexed, contents, modes, codec);
        return Some(RowInvalid(path));
      }
      RowIndexed(rows, i, indexed);
      indexed := indexed[path := row];
    }
    assert rows[..|rows|] == rows;
    RowsMean(rows, indexed, contents, modes, codec);
    if indexed.Keys != contents.Keys {
      return Some(SetMismatch);
    }
    if indexed[MANIFEST] != SelfRow {
      return Some(SelfMismatch);
    }
    if exists path :: path in contents && path != MANIFEST &&
                      indexed[path] != IndexedRow(path, contents[path], modes[path], codec) {
      return Some(RowMismatch);
    }
    if modes[MANIFEST] != 420 {
      return Some(ModeMismatch);
    }
    refusal := None;
  }

  lemma {:induction false} AcceptedMeans(contents: map<string, Bytes>, modes: map<string, nat>, codec: Codec)
    requires contents.Keys == modes.Keys
    ensures ManifestAccepted(contents, modes, codec) <==>
              && MANIFEST in contents && |contents[MANIFEST]| <= MAX_JSON_BYTES
              && codec.decode(contents[MANIFEST]).Some? && codec.decode(contents[MANIFEST]).value.hashed
              && RowsAccepted(codec.decode(contents[MANIFEST]).value.members, contents, modes, codec)
              && modes[MANIFEST] == 420
  {
    hide RowsAccepted;
  }

  lemma {:induction false} NothingIndexed()
    ensures RowsIndexed([], map[])
  {
  }

  lemma {:induction false} RowIndexed(rows: seq<ManifestRow>, i: nat, indexed: map<string, ManifestRow>)
    requires i < |rows| && RowsIndexed(rows[..i], indexed)
    requires SafeRelative(RowPath(rows[i])).Ok? && RowPath(rows[i]) !in indexed
    ensures RowsIndexed(rows[..i + 1], indexed[RowPath(rows[i]) := rows[i]])
  {
    hide SafeRelative, RowPath;
    assert rows[..i + 1] == rows[..i] + [rows[i]];
    assert forall j :: 0 <= j < i ==> rows[..i][j] in rows[..i];
  }

  lemma {:induction false} RowRefused(rows: seq<ManifestRow>, i: nat, indexed: map<string, ManifestRow>,
                                      contents: map<string, Bytes>, modes: map<string, nat>, codec: Codec)
    requires i < |rows| && RowsIndexed(rows[..i], indexed) && contents.Keys == modes.Keys
    requires SafeRelative(RowPath(rows[i])).Err? || RowPath(rows[i]) in indexed
    ensures !RowsAccepted(rows, contents, modes, codec)
  {
    assert rows[i] in rows;
    RowRepeated(rows, i, indexed);
    hide SafeRelative, RowPath, DistinctRows, RowsIndexed, IndexedRow;
  }

  // Once every row is indexed, acceptance is read off the index.
  lemma {:induction false} RowsMean(rows: seq<ManifestRow>, indexed: map<string, ManifestRow>,
                                    contents: map<string, Bytes>, modes: map<string, nat>, codec: Codec)
    requires RowsIndexed(rows, indexed) && contents.Keys == modes.Keys && MANIFEST in contents
    ensures RowsAccepted(rows, contents, modes, codec) <==>
              && indexed.Keys == contents.Keys && indexed[MANIFEST] == SelfRow
              && forall path :: path in contents && path != MANIFEST ==>
                   indexed[path] == IndexedRow(path, contents[path], modes[path], codec)
  {
    hide SafeRelative, DistinctRows, IndexedRow, RowPath;
    if indexed.Keys == contents.Keys {
      forall path | path in contents ensures exists row :: row in rows && RowPath(row) == path && indexed[path] == row {
        var row :| row in rows && RowPath(row) == path;
      }
    }
  }

  lemma {:induction false} RowRepeated(rows: seq<ManifestRow>, i: nat, indexed: map<string, ManifestRow>)
    requires i < |rows| && RowsIndexed(rows[..i], indexed)
    ensures RowPath(rows[i]) in indexed ==> !DistinctRows(rows)
  {
    if RowPath(rows[i]) in indexed {
      var row :| row in rows[..i] && RowPath(row) == RowPath(rows[i]);
      var k :| 0 <= k < i && rows[k] == row;
    }
  }

  // ----- the producer's release, installed -----

  // The two maps hold exactly the members.
  ghost predicate Holds(members: seq<Member>, contents: map<string, Bytes>, modes: map<string, nat>) {
    && contents.Keys == modes.Keys == Elements(Paths(members))
    && forall m :: m in members ==> m.path in contents && contents[m.path] == m.data && modes[m.path] == m.mode
  }

  lemma {:induction false} MemberLoaded(prefix: string, members: seq<Member>, contents: map<string, Bytes>,
                                        modes: map<string, nat>, m: Member)
    requires Loaded(Written(prefix, members), prefix, contents, modes) && m in members && m.mode < 4096
    ensures m.path in contents && m.path in modes && contents[m.path] == m.data && modes[m.path] == m.mode
  {
    var entries := Written(prefix, members);
    var sorted := SortedOf(prefix, members);
    hide Written, Logicals, Sort;
    var i :| 0 <= i < |sorted| && sorted[i] == m;
    assert entries[i] in entries;
    LogicalOf(prefix, m);
    assert Held(entries[i], prefix, contents, modes);
  }

  // A written archive that loads holds the members it was written from.
  lemma {:induction false} WrittenLoads(prefix: string, members: seq<Member>, contents: map<string, Bytes>,
                                        modes: map<string, nat>)
    requires forall m :: m in members ==> m.mode < 4096
    requires Loaded(Written(prefix, members), prefix, contents, modes)
    ensures Holds(members, contents, modes)
  {
    var sorted := SortedOf(prefix, members);
    SamePaths(members, sorted);
    hide Written, Logicals, Sort, Held;
    forall m | m in members ensures m.path in contents && contents[m.path] == m.data && modes[m.path] == m.mode {
      MemberLoaded(prefix, members, contents, modes, m);
    }
  }

  function MemberBytes(members: seq<Member>): nat {
    if members == [] then 0 else |members[0].data| + MemberBytes(members[1..])
  }

  // A top-level name, and data the loader reads.
  ghost predicate Installable(prefix: string, m: Member) {
    Plain(prefix) && Plain(m.path) && '/' !in m.path && |m.data| <= MAX_MEMBER_BYTES
  }

  lemma {:induction false} InsertBytes(m: Member, members: seq<Member>)
    ensures MemberBytes(Insert(MemberBefore, m, members)) == |m.data| + MemberBytes(members)
  {
    if members != [] && MemberBefore(members[0], m) {
      InsertBytes(m, members[1..]);
      assert ([members[0]] + Insert(MemberBefore, m, members[1..]))[1..] == Insert(MemberBefore, m, members[1..]);
    } else {
      assert ([m] + members)[1..] == members;
    }
  }

  lemma {:induction false} SortBytes(members: seq<Member>)
    ensures MemberBytes(Sort(MemberBefore, members)) == MemberBytes(members)
  {
    if members != [] {
      SortBytes(members[1..]);
      InsertBytes(members[0], Sort(MemberBefore, members[1..]));
    }
  }

  lemma {:induction false} BytesPush(members: seq<Member>, m: Member)
    ensures MemberBytes(members + [m]) == MemberBytes(members) + |m.data|
  {
    if members == [] {
      assert [] + [m] == [m] && [m][1..] == [];
    } else {
      assert (members + [m])[1..] == members[1..] + [m];
      BytesPush(members[1..], m);
    }
  }

  lemma {:induction false} EntryBytes(prefix: string, members: seq<Member>, entries: seq<Entry>)
    requires |entries| == |members| && forall i :: 0 <= i < |members| ==> entries[i] == EntryOf(prefix, members[i])
    ensures TotalSize(entries) == MemberBytes(members)
    decreases |members|
  {
    if members != [] {
      var n := |members| - 1;
      EntryBytes(prefix, members[..n], entries[..n]);
      BytesPush(members[..n], members[n]);
      assert members[..n] + [members[n]] == members;
    }
  }

  lemma {:induction false} OnePart(path: string)
    requires Plain(path)
    ensures |Parts(path)| == 1 <==> '/' !in path
  {
    FilterKeeps(Split(path, '/'));
    assert Parts(path) == Split(path, '/');
    if '/' !in path { SplitWhole(path, '/'); }
    if |Split(path, '/')| == 1 {
      JoinSplit(path, '/');
      SplitFree(path, '/');
    }
  }

  lemma {:induction false} EntryLoadable(prefix: string, m: Member)
    ensures Loadable(EntryOf(prefix, m), prefix) <==> Installable(prefix, m)
  {
    LogicalOf(prefix, m);
    SafeJoin(prefix, m.path);
    SafeRelativeExact(m.path);
    if Plain(m.path) { OnePart(m.path); }
    hide SafeRelative, Plain, Parts, Logical;
    var name := prefix + "/" + m.path;
    assert name[..|prefix| + 1] == prefix + "/";
  }

  // A written archive loads exactly when it holds something, no path twice, only top-level members with plain names,
  // and nothing too large.
  lemma {:induction false} WrittenLoadsExact(prefix: string, members: seq<Member>)
    ensures LoadAccepted(Written(prefix, members), prefix) <==>
              && members != [] && DistinctPaths(members) && (forall m :: m in members ==> Installable(prefix, m))
              && MemberBytes(members) <= MAX_TOTAL_BYTES
  {
    hide Written, Installable, Loadable, Logicals, DistinctPaths, Sort, MemberBytes, TotalSize, EntryOf;
    var entries := Written(prefix, members);
    var sorted := SortedOf(prefix, members);
    SortBytes(members);
    EntryBytes(prefix, sorted, entries);
    assert NoRepeats(Logicals(prefix, entries)) <==> DistinctPaths(members) by { SortedDistinct(members, sorted); }
    forall m | m in sorted ensures exists e :: e in entries && e == EntryOf(prefix, m) {
      var i :| 0 <= i < |sorted| && sorted[i] == m;
      assert entries[i] in entries;
    }
    forall e | e in entries ensures exists m :: m in sorted && e == EntryOf(prefix, m) {
      var i :| 0 <= i < |entries| && entries[i] == e;
      assert sorted[i] in sorted;
    }
    forall m ensures Loadable(EntryOf(prefix, m), prefix) <==> Installable(prefix, m) { EntryLoadable(prefix, m); }
  }

  lemma {:induction false} SortedDistinct(members: seq<Member>, sorted: seq<Member>)
    requires multiset(sorted) == multiset(members)
    ensures NoRepeats(Paths(sorted)) <==> DistinctPaths(members)
  {
    if DistinctPaths(members) { DistinctPermutes(members, sorted); }
    if DistinctPaths(sorted) { DistinctPermutes(sorted, members); }
    assert forall i :: 0 <= i < |sorted| ==> Paths(sorted)[i] == sorted[i].path;
    hide Paths;
  }

  lemma {:induction false} SamePaths(xs: seq<Member>, ys: seq<Member>)
    requires forall m :: m in xs <==> m in ys
    ensures Elements(Paths(xs)) == Elements(Paths(ys))
  {
    hide Paths;
    forall path ensures path in Elements(Paths(xs)) <==> path in Elements(Paths(ys)) {
      PathsOf(xs, path);
      PathsOf(ys, path);
    }
  }

  lemma {:induction false} PathsOf(members: seq<Member>, path: string)
    ensures path in Elements(Paths(members)) <==> exists m :: m in members && m.path == path
  {
    if path in Paths(members) {
      var i :| 0 <= i < |members| && Paths(members)[i] == path;
      assert members[i] in members && members[i].path == path;
    }
    if exists m :: m in members && m.path == path {
      var m :| m in members && m.path == path;
      var i :| 0 <= i < |members| && members[i] == m;
      assert Paths(members)[i] == path;
    }
  }

  lemma {:induction false} RowHeld(payload: seq<Member>, codec: Codec, contents: map<string, Bytes>,
                                   modes: map<string, nat>, row: ManifestRow)
    requires DistinctPaths(payload) && Unclaimed(payload) && Holds(Built(payload, codec), contents, modes)
    requires forall m :: m in payload ==> SafeRelative(m.path).Ok?
    requires row in ManifestOf(payload, codec).members
    ensures SafeRelative(RowPath(row)).Ok? && RowPath(row) in contents
    ensures if RowPath(row) == MANIFEST then row == SelfRow
            else row == IndexedRow(RowPath(row), contents[RowPath(row)], modes[RowPath(row)], codec)
  {
    BuiltMembers(payload, codec);
    ManifestRows(payload, codec);
    ManifestPathSafe();
    hide Built, ManifestOf, ModeText, SafeRelative;
    if row == SelfRow {
      assert Member(MANIFEST, codec.encode(ManifestOf(payload, codec)), 420) in Built(payload, codec);
    } else {
      var m :| m in payload && row == RowOf(m, codec);
      assert m in Built(payload, codec);
    }
  }

  lemma {:induction false} PathListed(payload: seq<Member>, codec: Codec, contents: map<string, Bytes>,
                                      modes: map<string, nat>, path: string)
    requires DistinctPaths(payload) && Unclaimed(payload) && Holds(Built(payload, codec), contents, modes)
    requires path in contents
    ensures exists row :: row in ManifestOf(payload, codec).members && RowPath(row) == path
  {
    BuiltMembers(payload, codec);
    ManifestRows(payload, codec);
    hide Built, ManifestOf, RowOf;
    PathsOf(Built(payload, codec), path);
    var m :| m in Built(payload, codec) && m.path == path;
    if m in payload {
      RowOfPath(m, codec);
      assert RowOf(m, codec) in ManifestOf(payload, codec).members;
    } else {
      assert RowPath(SelfRow) == path;
    }
  }

  lemma {:induction false} BuiltRowsAccepted(payload: seq<Member>, codec: Codec, contents: map<string, Bytes>,
                                             modes: map<string, nat>)
    requires DistinctPaths(payload) && Unclaimed(payload) && Holds(Built(payload, codec), contents, modes)
    requires forall m :: m in payload ==> SafeRelative(m.path).Ok?
    ensures RowsAccepted(ManifestOf(payload, codec).members, contents, modes, codec)
  {
    hide *;
    var rows := ManifestOf(payload, codec).members;
    assert DistinctRows(rows) by { ManifestRows(payload, codec); }
    assert contents.Keys == modes.Keys by { SameKeys(Built(payload, codec), contents, modes); }
    forall row | row in rows
      ensures SafeRelative(RowPath(row)).Ok? && RowPath(row) in contents
      ensures if RowPath(row) == MANIFEST then row == SelfRow
              else row == IndexedRow(RowPath(row), contents[RowPath(row)], modes[RowPath(row)], codec)
    {
      RowHeld(payload, codec, contents, modes, row);
    }
    forall path | path in contents ensures exists row :: row in rows && RowPath(row) == path {
      PathListed(payload, codec, contents, modes, path);
    }
    assert (set row | row in rows :: RowPath(row)) == contents.Keys;
    RowsAcceptedMeans(rows, contents, modes, codec);
  }

  lemma {:induction false} SameKeys(members: seq<Member>, contents: map<string, Bytes>, modes: map<string, nat>)
    requires Holds(members, contents, modes)
    ensures contents.Keys == modes.Keys
  {
  }

  lemma {:induction false} RowsAcceptedMeans(rows: seq<ManifestRow>, contents: map<string, Bytes>,
                                             modes: map<string, nat>, codec: Codec)
    requires contents.Keys == modes.Keys && DistinctRows(rows)
             && (set row | row in rows :: RowPath(row)) == contents.Keys
    requires forall row :: row in rows ==> SafeRelative(RowPath(row)).Ok? && RowPath(row) in contents
    requires forall row :: row in rows ==>
               if RowPath(row) == MANIFEST then row == SelfRow
               else row == IndexedRow(RowPath(row), contents[RowPath(row)], modes[RowPath(row)], codec)
    ensures RowsAccepted(rows, contents, modes, codec)
  {
    hide SafeRelative, IndexedRow, DistinctRows, RowPath;
  }

  // The other program accepts the manifest of every built release it can load, unless the manifest is too large.
  lemma {:induction false} BuiltManifestAccepted(payload: seq<Member>, codec: Codec, contents: map<string, Bytes>,
                                                 modes: map<string, nat>)
    requires RoundTrips(codec) && DistinctPaths(payload) && Unclaimed(payload)
    requires forall m :: m in payload ==> SafeRelative(m.path).Ok?
    requires Holds(Built(payload, codec), contents, modes)
    ensures ManifestAccepted(contents, modes, codec)
       <==> |codec.encode(ManifestOf(payload, codec))| <= MAX_JSON_BYTES
  {
    var own := Member(MANIFEST, codec.encode(ManifestOf(payload, codec)), 420);
    BuiltMembers(payload, codec);
    assert own in Built(payload, codec);
    assert ManifestOf(payload, codec).hashed && codec.decode(own.data) == Some(ManifestOf(payload, codec));
    BuiltRowsAccepted(payload, codec, contents, modes);
    hide Built, ManifestOf, RowsAccepted, SafeRelative;
  }

  // What a release needs to be installable, in terms of what it is built from.
  ghost predicate Deliverable(prefix: string, payload: seq<Member>, codec: Codec) {
    var manifest := codec.encode(ManifestOf(payload, codec));
    && DistinctPaths(payload) && Unclaimed(payload) && Plain(prefix)
    && (forall m :: m in payload ==> Installable(prefix, m))
    && |manifest| <= MAX_JSON_BYTES && MemberBytes(payload) + |manifest| <= MAX_TOTAL_BYTES
  }

  lemma {:induction false} MemberBytesPush(members: seq<Member>, m: Member)
    ensures MemberBytes(members + [m]) == MemberBytes(members) + |m.data|
  {
    if members == [] {
      assert [m][1..] == [];
    } else {
      assert (members + [m])[1..] == members[1..] + [m];
      MemberBytesPush(members[1..], m);
    }
  }

  lemma {:induction false} ManifestInstallable(prefix: string, data: Bytes, mode: nat)
    ensures Installable(prefix, Member(MANIFEST, data, mode)) <==> Plain(prefix) && |data| <= MAX_MEMBER_BYTES
  {
    ManifestPlain();
    hide Plain;
  }

  // The built members load exactly if the payload fits with its manifest.
  lemma {:induction false} BuiltLoads(prefix: string, payload: seq<Member>, codec: Codec)
    ensures LoadAccepted(Written(prefix, Built(payload, codec)), prefix) <==>
              && DistinctPaths(payload) && Unclaimed(payload) && Plain(prefix)
              && (forall m :: m in payload ==> Installable(prefix, m))
              && |codec.encode(ManifestOf(payload, codec))| <= MAX_MEMBER_BYTES
              && MemberBytes(payload) + |codec.encode(ManifestOf(payload, codec))| <= MAX_TOTAL_BYTES
  {
    var own := Member(MANIFEST, codec.encode(ManifestOf(payload, codec)), 420);
    assert Built(payload, codec) == Sort(MemberBefore, payload + [own]);
    hide Installable, LoadAccepted, Written, ManifestOf, MemberBytes, Sort, DistinctPaths, Unclaimed, Plain, Built,
         MemberBefore;
    WrittenLoadsExact(prefix, Built(payload, codec));
    BuiltMembers(payload, codec);
    SortBytes(payload + [own]);
    MemberBytesPush(payload, own);
    ManifestInstallable(prefix, own.data, 420);
    assert own in Built(payload, codec);
  }

  // The whole install of what the producer builds: it loads and its manifest is accepted exactly if the payload is
  // deliverable, and then the loaded maps hold exactly the built members.
  lemma {:induction false} ReleaseInstalls(prefix: string, payload: seq<Member>, codec: Codec,
                                           contents: map<string, Bytes>, modes: map<string, nat>)
    requires RoundTrips(codec) && forall m :: m in payload ==> m.mode < 4096
    requires var entries := Written(prefix, Built(payload, codec));
             LoadAccepted(entries, prefix) ==> Loaded(entries, prefix, contents, modes)
    ensures LoadAccepted(Written(prefix, Built(payload, codec)), prefix) && ManifestAccepted(contents, modes, codec)
       <==> Deliverable(prefix, payload, codec)
    ensures Deliverable(prefix, payload, codec) ==> Holds(Built(payload, codec), contents, modes)
  {
    BuiltLoads(prefix, payload, codec);
    assert LoadAccepted(Written(prefix, Built(payload, codec)), prefix) ==> contents.Keys == modes.Keys;
    hide LoadAccepted, Loaded, Written, Built, ManifestOf, Installable, MemberBytes, DistinctPaths, Unclaimed, Plain,
         ManifestAccepted, Holds, RoundTrips;
    if LoadAccepted(Written(prefix, Built(payload, codec)), prefix) {
      BuiltMembers(payload, codec);
      WrittenLoads(prefix, Built(payload, codec), contents, modes);
      forall m | m in payload ensures SafeRelative(m.path).Ok? { InstallableSafe(prefix, m); }
      BuiltManifestAccepted(payload, codec, contents, modes);
    }
  }

  lemma {:induction false} InstallableSafe(prefix: string, m: Member)
    requires Installable(prefix, m)
    ensures SafeRelative(m.path).Ok?
  {
    SafeRelativeExact(m.path);
  }

  lemma {:induction false} ManifestPlain()
    ensures Plain(MANIFEST) && '/' !in MANIFEST
  {
    var m := MANIFEST;
    assert forall i :: 0 <= i < |m| ==> m[i] != '/' && m[i] != '\\' && m[i] != '\0';
    SplitWhole(m, '/');
  }

  lemma {:induction false} ManifestPathSafe()
    ensures SafeRelative(MANIFEST).Ok?
  {
    ManifestPlain();
    SafeRelativeExact(MANIFEST);
    hide SafeRelative, Plain;
  }

  // Under an injective hash the manifest bytes determine every other member: two accepted releases with the same
  // manifest agree on names, bytes and modes.
  lemma {:induction false} ManifestDetermines(c1: map<string, Bytes>, m1: map<string, nat>, c2: map<string, Bytes>,
                                              m2: map<string, nat>, codec: Codec)
    requires c1.Keys == m1.Keys && c2.Keys == m2.Keys && InjectiveHash(codec)
    requires ManifestAccepted(c1, m1, codec) && ManifestAccepted(c2, m2, codec) && c1[MANIFEST] == c2[MANIFEST]
    ensures c1 == c2 && m1 == m2
  {
    hide *;
    AcceptedMeans(c1, m1, codec);
    AcceptedMeans(c2, m2, codec);
    var rows := codec.decode(c1[MANIFEST]).value.members;
    RowsDetermine(rows, c1, m1, c2, m2, codec);
  }

  lemma {:induction false} RowsDetermine(rows: seq<ManifestRow>, c1: map<string, Bytes>, m1: map<string, nat>,
                                         c2: map<string, Bytes>, m2: map<string, nat>, codec: Codec)
    requires c1.Keys == m1.Keys && c2.Keys == m2.Keys && InjectiveHash(codec)
    requires RowsAccepted(rows, c1, m1, codec) && RowsAccepted(rows, c2, m2, codec)
    requires MANIFEST in c1 && MANIFEST in c2 && c1[MANIFEST] == c2[MANIFEST] && m1[MANIFEST] == m2[MANIFEST]
    ensures c1 == c2 && m1 == m2
  {
    hide SafeRelative, IndexedRow, DistinctRows, RowPath, InjectiveHash;
    assert c1.Keys == c2.Keys;
    forall path | path in c1 ensures c1[path] == c2[path] && m1[path] == m2[path] {
      if path != MANIFEST {
        var row :| row in rows && RowPath(row) == path;
        RowDetermines(path, c1[path], m1[path], c2[path], m2[path], codec);
      }
    }
  }

  lemma {:induction false} RowDetermines(path: string, d1: Bytes, m1: nat, d2: Bytes, m2: nat, codec: Codec)
    requires InjectiveHash(codec) && IndexedRow(path, d1, m1, codec) == IndexedRow(path, d2, m2, codec)
    ensures d1 == d2 && m1 == m2
  {
    hide ModeText, ReadMode;
    ReadModeText(m1);
    ReadModeText(m2);
  }

  // ----- loading and the manifest check, field by field -----

  // One file name: no directory, and neither of the two dots.
  ghost predicate OneName(path: string) {
    path != "" && path != "." && path != ".." && '/' !in path && '\\' !in path && '\0' !in path
  }

  lemma {:induction false} OneNameExact(path: string)
    ensures SafeRelative(path).Ok? && |Parts(path)| == 1 <==> OneName(path)
  {
    SafeRelativeExact(path);
    SplitFree(path, '/');
    if path == "." {
      assert path[1..] == "" && Split(path, '/') == ["."];
    } else if Plain(path) {
      OnePart(path);
      if '/' !in path { SplitWhole(path, '/'); }
    }
    if OneName(path) { SplitWhole(path, '/'); }
  }

  // A loadable entry: one regular file of bounded size below the prefix, with nothing else set.
  ghost predicate LoadsAs(e: Entry, prefix: string, path: string) {
    && e.name == prefix + "/" + path && Plain(prefix) && OneName(path) && e.kind == Regular
    && e.uid == 0 && e.gid == 0 && e.mtime == 0 && e.uname == "" && e.gname == "" && |e.data| <= 536870912
  }

  ghost predicate Loads(e: Entry, prefix: string) {
    exists path :: LoadsAs(e, prefix, path)
  }

  lemma {:induction false} LoadableExact(e: Entry, prefix: string)
    ensures Loadable(e, prefix) <==> Loads(e, prefix)
  {
    var logical := Logical(prefix, e);
    OneNameExact(logical);
    SafeJoin(prefix, logical);
    SafeRelativeExact(logical);
    forall path | LoadsAs(e, prefix, path) ensures logical == path && prefix + "/" <= e.name {
      LogicalNamed(e, prefix, path);
    }
    if prefix + "/" <= e.name { Prefixed(e, prefix); }
    hide SafeRelative, Logical, Plain, Parts;
    if Loadable(e, prefix) {
      NamePlain(logical);
      assert LoadsAs(e, prefix, logical);
    }
    if path :| LoadsAs(e, prefix, path) { NamePlain(path); }
  }

  lemma {:induction false} NamePlain(path: string)
    requires OneName(path)
    ensures Plain(path)
  {
    SplitWhole(path, '/');
  }

  // The archive loads exactly if it holds something, every entry loads, no name comes twice, and the bytes fit.
  lemma {:induction false} LoadAcceptedExact(entries: seq<Entry>, prefix: string)
    ensures LoadAccepted(entries, prefix)
       <==> && |entries| > 0 && (forall i :: 0 <= i < |entries| ==> Loads(entries[i], prefix))
            && NamesDiffer(entries) && TotalSize(entries) <= 734003200
  {
    assert forall i :: 0 <= i < |entries| ==> entries[i] in entries;
    forall i | 0 <= i < |entries| ensures Loadable(entries[i], prefix) <==> Loads(entries[i], prefix) {
      LoadableExact(entries[i], prefix);
    }
    if forall i :: 0 <= i < |entries| ==> Loadable(entries[i], prefix) {
      forall i | 0 <= i < |entries| ensures prefix + "/" <= entries[i].name { assert Loadable(entries[i], prefix); }
      NamesExact(entries, prefix);
    }
    hide Loadable, Loads, NamesDiffer, NoRepeats, Logicals, TotalSize;
  }

  lemma {:induction false} EntryLoaded(entries: seq<Entry>, prefix: string, contents: map<string, Bytes>,
                                       modes: map<string, nat>, i: nat, path: string)
    requires Loaded(entries, prefix, contents, modes) && i < |entries| && entries[i].name == prefix + "/" + path
    ensures path in contents && contents[path] == entries[i].data
    ensures path in modes && modes[path] == entries[i].mode % 4096
  {
    LogicalNamed(entries[i], prefix, path);
    hide Logical, Logicals;
    assert Held(entries[i], prefix, contents, modes);
  }

  lemma {:induction false} PathLoaded(entries: seq<Entry>, prefix: string, contents: map<string, Bytes>,
                                      modes: map<string, nat>, path: string)
    requires LoadAccepted(entries, prefix) && Loaded(entries, prefix, contents, modes)
    requires path in contents || path in modes
    ensures exists i :: 0 <= i < |entries| && entries[i].name == prefix + "/" + path
  {
    hide LoadAccepted, Held, Logical;
    var i :| 0 <= i < |entries| && Logicals(prefix, entries)[i] == path;
    LoadedName(entries, prefix, i);
  }

  // What is loaded: each entry's bytes and permission bits under its own name, and no other name.
  lemma {:induction false} LoadedFields(entries: seq<Entry>, prefix: string, contents: map<string, Bytes>,
                                        modes: map<string, nat>)
    requires LoadAccepted(entries, prefix) && Loaded(entries, prefix, contents, modes)
    ensures forall i, path :: 0 <= i < |entries| && entries[i].name == prefix + "/" + path ==>
              path in contents && contents[path] == entries[i].data
                  && path in modes && modes[path] == entries[i].mode % 4096
    ensures forall path :: path in contents || path in modes ==>
              exists i :: 0 <= i < |entries| && entries[i].name == prefix + "/" + path
  {
    hide *;
    forall i, path | 0 <= i < |entries| && entries[i].name == prefix + "/" + path
      ensures path in contents && contents[path] == entries[i].data
      ensures path in modes && modes[path] == entries[i].mode % 4096
    {
      EntryLoaded(entries, prefix, contents, modes, i, path);
    }
    forall path | path in contents || path in modes
      ensures exists i :: 0 <= i < |entries| && entries[i].name == prefix + "/" + path
    {
      PathLoaded(entries, prefix, contents, modes, path);
    }
  }

  lemma {:induction false} LoadedName(entries: seq<Entry>, prefix: string, i: nat)
    requires LoadAccepted(entries, prefix) && i < |entries|
    ensures entries[i].name == prefix + "/" + Logical(prefix, entries[i])
  {
    assert entries[i] in entries;
    Prefixed(entries[i], prefix);
    hide SafeRelative, Logical, Parts;
  }

  // A row lists a loaded file by its path, size, digest and octal mode.
  ghost predicate ListsFile(row: ManifestRow, path: string, data: Bytes, mode: nat, codec: Codec) {
    && row.PayloadRow? && row.path == path && row.bytes == |data| && row.sha256 == codec.hash(data)
    && row.mode == ModeText(mode)
  }

  ghost predicate RowsList(rows: seq<ManifestRow>, contents: map<string, Bytes>, modes: map<string, nat>, codec: Codec)
    requires contents.Keys == modes.Keys
  {
    && (forall i, j, path :: 0 <= i < j < |rows| && HasPath(rows[i], path) ==> !HasPath(rows[j], path))
    && (forall path :: path in contents ==> SafeName(path) && exists i :: 0 <= i < |rows| && HasPath(rows[i], path))
    && forall i, path :: 0 <= i < |rows| && HasPath(rows[i], path) ==>
         && path in contents
         && if path == "MANIFEST.json" then rows[i] == SelfRow
            else ListsFile(rows[i], path, contents[path], modes[path], codec)
  }

  lemma {:induction false} ListsExact(row: ManifestRow, path: string, data: Bytes, mode: nat, codec: Codec)
    ensures row == IndexedRow(path, data, mode, codec) <==> ListsFile(row, path, data, mode, codec)
  {
    hide ModeText;
  }

  lemma {:induction false} PathOfRow(row: ManifestRow)
    ensures forall path :: HasPath(row, path) <==> path == RowPath(row)
  {
  }

  lemma {:induction false} RowListed(rows: seq<ManifestRow>, contents: map<string, Bytes>, modes: map<string, nat>,
                                     codec: Codec, i: nat)
    requires contents.Keys == modes.Keys && RowsAccepted(rows, contents, modes, codec) && i < |rows|
    ensures var path := RowPath(rows[i]);
            && path in contents
            && (path == "MANIFEST.json" ==> rows[i] == SelfRow)
            && (path != "MANIFEST.json" ==> ListsFile(rows[i], path, contents[path], modes[path], codec))
    ensures forall j :: i < j < |rows| ==> RowPath(rows[i]) != RowPath(rows[j])
  {
    assert rows[i] in rows;
    var path := RowPath(rows[i]);
    hide RowPath, SafeRelative, IndexedRow, ListsFile;
    ListsExact(rows[i], path, contents[path], modes[path], codec);
  }

  lemma {:induction false} PathHeld(rows: seq<ManifestRow>, contents: map<string, Bytes>, modes: map<string, nat>,
                                    codec: Codec, path: string)
    requires contents.Keys == modes.Keys && RowsAccepted(rows, contents, modes, codec) && path in contents
    ensures SafeName(path) && exists i :: 0 <= i < |rows| && HasPath(rows[i], path)
  {
    hide HasPath, RowPath, SafeRelative, IndexedRow, SafeName;
    var row :| row in rows && RowPath(row) == path;
    var i :| 0 <= i < |rows| && rows[i] == row;
    NameSafe(path);
    PathOfRow(row);
    assert HasPath(rows[i], path);
  }

  lemma {:induction false} RowsListed(rows: seq<ManifestRow>, contents: map<string, Bytes>, modes: map<string, nat>,
                                      codec: Codec)
    requires contents.Keys == modes.Keys && RowsAccepted(rows, contents, modes, codec)
    ensures RowsList(rows, contents, modes, codec)
  {
    hide HasPath, RowPath, ListsFile, SafeName, RowsAccepted;
    forall path | path in contents ensures SafeName(path) && exists i :: 0 <= i < |rows| && HasPath(rows[i], path) {
      PathHeld(rows, contents, modes, codec, path);
    }
    forall i | 0 <= i < |rows|
      ensures forall path :: HasPath(rows[i], path) <==> path == RowPath(rows[i])
      ensures RowPath(rows[i]) in contents
      ensures RowPath(rows[i]) == "MANIFEST.json" ==> rows[i] == SelfRow
      ensures RowPath(rows[i]) != "MANIFEST.json" ==>
                ListsFile(rows[i], RowPath(rows[i]), contents[RowPath(rows[i])], modes[RowPath(rows[i])], codec)
      ensures forall j :: i < j < |rows| ==> RowPath(rows[i]) != RowPath(rows[j])
    {
      PathOfRow(rows[i]);
      RowListed(rows, contents, modes, codec, i);
    }
  }

  lemma {:induction false} NameSafe(path: string)
    ensures SafeRelative(path).Ok? <==> SafeName(path)
  {
    SafeRelativeExact(path);
  }

  lemma {:induction false} ListedRow(rows: seq<ManifestRow>, contents: map<string, Bytes>, modes: map<string, nat>,
                                     codec: Codec, i: nat)
    requires contents.Keys == modes.Keys && RowsList(rows, contents, modes, codec) && i < |rows|
    ensures var path := RowPath(rows[i]);
            && path in contents && SafeRelative(path).Ok?
            && if path == MANIFEST then rows[i] == SelfRow
               else rows[i] == IndexedRow(path, contents[path], modes[path], codec)
    ensures forall j :: i < j < |rows| ==> RowPath(rows[i]) != RowPath(rows[j])
  {
    var path := RowPath(rows[i]);
    PathOfRow(rows[i]);
    forall j | i < j < |rows| ensures HasPath(rows[j], path) <==> path == RowPath(rows[j]) { PathOfRow(rows[j]); }
    hide HasPath, RowPath, SafeRelative, Plain, IndexedRow, ListsFile, SafeName;
    assert HasPath(rows[i], path);
    NameSafe(path);
    ListsExact(rows[i], path, contents[path], modes[path], codec);
  }

  lemma {:induction false} ListAccepted(rows: seq<ManifestRow>, contents: map<string, Bytes>, modes: map<string, nat>,
                                        codec: Codec)
    requires contents.Keys == modes.Keys && RowsList(rows, contents, modes, codec)
    ensures RowsAccepted(rows, contents, modes, codec)
  {
    hide *;
    forall i | 0 <= i < |rows|
      ensures RowPath(rows[i]) in contents && SafeRelative(RowPath(rows[i])).Ok?
      ensures if RowPath(rows[i]) == MANIFEST then rows[i] == SelfRow
              else rows[i] == IndexedRow(RowPath(rows[i]), contents[RowPath(rows[i])], modes[RowPath(rows[i])], codec)
      ensures forall j :: i < j < |rows| ==> RowPath(rows[i]) != RowPath(rows[j])
    {
      ListedRow(rows, contents, modes, codec, i);
    }
    forall path | path in contents ensures exists row :: row in rows && RowPath(row) == path {
      PathFound(rows, contents, modes, codec, path);
    }
    RowsSuffice(rows, contents, modes, codec);
  }

  lemma {:induction false} PathFound(rows: seq<ManifestRow>, contents: map<string, Bytes>, modes: map<string, nat>,
                                     codec: Codec, path: string)
    requires contents.Keys == modes.Keys && RowsList(rows, contents, modes, codec) && path in contents
    ensures exists row :: row in rows && RowPath(row) == path
  {
    var i :| 0 <= i < |rows| && HasPath(rows[i], path);
    PathOfRow(rows[i]);
    assert rows[i] in rows;
  }

  lemma {:induction false} RowsSuffice(rows: seq<ManifestRow>, contents: map<string, Bytes>, modes: map<string, nat>,
                                       codec: Codec)
    requires contents.Keys == modes.Keys
    requires forall path :: path in contents ==> exists row :: row in rows && RowPath(row) == path
    requires forall i :: 0 <= i < |rows| ==>
               var path := RowPath(rows[i]);
               && path in contents && SafeRelative(path).Ok?
               && (path == MANIFEST ==> rows[i] == SelfRow)
               && (path != MANIFEST ==> rows[i] == IndexedRow(path, contents[path], modes[path], codec))
    requires forall i, j :: 0 <= i < j < |rows| ==> RowPath(rows[i]) != RowPath(rows[j])
    ensures RowsAccepted(rows, contents, modes, codec)
  {
    hide RowPath, SafeRelative, IndexedRow;
  }

  // The manifest passes exactly if it reads, its rows list the loaded files, and its own mode is the fixed one.
  lemma {:induction false} ManifestAcceptedExact(contents: map<string, Bytes>, modes: map<string, nat>, codec: Codec)
    requires contents.Keys == modes.Keys
    ensures ManifestAccepted(contents, modes, codec)
       <==> && "MANIFEST.json" in contents && |contents["MANIFEST.json"]| <= 16777216
            && modes["MANIFEST.json"] == 420
            && codec.decode(contents["MANIFEST.json"]).Some? && codec.decode(contents["MANIFEST.json"]).value.hashed
            && RowsList(codec.decode(contents["MANIFEST.json"]).value.members, contents, modes, codec)
  {
    if "MANIFEST.json" in contents && codec.decode(contents["MANIFEST.json"]).Some? {
      var rows := codec.decode(contents["MANIFEST.json"]).value.members;
      if RowsAccepted(rows, contents, modes, codec) { RowsListed(rows, contents, modes, codec); }
      if RowsList(rows, contents, modes, codec) { ListAccepted(rows, contents, modes, codec); }
    }
    hide RowsAccepted, RowsList;
  }
}
