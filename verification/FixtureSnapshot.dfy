/** Snapshotting a fixture tree with a stack, and copying it entry by entry in snapshot order. */
module FixtureSnapshot {
  import opened Ordering
  import opened Results
  import opened Text

  type Bytes = seq<bv8>
  type Path = seq<string>

  const MAX_FILES := 512
  const MAX_FILE_BYTES := 8388608
  const MAX_TREE_BYTES := 33554432
  const PRIVATE_MODE := 448

  datatype Node =
    | File(mode: nat, links: nat, data: Bytes)
    | Directory(mode: nat)
    | Symlink(mode: nat)
    | Other(mode: nat)

  // A directory tree by the components of each entry's path; the root is the empty path.
  type Tree = map<Path, Node>

  predicate ProperName(name: string) {
    name != "" && '/' !in name && name != "." && name != ".."
  }

  ghost predicate ValidTree(fs: Tree) {
    && [] in fs && fs[[]].Directory?
    && forall p {:trigger Rooted(fs, p)} :: p in fs && p != [] ==> Rooted(fs, p)
  }

  // An entry with a proper name inside a directory of the tree.
  predicate Rooted(fs: Tree, p: Path)
    requires p != []
  {
    ProperName(Last(p)) && Front(p) in fs && fs[Front(p)].Directory?
  }

  datatype Kind = FileKind | DirectoryKind | SymlinkKind | OtherKind

  datatype Row = Row(kind: Kind, mode: nat, sha256: Option<string>, bytes: Option<nat>)

  function RowOf(node: Node, hash: Bytes -> string): Row {
    match node
    case File(mode, _, data) => Row(FileKind, mode, Some(hash(data)), Some(|data|))
    case Directory(mode) => Row(DirectoryKind, mode, None, None)
    case Symlink(mode) => Row(SymlinkKind, mode, None, None)
    case Other(mode) => Row(OtherKind, mode, None, None)
  }

  // relative_to(root).as_posix()
  function Rel(p: Path): string {
    if p == [] then "." else Join(p, '/')
  }

  type Snapshot = map<string, Row>

  ghost predicate Records(fs: Tree, visited: set<Path>, hash: Bytes -> string, out: Snapshot) {
    && visited <= fs.Keys
    && (forall p :: p in visited ==> Rel(p) in out && out[Rel(p)] == RowOf(fs[p], hash))
    && (forall k :: k in out ==> exists p :: p in visited && Rel(p) == k)
  }

  // A row shows its entry's own kind and mode, and for a file the digest and the number of its bytes.
  ghost predicate Shows(row: Row, node: Node, hash: Bytes -> string) {
    match node
    case File(mode, _, data) =>
      row.kind == FileKind && row.mode == mode && row.sha256 == Some(hash(data)) && row.bytes == Some(|data|)
    case Directory(mode) => row.kind == DirectoryKind && row.mode == mode && row.sha256 == None && row.bytes == None
    case Symlink(mode) => row.kind == SymlinkKind && row.mode == mode && row.sha256 == None && row.bytes == None
    case Other(mode) => row.kind == OtherKind && row.mode == mode && row.sha256 == None && row.bytes == None
  }

  // The root's row stands under ".", every other entry's under its names with slashes between, and there are no others.
  ghost predicate ShowsAll(fs: Tree, hash: Bytes -> string, out: Snapshot) {
    && [] in fs && "." in out && Shows(out["."], fs[[]], hash)
    && (forall p :: p in fs && p != [] ==> Join(p, '/') in out && Shows(out[Join(p, '/')], fs[p], hash))
    && forall k :: k in out ==> k == "." || exists p :: p in fs && p != [] && Join(p, '/') == k
  }

  function Size(fs: Tree, p: Path): nat
    requires p in fs
  {
    if fs[p].File? then |fs[p].data| else 0
  }

  // The bytes of all files among s.
  ghost function TotalSize(fs: Tree, s: set<Path>): nat
    requires s <= fs.Keys
    decreases s
  {
    if s == {} then 0
    else
      var p :| p in s;
      Size(fs, p) + TotalSize(fs, s - {p})
  }

  predicate SafeFile(node: Node) {
    node.File? ==> node.links == 1 && |node.data| <= MAX_FILE_BYTES
  }

  // What the snapshot insists on.
  ghost predicate Snapshotable(fs: Tree)
    requires ValidTree(fs)
  {
    && fs[[]].mode == PRIVATE_MODE
    && |fs| <= MAX_FILES + 1
    && (forall p :: p in fs && fs[p].File? ==> fs[p].links == 1 && |fs[p].data| <= MAX_FILE_BYTES)
    && TotalSize(fs, fs.Keys) <= MAX_TREE_BYTES
  }

  // os.scandir(parent), sorted by name
  function Names(fs: Tree, parent: Path): (names: set<string>) {
    set p | p in fs && p != [] && Front(p) == parent :: Last(p)
  }

  datatype SnapshotError = RootNotPrivate | EntryBudget | UnsafeFile(path: Path) | ByteBudget

  // Between rounds: an entry is visited exactly when its directory is visited and no longer waiting.
  ghost predicate Walk(fs: Tree, visited: set<Path>, pending: seq<Path>) {
    Reached(fs, visited, pending) && forall p :: p in fs && p != [] && Expanded(p, visited, pending) ==> p in visited
  }

  ghost predicate Expanded(p: Path, visited: set<Path>, pending: seq<Path>)
    requires p != []
  {
    Front(p) in visited && Front(p) !in pending
  }

  ghost predicate Reached(fs: Tree, visited: set<Path>, pending: seq<Path>) {
    && [] in visited && visited <= fs.Keys
    && NoRepeats(pending) && (forall p :: p in pending ==> p in visited && fs[p].Directory?)
    && forall p {:trigger Expanded(p, visited, pending)} :: p in visited && p != [] ==> Expanded(p, visited, pending)
  }

  // While `parent` is being expanded, its entries named in `done` are in.
  ghost predicate Expanding(fs: Tree, visited: set<Path>, pending: seq<Path>, parent: Path, done: seq<string>) {
    && Reached(fs, visited, pending) && parent in visited && parent !in pending
    && forall p :: p in fs && p != [] && Expanded(p, visited, pending) ==>
         (p in visited <==> Front(p) != parent || Last(p) in done)
  }

  lemma {:induction false} SizeAdd(fs: Tree, s: set<Path>, p: Path)
    requires s <= fs.Keys && p in fs && p !in s
    ensures TotalSize(fs, s + {p}) == TotalSize(fs, s) + Size(fs, p)
    decreases |s|
  {
    var whole := s + {p};
    var q :| q in whole && TotalSize(fs, whole) == Size(fs, q) + TotalSize(fs, whole - {q});
    if q == p {
      assert whole - {q} == s;
    } else {
      SizeAdd(fs, s - {q}, p);
      assert whole - {q} == (s - {q}) + {p};
      SizeAdd(fs, s - {q}, q);
      assert s == (s - {q}) + {q};
    }
  }

  lemma {:induction false} SizeGrows(fs: Tree, s: set<Path>, t: set<Path>)
    requires s <= t <= fs.Keys
    ensures TotalSize(fs, s) <= TotalSize(fs, t)
    decreases |t| - |s|
  {
    if s != t {
      var p :| p in t && p !in s;
      SizeAdd(fs, s, p);
      assert |s + {p}| <= |t| by { Smaller(s + {p}, t); }
      SizeGrows(fs, s + {p}, t);
    }
  }

  lemma {:induction false} Smaller<T>(s: set<T>, t: set<T>)
    requires s <= t
    ensures |s| <= |t|
    decreases s
  {
    if s != {} {
      var x :| x in s;
      Smaller(s - {x}, t - {x});
    }
  }

  lemma {:induction false} ProperParts(fs: Tree, p: Path)
    requires ValidTree(fs) && p in fs
    ensures Free(p, '/') && forall i :: 0 <= i < |p| ==> ProperName(p[i])
    decreases |p|
  {
    if p != [] {
      assert Rooted(fs, p);
      ProperParts(fs, Front(p));
      assert p == Front(p) + [Last(p)];
    }
  }

  lemma {:induction false} RelSplits(fs: Tree, p: Path)
    requires ValidTree(fs) && p in fs && p != []
    ensures Split(Rel(p), '/') == p && Rel(p) != "."
  {
    ProperParts(fs, p);
    SplitJoin(p, '/');
    SplitWhole(".", '/');
  }

  // Two entries never share a snapshot key.
  lemma {:induction false} RelInjective(fs: Tree, p: Path, q: Path)
    requires ValidTree(fs) && p in fs && q in fs && Rel(p) == Rel(q)
    ensures p == q
  {
    if p != [] { RelSplits(fs, p); }
    if q != [] { RelSplits(fs, q); }
  }

  lemma {:induction false} RecordOne(fs: Tree, visited: set<Path>, hash: Bytes -> string, out: Snapshot, p: Path)
    requires ValidTree(fs) && Records(fs, visited, hash, out) && p in fs
    ensures Records(fs, visited + {p}, hash, out[Rel(p) := RowOf(fs[p], hash)])
  {
    hide RowOf, Rel;
    forall q | q in visited && Rel(q) == Rel(p) ensures q == p { RelInjective(fs, q, p); }
    var more := out[Rel(p) := RowOf(fs[p], hash)];
    forall k ensures k in more ==> exists q :: q in visited + {p} && Rel(q) == k {
      if k in out {
        var q :| q in visited && Rel(q) == k;
        assert q in visited + {p};
      } else {
        assert p in visited + {p};
      }
    }
  }

  lemma {:induction false} StartWalk(fs: Tree)
    requires ValidTree(fs)
    ensures Walk(fs, {[]}, [[]])
  {
  }

  lemma {:induction false} PopWalk(fs: Tree, visited: set<Path>, pending: seq<Path>)
    requires Walk(fs, visited, pending) && pending != []
    ensures Expanding(fs, visited, Front(pending), Last(pending), [])
  {
    var parent := Last(pending);
    assert forall p :: p in pending <==> p in Front(pending) || p == parent by {
      assert pending == Front(pending) + [parent];
    }
    forall p | p in visited && p != [] ensures Expanded(p, visited, Front(pending)) {
      assert Expanded(p, visited, pending);
    }
    forall p | p in fs && p != [] && Expanded(p, visited, Front(pending)) ensures p in visited <==> Front(p) != parent {
      assert p in visited ==> Expanded(p, visited, pending);
      assert Front(p) != parent ==> Expanded(p, visited, pending);
    }
  }

  lemma {:induction false} VisitReached(fs: Tree, visited: set<Path>, pending: seq<Path>, parent: Path, child: Path)
    requires Reached(fs, visited, pending) && parent in visited && parent !in pending
    requires child in fs && child != [] && Front(child) == parent && child !in visited
    ensures Reached(fs, visited + {child}, if fs[child].Directory? then pending + [child] else pending)
    ensures child !in pending
  {
    var more := if fs[child].Directory? then pending + [child] else pending;
    assert forall p :: p in more <==> p in pending || (p == child && fs[child].Directory?);
    forall p | p in visited + {child} && p != [] ensures Expanded(p, visited + {child}, more) {
      if p != child { assert Expanded(p, visited, pending); }
    }
  }

  // An entry whose directory counts as expanded once the child is in counted so before.
  lemma {:induction false} ExpandedBefore(fs: Tree, visited: set<Path>, pending: seq<Path>, child: Path, p: Path)
    requires p in fs && p != [] && child in fs && Front(p) in fs && fs[Front(p)].Directory?
    requires Expanded(p, visited + {child}, if fs[child].Directory? then pending + [child] else pending)
    ensures Expanded(p, visited, pending)
  {
    assert child in pending + [child];
    assert forall q: Path :: q in pending ==> q in pending + [child];
  }

  lemma {:induction false} VisitFull(fs: Tree, visited: set<Path>, pending: seq<Path>, parent: Path, names: seq<string>,
                                     i: nat, p: Path)
    requires i < |names| && parent + [names[i]] in fs && p in fs && p != [] && p != parent + [names[i]]
    requires Expanding(fs, visited, pending, parent, names[..i]) && Expanded(p, visited, pending)
    ensures p in visited + {parent + [names[i]]} <==> Front(p) != parent || Last(p) in names[..i + 1]
  {
    hide Reached, Expanded;
    assert names[..i + 1] == names[..i] + [names[i]];
    assert p == Front(p) + [Last(p)];
  }

  lemma {:induction false} VisitOne(fs: Tree, visited: set<Path>, pending: seq<Path>, parent: Path, names: seq<string>,
                                    i: nat)
    requires ValidTree(fs) && i < |names| && NoRepeats(names) && parent + [names[i]] in fs
    requires Expanding(fs, visited, pending, parent, names[..i])
    ensures var child := parent + [names[i]];
            && child !in visited
            && Expanding(fs, visited + {child}, if fs[child].Directory? then pending + [child] else pending, parent,
                         names[..i + 1])
            && |fs.Keys - (visited + {child})| == |fs.Keys - visited| - 1
  {
    var child := parent + [names[i]];
    assert Front(child) == parent && Last(child) == names[i];
    assert names[i] !in names[..i];
    assert Expanded(child, visited, pending);
    assert fs.Keys - (visited + {child}) == (fs.Keys - visited) - {child};
    VisitReached(fs, visited, pending, parent, child);
    var more := if fs[child].Directory? then pending + [child] else pending;
    hide Reached, Expanded;
    forall p | p in fs && p != [] && Expanded(p, visited + {child}, more)
      ensures p in visited + {child} <==> Front(p) != parent || Last(p) in names[..i + 1]
    {
      if p == child {
        assert names[..i + 1][i] == names[i];
      } else {
        assert Rooted(fs, p);
        ExpandedBefore(fs, visited, pending, child, p);
        VisitFull(fs, visited, pending, parent, names, i, p);
      }
    }
  }

  lemma {:induction false} DoneExpanding(fs: Tree, visited: set<Path>, pending: seq<Path>, parent: Path,
                                         names: seq<string>)
    requires Expanding(fs, visited, pending, parent, names) && forall n :: n in names <==> n in Names(fs, parent)
    ensures Walk(fs, visited, pending)
  {
  }

  lemma {:induction false} WalkedAll(fs: Tree, visited: set<Path>, p: Path)
    requires ValidTree(fs) && Walk(fs, visited, []) && p in fs
    ensures p in visited
    decreases |p|
  {
    if p != [] {
      assert Rooted(fs, p);
      WalkedAll(fs, visited, Front(p));
      assert Expanded(p, visited, []);
    }
  }

  // The work left: entries not yet visited and directories waiting.
  ghost function Measure(fs: Tree, visited: set<Path>, pending: seq<Path>): nat {
    |fs.Keys - visited| + |pending|
  }

  // The running totals are those of the visited entries, and nothing has been refused so far.
  ghost predicate Tally(fs: Tree, hash: Bytes -> string, visited: set<Path>, out: Snapshot, count: nat, total: nat) {
    && visited <= fs.Keys && [] in visited && Records(fs, visited, hash, out)
    && count == |visited| - 1 && total == TotalSize(fs, visited)
    && count <= MAX_FILES && total <= MAX_TREE_BYTES && forall p :: p in visited ==> SafeFile(fs[p])
  }

  // The walk stops at this entry.
  predicate Refuses(fs: Tree, p: Path, count: nat, total: nat)
    requires p in fs
  {
    count + 1 > MAX_FILES || !SafeFile(fs[p]) || total + Size(fs, p) > MAX_TREE_BYTES
  }

  lemma {:induction false} TallyRefuses(fs: Tree, hash: Bytes -> string, visited: set<Path>, out: Snapshot, count: nat,
                                        total: nat, p: Path)
    requires ValidTree(fs) && Tally(fs, hash, visited, out, count, total) && p in fs && p !in visited
    requires Refuses(fs, p, count, total)
    ensures !Snapshotable(fs)
  {
    hide Records, RowOf, Rel, ValidTree, Size;
    Smaller(visited + {p}, fs.Keys);
    SizeAdd(fs, visited, p);
    SizeGrows(fs, visited + {p}, fs.Keys);
    assert |fs| == |fs.Keys|;
  }

  lemma {:induction false} TallyOne(fs: Tree, hash: Bytes -> string, visited: set<Path>, out: Snapshot, count: nat,
                                    total: nat, p: Path)
    requires ValidTree(fs) && Tally(fs, hash, visited, out, count, total) && p in fs && p !in visited
    requires !Refuses(fs, p, count, total)
    ensures Tally(fs, hash, visited + {p}, out[Rel(p) := RowOf(fs[p], hash)], count + 1, total + Size(fs, p))
  {
    hide Records, RowOf, Rel, ValidTree, Size, SafeFile, TotalSize;
    SizeAdd(fs, visited, p);
    RecordOne(fs, visited, hash, out, p);
  }

  lemma {:induction false} StartTally(fs: Tree, hash: Bytes -> string)
    requires ValidTree(fs)
    ensures Tally(fs, hash, {[]}, map["." := RowOf(fs[[]], hash)], 0, 0)
  {
    var none: set<Path> := {};
    SizeAdd(fs, none, []);
    assert none + {[]} == {[]};
  }

  lemma {:induction false} FullTally(fs: Tree, hash: Bytes -> string, visited: set<Path>, out: Snapshot, count: nat,
                                     total: nat)
    requires ValidTree(fs) && Walk(fs, visited, []) && Tally(fs, hash, visited, out, count, total)
    requires fs[[]].mode == PRIVATE_MODE
    ensures Snapshotable(fs) && Records(fs, fs.Keys, hash, out)
  {
    forall p | p in fs ensures p in visited { WalkedAll(fs, visited, p); }
    assert visited == fs.Keys && |fs| == |fs.Keys|;
    hide Records, TotalSize, ValidTree;
  }

  lemma {:induction false} InBounds(fs: Tree, hash: Bytes -> string, visited: set<Path>, out: Snapshot, count: nat,
                                    total: nat)
    requires Tally(fs, hash, visited, out, count, total)
    ensures count <= MAX_FILES && total <= MAX_TREE_BYTES
  {
  }

  lemma {:induction false} MeasureFalls(fs: Tree, visited: set<Path>, pending: seq<Path>, p: Path)
    requires p in fs && |fs.Keys - (visited + {p})| == |fs.Keys - visited| - 1
    ensures Measure(fs, visited + {p}, if fs[p].Directory? then pending + [p] else pending)
         <= Measure(fs, visited, pending)
  {
  }

  // Lists one directory: every entry is recorded, subdirectories wait.
  method Expand(fs: Tree, hash: Bytes -> string, parent: Path, out0: Snapshot, pending0: seq<Path>, count0: nat,
                total0: nat, ghost visited0: set<Path>)
    returns (failure: Option<SnapshotError>, out: Snapshot, pending: seq<Path>, count: nat, total: nat,
             ghost visited: set<Path>)
    requires ValidTree(fs) && Tally(fs, hash, visited0, out0, count0, total0)
    requires Expanding(fs, visited0, pending0, parent, [])
    ensures failure.Some? ==> !Snapshotable(fs)
    ensures failure.None? ==> Tally(fs, hash, visited, out, count, total) && Walk(fs, visited, pending)
    ensures failure.None? ==> Measure(fs, visited, pending) <= Measure(fs, visited0, pending0)
  {
    BeforeStrictTotal();
    hide *;
    var names := SortSet(Before, Names(fs, parent));
    SortedNames(fs, parent);
    failure, out, pending, count, total, visited := None, out0, pending0, count0, total0, visited0;
    assert names[..0] == [];
    for i := 0 to |names|
      invariant Expanding(fs, visited, pending, parent, names[..i]) && Tally(fs, hash, visited, out, count, total)
      invariant Measure(fs, visited, pending) <= Measure(fs, visited0, pending0)
    {
      var p := parent + [names[i]];
      NamedEntry(fs, parent, names[i]);
      VisitOne(fs, visited, pending, parent, names, i);
      MeasureFalls(fs, visited, pending, p);
      RefusesMeans(fs, p, count, total);
      if Refuses(fs, p, count, total) {
        TallyRefuses(fs, hash, visited, out, count, total, p);
      } else {
        TallyOne(fs, hash, visited, out, count, total, p);
      }
      InBounds(fs, hash, visited, out, count, total);
      count := count + 1;
      if count > MAX_FILES {
        failure := Some(EntryBudget);
        return;
      }
      if fs[p].File? && (fs[p].links != 1 || |fs[p].data| > MAX_FILE_BYTES) {
        failure := Some(UnsafeFile(p));
        return;
      }
      total := total + if fs[p].File? then |fs[p].data| else 0;
      if total > MAX_TREE_BYTES {
        failure := Some(ByteBudget);
        return;
      }
      pending := if fs[p].Directory? then pending + [p] else pending;
      out := out[Rel(p) := RowOf(fs[p], hash)];
      visited := visited + {p};
    }
    assert names[..|names|] == names;
    DoneExpanding(fs, visited, pending, parent, names);
  }

  lemma {:induction false} RefusesMeans(fs: Tree, p: Path, count: nat, total: nat)
    requires p in fs
    ensures Size(fs, p) == if fs[p].File? then |fs[p].data| else 0
    ensures Refuses(fs, p, count, total) <==>
              || count + 1 > MAX_FILES || (fs[p].File? && (fs[p].links != 1 || |fs[p].data| > MAX_FILE_BYTES))
              || total + Size(fs, p) > MAX_TREE_BYTES
  {
  }

  // The stack walk records every entry of the tree exactly once, and refuses exactly the trees it must.
  method FsSnapshot(fs: Tree, hash: Bytes -> string) returns (r: Result<Snapshot, SnapshotError>)
    requires ValidTree(fs)
    ensures r.Ok? <==> Snapshotable(fs)
    ensures r.Ok? ==> Records(fs, fs.Keys, hash, r.value) && ShowsAll(fs, hash, r.value)
  {
    if fs[[]].mode != PRIVATE_MODE {
      return Err(RootNotPrivate);
    }
    StartWalk(fs);
    StartTally(fs, hash);
    hide *;
    var out := map["." := RowOf(fs[[]], hash)];
    var pending: seq<Path> := [[]];
    var count, total := 0, 0;
    ghost var visited: set<Path> := {[]};
    while pending != []
      invariant Walk(fs, visited, pending) && Tally(fs, hash, visited, out, count, total)
      decreases Measure(fs, visited, pending)
    {
      PopWalk(fs, visited, pending);
      var parent, waiting := Last(pending), Front(pending);
      Shorter(fs, visited, pending);
      var failure;
      failure, out, pending, count, total, visited := Expand(fs, hash, parent, out, waiting, count, total, visited);
      if failure.Some? {
        return Err(failure.value);
      }
    }
    FullTally(fs, hash, visited, out, count, total);
    RecordsShow(fs, hash, out);
    r := Ok(out);
  }

  lemma {:induction false} RecordsShow(fs: Tree, hash: Bytes -> string, out: Snapshot)
    requires ValidTree(fs) && Records(fs, fs.Keys, hash, out)
    ensures ShowsAll(fs, hash, out)
  {
    hide Join;
    assert Rel([]) == ".";
    forall p | p in fs && p != [] ensures Join(p, '/') in out && Shows(out[Join(p, '/')], fs[p], hash) {
      assert Rel(p) == Join(p, '/');
    }
    forall k | k in out && k != "." ensures exists p :: p in fs && p != [] && Join(p, '/') == k {
      var p :| p in fs && Rel(p) == k;
    }
  }

  // What a snapshot says of two entries that share a row.
  ghost predicate SameEntry(a: Node, b: Node) {
    match a
    case File(mode, _, data) => b.File? && b.mode == mode && b.data == data
    case Directory(mode) => b == a
    case Symlink(mode) => b == a
    case Other(mode) => b == a
  }

  ghost predicate InjectiveHash(hash: Bytes -> string) {
    forall a, b :: hash(a) == hash(b) ==> a == b
  }

  // Under a collision-free hash a snapshot determines its tree: paths, kinds, modes and the bytes of every file.
  lemma {:induction false} SnapshotDetermines(fs: Tree, other: Tree, hash: Bytes -> string, out: Snapshot)
    requires ValidTree(fs) && ValidTree(other) && InjectiveHash(hash)
    requires ShowsAll(fs, hash, out) && ShowsAll(other, hash, out)
    ensures fs.Keys == other.Keys && forall p :: p in fs ==> SameEntry(fs[p], other[p])
  {
    SharedPaths(fs, other, hash, out);
    SharedPaths(other, fs, hash, out);
    forall p | p in fs ensures SameEntry(fs[p], other[p]) {
      SharedRow(fs[p], other[p], hash, if p == [] then out["."] else out[Join(p, '/')]);
    }
  }

  lemma {:induction false} SharedRow(a: Node, b: Node, hash: Bytes -> string, row: Row)
    requires InjectiveHash(hash) && Shows(row, a, hash) && Shows(row, b, hash)
    ensures SameEntry(a, b)
  {
  }

  lemma {:induction false} SharedPaths(fs: Tree, other: Tree, hash: Bytes -> string, out: Snapshot)
    requires ValidTree(fs) && ValidTree(other) && ShowsAll(fs, hash, out) && ShowsAll(other, hash, out)
    ensures forall p :: p in fs ==> p in other
  {
    forall p | p in fs ensures p in other {
      if p != [] {
        RelSplits(fs, p);
        assert Rel(p) == Join(p, '/');
        hide Join, Split, Shows;
        var q :| q in other && q != [] && Join(q, '/') == Join(p, '/');
        RelSplits(other, q);
      }
    }
  }

  lemma {:induction false} Shorter(fs: Tree, visited: set<Path>, pending: seq<Path>)
    requires pending != []
    ensures Measure(fs, visited, Front(pending)) < Measure(fs, visited, pending)
  {
  }

  lemma {:induction false} SortedNames(fs: Tree, parent: Path)
    requires StrictTotal(Before)
    ensures NoRepeats(SortSet(Before, Names(fs, parent)))
    ensures forall n :: n in SortSet(Before, Names(fs, parent)) <==> n in Names(fs, parent)
  {
  }

  lemma {:induction false} NamedEntry(fs: Tree, parent: Path, name: string)
    requires name in Names(fs, parent)
    ensures parent + [name] in fs
  {
    var p :| p in fs && p != [] && Front(p) == parent && Last(p) == name;
    assert p == Front(p) + [Last(p)];
  }

  // ----- copy_fixture -----

  predicate Copyable(node: Node) {
    node.File? || node.Directory?
  }

  function CopyNode(node: Node): Node
    requires Copyable(node)
  {
    match node
    case File(_, _, data) => File(384, 1, data)
    case Directory(_) => Directory(PRIVATE_MODE)
  }

  // The tree with private modes and unshared files.
  function CopyOf(fs: Tree): Tree
    requires forall p :: p in fs ==> Copyable(fs[p])
  {
    map p | p in fs :: CopyNode(fs[p])
  }

  // The same paths: a private directory for each directory, an unshared 0600 file of the same bytes for each file.
  ghost predicate Private(fs: Tree, copy: Tree) {
    && copy.Keys == fs.Keys
    && forall p :: p in fs ==> copy[p] == if fs[p].File? then File(384, 1, fs[p].data) else Directory(448)
  }

  lemma {:induction false} CopyPrivate(fs: Tree)
    requires forall p :: p in fs ==> Copyable(fs[p])
    ensures Private(fs, CopyOf(fs))
  {
  }

  datatype CopyError = Refused(error: SnapshotError) | NotRegular | Blocked(path: Path)

  // The entries created after the first i snapshot keys.
  ghost predicate Copied(fs: Tree, keys: seq<string>, i: nat, dst: Tree)
    requires i <= |keys| && forall p :: p in fs ==> Copyable(fs[p])
  {
    forall p :: (p in dst <==> p in fs && (p == [] || Rel(p) in keys[..i])) && (p in dst ==> dst[p] == CopyNode(fs[p]))
  }

  lemma {:induction false} JoinLast(p: Path)
    requires |p| >= 2
    ensures Rel(p) == Rel(Front(p)) + "/" + Last(p)
    decreases |p|
  {
    if |p| == 2 {
      assert Front(p) == [p[0]] && p[1..] == [p[1]];
      assert Join(p, '/') == p[0] + ['/'] + Join(p[1..], '/');
    } else {
      JoinLast(p[1..]);
      assert Front(p)[1..] == Front(p[1..]);
      assert Join(p, '/') == p[0] + ['/'] + Join(p[1..], '/');
      assert Join(Front(p), '/') == p[0] + ['/'] + Join(Front(p[1..]), '/');
      var a, b, c := p[0] + ['/'], Rel(Front(p[1..])), "/" + Last(p);
      assert a + (b + "/" + Last(p)) == a + b + "/" + Last(p);
    }
  }

  // A directory's key is a proper prefix of its entries' keys, so it sorts first.
  lemma {:induction false} ParentFirst(p: Path)
    requires |p| >= 2
    ensures Before(Rel(Front(p)), Rel(p))
  {
    JoinLast(p);
    var rest := "/" + Last(p);
    assert Rel(p) == Rel(Front(p)) + rest;
    PrefixBefore(Rel(Front(p)), rest);
  }

  lemma {:induction false} ParentCopied(fs: Tree, keys: seq<string>, i: nat, dst: Tree, p: Path)
    requires ValidTree(fs) && (forall q :: q in fs ==> Copyable(fs[q])) && p in fs && p != []
    requires i < |keys| && Increasing(Before, keys) && keys[i] == Rel(p) && Copied(fs, keys, i, dst)
    requires forall q :: q in fs ==> Rel(q) in keys
    ensures Front(p) in dst && dst[Front(p)].Directory? && p !in dst
  {
    hide *;
    var parent := Front(p);
    ParentIn(fs, p);
    BeforeIrreflexive(keys[i]);
    CopiedIn(fs, keys, i, dst, p);
    CopiedIn(fs, keys, i, dst, parent);
    NotEarlier(keys, i);
    if parent != [] {
      ParentFirst(p);
      EarlierKey(keys, i, Rel(parent));
    }
  }

  lemma {:induction false} ParentIn(fs: Tree, p: Path)
    requires ValidTree(fs) && (forall q :: q in fs ==> Copyable(fs[q])) && p in fs && p != []
    ensures Front(p) in fs && fs[Front(p)].Directory? && (Front(p) != [] ==> |p| >= 2)
    ensures CopyNode(fs[Front(p)]).Directory?
  {
    assert Rooted(fs, p);
    hide Rel;
  }

  lemma {:induction false} NotEarlier(keys: seq<string>, i: nat)
    requires i < |keys| && Increasing(Before, keys)
    ensures keys[i] !in keys[..i]
  {
    BeforeIrreflexive(keys[i]);
    hide Before;
  }

  lemma {:induction false} EarlierKey(keys: seq<string>, i: nat, key: string)
    requires i < |keys| && Increasing(Before, keys) && key in keys && Before(key, keys[i])
    ensures key in keys[..i]
  {
    hide Before;
    BeforeIrreflexive(keys[i]);
    var j :| 0 <= j < |keys| && keys[j] == key;
    if j > i {
      BeforeTransitive(keys[i], keys[j], keys[i]);
    }
    assert keys[..i][j] == key;
  }

  // The creation loop: mkdir and open fail where an entry exists or its directory does not.
  method CopyEntries(fs: Tree, hash: Bytes -> string, snap: Snapshot) returns (r: Result<Tree, CopyError>)
    requires ValidTree(fs) && (forall p :: p in fs ==> Copyable(fs[p])) && Records(fs, fs.Keys, hash, snap)
    ensures r == Ok(CopyOf(fs))
  {
    BeforeStrictTotal();
    hide Before, StrictTotal, Increasing, Copied, ValidTree, Records, Rel, CopyOf;
    var keys := SortSet(Before, snap.Keys);
    var dst: Tree := map[[] := Directory(PRIVATE_MODE)];
    CopyStart(fs, keys);
    for i := 0 to |keys|
      invariant Copied(fs, keys, i, dst)
    {
      ghost var p := KeyPath(fs, hash, snap, keys, i);
      CopyStep(fs, keys, i, dst, p);
      if keys[i] != "." {
        var target := Split(keys[i], '/');
        if target == [] || Front(target) !in dst || !dst[Front(target)].Directory? || target in dst {
          assert false;
          return Err(Blocked(target));
        }
        dst := dst[target := if snap[keys[i]].kind == DirectoryKind then Directory(PRIVATE_MODE)
                             else File(384, 1, fs[target].data)];
      }
    }
    CopyDone(fs, hash, snap, keys, dst);
    r := Ok(dst);
  }

  method CopyFixture(fs: Tree, hash: Bytes -> string) returns (r: Result<(Snapshot, Tree), CopyError>)
    requires ValidTree(fs)
    ensures r.Ok? <==> Snapshotable(fs) && forall p :: p in fs ==> Copyable(fs[p])
    ensures r.Ok? ==> Records(fs, fs.Keys, hash, r.value.0) && ShowsAll(fs, hash, r.value.0)
    ensures r.Ok? ==> r.value.1 == CopyOf(fs) && Private(fs, r.value.1)
  {
    hide *;
    var snapshot := FsSnapshot(fs, hash);
    if snapshot.Err? {
      return Err(Refused(snapshot.error));
    }
    var snap := snapshot.value;
    KindsShown(fs, hash, snap);
    if exists k :: k in snap && snap[k].kind !in {FileKind, DirectoryKind} {
      return Err(NotRegular);
    }
    var dst := CopyEntries(fs, hash, snap);
    CopyPrivate(fs);
    r := Ok((snap, dst.value));
  }

  lemma {:induction false} KindsShown(fs: Tree, hash: Bytes -> string, snap: Snapshot)
    requires Records(fs, fs.Keys, hash, snap)
    ensures (exists k :: k in snap && snap[k].kind !in {FileKind, DirectoryKind}) <==>
            !forall p :: p in fs ==> Copyable(fs[p])
  {
    hide Rel;
    forall p | p in fs ensures Copyable(fs[p]) <==> snap[Rel(p)].kind in {FileKind, DirectoryKind} {
      assert snap[Rel(p)] == RowOf(fs[p], hash);
    }
    if exists k :: k in snap && snap[k].kind !in {FileKind, DirectoryKind} {
      var k :| k in snap && snap[k].kind !in {FileKind, DirectoryKind};
      var p :| p in fs && Rel(p) == k;
    }
  }

  lemma {:induction false} CopyStart(fs: Tree, keys: seq<string>)
    requires ValidTree(fs) && forall p :: p in fs ==> Copyable(fs[p])
    ensures Copied(fs, keys, 0, map[[] := Directory(PRIVATE_MODE)])
  {
  }

  // The entry a snapshot key stands for.
  lemma {:induction false} KeyPath(fs: Tree, hash: Bytes -> string, snap: Snapshot, keys: seq<string>, i: nat)
    returns (p: Path)
    requires ValidTree(fs) && Records(fs, fs.Keys, hash, snap) && (forall k :: k in keys <==> k in snap) && i < |keys|
    ensures keys[i] in snap && p in fs && Rel(p) == keys[i] && snap[keys[i]] == RowOf(fs[p], hash)
    ensures (p == [] <==> keys[i] == ".") && (p != [] ==> Split(keys[i], '/') == p)
    ensures forall q :: q in fs ==> Rel(q) in keys
  {
    assert keys[i] in keys;
    p :| p in fs && Rel(p) == keys[i];
    if p != [] { RelSplits(fs, p); }
  }

  // The next key is either the root's or an entry whose directory has been made already.
  lemma {:induction false} CopyStep(fs: Tree, keys: seq<string>, i: nat, dst: Tree, p: Path)
    requires ValidTree(fs) && forall q :: q in fs ==> Copyable(fs[q])
    requires StrictTotal(Before) && Increasing(Before, keys) && i < |keys| && Copied(fs, keys, i, dst)
    requires p in fs && Rel(p) == keys[i] && forall q :: q in fs ==> Rel(q) in keys
    ensures p == [] ==> Copied(fs, keys, i + 1, dst)
    ensures p != [] ==>
              && Front(p) in dst && dst[Front(p)].Directory? && p !in dst
              && Copied(fs, keys, i + 1, dst[p := CopyNode(fs[p])])
  {
    hide *;
    if p != [] { ParentCopied(fs, keys, i, dst, p); }
    var more := if p == [] then dst else dst[p := CopyNode(fs[p])];
    forall q
      ensures q in more <==> q in fs && (q == [] || Rel(q) in keys[..i + 1])
      ensures q in more ==> more[q] == CopyNode(fs[q])
    {
      KeysGrow(fs, keys, i, p, q);
      CopiedIn(fs, keys, i, dst, q);
    }
    CopiedMeans(fs, keys, i + 1, more);
  }

  lemma {:induction false} KeysGrow(fs: Tree, keys: seq<string>, i: nat, p: Path, q: Path)
    requires ValidTree(fs) && i < |keys| && p in fs && Rel(p) == keys[i]
    ensures q in fs ==> (Rel(q) in keys[..i + 1] <==> Rel(q) in keys[..i] || q == p)
  {
    hide Rel;
    assert keys[..i + 1] == keys[..i] + [keys[i]];
    if q in fs && Rel(q) == keys[i] { RelInjective(fs, q, p); }
  }

  lemma {:induction false} CopiedIn(fs: Tree, keys: seq<string>, i: nat, dst: Tree, p: Path)
    requires i <= |keys| && (forall q :: q in fs ==> Copyable(fs[q])) && Copied(fs, keys, i, dst)
    ensures p in dst <==> p in fs && (p == [] || Rel(p) in keys[..i])
    ensures p in dst ==> dst[p] == CopyNode(fs[p])
  {
    hide Rel, CopyNode;
  }

  lemma {:induction false} CopiedMeans(fs: Tree, keys: seq<string>, i: nat, dst: Tree)
    requires i <= |keys| && forall q :: q in fs ==> Copyable(fs[q])
    requires forall p ::
             (p in dst <==> p in fs && (p == [] || Rel(p) in keys[..i])) && (p in dst ==> dst[p] == CopyNode(fs[p]))
    ensures Copied(fs, keys, i, dst)
  {
    hide Rel, CopyNode;
  }

  lemma {:induction false} CopyDone(fs: Tree, hash: Bytes -> string, snap: Snapshot, keys: seq<string>, dst: Tree)
    requires (forall p :: p in fs ==> Copyable(fs[p])) && Records(fs, fs.Keys, hash, snap)
    requires (forall k :: k in keys <==> k in snap) && Copied(fs, keys, |keys|, dst)
    ensures dst == CopyOf(fs)
  {
    hide Rel, RowOf;
    assert keys[..|keys|] == keys;
    assert forall p :: p in fs ==> Rel(p) in keys;
  }

  // ----- the copy, snapshotted -----

  lemma {:induction false} CopySize(fs: Tree, s: set<Path>)
    requires (forall p :: p in fs ==> Copyable(fs[p])) && s <= fs.Keys
    ensures TotalSize(CopyOf(fs), s) == TotalSize(fs, s)
    decreases |s|
  {
    if s != {} {
      var p :| p in s;
      var rest := s - {p};
      CopySize(fs, rest);
      SizeAdd(fs, rest, p);
      SizeAdd(CopyOf(fs), rest, p);
      assert rest + {p} == s;
    }
  }

  // What is compared between a source and its copy.
  predicate SameContent(a: Row, b: Row) {
    a.kind == b.kind && a.sha256 == b.sha256 && a.bytes == b.bytes
  }

  lemma {:induction false} CopyRows(fs: Tree, hash: Bytes -> string, before: Snapshot, after: Snapshot)
    requires (forall p :: p in fs ==> Copyable(fs[p]))
    requires Records(fs, fs.Keys, hash, before) && Records(CopyOf(fs), fs.Keys, hash, after)
    ensures before.Keys == after.Keys
    ensures forall k :: k in before ==>
              && SameContent(before[k], after[k])
              && after[k].mode == if after[k].kind == FileKind then 384 else PRIVATE_MODE
  {
    hide Rel;
    var copy := CopyOf(fs);
    forall k ensures k in before <==> k in after {
      if k in before { var p :| p in fs && Rel(p) == k; assert p in copy; }
      if k in after { var p :| p in fs && Rel(p) == k; }
    }
    forall k | k in before
      ensures SameContent(before[k], after[k])
              && after[k].mode == if after[k].kind == FileKind then 384 else PRIVATE_MODE
    {
      var p :| p in fs && Rel(p) == k;
      assert before[Rel(p)] == RowOf(fs[p], hash) && after[Rel(p)] == RowOf(CopyNode(fs[p]), hash);
    }
  }

  lemma {:induction false} CopyValid(fs: Tree)
    requires ValidTree(fs) && forall p :: p in fs ==> Copyable(fs[p])
    ensures ValidTree(CopyOf(fs)) && CopyOf(fs).Keys == fs.Keys
  {
    var copy := CopyOf(fs);
    forall p | p in copy && p != [] ensures Rooted(copy, p) { assert Rooted(fs, p); }
  }

  lemma {:induction false} CopySnapshotable(fs: Tree)
    requires ValidTree(fs) && Snapshotable(fs) && (forall p :: p in fs ==> Copyable(fs[p])) && ValidTree(CopyOf(fs))
    ensures Snapshotable(CopyOf(fs))
  {
    var copy := CopyOf(fs);
    CopySize(fs, fs.Keys);
    hide TotalSize;
    assert copy.Keys == fs.Keys && |copy| == |copy.Keys| && |fs| == |fs.Keys|;
  }

  // Every copy can be snapshotted in turn, and shows the source's paths, types, sizes and digests, with private modes.
  lemma {:induction false} CopySnapshot(fs: Tree, hash: Bytes -> string, before: Snapshot, after: Snapshot)
    requires ValidTree(fs) && Snapshotable(fs) && forall p :: p in fs ==> Copyable(fs[p])
    ensures ValidTree(CopyOf(fs)) && Snapshotable(CopyOf(fs))
    ensures Records(fs, fs.Keys, hash, before) && Records(CopyOf(fs), fs.Keys, hash, after) ==>
              && before.Keys == after.Keys
              && forall k :: k in before ==>
                   && SameContent(before[k], after[k])
                   && after[k].mode == if after[k].kind == FileKind then 384 else PRIVATE_MODE
  {
    CopyValid(fs);
    hide CopyOf, ValidTree, Snapshotable, Records, SameContent;
    CopySnapshotable(fs);
    if Records(fs, fs.Keys, hash, before) && Records(CopyOf(fs), fs.Keys, hash, after) {
      CopyRows(fs, hash, before, after);
    }
  }
}
