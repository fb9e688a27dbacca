/** The producer's inventory rows and edges, and the graph checks of the installing program. */
module ReleaseGraph {
  import opened CoreNames
  import opened DependencyGraph
  import opened Ordering
  import opened Results
  import opened Text
  import opened Workspace

  const ROOT_PACKAGE := "rust-engineering-mcp"

  // What was found for a package: each text with its kind and the digest of its bytes.
  datatype Evidence = Evidence(kind: string, sha256: string)

  datatype Package = Package(id: string, name: string, version: string, source: Option<string>,
                             license: Option<string>, texts: seq<Evidence>)

  datatype Metadata = Metadata(packages: seq<Package>, members: set<string>, resolve: Option<seq<Node>>)

  // Cargo.lock rows by (name, version, source); the value is the row's checksum.
  type Lock = map<(string, string, Option<string>), Option<string>>

  datatype Row = Row(id: string, name: string, version: string, source: Option<string>, checksum: Option<string>,
                     license: string, roles: seq<string>, features: seq<string>, texts: seq<Evidence>)

  datatype Inventory = Inventory(tag: string, version: string, packageCount: nat, packages: seq<Row>, edges: seq<Edge>)

  datatype Release = Release(inventory: Inventory, rootId: string, closure: Closure)

  datatype ReleaseError =
    | RootPackageCount(found: nat)
    | TagInvalid
    | VersionMismatch
    | Graph(error: GraphError)
    | PackagesAbsent(ids: set<string>)
    | NotCore(ids: set<string>)
    | LockAbsent(id: string)
    | LocalFeature(id: string)
    | LicensesMissing(unlicensed: seq<string>)

  // ----- the producer -----

  function Matches(packages: seq<Package>, members: set<string>): seq<string> {
    if packages == [] then []
    else
      var p := packages[0];
      (if p.name == ROOT_PACKAGE && p.id in members then [p.id] else []) + Matches(packages[1..], members)
  }

  // next(item for item in packages if item["id"] == id)
  function FirstVersion(packages: seq<Package>, id: string): Option<string> {
    if packages == [] then None
    else if packages[0].id == id then Some(packages[0].version)
    else FirstVersion(packages[1..], id)
  }

  // {package["id"]: package}: a later row replaces an earlier one.
  function ById(packages: seq<Package>): (m: map<string, Package>)
    ensures forall id :: id in m ==> m[id].id == id
  {
    if packages == [] then map[]
    else
      var last := packages[|packages| - 1];
      ById(packages[..|packages| - 1])[last.id := last]
  }

  // A decimal number without a leading zero.
  predicate Canonical(s: string) {
    && s != "" && (s[0] == '0' ==> |s| == 1)
    && forall i :: 0 <= i < |s| ==> '0' <= s[i] <= '9'
  }

  predicate Candidate(s: string) {
    |s| > 3 && s[|s| - 3..] == "-rc" && Canonical(s[..|s| - 3])
  }

  // vX.Y.Z or vX.Y.Z-rc.N
  predicate ReleaseTag(tag: string) {
    && tag != "" && tag[0] == 'v'
    && var parts := Split(tag[1..], '.');
       || (|parts| == 3 && Canonical(parts[0]) && Canonical(parts[1]) && Canonical(parts[2]))
       || (|parts| == 4 && Canonical(parts[0]) && Canonical(parts[1]) && Candidate(parts[2]) && Canonical(parts[3]))
  }

  function TagVersion(tag: string): string {
    if tag == "" then "" else tag[1..]
  }

  function IdKey(byId: map<string, Package>, id: string): seq<string> {
    if id in byId then [byId[id].name, byId[id].version, id] else ["", "", id]
  }

  function IdBefore(byId: map<string, Package>): (string, string) -> bool {
    (a, b) => ListBefore(IdKey(byId, a), IdKey(byId, b))
  }

  lemma {:induction false} IdBeforeStrictTotal(byId: map<string, Package>)
    ensures StrictTotal(IdBefore(byId))
  {
    ListBeforeStrictTotal();
    var less := IdBefore(byId);
    forall a, b ensures a == b || less(a, b) || less(b, a) {
      assert IdKey(byId, a)[2] == a && IdKey(byId, b)[2] == b;
    }
  }

  function LockKey(p: Package): (string, string, Option<string>) {
    (p.name, p.version, p.source)
  }

  predicate HasLicenseText(texts: seq<Evidence>) {
    exists t :: t in texts && t.kind == "license_or_copying"
  }

  predicate Licensed(p: Package) {
    p.license.Some? && p.license.value != "" && HasLicenseText(p.texts)
  }

  // next(item for item in nodes if item["id"] == id)["features"]
  function FirstFeatures(nodes: seq<Node>, id: string): seq<string> {
    if nodes == [] then []
    else if nodes[0].id == id then nodes[0].features
    else FirstFeatures(nodes[1..], id)
  }

  function RowOf(p: Package, checksum: Option<string>, roles: set<string>, features: seq<string>,
                 workspace: string): Row
    requires workspace != [] && Licensed(p) && StrictTotal(Before)
  {
    Row(Rename(p.id, workspace), p.name, p.version, p.source, checksum, p.license.value, SortSet(Before, roles),
        Sort(Before, features), p.texts)
  }

  function RenameEdge(e: Edge, workspace: string): Edge
    requires workspace != []
  {
    Edge(Rename(e.parent, workspace), Rename(e.child, workspace), e.role)
  }

  // Every package of the closure is known, locked and licensed, and has no local feature.
  predicate Complete(byId: map<string, Package>, lock: Lock, nodes: seq<Node>, seen: set<string>) {
    forall id :: id in seen ==>
      id in byId && LockKey(byId[id]) in lock && Licensed(byId[id]) && "local" !in FirstFeatures(nodes, id)
  }

  predicate AllCore(byId: map<string, Package>, seen: set<string>) {
    forall id :: id in seen ==> id in byId && CoreName(byId[id].name)
  }

  function RowsOf(ids: seq<string>, byId: map<string, Package>, lock: Lock, roles: map<string, set<string>>,
                  nodes: seq<Node>, workspace: string): (rows: seq<Row>)
    requires workspace != [] && StrictTotal(Before)
    requires Complete(byId, lock, nodes, Elements(ids)) && Elements(ids) <= roles.Keys
    ensures |rows| == |ids|
  {
    seq(|ids|, i requires 0 <= i < |ids| =>
      assert ids[i] in Elements(ids);
      var p := byId[ids[i]];
      RowOf(p, lock[LockKey(p)], roles[ids[i]], FirstFeatures(nodes, ids[i]), workspace))
  }

  function EdgesOf(edges: seq<Edge>, workspace: string): (renamed: seq<Edge>)
    requires workspace != []
    ensures |renamed| == |edges|
  {
    seq(|edges|, i requires 0 <= i < |edges| => RenameEdge(edges[i], workspace))
  }

  // What the producer emits when it succeeds.
  ghost predicate IsRelease(md: Metadata, lock: Lock, workspace: string, tag: string, r: Release)
    requires workspace != []
  {
    var byId := ById(md.packages);
    && StrictTotal(Before) && StrictTotal(IdBefore(byId))
    && Matches(md.packages, md.members) == [r.rootId]
    && FirstVersion(md.packages, r.rootId) == Some(TagVersion(tag))
    && md.resolve.Some?
    && IsClosure(Index(md.resolve.value), r.rootId, r.closure)
    && AllCore(byId, r.closure.seen) && Complete(byId, lock, md.resolve.value, r.closure.seen)
    && var ids := SortSet(IdBefore(byId), r.closure.seen);
       && Elements(ids) == r.closure.seen
       && r.inventory == Inventory(tag, TagVersion(tag), |ids|,
                                   RowsOf(ids, byId, lock, r.closure.roles, md.resolve.value, workspace),
                                   EdgesOf(r.closure.edges, workspace))
  }

  // When the producer succeeds at all.
  ghost predicate CanRelease(md: Metadata, lock: Lock, tag: string) {
    && |Matches(md.packages, md.members)| == 1
    && var root := Matches(md.packages, md.members)[0];
       && ReleaseTag(tag) && FirstVersion(md.packages, root) == Some(TagVersion(tag))
       && md.resolve.Some? && root in Index(md.resolve.value)
       && (forall n :: Reachable(Index(md.resolve.value), root, n) ==>
             && Sound(Index(md.resolve.value), n)
             && n in ById(md.packages) && CoreName(ById(md.packages)[n].name)
             && LockKey(ById(md.packages)[n]) in lock && Licensed(ById(md.packages)[n])
             && "local" !in FirstFeatures(md.resolve.value, n))
  }

  // The row loop: a package missing from the lock or with a local feature stops it, unlicensed packages are reported
  // after it.
  method BuildRows(ids: seq<string>, byId: map<string, Package>, lock: Lock, roles: map<string, set<string>>,
                   nodes: seq<Node>, workspace: string)
    returns (r: Result<seq<Row>, ReleaseError>)
    requires workspace != [] && StrictTotal(Before)
    requires Elements(ids) <= byId.Keys && Elements(ids) <= roles.Keys
    ensures r.Ok? <==> Complete(byId, lock, nodes, Elements(ids))
    ensures r.Ok? ==> r.value == RowsOf(ids, byId, lock, roles, nodes, workspace)
  {
    hide StrictTotal, Before, RowsOf, Elements;
    var rows: seq<Row> := [];
    var missing: seq<string> := [];
    assert ids[..0] == [] && ids[..|ids|] == ids;
    NoRowsOf(byId, lock, roles, nodes, workspace);
    for i := 0 to |ids|
      invariant missing == [] <==> Complete(byId, lock, nodes, Elements(ids[..i]))
      invariant Elements(ids[..i]) <= roles.Keys
      invariant missing == [] ==> rows == RowsOf(ids[..i], byId, lock, roles, nodes, workspace)
    {
      ElementsPush(ids, i);
      var p := byId[ids[i]];
      if LockKey(p) !in lock {
        return Err(LockAbsent(p.id));
      }
      if !Licensed(p) {
        missing := missing + [p.id];
      }
      if "local" in FirstFeatures(nodes, ids[i]) {
        return Err(LocalFeature(ids[i]));
      }
      if missing == [] {
        rows := rows + [RowOf(p, lock[LockKey(p)], roles[ids[i]], FirstFeatures(nodes, ids[i]), workspace)];
        RowsOfPush(ids, byId, lock, roles, nodes, workspace, i);
      }
    }
    r := if missing == [] then Ok(rows) else Err(LicensesMissing(missing));
  }

  lemma {:induction false} NoRowsOf(byId: map<string, Package>, lock: Lock, roles: map<string, set<string>>,
                                    nodes: seq<Node>, workspace: string)
    requires workspace != [] && StrictTotal(Before)
    ensures Elements<string>([]) == {} && RowsOf([], byId, lock, roles, nodes, workspace) == []
  {
  }

  lemma {:induction false} RowsOfPush(ids: seq<string>, byId: map<string, Package>, lock: Lock,
                                      roles: map<string, set<string>>, nodes: seq<Node>, workspace: string, i: nat)
    requires workspace != [] && StrictTotal(Before) && i < |ids|
    requires Complete(byId, lock, nodes, Elements(ids[..i + 1])) && Elements(ids[..i + 1]) <= roles.Keys
    ensures Complete(byId, lock, nodes, Elements(ids[..i])) && Elements(ids[..i]) <= roles.Keys
    ensures ids[i] in byId && LockKey(byId[ids[i]]) in lock && ids[i] in roles
    ensures RowsOf(ids[..i + 1], byId, lock, roles, nodes, workspace)
         == RowsOf(ids[..i], byId, lock, roles, nodes, workspace)
            + [RowOf(byId[ids[i]], lock[LockKey(byId[ids[i]])], roles[ids[i]], FirstFeatures(nodes, ids[i]), workspace)]
  {
    hide StrictTotal, Before, SortSet, Sort;
    ElementsPush(ids, i);
    assert ids[..i + 1][..i] == ids[..i] && ids[..i + 1][i] == ids[i];
  }

  method InventoryAndNotices(md: Metadata, lock: Lock, workspace: string, tag: string)
    returns (r: Result<Release, ReleaseError>)
    requires workspace != []
    ensures r.Ok? <==> CanRelease(md, lock, tag)
    ensures r.Ok? ==> IsRelease(md, lock, workspace, tag, r.value)
  {
    hide *;
    var matches := Matches(md.packages, md.members);
    CanReleaseNeeds(md, lock, tag);
    if |matches| != 1 {
      return Err(RootPackageCount(|matches|));
    }
    var rootId := matches[0];
    if !ReleaseTag(tag) {
      return Err(TagInvalid);
    }
    if FirstVersion(md.packages, rootId) != Some(TagVersion(tag)) {
      return Err(VersionMismatch);
    }
    var closure := DependencyClosure(md.resolve, rootId);
    if closure.Err? {
      return Err(Graph(closure.error));
    }
    var c := closure.value;
    var byId := ById(md.packages);
    assert matches == [rootId];
    ReleasePossible(md, lock, tag, rootId, c);
    CoreKnown(byId, c.seen);
    if !(c.seen <= byId.Keys) {
      return Err(PackagesAbsent(c.seen - byId.Keys));
    }
    var forbidden := set id | id in c.seen && !CoreName(byId[id].name);
    NoneForbidden(byId, c.seen, forbidden);
    if forbidden != {} {
      return Err(NotCore(forbidden));
    }
    BeforeStrictTotal();
    IdBeforeStrictTotal(byId);
    ClosureParts(Index(md.resolve.value), rootId, c);
    var ids := SortSet(IdBefore(byId), c.seen);
    SameElements(ids, c.seen);
    var rows := BuildRows(ids, byId, lock, c.roles, md.resolve.value, workspace);
    if rows.Err? {
      return Err(rows.error);
    }
    r := Ok(Release(Inventory(tag, TagVersion(tag), |rows.value|, rows.value, EdgesOf(c.edges, workspace)), rootId, c));
    ReleaseBuilt(md, lock, workspace, tag, r.value, ids, rows.value);
  }

  lemma {:induction false} CanReleaseNeeds(md: Metadata, lock: Lock, tag: string)
    ensures CanRelease(md, lock, tag) ==>
              && |Matches(md.packages, md.members)| == 1
              && var root := Matches(md.packages, md.members)[0];
                 && ReleaseTag(tag) && FirstVersion(md.packages, root) == Some(TagVersion(tag))
                 && md.resolve.Some? && root in Index(md.resolve.value)
                 && forall n :: Reachable(Index(md.resolve.value), root, n) ==> Sound(Index(md.resolve.value), n)
  {
    hide Matches, ReleaseTag, FirstVersion, Index, Reachable, Sound, ById, CoreName, Licensed, FirstFeatures;
  }

  lemma {:induction false} CoreKnown(byId: map<string, Package>, seen: set<string>)
    ensures AllCore(byId, seen) ==> seen <= byId.Keys
  {
    hide CoreName;
  }

  lemma {:induction false} NoneForbidden(byId: map<string, Package>, seen: set<string>, forbidden: set<string>)
    requires seen <= byId.Keys && forbidden == set id | id in seen && !CoreName(byId[id].name)
    ensures forbidden == {} <==> AllCore(byId, seen)
  {
    hide CoreName;
    if forbidden == {} {
      forall id | id in seen ensures CoreName(byId[id].name) { assert id !in forbidden; }
    }
  }

  lemma {:induction false} SameElements(ids: seq<string>, seen: set<string>)
    requires forall id :: id in ids <==> id in seen
    ensures Elements(ids) == seen
  {
  }

  lemma {:induction false} ClosureParts(g: Graph, root: string, c: Closure)
    requires IsClosure(g, root, c)
    ensures c.roles.Keys == c.seen
  {
    hide Reachable, EdgesCorrect;
  }

  lemma {:induction false} ReleaseBuilt(md: Metadata, lock: Lock, workspace: string, tag: string, r: Release,
                                        ids: seq<string>, rows: seq<Row>)
    requires workspace != [] && StrictTotal(Before) && StrictTotal(IdBefore(ById(md.packages)))
    requires Matches(md.packages, md.members) == [r.rootId]
             && FirstVersion(md.packages, r.rootId) == Some(TagVersion(tag))
    requires md.resolve.Some? && IsClosure(Index(md.resolve.value), r.rootId, r.closure)
             && r.closure.roles.Keys == r.closure.seen
    requires ids == SortSet(IdBefore(ById(md.packages)), r.closure.seen) && Elements(ids) == r.closure.seen
    requires AllCore(ById(md.packages), r.closure.seen)
    requires Complete(ById(md.packages), lock, md.resolve.value, r.closure.seen)
    requires rows == RowsOf(ids, ById(md.packages), lock, r.closure.roles, md.resolve.value, workspace)
    requires r.inventory == Inventory(tag, TagVersion(tag), |rows|, rows, EdgesOf(r.closure.edges, workspace))
    ensures IsRelease(md, lock, workspace, tag, r)
  {
    hide StrictTotal, Before, IdBefore, ById, Matches, FirstVersion, IsClosure, Index, SortSet, Elements, AllCore,
         Complete, RowsOf;
  }

  lemma {:induction false} ReleasePossible(md: Metadata, lock: Lock, tag: string, root: string, c: Closure)
    requires Matches(md.packages, md.members) == [root] && FirstVersion(md.packages, root) == Some(TagVersion(tag))
    requires ReleaseTag(tag) && md.resolve.Some? && root in Index(md.resolve.value)
             && IsClosure(Index(md.resolve.value), root, c)
    requires forall n :: Reachable(Index(md.resolve.value), root, n) ==> Sound(Index(md.resolve.value), n)
    ensures CanRelease(md, lock, tag) <==>
              AllCore(ById(md.packages), c.seen) && Complete(ById(md.packages), lock, md.resolve.value, c.seen)
  {
    hide Reachable, Sound, Index, ById, EdgesCorrect, RolesCorrect, ReleaseTag;
  }

  // ----- the installing program -----

  datatype GraphRefusal =
    | ArtifactMismatch | EmptyClosure | CountMismatch
    | DuplicateId(id: string) | Prohibited(id: string) | LocalFeatureKept(id: string) | RolesAbsent(id: string)
    | LicenseAbsent(id: string) | LicenseTextAbsent(id: string) | HashInvalid(id: string)
    | RootMismatch | EdgeInvalid(edge: Edge) | RoleInvalid(edge: Edge)

  predicate IsRootRow(row: Row) {
    row.name == ROOT_PACKAGE && "root" in row.roles
  }

  function RootRows(rows: seq<Row>): seq<Row> {
    if rows == [] then []
    else RootRows(rows[..|rows| - 1]) + if IsRootRow(rows[|rows| - 1]) then [rows[|rows| - 1]] else []
  }

  predicate IsSha256(s: string) {
    |s| == 64 && forall i :: 0 <= i < 64 ==> '0' <= s[i] <= '9' || 'a' <= s[i] <= 'f'
  }

  predicate Hashed(texts: seq<Evidence>) {
    forall t :: t in texts ==> IsSha256(t.sha256)
  }

  // The checks of one row on its own, where the name is folded first.
  predicate RowFits(row: Row) {
    && CoreName(Lower(row.name)) && "local" !in row.features
    && row.roles != [] && row.license != "" && HasLicenseText(row.texts) && Hashed(row.texts)
  }

  ghost predicate DistinctRows(rows: seq<Row>) {
    forall i, j :: 0 <= i < j < |rows| ==> rows[i].id != rows[j].id
  }

  ghost predicate RowsAccepted(rows: seq<Row>) {
    DistinctRows(rows) && forall i :: 0 <= i < |rows| ==> RowFits(rows[i])
  }

  function Ids(rows: seq<Row>): set<string> {
    set row | row in rows :: row.id
  }

  ghost predicate EdgesAccepted(edges: seq<Edge>, ids: set<string>) {
    && NoRepeats(edges)
    && forall e :: e in edges ==> e.parent in ids && e.child in ids && e.role in {"normal", "build"}
  }

  // The graph part of the inventory check, as a property of the inventory.
  ghost predicate GraphAccepted(inv: Inventory, tag: string) {
    && inv.tag == tag && inv.version == TagVersion(tag)
    && inv.packages != [] && inv.packageCount == |inv.packages|
    && RowsAccepted(inv.packages)
    && |RootRows(inv.packages)| == 1 && RootRows(inv.packages)[0].version == TagVersion(tag)
    && EdgesAccepted(inv.edges, Ids(inv.packages))
  }

  method ValidateRows(rows: seq<Row>) returns (refusal: Option<GraphRefusal>, ids: set<string>, roots: seq<Row>)
    ensures refusal.None? <==> RowsAccepted(rows)
    ensures refusal.None? ==> ids == Ids(rows) && roots == RootRows(rows)
  {
    hide RowsAccepted, Ids, RootRows, CoreName, Lower, HasLicenseText, Hashed;
    refusal, ids, roots := None, {}, [];
    NoRows();
    for i := 0 to |rows|
      invariant RowsAccepted(rows[..i]) && ids == Ids(rows[..i]) && roots == RootRows(rows[..i])
    {
      var row := rows[i];
      RowsPush(rows, i);
      if row.id in ids {
        return Some(DuplicateId(row.id)), ids, roots;
      }
      ids := ids + {row.id};
      if !CoreName(Lower(row.name)) {
        return Some(Prohibited(row.id)), ids, roots;
      }
      if "local" in row.features {
        return Some(LocalFeatureKept(row.id)), ids, roots;
      }
      if row.roles == [] {
        return Some(RolesAbsent(row.id)), ids, roots;
      }
      if row.license == "" {
        return Some(LicenseAbsent(row.id)), ids, roots;
      }
      if !HasLicenseText(row.texts) {
        return Some(LicenseTextAbsent(row.id)), ids, roots;
      }
      if !Hashed(row.texts) {
        return Some(HashInvalid(row.id)), ids, roots;
      }
      if IsRootRow(row) {
        roots := roots + [row];
      }
    }
    assert rows[..|rows|] == rows;
  }

  lemma {:induction false} NoRows()
    ensures RowsAccepted([]) && Ids([]) == {} && RootRows([]) == []
  {
  }

  lemma {:induction false} RowsPush(rows: seq<Row>, i: nat)
    requires i < |rows|
    ensures var front, row := rows[..i], rows[i];
            && (RowsAccepted(rows[..i + 1]) <==> RowsAccepted(front) && row.id !in Ids(front) && RowFits(row))
            && Ids(rows[..i + 1]) == Ids(front) + {row.id}
            && RootRows(rows[..i + 1]) == RootRows(front) + if IsRootRow(row) then [row] else []
    ensures RowsAccepted(rows) ==> RowsAccepted(rows[..i + 1])
    ensures rows[..0] == [] && rows[..|rows|] == rows
  {
    var front, row := rows[..i], rows[i];
    hide RowFits, IsRootRow;
    assert rows[..i + 1] == front + [row] && (front + [row])[..i] == front;
    hide RootRows;
    RowsAcceptedPush(front, row);
    RowsAcceptedPrefix(rows, i + 1);
  }

  lemma {:induction false} RowsAcceptedPush(front: seq<Row>, row: Row)
    ensures RowsAccepted(front + [row]) <==> RowsAccepted(front) && row.id !in Ids(front) && RowFits(row)
  {
    hide RowFits;
    var rows, n := front + [row], |front|;
    assert rows[n] == row && forall k :: 0 <= k < n ==> rows[k] == front[k];
    if RowsAccepted(rows) {
      forall k | 0 <= k < n ensures front[k].id != row.id && RowFits(front[k]) { assert rows[k].id != rows[n].id; }
    }
    if row.id !in Ids(front) {
      forall k | 0 <= k < n ensures front[k].id != row.id { assert front[k] in front; }
    }
  }

  lemma {:induction false} RowsAcceptedPrefix(rows: seq<Row>, n: nat)
    requires n <= |rows|
    ensures RowsAccepted(rows) ==> RowsAccepted(rows[..n])
  {
    hide RowFits;
  }

  method ValidateEdges(edges: seq<Edge>, ids: set<string>) returns (refusal: Option<GraphRefusal>)
    ensures refusal.None? <==> EdgesAccepted(edges, ids)
  {
    var seenEdges: set<Edge> := {};
    for i := 0 to |edges|
      invariant EdgesAccepted(edges[..i], ids) && seenEdges == Elements(edges[..i])
    {
      var e := edges[i];
      ElementsPush(edges, i);
      if e in seenEdges || e.parent !in ids || e.child !in ids {
        return Some(EdgeInvalid(e));
      }
      if e.role !in {"normal", "build"} {
        return Some(RoleInvalid(e));
      }
      seenEdges := seenEdges + {e};
    }
    assert edges[..|edges|] == edges;
    refusal := None;
  }

  method ValidateGraph(inv: Inventory, tag: string) returns (refusal: Option<GraphRefusal>)
    ensures refusal.None? <==> GraphAccepted(inv, tag)
  {
    if inv.tag != tag || inv.version != TagVersion(tag) {
      return Some(ArtifactMismatch);
    }
    if inv.packages == [] {
      return Some(EmptyClosure);
    }
    if inv.packageCount != |inv.packages| {
      return Some(CountMismatch);
    }
    var ids, roots;
    refusal, ids, roots := ValidateRows(inv.packages);
    if refusal.Some? {
      return;
    }
    if |roots| != 1 || roots[0].version != TagVersion(tag) {
      return Some(RootMismatch);
    }
    refusal := ValidateEdges(inv.edges, ids);
  }

  // ----- the producer's output against the checker -----

  // No two packages of the closure are renamed to the same id.
  ghost predicate RenamesApart(ids: set<string>, workspace: string)
    requires workspace != []
  {
    forall a, b :: a in ids && b in ids && Rename(a, workspace) == Rename(b, workspace) ==> a == b
  }

  // The last metadata row with the root's id is the root package itself, at the tagged version.
  predicate RootRowGenuine(byId: map<string, Package>, rootId: string, tag: string) {
    rootId in byId && byId[rootId].name == ROOT_PACKAGE && byId[rootId].version == TagVersion(tag)
  }

  // The i-th row of a release comes from the i-th closure package.
  lemma {:induction false} ReleaseRow(md: Metadata, lock: Lock, workspace: string, tag: string, r: Release,
                                      ids: seq<string>, i: nat)
    requires workspace != [] && IsRelease(md, lock, workspace, tag, r)
    requires ids == SortSet(IdBefore(ById(md.packages)), r.closure.seen) && i < |ids|
    ensures |r.inventory.packages| == |ids| && ids[i] in r.closure.seen && ids[i] in ById(md.packages)
    ensures var row := r.inventory.packages[i]; var p := ById(md.packages)[ids[i]];
            && row.id == Rename(ids[i], workspace) && row.name == p.name && row.version == p.version
            && row.license != ""
            && row.texts == p.texts && HasLicenseText(row.texts) && "local" !in row.features
    ensures r.closure.roles.Keys == r.closure.seen
    ensures forall role :: role in r.inventory.packages[i].roles <==> role in r.closure.roles[ids[i]]
  {
    assert ids[i] in Elements(ids);
    hide IsClosure, ById, SortSet, Matches, FirstVersion, AllCore, FirstFeatures, HasLicenseText;
    RowFields(ids, ById(md.packages), lock, r.closure.roles, md.resolve.value, workspace, i);
    assert r.closure.roles.Keys == r.closure.seen;
  }

  lemma {:induction false} RowFields(ids: seq<string>, byId: map<string, Package>, lock: Lock,
                                     roles: map<string, set<string>>, nodes: seq<Node>, workspace: string, i: nat)
    requires workspace != [] && StrictTotal(Before) && i < |ids|
    requires Complete(byId, lock, nodes, Elements(ids)) && Elements(ids) <= roles.Keys
    ensures ids[i] in byId && ids[i] in roles && Licensed(byId[ids[i]])
    ensures var row := RowsOf(ids, byId, lock, roles, nodes, workspace)[i];
            && row.id == Rename(byId[ids[i]].id, workspace) && row.name == byId[ids[i]].name
            && row.version == byId[ids[i]].version && row.license == byId[ids[i]].license.value
            && row.texts == byId[ids[i]].texts && HasLicenseText(row.texts) && "local" !in row.features
            && forall role :: role in row.roles <==> role in roles[ids[i]]
  {
    assert ids[i] in Elements(ids);
    SortKeeps(Before, FirstFeatures(nodes, ids[i]));
    hide Sort, Rename;
  }

  // Every row carries a role, and "root" marks exactly the root's row.
  lemma {:induction false} ReleaseRowRoles(md: Metadata, lock: Lock, workspace: string, tag: string, r: Release,
                                           ids: seq<string>, i: nat)
    requires workspace != [] && IsRelease(md, lock, workspace, tag, r)
    requires ids == SortSet(IdBefore(ById(md.packages)), r.closure.seen) && i < |ids|
    requires |r.inventory.packages| == |ids|
    ensures r.inventory.packages[i].roles != []
    ensures "root" in r.inventory.packages[i].roles <==> ids[i] == r.rootId
  {
    ReleaseRow(md, lock, workspace, tag, r, ids, i);
    ClosureRoles(Index(md.resolve.value), r.rootId, r.closure, ids[i]);
  }

  lemma {:induction false} ClosureRoles(g: Graph, root: string, c: Closure, id: string)
    requires IsClosure(g, root, c) && id in c.seen
    ensures id in c.roles && c.roles[id] != {} && ("root" in c.roles[id] <==> id == root)
  {
    hide HasRole, EdgesCorrect;
    RoleExists(g, root, id);
    var role :| HasRole(g, root, id, role);
    assert role in c.roles[id];
  }

  function ReleaseIds(md: Metadata, r: Release): (ids: seq<string>)
    requires StrictTotal(IdBefore(ById(md.packages)))
    ensures |ids| == |r.closure.seen| && NoRepeats(ids) && forall id :: id in ids <==> id in r.closure.seen
  {
    SortSet(IdBefore(ById(md.packages)), r.closure.seen)
  }

  ghost predicate RowsNamed(rows: seq<Row>, ids: seq<string>, workspace: string)
    requires workspace != []
  {
    |rows| == |ids| && forall i :: 0 <= i < |rows| ==> rows[i].id == Rename(ids[i], workspace)
  }

  lemma {:induction false} NamedApart(rows: seq<Row>, ids: seq<string>, seen: set<string>, workspace: string)
    requires workspace != [] && RowsNamed(rows, ids, workspace)
    requires NoRepeats(ids) && forall id :: id in ids <==> id in seen
    ensures DistinctRows(rows) <==> RenamesApart(seen, workspace)
  {
    hide Rename;
    if DistinctRows(rows) {
      forall a, b | a in seen && b in seen && Rename(a, workspace) == Rename(b, workspace) ensures a == b {
        assert a in ids && b in ids;
        var i :| 0 <= i < |ids| && ids[i] == a;
        var j :| 0 <= j < |ids| && ids[j] == b;
        assert rows[i].id == rows[j].id;
      }
    }
    if RenamesApart(seen, workspace) {
      forall i, j | 0 <= i < j < |rows| ensures rows[i].id != rows[j].id {
        assert ids[i] in ids && ids[j] in ids && ids[i] != ids[j];
      }
    }
  }

  lemma {:induction false} ReleaseRowsNamed(md: Metadata, lock: Lock, workspace: string, tag: string, r: Release)
    requires workspace != [] && IsRelease(md, lock, workspace, tag, r)
    ensures RowsNamed(r.inventory.packages, ReleaseIds(md, r), workspace)
  {
    var rows, ids := r.inventory.packages, ReleaseIds(md, r);
    assert |rows| == |ids|;
    forall i | 0 <= i < |ids| ensures rows[i].id == Rename(ids[i], workspace) {
      ReleaseRow(md, lock, workspace, tag, r, ids, i);
    }
  }

  lemma {:induction false} RowsApart(md: Metadata, lock: Lock, workspace: string, tag: string, r: Release)
    requires workspace != [] && IsRelease(md, lock, workspace, tag, r)
    ensures DistinctRows(r.inventory.packages) <==> RenamesApart(r.closure.seen, workspace)
  {
    ReleaseRowsNamed(md, lock, workspace, tag, r);
    NamedApart(r.inventory.packages, ReleaseIds(md, r), r.closure.seen, workspace);
  }

  // The names stay permitted when their letter case is folded, as the checker does and the producer does not.
  predicate AllCoreFolded(byId: map<string, Package>, seen: set<string>) {
    forall id :: id in seen ==> id in byId && CoreName(Lower(byId[id].name))
  }

  // What hashlib makes of every text.
  predicate TextsHashed(packages: seq<Package>) {
    forall p :: p in packages ==> Hashed(p.texts)
  }

  lemma {:induction false} ByIdLists(packages: seq<Package>, id: string)
    requires id in ById(packages)
    ensures ById(packages)[id] in packages
    decreases |packages|
  {
    var n := |packages| - 1;
    if packages[n].id != id { ByIdLists(packages[..n], id); }
  }

  lemma {:induction false} RowFitsExact(md: Metadata, lock: Lock, workspace: string, tag: string, r: Release,
                                        ids: seq<string>, i: nat)
    requires workspace != [] && IsRelease(md, lock, workspace, tag, r) && TextsHashed(md.packages)
    requires ids == SortSet(IdBefore(ById(md.packages)), r.closure.seen) && i < |ids|
    ensures |r.inventory.packages| == |ids| && ids[i] in ById(md.packages)
    ensures RowFits(r.inventory.packages[i]) <==> CoreName(Lower(ById(md.packages)[ids[i]].name))
  {
    ReleaseRow(md, lock, workspace, tag, r, ids, i);
    ReleaseRowRoles(md, lock, workspace, tag, r, ids, i);
    ByIdLists(md.packages, ids[i]);
    hide IsRelease, ById, SortSet, CoreName, Lower, HasLicenseText, Hashed;
  }

  lemma {:induction false} AllFit(rows: seq<Row>, ids: seq<string>, seen: set<string>, byId: map<string, Package>)
    requires |rows| == |ids| && forall id :: id in ids <==> id in seen
    requires forall i :: 0 <= i < |ids| ==> ids[i] in byId && (RowFits(rows[i]) <==> CoreName(Lower(byId[ids[i]].name)))
    ensures (forall i :: 0 <= i < |rows| ==> RowFits(rows[i])) <==> AllCoreFolded(byId, seen)
  {
    hide RowFits, CoreName, Lower;
    if forall i :: 0 <= i < |rows| ==> RowFits(rows[i]) {
      forall id | id in seen ensures id in byId && CoreName(Lower(byId[id].name)) {
        assert id in ids;
        var i :| 0 <= i < |ids| && ids[i] == id;
        assert RowFits(rows[i]);
      }
    }
    if AllCoreFolded(byId, seen) {
      forall i | 0 <= i < |rows| ensures RowFits(rows[i]) { assert ids[i] in ids; }
    }
  }

  // The rows fit exactly if the folded names of the closure are permitted.
  lemma {:induction false} RowsFitExact(md: Metadata, lock: Lock, workspace: string, tag: string, r: Release)
    requires workspace != [] && IsRelease(md, lock, workspace, tag, r) && TextsHashed(md.packages)
    ensures var rows := r.inventory.packages;
            (forall i :: 0 <= i < |rows| ==> RowFits(rows[i])) <==> AllCoreFolded(ById(md.packages), r.closure.seen)
  {
    hide ById, SortSet, RowFits, AllCoreFolded, Complete, AllCore, RowsOf, EdgesOf, IsClosure, Matches, FirstVersion;
    var rows, ids, byId := r.inventory.packages, ReleaseIds(md, r), ById(md.packages);
    assert |rows| == |ids|;
    forall i | 0 <= i < |ids| ensures ids[i] in byId && (RowFits(rows[i]) <==> CoreName(Lower(byId[ids[i]].name))) {
      RowFitsExact(md, lock, workspace, tag, r, ids, i);
    }
    hide IsRelease;
    AllFit(rows, ids, r.closure.seen, byId);
  }

  lemma {:induction false} RootRowsOf(rows: seq<Row>, k: nat, genuine: bool)
    requires forall i :: 0 <= i < |rows| ==> (IsRootRow(rows[i]) <==> i == k && genuine)
    ensures RootRows(rows) == if k < |rows| && genuine then [rows[k]] else []
    decreases |rows|
  {
    hide IsRootRow;
    if rows != [] {
      var front, last := rows[..|rows| - 1], rows[|rows| - 1];
      assert RootRows(rows) == RootRows(front) + if IsRootRow(last) then [last] else [];
      hide RootRows;
      RootRowsOf(front, k, genuine);
    }
  }

  lemma {:induction false} RootRowUnique(md: Metadata, lock: Lock, workspace: string, tag: string, r: Release)
    requires workspace != [] && IsRelease(md, lock, workspace, tag, r)
    ensures r.inventory.packages != []
    ensures |RootRows(r.inventory.packages)| == 1 && RootRows(r.inventory.packages)[0].version == TagVersion(tag)
       <==> RootRowGenuine(ById(md.packages), r.rootId, tag)
  {
    var rows, ids := r.inventory.packages, ReleaseIds(md, r);
    var byId := ById(md.packages);
    RootReachable(Index(md.resolve.value), r.rootId);
    assert r.rootId in r.closure.seen;
    var k :| 0 <= k < |ids| && ids[k] == r.rootId;
    forall i | 0 <= i < |ids|
      ensures |rows| == |ids| && (IsRootRow(rows[i]) <==> i == k && byId[r.rootId].name == ROOT_PACKAGE)
    {
      ReleaseRow(md, lock, workspace, tag, r, ids, i);
      ReleaseRowRoles(md, lock, workspace, tag, r, ids, i);
    }
    ReleaseRow(md, lock, workspace, tag, r, ids, k);
    RootRowsOf(rows, k, byId[r.rootId].name == ROOT_PACKAGE);
  }

  lemma {:induction false} ReleaseRowIds(md: Metadata, lock: Lock, workspace: string, tag: string, r: Release,
                                         id: string)
    requires workspace != [] && IsRelease(md, lock, workspace, tag, r) && id in r.closure.seen
    ensures Rename(id, workspace) in Ids(r.inventory.packages)
  {
    var ids := ReleaseIds(md, r);
    var i :| 0 <= i < |ids| && ids[i] == id;
    ReleaseRow(md, lock, workspace, tag, r, ids, i);
    assert r.inventory.packages[i] in r.inventory.packages;
  }

  lemma {:induction false} ClosureEdge(g: Graph, root: string, c: Closure, i: nat)
    requires IsClosure(g, root, c) && i < |c.edges|
    ensures c.edges[i].parent in c.seen && c.edges[i].child in c.seen && c.edges[i].role in {"normal", "build"}
    ensures forall j :: i < j < |c.edges| ==> c.edges[i] != c.edges[j]
  {
    assert c.edges[i] in c.edges;
    EdgeEnds(g, root, c.edges[i]);
    EdgeBeforeStrictTotal();
  }

  lemma {:induction false} ReleaseEdge(md: Metadata, lock: Lock, workspace: string, tag: string, r: Release, i: nat)
    requires workspace != [] && IsRelease(md, lock, workspace, tag, r) && i < |r.closure.edges|
    ensures r.inventory.edges == EdgesOf(r.closure.edges, workspace)
    ensures var e := r.inventory.edges[i];
            e.parent in Ids(r.inventory.packages) && e.child in Ids(r.inventory.packages)
                && e.role in {"normal", "build"}
    ensures r.closure.edges[i].parent in r.closure.seen && r.closure.edges[i].child in r.closure.seen
    ensures forall j :: i < j < |r.closure.edges| ==> r.closure.edges[i] != r.closure.edges[j]
  {
    ClosureEdge(Index(md.resolve.value), r.rootId, r.closure, i);
    ReleaseRowIds(md, lock, workspace, tag, r, r.closure.edges[i].parent);
    ReleaseRowIds(md, lock, workspace, tag, r, r.closure.edges[i].child);
  }

  lemma {:induction false} RenamedApart(edges: seq<Edge>, seen: set<string>, workspace: string)
    requires workspace != [] && RenamesApart(seen, workspace) && NoRepeats(edges)
    requires forall i :: 0 <= i < |edges| ==> edges[i].parent in seen && edges[i].child in seen
    ensures NoRepeats(EdgesOf(edges, workspace))
  {
    hide Rename;
  }

  lemma {:induction false} EdgesApart(md: Metadata, lock: Lock, workspace: string, tag: string, r: Release)
    requires workspace != [] && IsRelease(md, lock, workspace, tag, r)
    requires RenamesApart(r.closure.seen, workspace)
    ensures EdgesAccepted(r.inventory.edges, Ids(r.inventory.packages))
  {
    hide IsRelease, RenamesApart, Rename, Ids;
    var edges := r.closure.edges;
    assert r.inventory.edges == EdgesOf(edges, workspace) by {
      ReleaseShape(md, lock, workspace, tag, r);
    }
    forall i | 0 <= i < |edges|
      ensures edges[i].parent in r.closure.seen && edges[i].child in r.closure.seen
      ensures r.inventory.edges[i].parent in Ids(r.inventory.packages)
      ensures r.inventory.edges[i].child in Ids(r.inventory.packages)
              && r.inventory.edges[i].role in {"normal", "build"}
      ensures forall j :: i < j < |edges| ==> edges[i] != edges[j]
    {
      ReleaseEdge(md, lock, workspace, tag, r, i);
    }
    RenamedApart(edges, r.closure.seen, workspace);
    hide EdgesOf;
  }

  lemma {:induction false} ReleaseShape(md: Metadata, lock: Lock, workspace: string, tag: string, r: Release)
    requires workspace != [] && IsRelease(md, lock, workspace, tag, r)
    ensures r.inventory.edges == EdgesOf(r.closure.edges, workspace)
  {
  }

  // What the producer emits, the installing program's graph check accepts: exactly when the renaming keeps the
  // closure's ids apart, the metadata names the root package under the root's id, and no name of the closure is
  // prohibited once its letter case is folded.
  lemma {:induction false} ProducerAccepted(md: Metadata, lock: Lock, workspace: string, tag: string, r: Release)
    requires workspace != [] && IsRelease(md, lock, workspace, tag, r) && TextsHashed(md.packages)
    ensures GraphAccepted(r.inventory, tag)
       <==> && RenamesApart(r.closure.seen, workspace) && RootRowGenuine(ById(md.packages), r.rootId, tag)
            && AllCoreFolded(ById(md.packages), r.closure.seen)
  {
    RowsApart(md, lock, workspace, tag, r);
    RowsFitExact(md, lock, workspace, tag, r);
    RootRowUnique(md, lock, workspace, tag, r);
    if RenamesApart(r.closure.seen, workspace) {
      EdgesApart(md, lock, workspace, tag, r);
    }
    hide RenamesApart, RootRowGenuine, DistinctRows, RowFits, EdgesAccepted, RootRows, IsClosure, SortSet, AllCore,
         AllCoreFolded, Complete, ById;
  }

  // Ids that do not spell the marker stay apart: what a caller can look for before releasing.
  lemma {:induction false} MarkerFreeApart(ids: set<string>, workspace: string)
    requires workspace != [] && forall id :: id in ids ==> !Occurs(id, MARKER)
    ensures RenamesApart(ids, workspace)
  {
    forall a, b | a in ids && b in ids && Rename(a, workspace) == Rename(b, workspace) ensures a == b {
      RenamingInjective(a, b, workspace);
    }
  }

  // So a release without the marker in its ids is accepted exactly if its root row is genuine and its folded names are
  // permitted.
  lemma {:induction false} MarkerFreeAccepted(md: Metadata, lock: Lock, workspace: string, tag: string, r: Release)
    requires workspace != [] && IsRelease(md, lock, workspace, tag, r) && TextsHashed(md.packages)
    requires forall id :: id in r.closure.seen ==> !Occurs(id, MARKER)
    ensures GraphAccepted(r.inventory, tag)
       <==> RootRowGenuine(ById(md.packages), r.rootId, tag) && AllCoreFolded(ById(md.packages), r.closure.seen)
  {
    MarkerFreeApart(r.closure.seen, workspace);
    ProducerAccepted(md, lock, workspace, tag, r);
    hide *;
  }

  const FIRST_TAG := "v1.0.0"

  lemma {:induction false} FirstTag()
    ensures ReleaseTag(FIRST_TAG) && TagVersion(FIRST_TAG) == "1.0.0"
  {
    SplitWhole("0", '.');
    SplitSkip("0", "0", '.');
    SplitSkip("1", "0" + ['.'] + "0", '.');
    assert FIRST_TAG[1..] == "1" + ['.'] + ("0" + ['.'] + "0") == "1.0.0";
    assert Split("1.0.0", '.') == ["1"] + (["0"] + ["0"]) == ["1", "0", "0"];
  }

  // A licence text with some digest.
  function LicenseText(): Evidence {
    Evidence("license_or_copying", seq(64, _ => '0'))
  }

  lemma {:induction false} LicenseFound()
    ensures HasLicenseText([LicenseText()]) && Hashed([LicenseText()])
  {
    assert LicenseText() in [LicenseText()];
  }

  function Shadowed(): Metadata {
    Metadata([Package("a", ROOT_PACKAGE, "1.0.0", None, Some("MIT"), [LicenseText()]),
              Package("a", "dep", "1.0.0", None, Some("MIT"), [LicenseText()])],
             {"a"}, Some([Node("a", Some([]), [])]))
  }

  lemma {:induction false} ShadowedPackages()
    ensures var md := Shadowed();
            && Matches(md.packages, md.members) == ["a"] && FirstVersion(md.packages, "a") == Some("1.0.0")
            && ById(md.packages) == map["a" := md.packages[1]] && TextsHashed(md.packages)
            && !RootRowGenuine(ById(md.packages), "a", FIRST_TAG)
  {
    var md := Shadowed();
    LicenseFound();
    hide Hashed;
    assert md.packages[1..] == [md.packages[1]] && [md.packages[1]][1..] == [] && md.packages[..1] == [md.packages[0]];
    assert Matches([md.packages[1]], md.members) == [] + Matches([], md.members);
    assert ById([md.packages[0]]) == map["a" := md.packages[0]];
  }

  lemma {:induction false} ShadowedReach()
    ensures var g := Index(Shadowed().resolve.value);
            "a" in g && forall n :: Reachable(g, "a", n) ==> n == "a" && Sound(g, n)
    ensures FirstFeatures(Shadowed().resolve.value, "a") == []
  {
    var nodes := Shadowed().resolve.value;
    var g := Index(nodes);
    assert nodes[..0] == [] && g == map["a" := Node("a", Some([]), [])];
    forall n | Reachable(g, "a", n) ensures n == "a" {
      var path :| PathTo(g, "a", n, path);
      assert |path| > 1 ==> Links(g, path[0], path[1]);
    }
    assert Sound(g, "a");
  }

  lemma {:induction false} ShadowedRoot() returns (md: Metadata, lock: Lock)
    ensures CanRelease(md, lock, FIRST_TAG) && TextsHashed(md.packages)
    ensures Matches(md.packages, md.members) == ["a"] && !RootRowGenuine(ById(md.packages), "a", FIRST_TAG)
  {
    md := Shadowed();
    var shadow := md.packages[1];
    lock := map[LockKey(shadow) := None];
    FirstTag();
    ShadowedPackages();
    ShadowedReach();
    LicenseFound();
    assert shadow.name == "dep" && CoreName("dep") && Licensed(shadow) && md.resolve.Some?;
    hide *;
    CanReleaseSuffices(md, lock, FIRST_TAG, "a");
  }

  lemma {:induction false} ReleaseRoot(md: Metadata, lock: Lock, workspace: string, tag: string, r: Release, id: string)
    requires workspace != [] && IsRelease(md, lock, workspace, tag, r) && Matches(md.packages, md.members) == [id]
    ensures r.rootId == id
  {
    hide Matches, IsClosure, Complete, RowsOf;
  }

  // The conditions are not idle: two metadata rows with one id let the producer succeed on an inventory without its
  // root, and whatever it emits is refused.
  lemma {:induction false} ShadowedRootSlipsThrough(workspace: string) returns (md: Metadata, lock: Lock)
    requires workspace != []
    ensures CanRelease(md, lock, FIRST_TAG)
    ensures forall r :: IsRelease(md, lock, workspace, FIRST_TAG, r) ==>
              !RootRowGenuine(ById(md.packages), r.rootId, FIRST_TAG) && !GraphAccepted(r.inventory, FIRST_TAG)
  {
    hide *;
    md, lock := ShadowedRoot();
    forall r | IsRelease(md, lock, workspace, FIRST_TAG, r)
      ensures !RootRowGenuine(ById(md.packages), r.rootId, FIRST_TAG) && !GraphAccepted(r.inventory, FIRST_TAG)
    {
      ReleaseRoot(md, lock, workspace, FIRST_TAG, r, "a");
      ProducerAccepted(md, lock, workspace, FIRST_TAG, r);
    }
  }

  // The root package with one dependency, by its id and name.
  const ROOT_ID := "/src"

  function PairRoot(): Package {
    Package(ROOT_ID, ROOT_PACKAGE, "1.0.0", None, Some("MIT"), [LicenseText()])
  }

  function PairDependency(id: string, name: string): Package {
    Package(id, name, "1.0.0", None, Some("MIT"), [LicenseText()])
  }

  function PairMetadata(id: string, name: string): Metadata {
    Metadata([PairRoot(), PairDependency(id, name)], {ROOT_ID},
             Some([Node(ROOT_ID, Some([Dependency(id, [None])]), []), Node(id, Some([]), [])]))
  }

  function PairLock(id: string, name: string): Lock {
    map[LockKey(PairRoot()) := None, LockKey(PairDependency(id, name)) := None]
  }

  lemma {:induction false} PairPackages(id: string, name: string)
    requires id != ROOT_ID && name != ROOT_PACKAGE
    ensures var md := PairMetadata(id, name);
            && Matches(md.packages, md.members) == [ROOT_ID] && FirstVersion(md.packages, ROOT_ID) == Some("1.0.0")
            && ById(md.packages) == map[ROOT_ID := PairRoot(), id := PairDependency(id, name)]
            && TextsHashed(md.packages)
  {
    var md := PairMetadata(id, name);
    var p, q := PairRoot(), PairDependency(id, name);
    LicenseFound();
    hide Hashed;
    assert md.packages[1..] == [q] && [q][1..] == [] && md.packages[..1] == [p] && [p][..0] == [];
    assert Matches([q], md.members) == [] + Matches([], md.members);
    assert ById([p]) == map[ROOT_ID := p];
  }

  lemma {:induction false} PairNodes(id: string, name: string)
    requires id != ROOT_ID
    ensures var nodes := PairMetadata(id, name).resolve.value;
            && Index(nodes) == map[ROOT_ID := Node(ROOT_ID, Some([Dependency(id, [None])]), []),
                                   id := Node(id, Some([]), [])]
            && forall n :: FirstFeatures(nodes, n) == []
  {
    var nodes := PairMetadata(id, name).resolve.value;
    assert nodes[..1] == [nodes[0]] && [nodes[0]][..0] == [] && nodes[1..] == [nodes[1]] && [nodes[1]][1..] == [];
    assert Index([nodes[0]]) == map[ROOT_ID := nodes[0]];
    assert FirstFeatures([], "") == [];
    forall n ensures FirstFeatures(nodes, n) == [] {
      assert FirstFeatures([nodes[1]], n) == [];
    }
  }

  // Exactly the two nodes are reachable, and both are sound.
  lemma {:induction false} PairReach(id: string, name: string)
    requires id != ROOT_ID
    ensures var g := Index(PairMetadata(id, name).resolve.value);
            && (forall n :: Reachable(g, ROOT_ID, n) <==> n in g) && (forall n :: n in g ==> Sound(g, n))
            && g.Keys == {ROOT_ID, id}
  {
    PairNodes(id, name);
    var g := Index(PairMetadata(id, name).resolve.value);
    hide Index, PairMetadata, FirstFeatures;
    RootReachable(g, ROOT_ID);
    var d := Dependency(id, [None]);
    assert RoleOf(d.kinds[0]) == "normal" && RoleOf(d.kinds[0]) in SelectedRoles(d);
    var e := Edge(ROOT_ID, id, "normal");
    assert Lists([d], id, "normal") by { assert [d][0].pkg == id; }
    assert IsEdge(g, e);
    ReachStep(g, ROOT_ID, e);
    forall n | Reachable(g, ROOT_ID, n) ensures n in g {
      var path :| PathTo(g, ROOT_ID, n, path);
      LeadsInside(g, path);
    }
  }

  // In a sound graph paths from a node lead to nodes.
  lemma {:induction false} LeadsInside(g: Graph, path: seq<string>)
    requires path != [] && path[0] in g && IsPath(g, path) && forall n :: n in g ==> Sound(g, n)
    ensures path[|path| - 1] in g
    decreases |path|
  {
    if |path| > 1 {
      assert Links(g, path[0], path[1]);
      var role :| IsEdge(g, Edge(path[0], path[1], role));
      forall i | 0 <= i < |path[1..]| - 1 ensures Links(g, path[1..][i], path[1..][i + 1]) {
        assert Links(g, path[i + 1], path[i + 1 + 1]);
      }
      LeadsInside(g, path[1..]);
    }
  }

  lemma {:induction false} RootNameCore()
    ensures CoreName(ROOT_PACKAGE)
  {
    assert ROOT_PACKAGE[0] == 'r' && |ROOT_PACKAGE| > 10;
  }

  // The producer succeeds on them, whatever the dependency is called short of the prohibited names.
  lemma {:induction false} PairCan(id: string, name: string)
    requires id != ROOT_ID && name != ROOT_PACKAGE && CoreName(name)
    ensures CanRelease(PairMetadata(id, name), PairLock(id, name), FIRST_TAG)
  {
    var md, lock := PairMetadata(id, name), PairLock(id, name);
    var g := Index(md.resolve.value);
    PairPackages(id, name);
    PairReach(id, name);
    FirstTag();
    RootReachable(g, ROOT_ID);
    hide *;
    forall n | Reachable(g, ROOT_ID, n)
      ensures Sound(g, n) && n in ById(md.packages) && CoreName(ById(md.packages)[n].name)
      ensures LockKey(ById(md.packages)[n]) in lock && Licensed(ById(md.packages)[n])
      ensures "local" !in FirstFeatures(md.resolve.value, n)
    {
      assert n in g.Keys;
      PairListed(id, name, n);
    }
    CanReleaseSuffices(md, lock, FIRST_TAG, ROOT_ID);
  }

  lemma {:induction false} CanReleaseSuffices(md: Metadata, lock: Lock, tag: string, root: string)
    requires Matches(md.packages, md.members) == [root] && ReleaseTag(tag)
    requires FirstVersion(md.packages, root) == Some(TagVersion(tag)) && md.resolve.Some?
             && root in Index(md.resolve.value)
    requires forall n :: Reachable(Index(md.resolve.value), root, n) ==>
               && Sound(Index(md.resolve.value), n)
               && n in ById(md.packages) && CoreName(ById(md.packages)[n].name)
               && LockKey(ById(md.packages)[n]) in lock && Licensed(ById(md.packages)[n])
               && "local" !in FirstFeatures(md.resolve.value, n)
    ensures CanRelease(md, lock, tag)
  {
    hide Matches, ReleaseTag, FirstVersion, Index, Reachable, Sound, ById, CoreName, Licensed, FirstFeatures;
  }

  lemma {:induction false} PairListed(id: string, name: string, n: string)
    requires id != ROOT_ID && name != ROOT_PACKAGE && CoreName(name) && n in {ROOT_ID, id}
    ensures var md := PairMetadata(id, name);
            && n in ById(md.packages) && CoreName(ById(md.packages)[n].name)
            && LockKey(ById(md.packages)[n]) in PairLock(id, name) && Licensed(ById(md.packages)[n])
            && "local" !in FirstFeatures(md.resolve.value, n)
  {
    PairPackages(id, name);
    PairNodes(id, name);
    LicenseFound();
    RootNameCore();
    hide HasLicenseText, CoreName, ById, PairMetadata, FirstFeatures;
  }

  lemma {:induction false} PairSeen(id: string, name: string, workspace: string, r: Release)
    requires id != ROOT_ID && workspace != []
             && IsRelease(PairMetadata(id, name), PairLock(id, name), workspace, FIRST_TAG, r)
    requires name != ROOT_PACKAGE
    ensures ROOT_ID in r.closure.seen && id in r.closure.seen
  {
    PairPackages(id, name);
    PairReach(id, name);
    var g := Index(PairMetadata(id, name).resolve.value);
    ReleaseRoot(PairMetadata(id, name), PairLock(id, name), workspace, FIRST_TAG, r, ROOT_ID);
    hide Index, PairMetadata, PairLock, Reachable, EdgesCorrect, RolesCorrect, SortSet, Complete, AllCore, RowsOf,
         EdgesOf, ById;
    assert ROOT_ID in g && id in g;
  }

  // A dependency whose id spells the marker where the root's id spells the workspace path: the producer succeeds, and
  // whatever it emits is refused.
  lemma {:induction false} ClashingIdsSlipThrough()
    ensures CanRelease(PairMetadata(MARKER, "dep"), PairLock(MARKER, "dep"), FIRST_TAG)
    ensures forall r :: IsRelease(PairMetadata(MARKER, "dep"), PairLock(MARKER, "dep"), ROOT_ID, FIRST_TAG, r) ==>
              !RenamesApart(r.closure.seen, ROOT_ID) && !GraphAccepted(r.inventory, FIRST_TAG)
  {
    var md, lock := PairMetadata(MARKER, "dep"), PairLock(MARKER, "dep");
    assert MARKER != ROOT_ID by { assert ROOT_ID[0] != MARKER[0]; }
    assert "dep" != ROOT_PACKAGE && CoreName("dep");
    PairCan(MARKER, "dep");
    PairPackages(MARKER, "dep");
    hide *;
    forall r | IsRelease(md, lock, ROOT_ID, FIRST_TAG, r)
      ensures !RenamesApart(r.closure.seen, ROOT_ID) && !GraphAccepted(r.inventory, FIRST_TAG)
    {
      PairSeen(MARKER, "dep", ROOT_ID, r);
      Collided(r.closure.seen);
      ProducerAccepted(md, lock, ROOT_ID, FIRST_TAG, r);
    }
  }

  lemma {:induction false} Collided(seen: set<string>)
    requires ROOT_ID in seen && MARKER in seen
    ensures !RenamesApart(seen, ROOT_ID)
  {
    RenamingCollides();
    assert MARKER != ROOT_ID by { assert ROOT_ID[0] != MARKER[0]; }
    hide Rename;
  }

  // A dependency with a prohibited name in capitals: the producer compares names as they are and succeeds, the checker
  // folds them and refuses whatever it emits.
  lemma {:induction false} CapitalsSlipThrough(workspace: string)
    requires workspace != []
    ensures CanRelease(PairMetadata("dep", "ORT"), PairLock("dep", "ORT"), FIRST_TAG)
    ensures forall r :: IsRelease(PairMetadata("dep", "ORT"), PairLock("dep", "ORT"), workspace, FIRST_TAG, r) ==>
              !AllCoreFolded(ById(PairMetadata("dep", "ORT").packages), r.closure.seen)
                  && !GraphAccepted(r.inventory, FIRST_TAG)
  {
    var md, lock := PairMetadata("dep", "ORT"), PairLock("dep", "ORT");
    assert "dep" != ROOT_ID && "ORT" != ROOT_PACKAGE && CoreName("ORT") && Lower("ORT") == "ort" && !CoreName("ort");
    PairCan("dep", "ORT");
    PairPackages("dep", "ORT");
    var byId := ById(md.packages);
    assert "dep" in byId && byId["dep"].name == "ORT";
    hide *;
    forall r | IsRelease(md, lock, workspace, FIRST_TAG, r)
      ensures !AllCoreFolded(byId, r.closure.seen) && !GraphAccepted(r.inventory, FIRST_TAG)
    {
      PairSeen("dep", "ORT", workspace, r);
      NotFolded(byId, r.closure.seen, "dep");
      ProducerAccepted(md, lock, workspace, FIRST_TAG, r);
    }
  }

  lemma {:induction false} NotFolded(byId: map<string, Package>, seen: set<string>, id: string)
    requires id in seen && id in byId && !CoreName(Lower(byId[id].name))
    ensures !AllCoreFolded(byId, seen)
  {
    hide CoreName, Lower;
  }

  // ----- the producer's conditions and its inventory, field by field -----

  ghost predicate DecimalText(s: string) {
    s == "0" || (s != "" && s[0] in "123456789" && forall i :: 0 <= i < |s| ==> s[i] in "0123456789")
  }

  ghost predicate TagShape(tag: string) {
    exists x, y, z, n :: DecimalText(x) && DecimalText(y) && DecimalText(z)
      && (tag == "v" + x + "." + y + "." + z || (DecimalText(n) && tag == "v" + x + "." + y + "." + z + "-rc." + n))
  }

  lemma {:induction false} DigitExact(d: char)
    ensures d in "0123456789" <==> '0' <= d <= '9'
    ensures d in "123456789" <==> '1' <= d <= '9'
  {
    var all, some := "0123456789", "123456789";
    assert all[0] == '0' && all[1] == '1' && all[2] == '2' && all[3] == '3' && all[4] == '4' && all[5] == '5';
    assert all[6] == '6' && all[7] == '7' && all[8] == '8' && all[9] == '9';
    assert some[0] == '1' && some[1] == '2' && some[2] == '3' && some[3] == '4' && some[4] == '5' && some[5] == '6';
    assert some[6] == '7' && some[7] == '8' && some[8] == '9';
  }

  lemma {:induction false} CanonicalExact(s: string)
    ensures Canonical(s) <==> DecimalText(s)
    ensures Canonical(s) ==> '.' !in s && '-' !in s
  {
    forall i | 0 <= i < |s|
      ensures (s[i] in "0123456789" <==> '0' <= s[i] <= '9') && (s[i] in "123456789" <==> '1' <= s[i] <= '9')
    {
      DigitExact(s[i]);
    }
    if s != "" && s[0] == '0' && |s| == 1 { assert s == "0"; }
  }

  lemma {:induction false} ThreeParts(x: string, y: string, z: string)
    requires '.' !in x && '.' !in y && '.' !in z
    ensures Split(x + "." + y + "." + z, '.') == [x, y, z]
  {
    SplitWhole(z, '.');
    SplitSkip(y, z, '.');
    SplitSkip(x, y + ['.'] + z, '.');
    assert x + "." + y + "." + z == x + ['.'] + (y + ['.'] + z);
  }

  lemma {:induction false} FourParts(x: string, y: string, z: string, n: string)
    requires '.' !in x && '.' !in y && '.' !in z && '.' !in n
    ensures Split(x + "." + y + "." + z + "." + n, '.') == [x, y, z, n]
  {
    ThreeParts(y, z, n);
    SplitSkip(x, y + "." + z + "." + n, '.');
    assert x + "." + y + "." + z + "." + n == x + ['.'] + (y + "." + z + "." + n);
  }

  lemma {:induction false} ShapeTagged(tag: string, x: string, y: string, z: string, n: string)
    requires DecimalText(x) && DecimalText(y) && DecimalText(z)
    ensures tag == "v" + x + "." + y + "." + z ==> ReleaseTag(tag)
    ensures DecimalText(n) && tag == "v" + x + "." + y + "." + z + "-rc." + n ==> ReleaseTag(tag)
  {
    CanonicalExact(x);
    CanonicalExact(y);
    CanonicalExact(z);
    CanonicalExact(n);
    hide Canonical, DecimalText, Split;
    if tag == "v" + x + "." + y + "." + z {
      ThreeParts(x, y, z);
      assert tag[1..] == x + "." + y + "." + z;
    }
    if Canonical(n) && tag == "v" + x + "." + y + "." + z + "-rc." + n {
      var c := z + "-rc";
      assert '.' !in "-rc";
      FourParts(x, y, c, n);
      assert tag[1..] == x + "." + y + "." + c + "." + n;
      NotEmpty(z);
      assert c[|c| - 3..] == "-rc" && c[..|c| - 3] == z;
    }
  }

  lemma {:induction false} NotEmpty(s: string)
    requires Canonical(s)
    ensures s != ""
  {
  }

  lemma {:induction false} ShapeOf(tag: string, x: string, y: string, z: string, n: string)
    requires DecimalText(x) && DecimalText(y) && DecimalText(z) && DecimalText(n)
    requires tag == "v" + x + "." + y + "." + z || tag == "v" + x + "." + y + "." + z + "-rc." + n
    ensures TagShape(tag)
  {
    hide DecimalText;
  }

  lemma {:induction false} VersionWords(x: string, y: string, z: string, n: string)
    ensures "v" + (x + "." + y + "." + z) == "v" + x + "." + y + "." + z
    ensures "v" + (x + "." + y + "." + (z + "-rc") + "." + n) == "v" + x + "." + y + "." + z + "-rc." + n
  {
    assert "-rc" + "." == "-rc.";
    assert x + "." + y + "." + (z + "-rc") + "." + n == x + "." + y + "." + z + "-rc." + n;
  }

  lemma {:induction false} TaggedThree(tag: string, parts: seq<string>)
    requires tag != "" && tag[0] == 'v' && |parts| == 3 && Join(parts, '.') == tag[1..]
    requires Canonical(parts[0]) && Canonical(parts[1]) && Canonical(parts[2])
    ensures TagShape(tag)
  {
    var x, y, z := parts[0], parts[1], parts[2];
    CanonicalExact(x);
    CanonicalExact(y);
    CanonicalExact(z);
    JoinThree(parts);
    VersionWords(x, y, z, x);
    hide *;
    assert tag == "v" + tag[1..];
    ShapeOf(tag, x, y, z, x);
  }

  lemma {:induction false} TaggedFour(tag: string, parts: seq<string>)
    requires tag != "" && tag[0] == 'v' && |parts| == 4 && Join(parts, '.') == tag[1..]
    requires Canonical(parts[0]) && Canonical(parts[1]) && Candidate(parts[2]) && Canonical(parts[3])
    ensures TagShape(tag)
  {
    var x, y, c, n := parts[0], parts[1], parts[2], parts[3];
    var z := c[..|c| - 3];
    CanonicalExact(x);
    CanonicalExact(y);
    CanonicalExact(z);
    CanonicalExact(n);
    JoinFour(parts);
    VersionWords(x, y, z, n);
    assert c == z + "-rc";
    hide *;
    assert tag == "v" + tag[1..];
    ShapeOf(tag, x, y, z, n);
  }

  lemma {:induction false} TaggedShape(tag: string)
    requires ReleaseTag(tag)
    ensures TagShape(tag)
  {
    hide TagShape, Canonical, Candidate, Split, Join;
    var parts := Split(tag[1..], '.');
    JoinSplit(tag[1..], '.');
    if |parts| == 3 { TaggedThree(tag, parts); } else { TaggedFour(tag, parts); }
  }

  lemma {:induction false} JoinThree(parts: seq<string>)
    requires |parts| == 3
    ensures Join(parts, '.') == parts[0] + "." + parts[1] + "." + parts[2]
  {
    assert parts[1..][1..] == [parts[2]];
    assert Join(parts[1..], '.') == parts[1] + ['.'] + parts[2];
  }

  lemma {:induction false} JoinFour(parts: seq<string>)
    requires |parts| == 4
    ensures Join(parts, '.') == parts[0] + "." + parts[1] + "." + parts[2] + "." + parts[3]
  {
    JoinThree(parts[1..]);
    assert parts[0] + ['.'] + (parts[1] + "." + parts[2] + "." + parts[3])
        == parts[0] + "." + parts[1] + "." + parts[2] + "." + parts[3];
  }

  // A tag is accepted exactly if it has the shape, and the version is what follows its "v".
  lemma {:induction false} TagExact(tag: string)
    ensures ReleaseTag(tag) <==> TagShape(tag)
    ensures TagShape(tag) ==> tag == "v" + TagVersion(tag)
  {
    if ReleaseTag(tag) {
      TaggedShape(tag);
      assert tag == "v" + tag[1..];
    }
    if TagShape(tag) {
      var x, y, z, n :| DecimalText(x) && DecimalText(y) && DecimalText(z)
        && (tag == "v" + x + "." + y + "." + z
            || (DecimalText(n) && tag == "v" + x + "." + y + "." + z + "-rc." + n));
      hide ReleaseTag, DecimalText;
      ShapeTagged(tag, x, y, z, n);
    }
  }

  ghost predicate NamesRoot(p: Package, members: set<string>) {
    p.name == "rust-engineering-mcp" && p.id in members
  }

  ghost predicate OnlyRoot(packages: seq<Package>, members: set<string>, k: int) {
    && 0 <= k < |packages| && NamesRoot(packages[k], members)
    && forall j :: 0 <= j < |packages| && j != k ==> !NamesRoot(packages[j], members)
  }

  ghost predicate FirstRow(packages: seq<Package>, id: string, k: int) {
    0 <= k < |packages| && packages[k].id == id && forall j :: 0 <= j < k ==> packages[j].id != id
  }

  ghost predicate LastRow(packages: seq<Package>, id: string, k: int) {
    0 <= k < |packages| && packages[k].id == id && forall j :: k < j < |packages| ==> packages[j].id != id
  }

  ghost predicate FirstNode(nodes: seq<Node>, id: string, k: int) {
    0 <= k < |nodes| && nodes[k].id == id && forall j :: 0 <= j < k ==> nodes[j].id != id
  }

  lemma {:induction false} MatchesHead(packages: seq<Package>, members: set<string>)
    requires packages != []
    ensures Matches(packages, members)
         == (if NamesRoot(packages[0], members) then [packages[0].id] else []) + Matches(packages[1..], members)
  {
  }

  lemma {:induction false} NoMatch(packages: seq<Package>, members: set<string>)
    ensures Matches(packages, members) == [] <==> forall j :: 0 <= j < |packages| ==> !NamesRoot(packages[j], members)
  {
    if packages != [] {
      NoMatch(packages[1..], members);
      MatchesHead(packages, members);
      hide Matches, NamesRoot;
      assert forall j :: 1 <= j < |packages| ==> packages[j] == packages[1..][j - 1];
      assert forall j :: 0 <= j < |packages[1..]| ==> packages[1..][j] == packages[j + 1];
    }
  }

  // The root is found exactly if one row of a workspace member carries its name.
  lemma {:induction false} RootFound(packages: seq<Package>, members: set<string>)
    ensures |Matches(packages, members)| == 1 <==> exists k :: OnlyRoot(packages, members, k)
    ensures forall k :: OnlyRoot(packages, members, k) ==> Matches(packages, members) == [packages[k].id]
  {
    if packages != [] {
      var rest := packages[1..];
      MatchesHead(packages, members);
      RootFound(rest, members);
      NoMatch(rest, members);
      hide Matches, NamesRoot;
      assert forall j :: 0 <= j < |rest| ==> rest[j] == packages[j + 1];
      assert forall j :: 1 <= j < |packages| ==> packages[j] == rest[j - 1];
      if NamesRoot(packages[0], members) {
        if Matches(rest, members) == [] { assert OnlyRoot(packages, members, 0); }
      } else {
        forall k | OnlyRoot(packages, members, k) ensures OnlyRoot(rest, members, k - 1) { }
        forall k | OnlyRoot(rest, members, k) ensures OnlyRoot(packages, members, k + 1) { }
      }
    }
  }

  // The version compared with the tag is the first row's under the root's id.
  lemma {:induction false} VersionFound(packages: seq<Package>, id: string, version: string)
    ensures FirstVersion(packages, id) == Some(version)
       <==> exists k :: FirstRow(packages, id, k) && packages[k].version == version
  {
    if packages != [] {
      var rest := packages[1..];
      assert forall j :: 0 <= j < |rest| ==> rest[j] == packages[j + 1];
      assert forall j :: 1 <= j < |packages| ==> packages[j] == rest[j - 1];
      VersionFound(rest, id, version);
      if packages[0].id == id {
        assert FirstRow(packages, id, 0);
      } else {
        forall k | FirstRow(packages, id, k) ensures FirstRow(rest, id, k - 1) { }
        forall k | FirstRow(rest, id, k) ensures FirstRow(packages, id, k + 1) { }
        hide FirstRow;
        if k :| FirstRow(packages, id, k) && packages[k].version == version { assert FirstRow(rest, id, k - 1); }
        if k :| FirstRow(rest, id, k) && rest[k].version == version { assert FirstRow(packages, id, k + 1); }
      }
    }
  }

  // A package is the last metadata row under its id.
  lemma {:induction false} PackageFound(packages: seq<Package>, id: string)
    ensures id in ById(packages) <==> exists k :: LastRow(packages, id, k)
    ensures forall k :: LastRow(packages, id, k) ==> ById(packages)[id] == packages[k]
    decreases |packages|
  {
    if packages != [] {
      var n := |packages| - 1;
      PackageFound(packages[..n], id);
      if packages[n].id == id {
        assert LastRow(packages, id, n);
      } else {
        forall k | LastRow(packages, id, k) ensures LastRow(packages[..n], id, k) { }
        forall k | LastRow(packages[..n], id, k) ensures LastRow(packages, id, k) { }
      }
    }
  }

  // A package's features are those of the first resolved node under its id.
  lemma {:induction false} FeaturesFound(nodes: seq<Node>, id: string)
    ensures forall k :: FirstNode(nodes, id, k) ==> FirstFeatures(nodes, id) == nodes[k].features
    ensures (forall j :: 0 <= j < |nodes| ==> nodes[j].id != id) ==> FirstFeatures(nodes, id) == []
  {
    if nodes != [] {
      var rest := nodes[1..];
      assert forall j :: 0 <= j < |rest| ==> rest[j] == nodes[j + 1];
      FeaturesFound(rest, id);
      if nodes[0].id != id {
        forall k | FirstNode(nodes, id, k) ensures FirstNode(rest, id, k - 1) { }
      }
    }
  }

  // A package the producer can list: named outside the prohibited families, locked, licensed with a licence text, and
  // resolved without the feature "local".
  ghost predicate Listable(md: Metadata, lock: Lock, p: Package)
    requires md.resolve.Some?
  {
    && CoreName(p.name) && (p.name, p.version, p.source) in lock
    && p.license.Some? && p.license.value != "" && (exists t :: t in p.texts && t.kind == "license_or_copying")
    && forall k :: FirstNode(md.resolve.value, p.id, k) ==> "local" !in md.resolve.value[k].features
  }

  lemma {:induction false} ListableExact(md: Metadata, lock: Lock, n: string)
    requires md.resolve.Some?
    ensures (exists k :: LastRow(md.packages, n, k) && Listable(md, lock, md.packages[k]))
       <==> && n in ById(md.packages) && CoreName(ById(md.packages)[n].name)
            && LockKey(ById(md.packages)[n]) in lock && Licensed(ById(md.packages)[n])
            && "local" !in FirstFeatures(md.resolve.value, n)
  {
    PackageFound(md.packages, n);
    FeaturesFound(md.resolve.value, n);
    NodeFound(md.resolve.value, n, |md.resolve.value|);
    hide ById, CoreName, FirstFeatures, LastRow, FirstNode;
  }

  lemma {:induction false} NodeFound(nodes: seq<Node>, id: string, n: nat)
    requires n <= |nodes|
    ensures (exists k :: FirstNode(nodes, id, k) && k < n) || forall j :: 0 <= j < n ==> nodes[j].id != id
  {
    if n > 0 {
      NodeFound(nodes, id, n - 1);
      if (forall j :: 0 <= j < n - 1 ==> nodes[j].id != id) && nodes[n - 1].id == id {
        assert FirstNode(nodes, id, n - 1);
      }
    }
  }

  // The tag, the root and every reachable package as the producer demands them.
  ghost predicate Releasable(md: Metadata, lock: Lock, tag: string, k: int)
    requires OnlyRoot(md.packages, md.members, k)
  {
    var root := md.packages[k].id;
    && TagShape(tag) && (exists j :: FirstRow(md.packages, root, j) && "v" + md.packages[j].version == tag)
    && md.resolve.Some? && root in Index(md.resolve.value)
    && forall n :: Reachable(Index(md.resolve.value), root, n) ==>
         && Sound(Index(md.resolve.value), n)
         && exists j :: LastRow(md.packages, n, j) && Listable(md, lock, md.packages[j])
  }

  lemma {:induction false} VersionTagged(packages: seq<Package>, id: string, tag: string)
    requires ReleaseTag(tag)
    ensures FirstVersion(packages, id) == Some(TagVersion(tag))
       <==> exists j :: FirstRow(packages, id, j) && "v" + packages[j].version == tag
  {
    VersionFound(packages, id, TagVersion(tag));
    TagExact(tag);
    hide ReleaseTag, TagShape, FirstVersion, FirstRow, TagVersion;
    forall j | FirstRow(packages, id, j)
      ensures FirstRow(packages, id, j) && 0 <= j < |packages|
      ensures packages[j].version == TagVersion(tag) <==> "v" + packages[j].version == tag
    {
      RowInside(packages, id, j);
      var v := packages[j].version;
      assert ("v" + v)[1..] == v && ("v" + TagVersion(tag))[1..] == TagVersion(tag);
    }
  }

  lemma {:induction false} RowInside(packages: seq<Package>, id: string, j: int)
    requires FirstRow(packages, id, j)
    ensures 0 <= j < |packages|
  {
  }

  // When the producer succeeds, by metadata rows alone.
  lemma {:induction false} CanReleaseExact(md: Metadata, lock: Lock, tag: string)
    ensures CanRelease(md, lock, tag)
       <==> exists k :: OnlyRoot(md.packages, md.members, k) && Releasable(md, lock, tag, k)
  {
    RootFound(md.packages, md.members);
    TagExact(tag);
    forall k | OnlyRoot(md.packages, md.members, k)
      ensures OnlyRoot(md.packages, md.members, k) && (Releasable(md, lock, tag, k) <==> CanRelease(md, lock, tag))
    {
      ReleasableExact(md, lock, tag, k);
    }
    hide Matches, ReleaseTag, TagShape, FirstVersion, OnlyRoot, Releasable;
  }

  lemma {:induction false} ReleasableExact(md: Metadata, lock: Lock, tag: string, k: int)
    requires OnlyRoot(md.packages, md.members, k)
    ensures Releasable(md, lock, tag, k) <==> CanRelease(md, lock, tag)
  {
    var root := md.packages[k].id;
    RootFound(md.packages, md.members);
    TagExact(tag);
    assert Matches(md.packages, md.members) == [root];
    if ReleaseTag(tag) {
      VersionTagged(md.packages, root, tag);
    }
    hide OnlyRoot, Matches, ReleaseTag, TagShape, TagVersion, FirstVersion, FirstRow, Index, Reachable, Sound, LastRow,
         Listable, ById, CoreName, LockKey, Licensed, FirstFeatures;
    if md.resolve.Some? {
      forall n
        ensures (exists j :: LastRow(md.packages, n, j) && Listable(md, lock, md.packages[j]))
           <==> && n in ById(md.packages) && CoreName(ById(md.packages)[n].name)
                && LockKey(ById(md.packages)[n]) in lock && Licensed(ById(md.packages)[n])
                && "local" !in FirstFeatures(md.resolve.value, n)
      {
        ListableExact(md, lock, n);
      }
    }
  }

  // A row carries its package's fields as they are, the renamed id, the lock's checksum, the roles of the closure and
  // the first node's features, both sorted.
  ghost predicate RowCarries(row: Row, p: Package, lock: Lock, roles: set<string>, nodes: seq<Node>, workspace: string)
    requires workspace != []
  {
    && row.id == Replace(p.id, workspace, "$WORKSPACE")
    && row.name == p.name && row.version == p.version && row.source == p.source && Some(row.license) == p.license
    && row.texts == p.texts
    && (p.name, p.version, p.source) in lock && row.checksum == lock[(p.name, p.version, p.source)]
    && (forall role :: role in row.roles <==> role in roles)
    && (forall i, j :: 0 <= i < j < |row.roles| ==> Before(row.roles[i], row.roles[j]))
    && (forall k :: FirstNode(nodes, p.id, k) ==> multiset(row.features) == multiset(nodes[k].features))
    && ((forall j :: 0 <= j < |nodes| ==> nodes[j].id != p.id) ==> row.features == [])
    && forall i, j :: 0 <= i < j < |row.features| ==> !Before(row.features[j], row.features[i])
  }

  lemma {:induction false} RowOfCarries(p: Package, lock: Lock, roles: set<string>, nodes: seq<Node>, workspace: string)
    requires workspace != [] && StrictTotal(Before) && Licensed(p) && LockKey(p) in lock
    ensures RowCarries(RowOf(p, lock[LockKey(p)], roles, FirstFeatures(nodes, p.id), workspace), p, lock, roles, nodes,
                       workspace)
  {
    var features := FirstFeatures(nodes, p.id);
    FeaturesFound(nodes, p.id);
    SortPermutes(Before, features);
    SortAscending(Before, features);
    hide Sort, SortSet, Before, FirstFeatures, FirstNode, Replace, StrictTotal, HasLicenseText;
    assert |features| == 0 ==> |multiset(features)| == 0;
    SortedEmpty(features);
  }

  lemma {:induction false} SortedEmpty(features: seq<string>)
    ensures features == [] ==> Sort(Before, features) == []
  {
  }

  // Packages stand by name, then version, then id.
  ghost predicate PackagesAscend(packages: seq<Package>) {
    forall i, j :: 0 <= i < j < |packages| ==>
      var p, q := packages[i], packages[j];
      || Before(p.name, q.name)
      || (p.name == q.name && Before(p.version, q.version))
      || (p.name == q.name && p.version == q.version && Before(p.id, q.id))
  }

  ghost predicate EdgesRenamed(renamed: seq<Edge>, edges: seq<Edge>, workspace: string)
    requires workspace != []
  {
    && |renamed| == |edges|
    && forall i :: 0 <= i < |edges| ==>
         && renamed[i].parent == Replace(edges[i].parent, workspace, "$WORKSPACE")
         && renamed[i].child == Replace(edges[i].child, workspace, "$WORKSPACE")
         && renamed[i].role == edges[i].role
  }

  ghost predicate IsLastRow(packages: seq<Package>, p: Package) {
    exists k :: LastRow(packages, p.id, k) && packages[k] == p
  }

  ghost predicate ListsPackages(md: Metadata, r: Release, packages: seq<Package>) {
    && |packages| == |r.inventory.packages| == r.inventory.packageCount
    && (forall id :: id in r.closure.seen <==> exists i :: 0 <= i < |packages| && packages[i].id == id)
    && (forall i :: 0 <= i < |packages| ==> IsLastRow(md.packages, packages[i]))
    && PackagesAscend(packages)
  }

  lemma {:induction false} InventoryParts(md: Metadata, lock: Lock, workspace: string, tag: string, r: Release, i: nat)
    requires workspace != [] && IsRelease(md, lock, workspace, tag, r) && i < |ReleaseIds(md, r)|
    ensures md.resolve.Some? && r.closure.roles.Keys == r.closure.seen
    ensures |r.inventory.packages| == |ReleaseIds(md, r)| == r.inventory.packageCount
    ensures var id := ReleaseIds(md, r)[i]; var byId := ById(md.packages);
            && id in r.closure.seen && id in byId && LockKey(byId[id]) in lock && Licensed(byId[id])
            && r.inventory.packages[i]
            == RowOf(byId[id], lock[LockKey(byId[id])], r.closure.roles[id], FirstFeatures(md.resolve.value, id),
                     workspace)
  {
    ClosureParts(Index(md.resolve.value), r.rootId, r.closure);
    assert ReleaseIds(md, r)[i] in Elements(ReleaseIds(md, r));
    hide IsClosure, ById, SortSet, Matches, FirstVersion, AllCore, FirstFeatures, LockKey, Licensed, RowOf, EdgesOf,
         StrictTotal, Before, IdBefore;
  }

  lemma {:induction false} IdsAscend(byId: map<string, Package>, ids: seq<string>, packages: seq<Package>)
    requires Increasing(IdBefore(byId), ids) && |packages| == |ids|
    requires forall i :: 0 <= i < |ids| ==> ids[i] in byId && packages[i] == byId[ids[i]] && packages[i].id == ids[i]
    ensures PackagesAscend(packages)
  {
    forall i, j | 0 <= i < j < |packages|
      ensures var p, q := packages[i], packages[j];
              || Before(p.name, q.name)
              || (p.name == q.name && Before(p.version, q.version))
              || (p.name == q.name && p.version == q.version && Before(p.id, q.id))
    {
      var p, q := packages[i], packages[j];
      assert IdBefore(byId)(ids[i], ids[j]);
      KeyBefore(p.name, p.version, p.id, q.name, q.version, q.id);
    }
  }

  lemma {:induction false} KeyBefore(a: string, b: string, c: string, x: string, y: string, z: string)
    requires ListBefore([a, b, c], [x, y, z])
    ensures Before(a, x) || (a == x && Before(b, y)) || (a == x && b == y && Before(c, z))
  {
    hide Before;
    assert [a, b, c][1..] == [b, c] && [x, y, z][1..] == [y, z] && [b, c][1..] == [c] && [y, z][1..] == [z];
    assert [c][1..] == [] && [z][1..] == [];
  }

  // The i-th package of the closure: a last metadata row, carried by the i-th inventory row.
  ghost predicate ListsAt(md: Metadata, lock: Lock, workspace: string, r: Release, i: nat, id: string, p: Package)
    requires workspace != [] && md.resolve.Some?
  {
    && p.id == id && IsLastRow(md.packages, p)
    && i < |r.inventory.packages| && id in r.closure.roles
    && RowCarries(r.inventory.packages[i], p, lock, r.closure.roles[id], md.resolve.value, workspace)
  }

  lemma {:induction false} PackageListed(md: Metadata, lock: Lock, workspace: string, tag: string, r: Release, i: nat)
    requires workspace != [] && IsRelease(md, lock, workspace, tag, r) && i < |ReleaseIds(md, r)| && md.resolve.Some?
    ensures var id := ReleaseIds(md, r)[i];
            id in ById(md.packages) && ListsAt(md, lock, workspace, r, i, id, ById(md.packages)[id])
  {
    var id, byId := ReleaseIds(md, r)[i], ById(md.packages);
    InventoryParts(md, lock, workspace, tag, r, i);
    PackageFound(md.packages, id);
    assert StrictTotal(Before);
    hide IsRelease, LastRow, RowCarries, RowOf, LockKey, Licensed, ById, StrictTotal, ReleaseIds, Before;
    RowOfCarries(byId[id], lock, r.closure.roles[id], md.resolve.value, workspace);
  }

  lemma {:induction false} Assembled(md: Metadata, lock: Lock, workspace: string, r: Release, ids: seq<string>,
                                     byId: map<string, Package>, packages: seq<Package>)
    requires workspace != [] && md.resolve.Some? && |packages| == |ids|
    requires |ids| == |r.inventory.packages| == r.inventory.packageCount && Increasing(IdBefore(byId), ids)
    requires forall id :: id in ids <==> id in r.closure.seen
    requires forall i :: 0 <= i < |ids| ==> ids[i] in byId && packages[i] == byId[ids[i]]
    requires forall i :: 0 <= i < |ids| ==> ListsAt(md, lock, workspace, r, i, ids[i], packages[i])
    ensures ListsPackages(md, r, packages)
    ensures forall i :: 0 <= i < |packages| ==>
              && packages[i].id in r.closure.roles
              && RowCarries(r.inventory.packages[i], packages[i], lock, r.closure.roles[packages[i].id],
                            md.resolve.value, workspace)
  {
    hide RowCarries, IdBefore, PackagesAscend, Increasing;
    forall i | 0 <= i < |ids|
      ensures packages[i].id == ids[i]
      ensures IsLastRow(md.packages, packages[i])
    {
      assert ListsAt(md, lock, workspace, r, i, ids[i], packages[i]);
    }
    IdsAscend(byId, ids, packages);
    SameIds(ids, packages, r.closure.seen);
  }

  lemma {:induction false} ReleaseIdsListed(md: Metadata, lock: Lock, workspace: string, tag: string, r: Release)
    requires workspace != [] && IsRelease(md, lock, workspace, tag, r)
    ensures md.resolve.Some? && |ReleaseIds(md, r)| == r.inventory.packageCount == |r.inventory.packages|
    ensures Increasing(IdBefore(ById(md.packages)), ReleaseIds(md, r))
  {
    hide IsClosure, ById, Matches, FirstVersion, AllCore, FirstFeatures, LockKey, Licensed, RowOf, EdgesOf, Before,
         IdBefore;
  }

  // The packages of a release's closure, one row each and in their order.
  lemma {:induction false} PackagesListed(md: Metadata, lock: Lock, workspace: string, tag: string, r: Release)
    returns (packages: seq<Package>)
    requires workspace != [] && IsRelease(md, lock, workspace, tag, r)
    ensures ListsPackages(md, r, packages) && md.resolve.Some?
    ensures forall i :: 0 <= i < |packages| ==>
              && packages[i].id in r.closure.roles
              && RowCarries(r.inventory.packages[i], packages[i], lock, r.closure.roles[packages[i].id],
                            md.resolve.value, workspace)
  {
    ReleaseIdsListed(md, lock, workspace, tag, r);
    assert StrictTotal(IdBefore(ById(md.packages))) by { IdBeforeStrictTotal(ById(md.packages)); }
    hide *;
    var ids, byId := ReleaseIds(md, r), ById(md.packages);
    forall i | 0 <= i < |ids| ensures ids[i] in byId && ListsAt(md, lock, workspace, r, i, ids[i], byId[ids[i]]) {
      PackageListed(md, lock, workspace, tag, r, i);
    }
    packages := Taken(ids, byId);
    Assembled(md, lock, workspace, r, ids, byId, packages);
  }

  lemma {:induction false} Taken(ids: seq<string>, byId: map<string, Package>) returns (packages: seq<Package>)
    requires forall i :: 0 <= i < |ids| ==> ids[i] in byId
    ensures |packages| == |ids| && forall i :: 0 <= i < |ids| ==> packages[i] == byId[ids[i]]
  {
    packages := seq(|ids|, i requires 0 <= i < |ids| => byId[ids[i]]);
  }

  lemma {:induction false} SameIds(ids: seq<string>, packages: seq<Package>, seen: set<string>)
    requires |ids| == |packages| && forall i :: 0 <= i < |ids| ==> packages[i].id == ids[i]
    requires forall id :: id in ids <==> id in seen
    ensures forall id :: id in seen <==> exists i :: 0 <= i < |packages| && packages[i].id == id
  {
    forall id | id in seen ensures exists i :: 0 <= i < |packages| && packages[i].id == id {
      assert id in ids;
      var i :| 0 <= i < |ids| && ids[i] == id;
      assert packages[i].id == id;
    }
    forall id, i | 0 <= i < |packages| && packages[i].id == id ensures id in seen { assert ids[i] in ids; }
  }

  // Tag, version and edges of a release's inventory.
  lemma {:induction false} InventoryHead(md: Metadata, lock: Lock, workspace: string, tag: string, r: Release)
    requires workspace != [] && IsRelease(md, lock, workspace, tag, r)
    ensures r.inventory.tag == tag && (ReleaseTag(tag) ==> tag == "v" + r.inventory.version)
    ensures EdgesRenamed(r.inventory.edges, r.closure.edges, workspace)
  {
    hide IsClosure, SortSet, Matches, FirstVersion, ById, AllCore, Complete, RowsOf;
  }

  // ---- the installing program's graph check, field by field ----

  ghost predicate HexDigits(s: string) {
    |s| == 64 && forall i :: 0 <= i < |s| ==> s[i] in "0123456789abcdef"
  }

  ghost predicate RowChecked(row: Row) {
    && CoreName(Lower(row.name)) && "local" !in row.features
    && |row.roles| > 0 && |row.license| > 0
    && (exists t :: t in row.texts && t.kind == "license_or_copying")
    && forall t :: t in row.texts ==> HexDigits(t.sha256)
  }

  ghost predicate RootAt(rows: seq<Row>, k: int) {
    0 <= k < |rows| && rows[k].name == "rust-engineering-mcp" && "root" in rows[k].roles
  }

  lemma {:induction false} HexExact(s: string)
    ensures IsSha256(s) <==> HexDigits(s)
  {
    forall i | 0 <= i < |s|
      ensures s[i] in "0123456789abcdef" <==> '0' <= s[i] <= '9' || 'a' <= s[i] <= 'f'
    {
      HexLetter(s[i]);
    }
  }

  lemma {:induction false} HexLetter(d: char)
    ensures d in "0123456789abcdef" <==> '0' <= d <= '9' || 'a' <= d <= 'f'
  {
    var low, high, all := "0123456789", "abcdef", "0123456789abcdef";
    assert all == low + high;
    DigitExact(d);
    assert high[0] == 'a' && high[1] == 'b' && high[2] == 'c' && high[3] == 'd' && high[4] == 'e' && high[5] == 'f';
  }

  lemma {:induction false} RowCheckedExact(row: Row)
    ensures RowFits(row) <==> RowChecked(row)
  {
    forall t | t in row.texts ensures IsSha256(t.sha256) <==> HexDigits(t.sha256) { HexExact(t.sha256); }
    hide CoreName, Lower, IsSha256, HexDigits;
  }

  lemma {:induction false} RootAbsent(rows: seq<Row>)
    ensures RootRows(rows) == [] <==> forall k :: 0 <= k < |rows| ==> !IsRootRow(rows[k])
    decreases |rows|
  {
    if rows != [] {
      RootAbsent(rows[..|rows| - 1]);
      hide IsRootRow;
    }
  }

  lemma {:induction false} RootSingle(rows: seq<Row>) returns (k: nat)
    requires |RootRows(rows)| == 1
    ensures k < |rows| && forall j :: 0 <= j < |rows| ==> (IsRootRow(rows[j]) <==> j == k)
    decreases |rows|
  {
    hide IsRootRow;
    var n := |rows| - 1;
    var front := rows[..n];
    if IsRootRow(rows[n]) {
      RootAbsent(front);
      assert forall j :: 0 <= j < n ==> front[j] == rows[j];
      k := n;
    } else {
      k := RootSingle(front);
    }
  }

  // There is one root row exactly if one position carries the root's name and role.
  lemma {:induction false} RootCounted(rows: seq<Row>, version: string)
    ensures |RootRows(rows)| == 1 && RootRows(rows)[0].version == version
       <==> exists k :: RootAt(rows, k) && rows[k].version == version && forall j :: RootAt(rows, j) ==> j == k
  {
    if |RootRows(rows)| == 1 {
      var k := RootSingle(rows);
      RootRowsOf(rows, k, true);
      hide RootRows;
      assert RootAt(rows, k);
    }
    if k :| RootAt(rows, k) && rows[k].version == version && forall j :: RootAt(rows, j) ==> j == k {
      forall j | 0 <= j < |rows| ensures IsRootRow(rows[j]) <==> j == k { assert RootAt(rows, j) <==> j == k; }
      RootRowsOf(rows, k, true);
    }
  }

  ghost predicate HasRow(rows: seq<Row>, id: string) {
    exists k :: 0 <= k < |rows| && rows[k].id == id
  }

  lemma {:induction false} RowKnown(rows: seq<Row>, id: string)
    ensures id in Ids(rows) <==> HasRow(rows, id)
  {
    if id in Ids(rows) {
      var row :| row in rows && row.id == id;
      var k :| 0 <= k < |rows| && rows[k] == row;
      assert rows[k].id == id;
    }
    if k :| 0 <= k < |rows| && rows[k].id == id { assert rows[k] in rows; }
  }

  // The edges are each there once, between rows and with one of the two roles.
  lemma {:induction false} EdgesExact(edges: seq<Edge>, rows: seq<Row>)
    ensures EdgesAccepted(edges, Ids(rows))
       <==> && (forall i, j :: 0 <= i < j < |edges| ==> edges[i] != edges[j])
            && forall i :: 0 <= i < |edges| ==>
                 && (edges[i].role == "normal" || edges[i].role == "build")
                 && HasRow(rows, edges[i].parent) && HasRow(rows, edges[i].child)
  {
    forall i | 0 <= i < |edges|
      ensures edges[i] in edges
      ensures edges[i].parent in Ids(rows) <==> HasRow(rows, edges[i].parent)
      ensures edges[i].child in Ids(rows) <==> HasRow(rows, edges[i].child)
    {
      RowKnown(rows, edges[i].parent);
      RowKnown(rows, edges[i].child);
    }
    hide Ids, HasRow;
  }

  lemma {:induction false} VersionExact(tag: string, version: string)
    ensures version == TagVersion(tag) <==> (tag == "" ==> version == "") && (tag != "" ==> tag == [tag[0]] + version)
  {
    if tag != "" { assert tag == [tag[0]] + tag[1..] && ([tag[0]] + version)[1..] == version; }
  }

  // The graph check, by the inventory's own fields.
  lemma {:induction false} GraphAcceptedExact(inv: Inventory, tag: string)
    ensures GraphAccepted(inv, tag)
       <==> && inv.tag == tag && (tag == "" ==> inv.version == "") && (tag != "" ==> tag == [tag[0]] + inv.version)
            && 0 < |inv.packages| == inv.packageCount
            && (forall i, j :: 0 <= i < j < |inv.packages| ==> inv.packages[i].id != inv.packages[j].id)
            && (forall i :: 0 <= i < |inv.packages| ==> RowChecked(inv.packages[i]))
            && (exists k :: RootAt(inv.packages, k) && inv.packages[k].version == inv.version
                  && forall j :: RootAt(inv.packages, j) ==> j == k)
            && EdgesAccepted(inv.edges, Ids(inv.packages))
  {
    forall i | 0 <= i < |inv.packages| ensures RowFits(inv.packages[i]) <==> RowChecked(inv.packages[i]) {
      RowCheckedExact(inv.packages[i]);
    }
    RootCounted(inv.packages, inv.version);
    VersionExact(tag, inv.version);
    hide RowFits, RowChecked, RootRows, EdgesAccepted, Ids, TagVersion, RootAt;
  }
}
