/** The SPDX 2.3 document the producer derives from its inventory, and the other program's check of it. */
module ReleaseSpdx {
  import opened DependencyGraph
  import opened Digits
  import opened Ordering
  import opened ReleaseGraph
  import opened Results
  import opened Text
  import opened Workspace

  const DOCUMENT := "SPDXRef-DOCUMENT"
  const NAMESPACE := "https://github.com/pharos-lang/rust-engineering-mcp/sbom/"

  const NO_ASSERTION := "NOASSERTION"

  // spdxVersion, dataLicense and SPDXID
  datatype Header = Header(version: string, license: string, id: string)

  const HEADER := Header("SPDX-2.3", "CC0-1.0", DOCUMENT)

  datatype SpdxPackage = SpdxPackage(spdxId: string, name: string, version: string, download: string,
                                     filesAnalyzed: bool, licenseConcluded: string, licenseDeclared: string,
                                     copyright: string, checksum: Option<string>)

  datatype Relationship = Relationship(element: string, kind: string, related: string)

  // created and creators
  datatype Creation = Creation(created: string, creators: seq<string>)

  const CREATION := Creation("1970-01-01T00:00:00Z", ["Tool: scripts/release-artifact.py"])

  datatype Document = Document(header: Header, name: string, namespace: string, creation: Creation,
                               packages: seq<SpdxPackage>, relationships: seq<Relationship>)

  // What a document takes from the inventory it stands beside: the target it names, and the digest of its JSON text.
  datatype Seal = Seal(target: string, digest: Inventory -> string)

  function RelationshipKey(r: Relationship): seq<string> {
    [r.element, r.kind, r.related]
  }

  predicate RelationshipBefore(a: Relationship, b: Relationship) {
    ListBefore(RelationshipKey(a), RelationshipKey(b))
  }

  // f"SPDXRef-Package-{index:04d}", counting from one
  function SpdxId(index: nat): string {
    "SPDXRef-Package-" + Chars(Padded(index + 1, Decimal, 4))
  }

  // {row["id"]: spdx id}: with equal row ids the last row's number stands.
  function SpdxIds(rows: seq<Row>): map<string, string> {
    if rows == [] then map[]
    else
      var n := |rows| - 1;
      SpdxIds(rows[..n])[rows[n].id := SpdxId(n)]
  }

  // A missing or empty value counts as none.
  function Truthy(value: Option<string>): Option<string> {
    if value == Some("") then None else value
  }

  function SpdxPackageOf(row: Row, spdxId: string): SpdxPackage {
    SpdxPackage(spdxId, row.name, row.version, if Truthy(row.source).Some? then row.source.value else NO_ASSERTION,
                false, NO_ASSERTION, row.license, NO_ASSERTION, Truthy(row.checksum))
  }

  type Pair = (string, string)

  function PairKey(p: Pair): seq<string> {
    [p.0, p.1]
  }

  predicate PairBefore(a: Pair, b: Pair) {
    ListBefore(PairKey(a), PairKey(b))
  }

  lemma {:induction false} PairBeforeStrictTotal()
    ensures StrictTotal(PairBefore)
  {
    ListBeforeStrictTotal();
    forall x, y ensures x == y || PairBefore(x, y) || PairBefore(y, x) {
      if PairKey(x) == PairKey(y) {
        assert PairKey(x)[0] == x.0 && PairKey(x)[1] == x.1;
      }
    }
  }

  // An edge with two roles is one dependency.
  function Pairs(edges: seq<Edge>): set<Pair> {
    set e | e in edges :: (e.parent, e.child)
  }

  function DependsOn(p: Pair, ids: map<string, string>, workspace: string): Relationship
    requires workspace != [] && Rename(p.0, workspace) in ids && Rename(p.1, workspace) in ids
  {
    Relationship(ids[Rename(p.0, workspace)], "DEPENDS_ON", ids[Rename(p.1, workspace)])
  }

  ghost predicate EndsKnown(edges: seq<Edge>, ids: map<string, string>, workspace: string)
    requires workspace != []
  {
    forall e :: e in edges ==> Rename(e.parent, workspace) in ids && Rename(e.child, workspace) in ids
  }

  ghost predicate IsDocument(inv: Inventory, rootId: string, edges: seq<Edge>, workspace: string, seal: Seal,
                             doc: Document)
    requires workspace != []
  {
    var ids := SpdxIds(inv.packages);
    && Rename(rootId, workspace) in ids && EndsKnown(edges, ids, workspace)
    && doc.header == HEADER && doc.name == "rust-engineering-mcp-" + inv.tag + "-" + seal.target
    && doc.namespace == NAMESPACE + seal.digest(inv) && doc.creation == CREATION
    && |doc.packages| == |inv.packages|
    && (forall i :: 0 <= i < |inv.packages| ==>
          inv.packages[i].id in ids && doc.packages[i] == SpdxPackageOf(inv.packages[i], ids[inv.packages[i].id]))
    && Related(doc.relationships, rootId, edges, ids, workspace)
  }

  // One DESCRIBES for the root, one DEPENDS_ON per connected pair, in order.
  ghost predicate Related(relationships: seq<Relationship>, rootId: string, edges: seq<Edge>, ids: map<string, string>,
                          workspace: string)
    requires workspace != [] && Rename(rootId, workspace) in ids && EndsKnown(edges, ids, workspace)
  {
    && |relationships| == 1 + |Pairs(edges)| && Ascending(RelationshipBefore, relationships)
    && forall x :: x in relationships <==>
         || x == Relationship(DOCUMENT, "DESCRIBES", ids[Rename(rootId, workspace)])
         || exists p :: p in Pairs(edges) && x == DependsOn(p, ids, workspace)
  }

  method Relationships(rootId: string, edges: seq<Edge>, ids: map<string, string>, workspace: string)
    returns (relationships: seq<Relationship>)
    requires workspace != [] && Rename(rootId, workspace) in ids && EndsKnown(edges, ids, workspace)
    ensures Related(relationships, rootId, edges, ids, workspace)
  {
    PairBeforeStrictTotal();
    hide StrictTotal, PairBefore, RelationshipBefore, Increasing, Rename, Sort, SortSet;
    var describes := Relationship(DOCUMENT, "DESCRIBES", ids[Rename(rootId, workspace)]);
    relationships := [describes];
    var pairs := SortSet(PairBefore, Pairs(edges));
    for i := 0 to |pairs|
      invariant |relationships| == 1 + i
      invariant forall x :: x in relationships <==>
                  || x == describes
                  || exists p :: p in pairs[..i] && p in Pairs(edges) && x == DependsOn(p, ids, workspace)
    {
      assert pairs[i] in Pairs(edges);
      assert pairs[..i + 1] == pairs[..i] + [pairs[i]];
      relationships := relationships + [DependsOn(pairs[i], ids, workspace)];
    }
    assert pairs[..|pairs|] == pairs;
    SortKeeps(RelationshipBefore, relationships);
    assert Ascending(RelationshipBefore, Sort(RelationshipBefore, relationships)) by {
      RelationshipsAscend(relationships);
    }
    relationships := Sort(RelationshipBefore, relationships);
  }

  lemma {:induction false} RelationshipsAscend(relationships: seq<Relationship>)
    ensures Ascending(RelationshipBefore, Sort(RelationshipBefore, relationships))
  {
    assert StrictTotal(RelationshipBefore) by {
      ListBeforeStrictTotal();
      forall x, y ensures x == y || RelationshipBefore(x, y) || RelationshipBefore(y, x) {
        if RelationshipKey(x) == RelationshipKey(y) {
          assert RelationshipKey(x)[0] == x.element && RelationshipKey(x)[1] == x.kind
                 && RelationshipKey(x)[2] == x.related;
        }
      }
    }
    SortAscending(RelationshipBefore, relationships);
  }

  method SpdxDocument(inv: Inventory, rootId: string, edges: seq<Edge>, workspace: string, seal: Seal)
    returns (doc: Document)
    requires workspace != []
    requires Rename(rootId, workspace) in SpdxIds(inv.packages) && EndsKnown(edges, SpdxIds(inv.packages), workspace)
    ensures IsDocument(inv, rootId, edges, workspace, seal, doc)
  {
    hide Rename, SpdxIds, Related;
    var ids := SpdxIds(inv.packages);
    var relationships := Relationships(rootId, edges, ids, workspace);
    var packages: seq<SpdxPackage> := [];
    for i := 0 to |inv.packages|
      invariant |packages| == i
      invariant forall k :: 0 <= k < i ==>
                  inv.packages[k].id in ids && packages[k] == SpdxPackageOf(inv.packages[k], ids[inv.packages[k].id])
    {
      RowKnown(inv.packages, i);
      packages := packages + [SpdxPackageOf(inv.packages[i], ids[inv.packages[i].id])];
    }
    doc := Document(HEADER, "rust-engineering-mcp-" + inv.tag + "-" + seal.target, NAMESPACE + seal.digest(inv),
                    CREATION,
                    packages, relationships);
  }

  lemma {:induction false} RowKnown(rows: seq<Row>, i: nat)
    requires i < |rows|
    ensures rows[i].id in SpdxIds(rows)
    decreases |rows|
  {
    var n := |rows| - 1;
    if i < n { RowKnown(rows[..n], i); }
  }

  // ----- the other program's check -----

  datatype SpdxRefusal =
    | HeaderMismatch | NamespaceMismatch | PackageCountMismatch | IdDuplicate(spdxId: string)
    | PackageMismatch(index: nat) | ChecksumMismatch(index: nat) | RootUnnamed | RelationshipsMismatch

  predicate PackageMatches(package: SpdxPackage, row: Row) {
    && package.name == row.name && package.version == row.version && package.licenseDeclared == row.license
    && !package.filesAnalyzed && package.checksum == Truthy(row.checksum)
  }

  // package_ids after the zip loop: a repeated row id keeps its last package.
  function PackageIds(packages: seq<SpdxPackage>, rows: seq<Row>): map<string, string>
    requires |packages| == |rows|
  {
    if rows == [] then map[]
    else
      var n := |rows| - 1;
      PackageIds(packages[..n], rows[..n])[rows[n].id := packages[n].spdxId]
  }

  function RootSpdx(packages: seq<SpdxPackage>, rows: seq<Row>): Option<string>
    requires |packages| == |rows|
  {
    if rows == [] then None
    else
      var n := |rows| - 1;
      if IsRootRow(rows[n]) then Some(packages[n].spdxId) else RootSpdx(packages[..n], rows[..n])
  }

  // Each package matches its row, under an id that no earlier row holds.
  ghost predicate PackagesAccepted(packages: seq<SpdxPackage>, rows: seq<Row>)
    requires |packages| == |rows|
    decreases |rows|
  {
    rows == [] ||
    var n := |rows| - 1;
    && PackagesAccepted(packages[..n], rows[..n])
    && PackageMatches(packages[n], rows[n]) && packages[n].spdxId !in PackageIds(packages[..n], rows[..n]).Values
  }

  lemma {:induction false} AcceptedPrefix(packages: seq<SpdxPackage>, rows: seq<Row>, i: nat)
    requires |packages| == |rows| && i <= |rows| && PackagesAccepted(packages, rows)
    ensures PackagesAccepted(packages[..i], rows[..i])
    decreases |rows|
  {
    var n := |rows| - 1;
    if i < |rows| {
      AcceptedPrefix(packages[..n], rows[..n], i);
      assert packages[..n][..i] == packages[..i] && rows[..n][..i] == rows[..i];
    } else {
      assert packages[..i] == packages && rows[..i] == rows;
    }
  }

  function Expected(root: string, edges: seq<Edge>, ids: map<string, string>): set<Relationship>
    requires forall e :: e in edges ==> e.parent in ids && e.child in ids
  {
    {Relationship(DOCUMENT, "DESCRIBES", root)} +
    set e | e in edges :: Relationship(ids[e.parent], "DEPENDS_ON", ids[e.child])
  }

  // Every check of the SPDX document. An edge naming an unknown package is a KeyError in the source, a refusal here.
  ghost predicate SpdxAccepted(doc: Document, inv: Inventory, digest: Inventory -> string) {
    && doc.header == HEADER && doc.namespace == NAMESPACE + digest(inv)
    && |doc.packages| == |inv.packages|
    && PackagesAccepted(doc.packages, inv.packages)
    && var ids := PackageIds(doc.packages, inv.packages);
       && RootSpdx(doc.packages, inv.packages).Some?
       && (forall e :: e in inv.edges ==> e.parent in ids && e.child in ids)
       && NoRepeats(doc.relationships)
       && Elements(doc.relationships) == Expected(RootSpdx(doc.packages, inv.packages).value, inv.edges, ids)
  }

  method ValidatePackages(packages: seq<SpdxPackage>, rows: seq<Row>)
    returns (refusal: Option<SpdxRefusal>, ids: map<string, string>, root: Option<string>)
    requires |packages| == |rows|
    ensures refusal.None? <==> PackagesAccepted(packages, rows)
    ensures refusal.None? ==> ids == PackageIds(packages, rows) && root == RootSpdx(packages, rows)
  {
    refusal, ids, root := None, map[], None;
    for i := 0 to |rows|
      invariant PackagesAccepted(packages[..i], rows[..i])
      invariant ids == PackageIds(packages[..i], rows[..i]) && root == RootSpdx(packages[..i], rows[..i])
    {
      var package, row := packages[i], rows[i];
      assert packages[..i + 1][..i] == packages[..i] && rows[..i + 1][..i] == rows[..i];
      if PackagesAccepted(packages, rows) { AcceptedPrefix(packages, rows, i + 1); }
      if package.spdxId in ids.Values {
        return Some(IdDuplicate(package.spdxId)), ids, root;
      }
      if package.name != row.name || package.version != row.version || package.licenseDeclared != row.license
         || package.filesAnalyzed {
        return Some(PackageMismatch(i)), ids, root;
      }
      if package.checksum != Truthy(row.checksum) {
        return Some(ChecksumMismatch(i)), ids, root;
      }
      ids := ids[row.id := package.spdxId];
      if IsRootRow(row) {
        root := Some(package.spdxId);
      }
    }
    assert packages[..|rows|] == packages && rows[..|rows|] == rows;
  }

  method ValidateSpdx(doc: Document, inv: Inventory, digest: Inventory -> string) returns (refusal: Option<SpdxRefusal>)
    ensures refusal.None? <==> SpdxAccepted(doc, inv, digest)
  {
    if doc.header != HEADER {
      return Some(HeaderMismatch);
    }
    if doc.namespace != NAMESPACE + digest(inv) {
      return Some(NamespaceMismatch);
    }
    if |doc.packages| != |inv.packages| {
      return Some(PackageCountMismatch);
    }
    var ids, root;
    refusal, ids, root := ValidatePackages(doc.packages, inv.packages);
    if refusal.Some? {
      return;
    }
    if root.None? {
      return Some(RootUnnamed);
    }
    if exists e :: e in inv.edges && (e.parent !in ids || e.child !in ids) {
      return Some(RelationshipsMismatch);
    }
    var observed := Elements(doc.relationships);
    RepeatsShrink(doc.relationships);
    if |doc.relationships| != |observed| || observed != Expected(root.value, inv.edges, ids) {
      return Some(RelationshipsMismatch);
    }
  }

  // ----- the producer's document against the check -----

  // Zero padding never makes two package numbers collide, beyond four digits too.
  lemma {:induction false} SpdxIdInjective(i: nat, j: nat)
    requires SpdxId(i) == SpdxId(j)
    ensures i == j
  {
    var prefix := "SPDXRef-Package-";
    var a, b := Chars(Padded(i + 1, Decimal, 4)), Chars(Padded(j + 1, Decimal, 4));
    assert (prefix + a)[|prefix|..] == a && (prefix + b)[|prefix|..] == b;
    PaddedInjective(i + 1, j + 1, Decimal, 4);
  }

  lemma {:induction false} SpdxIdAt(rows: seq<Row>, i: nat)
    requires DistinctRows(rows) && i < |rows|
    ensures rows[i].id in SpdxIds(rows) && SpdxIds(rows)[rows[i].id] == SpdxId(i)
    decreases |rows|
  {
    hide SpdxId;
    var n := |rows| - 1;
    if i < n { SpdxIdAt(rows[..n], i); }
  }

  lemma {:induction false} SpdxIdsRange(rows: seq<Row>, k: string)
    requires k in SpdxIds(rows)
    ensures exists i :: 0 <= i < |rows| && rows[i].id == k && SpdxIds(rows)[k] == SpdxId(i)
    decreases |rows|
  {
    hide SpdxId;
    var n := |rows| - 1;
    if k != rows[n].id {
      SpdxIdsRange(rows[..n], k);
      var i :| 0 <= i < n && rows[..n][i].id == k && SpdxIds(rows[..n])[k] == SpdxId(i);
      assert rows[i].id == k;
    } else {
      assert rows[n].id == k;
    }
  }

  ghost predicate Numbered(packages: seq<SpdxPackage>, rows: seq<Row>) {
    && |packages| == |rows|
    && forall i :: 0 <= i < |rows| ==> PackageMatches(packages[i], rows[i]) && packages[i].spdxId == SpdxId(i)
  }

  // Packages numbered in row order are accepted, and the checker rebuilds the producer's own id table.
  lemma {:induction false} NumberedAccepted(packages: seq<SpdxPackage>, rows: seq<Row>)
    requires Numbered(packages, rows)
    ensures PackagesAccepted(packages, rows) && PackageIds(packages, rows) == SpdxIds(rows)
    decreases |rows|
  {
    hide SpdxId;
    if rows != [] {
      var n := |rows| - 1;
      NumberedAccepted(packages[..n], rows[..n]);
      if packages[n].spdxId in SpdxIds(rows[..n]).Values {
        var k :| k in SpdxIds(rows[..n]) && SpdxIds(rows[..n])[k] == packages[n].spdxId;
        SpdxIdsRange(rows[..n], k);
        var i :| 0 <= i < n && SpdxIds(rows[..n])[k] == SpdxId(i);
        SpdxIdInjective(i, n);
        assert false;
      }
    }
  }

  lemma {:induction false} RootSpdxAt(packages: seq<SpdxPackage>, rows: seq<Row>, k: nat, genuine: bool)
    requires |packages| == |rows|
    requires forall i :: 0 <= i < |rows| ==> (IsRootRow(rows[i]) <==> i == k && genuine)
    ensures RootSpdx(packages, rows) == if k < |rows| && genuine then Some(packages[k].spdxId) else None
    decreases |rows|
  {
    if rows != [] {
      var n := |rows| - 1;
      RootSpdxAt(packages[..n], rows[..n], k, genuine);
    }
  }

  // Packages that take their ids from one table by row id cannot be accepted if two rows share an id.
  lemma {:induction false} SharedIdRefused(packages: seq<SpdxPackage>, rows: seq<Row>, ids: map<string, string>)
    requires |packages| == |rows| && !DistinctRows(rows)
    requires forall i :: 0 <= i < |rows| ==> rows[i].id in ids && packages[i].spdxId == ids[rows[i].id]
    ensures !PackagesAccepted(packages, rows)
    decreases |rows|
  {
    var n := |rows| - 1;
    if DistinctRows(rows[..n]) {
      var i, j :| 0 <= i < j < |rows| && rows[i].id == rows[j].id;
      assert j == n;
      TableKept(packages[..n], rows[..n], ids, i);
    } else {
      SharedIdRefused(packages[..n], rows[..n], ids);
    }
  }

  lemma {:induction false} TableKept(packages: seq<SpdxPackage>, rows: seq<Row>, ids: map<string, string>, i: nat)
    requires |packages| == |rows| && i < |rows|
    requires forall i :: 0 <= i < |rows| ==> rows[i].id in ids && packages[i].spdxId == ids[rows[i].id]
    ensures ids[rows[i].id] in PackageIds(packages, rows).Values
    ensures rows[i].id in PackageIds(packages, rows) && PackageIds(packages, rows)[rows[i].id] == ids[rows[i].id]
    decreases |rows|
  {
    var n := |rows| - 1;
    if i < n { TableKept(packages[..n], rows[..n], ids, i); }
    assert rows[i].id in PackageIds(packages, rows);
  }

  ghost predicate PairsKnown(s: set<Pair>, ids: map<string, string>, workspace: string)
    requires workspace != []
  {
    forall p :: p in s ==> Rename(p.0, workspace) in ids && Rename(p.1, workspace) in ids
  }

  ghost predicate Images(s: set<Pair>, ids: map<string, string>, workspace: string, image: set<Relationship>)
    requires workspace != [] && PairsKnown(s, ids, workspace)
  {
    forall x :: x in image <==> exists p :: p in s && x == DependsOn(p, ids, workspace)
  }

  ghost predicate Injective(s: set<Pair>, ids: map<string, string>, workspace: string)
    requires workspace != [] && PairsKnown(s, ids, workspace)
  {
    forall p, q :: p in s && q in s && DependsOn(p, ids, workspace) == DependsOn(q, ids, workspace) ==> p == q
  }

  lemma {:induction false} ImageSize(s: set<Pair>, ids: map<string, string>, workspace: string,
                                     image: set<Relationship>)
    requires workspace != [] && PairsKnown(s, ids, workspace)
    requires Images(s, ids, workspace, image) && Injective(s, ids, workspace)
    ensures |image| == |s|
    decreases s
  {
    hide Rename;
    if s == {} {
      assert image == {};
    } else {
      var p :| p in s;
      var x := DependsOn(p, ids, workspace);
      assert x in image;
      forall y ensures y in image - {x} <==> exists q :: q in s - {p} && y == DependsOn(q, ids, workspace) {
        if y in image - {x} {
          var q :| q in s && y == DependsOn(q, ids, workspace);
          assert q in s - {p};
        }
      }
      ImageSize(s - {p}, ids, workspace, image - {x});
    }
  }

  // In a release whose ids stay apart, the package of a closure id has the number of its row.
  lemma {:induction false} NumberOf(md: Metadata, lock: Lock, workspace: string, tag: string, r: Release, id: string)
    returns (i: nat)
    requires workspace != [] && IsRelease(md, lock, workspace, tag, r) && RenamesApart(r.closure.seen, workspace)
    requires id in r.closure.seen
    ensures i < |r.inventory.packages| && i < |ReleaseIds(md, r)| && ReleaseIds(md, r)[i] == id
    ensures Rename(id, workspace) in SpdxIds(r.inventory.packages)
    ensures SpdxIds(r.inventory.packages)[Rename(id, workspace)] == SpdxId(i)
  {
    var ids := ReleaseIds(md, r);
    i :| 0 <= i < |ids| && ids[i] == id;
    ReleaseRow(md, lock, workspace, tag, r, ids, i);
    RowsApart(md, lock, workspace, tag, r);
    SpdxIdAt(r.inventory.packages, i);
  }

  lemma {:induction false} NumbersApart(md: Metadata, lock: Lock, workspace: string, tag: string, r: Release, a: string,
                                        b: string)
    requires workspace != [] && IsRelease(md, lock, workspace, tag, r) && RenamesApart(r.closure.seen, workspace)
    requires a in r.closure.seen && b in r.closure.seen
    ensures Rename(a, workspace) in SpdxIds(r.inventory.packages)
            && Rename(b, workspace) in SpdxIds(r.inventory.packages)
    ensures SpdxIds(r.inventory.packages)[Rename(a, workspace)] == SpdxIds(r.inventory.packages)[Rename(b, workspace)]
            ==> a == b
  {
    var i := NumberOf(md, lock, workspace, tag, r, a);
    var j := NumberOf(md, lock, workspace, tag, r, b);
    if SpdxId(i) == SpdxId(j) { SpdxIdInjective(i, j); }
  }

  lemma {:induction false} DocumentNumbered(inv: Inventory, rootId: string, edges: seq<Edge>, workspace: string,
                                            seal: Seal, doc: Document)
    requires workspace != [] && DistinctRows(inv.packages) && IsDocument(inv, rootId, edges, workspace, seal, doc)
    ensures Numbered(doc.packages, inv.packages)
  {
    hide SpdxId, SpdxIds, Related, EndsKnown, Rename, DistinctRows;
    forall i | 0 <= i < |inv.packages|
      ensures PackageMatches(doc.packages[i], inv.packages[i]) && doc.packages[i].spdxId == SpdxId(i)
    {
      SpdxIdAt(inv.packages, i);
    }
  }

  lemma {:induction false} ReleaseNumbered(md: Metadata, lock: Lock, workspace: string, tag: string, r: Release,
                                           seal: Seal, doc: Document)
    requires workspace != [] && IsRelease(md, lock, workspace, tag, r) && RenamesApart(r.closure.seen, workspace)
    requires IsDocument(r.inventory, r.rootId, r.closure.edges, workspace, seal, doc)
    ensures Numbered(doc.packages, r.inventory.packages)
  {
    hide IsRelease, IsDocument, RenamesApart;
    RowsApart(md, lock, workspace, tag, r);
    DocumentNumbered(r.inventory, r.rootId, r.closure.edges, workspace, seal, doc);
  }

  lemma {:induction false} ReleaseClosure(md: Metadata, lock: Lock, workspace: string, tag: string, r: Release)
    requires workspace != [] && IsRelease(md, lock, workspace, tag, r)
    ensures md.resolve.Some? && IsClosure(Index(md.resolve.value), r.rootId, r.closure)
  {
    hide IsClosure, Complete, RowsOf, Index;
  }

  lemma {:induction false} PairEnds(g: Graph, root: string, c: Closure, p: Pair)
    requires IsClosure(g, root, c) && p in Pairs(c.edges)
    ensures p.0 in c.seen && p.1 in c.seen
  {
    hide IsClosure;
    var e :| e in c.edges && p == (e.parent, e.child);
    var i :| 0 <= i < |c.edges| && c.edges[i] == e;
    ClosureEdge(g, root, c, i);
  }

  lemma {:induction false} PairsInClosure(md: Metadata, lock: Lock, workspace: string, tag: string, r: Release)
    requires workspace != [] && IsRelease(md, lock, workspace, tag, r)
    ensures forall p :: p in Pairs(r.closure.edges) ==> p.0 in r.closure.seen && p.1 in r.closure.seen
  {
    ReleaseClosure(md, lock, workspace, tag, r);
    hide *;
    forall p | p in Pairs(r.closure.edges) ensures p.0 in r.closure.seen && p.1 in r.closure.seen {
      PairEnds(Index(md.resolve.value), r.rootId, r.closure, p);
    }
  }

  ghost predicate IdsApart(seen: set<string>, ids: map<string, string>, workspace: string)
    requires workspace != []
  {
    && (forall a :: a in seen ==> Rename(a, workspace) in ids)
    && forall a, b :: a in seen && b in seen && ids[Rename(a, workspace)] == ids[Rename(b, workspace)] ==> a == b
  }

  lemma {:induction false} ReleaseIdsApart(md: Metadata, lock: Lock, workspace: string, tag: string, r: Release)
    requires workspace != [] && IsRelease(md, lock, workspace, tag, r) && RenamesApart(r.closure.seen, workspace)
    ensures IdsApart(r.closure.seen, SpdxIds(r.inventory.packages), workspace)
  {
    hide IsRelease, RenamesApart, Rename, SpdxIds;
    var ids := SpdxIds(r.inventory.packages);
    forall a | a in r.closure.seen ensures Rename(a, workspace) in ids {
      var i := NumberOf(md, lock, workspace, tag, r, a);
    }
    forall a, b | a in r.closure.seen && b in r.closure.seen && ids[Rename(a, workspace)] == ids[Rename(b, workspace)]
      ensures a == b
    {
      NumbersApart(md, lock, workspace, tag, r, a, b);
    }
  }

  lemma {:induction false} PairsApart(pairs: set<Pair>, seen: set<string>, ids: map<string, string>, workspace: string)
    requires workspace != [] && IdsApart(seen, ids, workspace)
    requires forall p :: p in pairs ==> p.0 in seen && p.1 in seen
    ensures PairsKnown(pairs, ids, workspace) && Injective(pairs, ids, workspace)
  {
    hide Rename;
  }

  lemma {:induction false} PairsInjective(md: Metadata, lock: Lock, workspace: string, tag: string, r: Release)
    requires workspace != [] && IsRelease(md, lock, workspace, tag, r) && RenamesApart(r.closure.seen, workspace)
    ensures PairsKnown(Pairs(r.closure.edges), SpdxIds(r.inventory.packages), workspace)
    ensures Injective(Pairs(r.closure.edges), SpdxIds(r.inventory.packages), workspace)
  {
    ReleaseIdsApart(md, lock, workspace, tag, r);
    hide IdsApart, RenamesApart, SpdxIds, PairsKnown, Injective;
    PairsInClosure(md, lock, workspace, tag, r);
    hide IsRelease, Pairs;
    PairsApart(Pairs(r.closure.edges), r.closure.seen, SpdxIds(r.inventory.packages), workspace);
  }

  // Relationships are listed once each, even where an edge has two roles.
  lemma {:induction false} RelatedOnce(relationships: seq<Relationship>, rootId: string, edges: seq<Edge>,
                                       ids: map<string, string>, workspace: string)
    requires workspace != [] && Rename(rootId, workspace) in ids && EndsKnown(edges, ids, workspace)
    requires Related(relationships, rootId, edges, ids, workspace)
    requires PairsKnown(Pairs(edges), ids, workspace) && Injective(Pairs(edges), ids, workspace)
    ensures NoRepeats(relationships)
  {
    var describes := Relationship(DOCUMENT, "DESCRIBES", ids[Rename(rootId, workspace)]);
    var image := Elements(relationships) - {describes};
    forall p | p in Pairs(edges) ensures DependsOn(p, ids, workspace).kind != describes.kind {
    }
    assert describes in Elements(relationships);
    hide Rename, Pairs;
    ImageSize(Pairs(edges), ids, workspace, image);
    assert |Elements(relationships)| == |image| + 1;
    RepeatsShrink(relationships);
  }

  lemma {:induction false} RelatedExpected(relationships: seq<Relationship>, rootId: string, edges: seq<Edge>,
                                           ids: map<string, string>, workspace: string)
    requires workspace != [] && Rename(rootId, workspace) in ids && EndsKnown(edges, ids, workspace)
    requires Related(relationships, rootId, edges, ids, workspace)
    ensures forall e :: e in EdgesOf(edges, workspace) ==> e.parent in ids && e.child in ids
    ensures Elements(relationships) == Expected(ids[Rename(rootId, workspace)], EdgesOf(edges, workspace), ids)
  {
    hide Rename;
    var renamed := EdgesOf(edges, workspace);
    forall i | 0 <= i < |edges| ensures renamed[i].parent in ids && renamed[i].child in ids {
      assert edges[i] in edges;
    }
    forall x ensures x in Elements(relationships) <==> x in Expected(ids[Rename(rootId, workspace)], renamed, ids) {
      if x in Elements(relationships) && x.kind == "DEPENDS_ON" {
        var p :| p in Pairs(edges) && x == DependsOn(p, ids, workspace);
        var e :| e in edges && p == (e.parent, e.child);
        var i :| 0 <= i < |edges| && edges[i] == e;
        assert renamed[i] in renamed;
      }
      if x in Expected(ids[Rename(rootId, workspace)], renamed, ids) && x.kind == "DEPENDS_ON" {
        var e :| e in renamed && x == Relationship(ids[e.parent], "DEPENDS_ON", ids[e.child]);
        var i :| 0 <= i < |edges| && renamed[i] == e;
        assert edges[i] in edges;
        var p := (edges[i].parent, edges[i].child);
        assert p in Pairs(edges) && x == DependsOn(p, ids, workspace);
      }
    }
  }

  lemma {:induction false} RootNumber(md: Metadata, lock: Lock, workspace: string, tag: string, r: Release,
                                      packages: seq<SpdxPackage>)
    requires workspace != [] && IsRelease(md, lock, workspace, tag, r) && RenamesApart(r.closure.seen, workspace)
    requires Numbered(packages, r.inventory.packages)
    ensures r.rootId in ById(md.packages) && Rename(r.rootId, workspace) in SpdxIds(r.inventory.packages)
    ensures RootSpdx(packages, r.inventory.packages)
         == if ById(md.packages)[r.rootId].name == ROOT_PACKAGE
            then Some(SpdxIds(r.inventory.packages)[Rename(r.rootId, workspace)]) else None
  {
    var rows, ids := r.inventory.packages, ReleaseIds(md, r);
    RootReachable(Index(md.resolve.value), r.rootId);
    assert r.rootId in r.closure.seen;
    var k := NumberOf(md, lock, workspace, tag, r, r.rootId);
    var genuine := ById(md.packages)[r.rootId].name == ROOT_PACKAGE;
    forall i | 0 <= i < |rows| ensures IsRootRow(rows[i]) <==> i == k && genuine {
      RowShape(md, lock, workspace, tag, r, i);
    }
    hide IsRelease, RenamesApart, IsRootRow, ById, SpdxIds;
    RootSpdxAt(packages, rows, k, genuine);
  }

  lemma {:induction false} RowShape(md: Metadata, lock: Lock, workspace: string, tag: string, r: Release, i: nat)
    requires workspace != [] && IsRelease(md, lock, workspace, tag, r) && i < |r.inventory.packages|
    ensures |ReleaseIds(md, r)| == |r.inventory.packages| && ReleaseIds(md, r)[i] in ById(md.packages)
    ensures IsRootRow(r.inventory.packages[i])
       <==> ReleaseIds(md, r)[i] == r.rootId && ById(md.packages)[ReleaseIds(md, r)[i]].name == ROOT_PACKAGE
  {
    var ids := ReleaseIds(md, r);
    assert |ids| == |r.inventory.packages|;
    ReleaseRow(md, lock, workspace, tag, r, ids, i);
    ReleaseRowRoles(md, lock, workspace, tag, r, ids, i);
  }

  lemma {:induction false} AcceptedWhenApart(md: Metadata, lock: Lock, workspace: string, tag: string, r: Release,
                                             seal: Seal, doc: Document)
    requires workspace != [] && IsRelease(md, lock, workspace, tag, r)
    requires IsDocument(r.inventory, r.rootId, r.closure.edges, workspace, seal, doc)
    requires RenamesApart(r.closure.seen, workspace)
    ensures r.rootId in ById(md.packages)
    ensures SpdxAccepted(doc, r.inventory, seal.digest) <==> ById(md.packages)[r.rootId].name == ROOT_PACKAGE
  {
    var ids := SpdxIds(r.inventory.packages);
    assert r.inventory.edges == EdgesOf(r.closure.edges, workspace);
    ReleaseNumbered(md, lock, workspace, tag, r, seal, doc);
    RootNumber(md, lock, workspace, tag, r, doc.packages);
    PairsInjective(md, lock, workspace, tag, r);
    NumberedAccepted(doc.packages, r.inventory.packages);
    RelatedOnce(doc.relationships, r.rootId, r.closure.edges, ids, workspace);
    RelatedExpected(doc.relationships, r.rootId, r.closure.edges, ids, workspace);
    hide *;
    AcceptedParts(doc, r.inventory, seal, r.rootId, r.closure.edges, workspace);
  }

  lemma {:induction false} AcceptedParts(doc: Document, inv: Inventory, seal: Seal, rootId: string, edges: seq<Edge>,
                                         workspace: string)
    requires workspace != [] && IsDocument(inv, rootId, edges, workspace, seal, doc)
    requires inv.edges == EdgesOf(edges, workspace)
    requires PackagesAccepted(doc.packages, inv.packages)
             && PackageIds(doc.packages, inv.packages) == SpdxIds(inv.packages)
    requires NoRepeats(doc.relationships)
    requires forall e :: e in inv.edges ==> e.parent in SpdxIds(inv.packages) && e.child in SpdxIds(inv.packages)
    requires Elements(doc.relationships)
          == Expected(SpdxIds(inv.packages)[Rename(rootId, workspace)], inv.edges, SpdxIds(inv.packages))
    requires RootSpdx(doc.packages, inv.packages).Some? ==>
               RootSpdx(doc.packages, inv.packages).value == SpdxIds(inv.packages)[Rename(rootId, workspace)]
    ensures SpdxAccepted(doc, inv, seal.digest) <==> RootSpdx(doc.packages, inv.packages).Some?
  {
    hide EdgesOf, PackagesAccepted, SpdxIds, PackageIds, RootSpdx, NoRepeats, Expected, Related, Rename;
  }

  lemma {:induction false} RefusedWhenShared(md: Metadata, lock: Lock, workspace: string, tag: string, r: Release,
                                             seal: Seal, doc: Document)
    requires workspace != [] && IsRelease(md, lock, workspace, tag, r)
    requires IsDocument(r.inventory, r.rootId, r.closure.edges, workspace, seal, doc)
    requires !RenamesApart(r.closure.seen, workspace)
    ensures !SpdxAccepted(doc, r.inventory, seal.digest)
  {
    RowsApart(md, lock, workspace, tag, r);
    hide *;
    DocumentShared(r.inventory, r.rootId, r.closure.edges, workspace, seal, doc);
  }

  lemma {:induction false} DocumentShared(inv: Inventory, rootId: string, edges: seq<Edge>, workspace: string,
                                          seal: Seal, doc: Document)
    requires workspace != [] && IsDocument(inv, rootId, edges, workspace, seal, doc) && !DistinctRows(inv.packages)
    ensures !SpdxAccepted(doc, inv, seal.digest)
  {
    hide Related, SpdxIds, Rename, DistinctRows;
    SharedIdRefused(doc.packages, inv.packages, SpdxIds(inv.packages));
  }

  // The document the producer derives from its inventory passes every SPDX check, exactly when the renaming keeps
  // the closure's ids apart and the metadata names the root package under the root's id.
  lemma {:induction false} SpdxProducerAccepted(md: Metadata, lock: Lock, workspace: string, tag: string, r: Release,
                                                seal: Seal, doc: Document)
    requires workspace != [] && IsRelease(md, lock, workspace, tag, r)
    requires IsDocument(r.inventory, r.rootId, r.closure.edges, workspace, seal, doc)
    ensures r.rootId in ById(md.packages)
    ensures SpdxAccepted(doc, r.inventory, seal.digest)
       <==> RenamesApart(r.closure.seen, workspace) && ById(md.packages)[r.rootId].name == ROOT_PACKAGE
  {
    RootReachable(Index(md.resolve.value), r.rootId);
    assert r.rootId in r.closure.seen;
    if RenamesApart(r.closure.seen, workspace) {
      AcceptedWhenApart(md, lock, workspace, tag, r, seal, doc);
    } else {
      RefusedWhenShared(md, lock, workspace, tag, r, seal, doc);
    }
  }

  // ----- the document of a release -----

  lemma {:induction false} RowIdKnown(rows: seq<Row>, id: string)
    requires id in Ids(rows)
    ensures id in SpdxIds(rows)
  {
    var row :| row in rows && row.id == id;
    var i :| 0 <= i < |rows| && rows[i] == row;
    RowKnown(rows, i);
  }

  lemma {:induction false} ClosureIdKnown(md: Metadata, lock: Lock, workspace: string, tag: string, r: Release,
                                          id: string)
    requires workspace != [] && IsRelease(md, lock, workspace, tag, r) && id in r.closure.seen
    ensures Rename(id, workspace) in SpdxIds(r.inventory.packages)
  {
    hide *;
    ReleaseRowIds(md, lock, workspace, tag, r, id);
    RowIdKnown(r.inventory.packages, Rename(id, workspace));
  }

  lemma {:induction false} RootSeen(md: Metadata, lock: Lock, workspace: string, tag: string, r: Release)
    requires workspace != [] && IsRelease(md, lock, workspace, tag, r)
    ensures r.rootId in r.closure.seen
  {
    ReleaseClosure(md, lock, workspace, tag, r);
    hide IsRelease, Index, EdgesCorrect, RolesCorrect, Reachable;
    RootReachable(Index(md.resolve.value), r.rootId);
  }

  // Every id the document step looks up has a package number, for every release.
  lemma {:induction false} DocumentNeverFails(md: Metadata, lock: Lock, workspace: string, tag: string, r: Release)
    requires workspace != [] && IsRelease(md, lock, workspace, tag, r)
    ensures Rename(r.rootId, workspace) in SpdxIds(r.inventory.packages)
    ensures EndsKnown(r.closure.edges, SpdxIds(r.inventory.packages), workspace)
  {
    RootSeen(md, lock, workspace, tag, r);
    PairsInClosure(md, lock, workspace, tag, r);
    hide IsRelease, SpdxIds, Rename;
    ClosureIdKnown(md, lock, workspace, tag, r, r.rootId);
    forall e | e in r.closure.edges
      ensures Rename(e.parent, workspace) in SpdxIds(r.inventory.packages)
      ensures Rename(e.child, workspace) in SpdxIds(r.inventory.packages)
    {
      assert (e.parent, e.child) in Pairs(r.closure.edges);
      ClosureIdKnown(md, lock, workspace, tag, r, e.parent);
      ClosureIdKnown(md, lock, workspace, tag, r, e.child);
    }
  }

  // ----- the document and its check, field by field -----

  // Package numbers count from one in at least four decimal digits.
  lemma {:induction false} SpdxIdSpells(i: nat) returns (digits: string)
    ensures SpdxId(i) == "SPDXRef-Package-" + digits && |digits| >= 4 && Spelled(digits, 10) == i + 1
    ensures (forall k :: 0 <= k < |digits| ==> digits[k] in "0123456789") && (|digits| > 4 ==> digits[0] != '0')
  {
    digits := Chars(Padded(i + 1, Decimal, 4));
    PaddedSpells(i + 1, Decimal, 4);
    forall k | 0 <= k < |digits| ensures digits[k] in "0123456789" { DigitExact(digits[k]); }
  }

  ghost predicate Describes(package: SpdxPackage, row: Row) {
    && package.name == row.name && package.version == row.version && package.licenseDeclared == row.license
    && package.licenseConcluded == "NOASSERTION" && package.copyright == "NOASSERTION" && !package.filesAnalyzed
    && (row.source.Some? && row.source.value != "" ==> package.download == row.source.value)
    && (row.source == None || row.source == Some("") ==> package.download == "NOASSERTION")
    && (row.checksum.Some? && row.checksum.value != "" ==> package.checksum == row.checksum)
    && (row.checksum == None || row.checksum == Some("") ==> package.checksum == None)
  }

  ghost predicate LastAt(rows: seq<Row>, id: string, k: int) {
    0 <= k < |rows| && rows[k].id == id && forall j :: k < j < |rows| ==> rows[j].id != id
  }

  lemma {:induction false} NumberedLast(rows: seq<Row>, id: string)
    ensures id in SpdxIds(rows) <==> exists k :: LastAt(rows, id, k)
    ensures forall k: nat :: LastAt(rows, id, k) ==> SpdxIds(rows)[id] == SpdxId(k)
    decreases |rows|
  {
    hide SpdxId;
    if rows != [] {
      var n := |rows| - 1;
      NumberedLast(rows[..n], id);
      if rows[n].id == id {
        assert LastAt(rows, id, n);
      } else {
        forall k | LastAt(rows, id, k) ensures LastAt(rows[..n], id, k) { }
        forall k | LastAt(rows[..n], id, k) ensures LastAt(rows, id, k) { }
      }
    }
  }

  // The number of the last row under the renamed id.
  ghost predicate Names(spdxId: string, id: string, rows: seq<Row>, workspace: string)
    requires workspace != []
  {
    exists k: nat :: LastAt(rows, Replace(id, workspace, "$WORKSPACE"), k) && spdxId == SpdxId(k)
  }

  lemma {:induction false} NameExact(spdxId: string, id: string, rows: seq<Row>, workspace: string)
    requires workspace != [] && Rename(id, workspace) in SpdxIds(rows)
    ensures Names(spdxId, id, rows, workspace) <==> spdxId == SpdxIds(rows)[Rename(id, workspace)]
  {
    hide SpdxId, SpdxIds, Replace;
    NumberedLast(rows, Rename(id, workspace));
  }

  lemma {:induction false} PackageDescribes(row: Row, spdxId: string)
    ensures SpdxPackageOf(row, spdxId).spdxId == spdxId && Describes(SpdxPackageOf(row, spdxId), row)
  {
  }

  ghost predicate DocumentHead(doc: Document, inv: Inventory, seal: Seal) {
    && doc.header.version == "SPDX-2.3" && doc.header.license == "CC0-1.0" && doc.header.id == "SPDXRef-DOCUMENT"
    && doc.name == "rust-engineering-mcp-" + inv.tag + "-" + seal.target
    && doc.namespace == "https://github.com/pharos-lang/rust-engineering-mcp/sbom/" + seal.digest(inv)
    && doc.creation.created == "1970-01-01T00:00:00Z"
    && doc.creation.creators == ["Tool: scripts/release-artifact.py"]
  }

  ghost predicate DescribesRoot(x: Relationship, rootId: string, rows: seq<Row>, workspace: string)
    requires workspace != []
  {
    x.element == "SPDXRef-DOCUMENT" && x.kind == "DESCRIBES" && Names(x.related, rootId, rows, workspace)
  }

  ghost predicate Connects(x: Relationship, e: Edge, rows: seq<Row>, workspace: string)
    requires workspace != []
  {
    x.kind == "DEPENDS_ON" && Names(x.element, e.parent, rows, workspace) && Names(x.related, e.child, rows, workspace)
  }

  // Ascending by element, then kind, then related element.
  ghost predicate RelationshipsSorted(xs: seq<Relationship>) {
    forall i, j :: 0 <= i < j < |xs| ==>
      && !Before(xs[j].element, xs[i].element)
      && (xs[i].element == xs[j].element ==> !Before(xs[j].kind, xs[i].kind))
      && (xs[i].element == xs[j].element && xs[i].kind == xs[j].kind ==> !Before(xs[j].related, xs[i].related))
  }

  lemma {:induction false} SortedExact(xs: seq<Relationship>)
    requires Ascending(RelationshipBefore, xs)
    ensures RelationshipsSorted(xs)
  {
    forall i, j | 0 <= i < j < |xs|
      ensures !Before(xs[j].element, xs[i].element)
      ensures xs[i].element == xs[j].element ==> !Before(xs[j].kind, xs[i].kind)
      ensures xs[i].element == xs[j].element && xs[i].kind == xs[j].kind ==> !Before(xs[j].related, xs[i].related)
    {
      var a, b := xs[i], xs[j];
      assert !RelationshipBefore(b, a);
      hide Before;
      KeyOrdered(b.element, b.kind, b.related, a.element, a.kind, a.related);
    }
  }

  lemma {:induction false} KeyOrdered(a: string, b: string, c: string, x: string, y: string, z: string)
    ensures Before(a, x) || (a == x && Before(b, y)) || (a == x && b == y && Before(c, z)) ==>
              ListBefore([a, b, c], [x, y, z])
  {
    hide Before;
    assert [a, b, c][1..] == [b, c] && [x, y, z][1..] == [y, z] && [b, c][1..] == [c] && [y, z][1..] == [z];
    BeforeStrictTotal();
    assert StrictTotal(Before) ==> !Before(a, a) && !Before(b, b);
    if a == x { assert ListBefore([a, b, c], [x, y, z]) <==> ListBefore([b, c], [y, z]); }
    if b == y { assert ListBefore([b, c], [y, z]) <==> ListBefore([c], [z]); }
  }

  // The document, by the fields of its inventory, its root and the closure's edges.
  lemma {:induction false} DocumentFields(inv: Inventory, rootId: string, edges: seq<Edge>, workspace: string,
                                          seal: Seal, doc: Document)
    requires workspace != [] && IsDocument(inv, rootId, edges, workspace, seal, doc)
    ensures DocumentHead(doc, inv, seal) && |doc.packages| == |inv.packages|
    ensures forall i :: 0 <= i < |inv.packages| ==>
              && Describes(doc.packages[i], inv.packages[i])
              && exists k: nat :: LastAt(inv.packages, inv.packages[i].id, k) && doc.packages[i].spdxId == SpdxId(k)
    ensures RelationshipsSorted(doc.relationships)
    ensures forall x :: x in doc.relationships <==>
              || DescribesRoot(x, rootId, inv.packages, workspace)
              || exists e :: e in edges && Connects(x, e, inv.packages, workspace)
  {
    hide SpdxIds, SpdxId, Rename, Replace, LastAt, Describes, RelationshipBefore, RelationshipsSorted;
    forall i | 0 <= i < |inv.packages|
      ensures Describes(doc.packages[i], inv.packages[i])
      ensures exists k: nat :: LastAt(inv.packages, inv.packages[i].id, k) && doc.packages[i].spdxId == SpdxId(k)
    {
      var row := inv.packages[i];
      PackageDescribes(row, SpdxIds(inv.packages)[row.id]);
      NumberedLast(inv.packages, row.id);
      RowPlaced(inv.packages, row.id);
    }
    SortedExact(doc.relationships);
    forall x ensures x in doc.relationships <==>
                || DescribesRoot(x, rootId, inv.packages, workspace)
                || exists e :: e in edges && Connects(x, e, inv.packages, workspace)
    {
      RelationshipFields(x, inv.packages, rootId, edges, doc.relationships, workspace);
    }
  }

  lemma {:induction false} RowPlaced(rows: seq<Row>, id: string)
    ensures forall k :: LastAt(rows, id, k) ==> k >= 0
  {
  }

  lemma {:induction false} RelationshipFields(x: Relationship, rows: seq<Row>, rootId: string, edges: seq<Edge>,
                                              relationships: seq<Relationship>, workspace: string)
    requires workspace != [] && Rename(rootId, workspace) in SpdxIds(rows) && EndsKnown(edges, SpdxIds(rows), workspace)
    requires Related(relationships, rootId, edges, SpdxIds(rows), workspace)
    ensures x in relationships <==> || DescribesRoot(x, rootId, rows, workspace)
                                    || exists e :: e in edges && Connects(x, e, rows, workspace)
  {
    var ids := SpdxIds(rows);
    hide SpdxIds, Names, Rename, Ascending;
    NameExact(x.related, rootId, rows, workspace);
    forall e | e in edges
      ensures Rename(e.parent, workspace) in ids && Rename(e.child, workspace) in ids
      ensures Connects(x, e, rows, workspace) <==>
                x == Relationship(ids[Rename(e.parent, workspace)], "DEPENDS_ON", ids[Rename(e.child, workspace)])
    {
      NameExact(x.element, e.parent, rows, workspace);
      NameExact(x.related, e.child, rows, workspace);
    }
    forall e | e in edges ensures (e.parent, e.child) in Pairs(edges) { }
    if exists p :: p in Pairs(edges) && x == DependsOn(p, ids, workspace) {
      var p :| p in Pairs(edges) && x == DependsOn(p, ids, workspace);
      var e :| e in edges && p == (e.parent, e.child);
      assert Connects(x, e, rows, workspace);
    }
    if e :| e in edges && Connects(x, e, rows, workspace) {
      assert x == DependsOn((e.parent, e.child), ids, workspace);
    }
  }

  // ---- the check ----

  ghost predicate PackageChecked(package: SpdxPackage, row: Row) {
    && package.name == row.name && package.version == row.version && package.licenseDeclared == row.license
    && package.filesAnalyzed == false
    && (row.checksum == None || row.checksum == Some("") ==> package.checksum == None)
    && (row.checksum.Some? && row.checksum.value != "" ==> package.checksum == row.checksum)
  }

  // A package before the n-th holds the identifier, and is the last there under its row's id.
  ghost predicate HeldBefore(packages: seq<SpdxPackage>, rows: seq<Row>, n: nat, spdxId: string)
    requires |packages| == |rows| && n <= |rows|
  {
    exists j :: 0 <= j < n && packages[j].spdxId == spdxId && forall k :: j < k < n ==> rows[k].id != rows[j].id
  }

  lemma {:induction false} IdsKept(packages: seq<SpdxPackage>, rows: seq<Row>, id: string)
    requires |packages| == |rows|
    ensures id in PackageIds(packages, rows) <==> exists k :: LastAt(rows, id, k)
    ensures forall k :: LastAt(rows, id, k) ==> PackageIds(packages, rows)[id] == packages[k].spdxId
    decreases |rows|
  {
    if rows != [] {
      var n := |rows| - 1;
      IdsKept(packages[..n], rows[..n], id);
      if rows[n].id == id {
        assert LastAt(rows, id, n);
      } else {
        forall k | LastAt(rows, id, k) ensures LastAt(rows[..n], id, k) { }
        forall k | LastAt(rows[..n], id, k) ensures LastAt(rows, id, k) { }
      }
    }
  }

  lemma {:induction false} HeldExact(packages: seq<SpdxPackage>, rows: seq<Row>, spdxId: string)
    requires |packages| == |rows|
    ensures spdxId in PackageIds(packages, rows).Values <==> HeldBefore(packages, rows, |rows|, spdxId)
  {
    var ids := PackageIds(packages, rows);
    if spdxId in ids.Values {
      var id :| id in ids && ids[id] == spdxId;
      IdsKept(packages, rows, id);
      hide PackageIds;
      var k :| LastAt(rows, id, k);
      assert packages[k].spdxId == spdxId;
    }
    if HeldBefore(packages, rows, |rows|, spdxId) {
      var j :| && 0 <= j < |rows| && packages[j].spdxId == spdxId
               && forall k :: j < k < |rows| ==> rows[k].id != rows[j].id;
      IdsKept(packages, rows, rows[j].id);
      hide PackageIds;
      assert LastAt(rows, rows[j].id, j);
      assert ids[rows[j].id] == spdxId;
    }
  }

  lemma {:induction false} MatchExact(package: SpdxPackage, row: Row)
    ensures PackageMatches(package, row) <==> PackageChecked(package, row)
  {
  }

  // The packages pass exactly if each has its row's fields and an identifier that no package before it holds.
  lemma {:induction false} PackagesExact(packages: seq<SpdxPackage>, rows: seq<Row>)
    requires |packages| == |rows|
    ensures PackagesAccepted(packages, rows)
       <==> forall i :: 0 <= i < |rows| ==>
              PackageChecked(packages[i], rows[i]) && !HeldBefore(packages, rows, i, packages[i].spdxId)
    decreases |rows|
  {
    if rows != [] {
      var n := |rows| - 1;
      var front, head := packages[..n], rows[..n];
      PackagesExact(front, head);
      HeldExact(front, head, packages[n].spdxId);
      MatchExact(packages[n], rows[n]);
      HeldFront(packages, rows, n, packages[n].spdxId);
      forall i | 0 <= i < n
        ensures PackageChecked(front[i], head[i]) <==> PackageChecked(packages[i], rows[i])
        ensures HeldBefore(front, head, i, front[i].spdxId) <==> HeldBefore(packages, rows, i, packages[i].spdxId)
      {
        HeldFront(packages, rows, i, packages[i].spdxId);
        HeldFront(front, head, i, packages[i].spdxId);
        assert front[..i] == packages[..i] && head[..i] == rows[..i];
      }
      assert front[..n] == front && head[..n] == head;
      hide PackageChecked, HeldBefore, PackageMatches, PackageIds;
    }
  }

  lemma {:induction false} HeldFront(packages: seq<SpdxPackage>, rows: seq<Row>, n: nat, spdxId: string)
    requires |packages| == |rows| && n <= |rows|
    ensures HeldBefore(packages, rows, n, spdxId) <==> HeldBefore(packages[..n], rows[..n], n, spdxId)
  {
    if HeldBefore(packages, rows, n, spdxId) {
      var j :| 0 <= j < n && packages[j].spdxId == spdxId && forall k :: j < k < n ==> rows[k].id != rows[j].id;
      assert packages[..n][j].spdxId == spdxId;
    }
  }

  ghost predicate LastRoot(rows: seq<Row>, k: int) {
    && 0 <= k < |rows| && rows[k].name == "rust-engineering-mcp" && "root" in rows[k].roles
    && forall j :: k < j < |rows| ==> rows[j].name != "rust-engineering-mcp" || "root" !in rows[j].roles
  }

  lemma {:induction false} RootTaken(packages: seq<SpdxPackage>, rows: seq<Row>)
    requires |packages| == |rows|
    ensures RootSpdx(packages, rows).Some? <==> exists k :: LastRoot(rows, k)
    ensures forall k :: LastRoot(rows, k) ==> RootSpdx(packages, rows) == Some(packages[k].spdxId)
    decreases |rows|
  {
    if rows != [] {
      var n := |rows| - 1;
      RootTaken(packages[..n], rows[..n]);
      if IsRootRow(rows[n]) {
        assert LastRoot(rows, n);
      } else {
        forall k | LastRoot(rows, k) ensures LastRoot(rows[..n], k) { }
        forall k | LastRoot(rows[..n], k) ensures LastRoot(rows, k) { }
      }
    }
  }

  // An edge stands for the relationship between the last packages under its ends' ids.
  ghost predicate StandsFor(x: Relationship, e: Edge, packages: seq<SpdxPackage>, rows: seq<Row>)
    requires |packages| == |rows|
  {
    && x.kind == "DEPENDS_ON"
    && (exists a :: LastAt(rows, e.parent, a) && x.element == packages[a].spdxId)
    && exists b :: LastAt(rows, e.child, b) && x.related == packages[b].spdxId
  }

  lemma {:induction false} StandsExact(x: Relationship, e: Edge, packages: seq<SpdxPackage>, rows: seq<Row>)
    requires |packages| == |rows|
    ensures var ids := PackageIds(packages, rows);
            (StandsFor(x, e, packages, rows) <==>
              e.parent in ids && e.child in ids && x == Relationship(ids[e.parent], "DEPENDS_ON", ids[e.child]))
  {
    IdsKept(packages, rows, e.parent);
    IdsKept(packages, rows, e.child);
    hide PackageIds, LastAt;
    forall k | LastAt(rows, e.parent, k) || LastAt(rows, e.child, k) ensures 0 <= k < |rows| { InsideRows(rows, k, e); }
  }

  lemma {:induction false} InsideRows(rows: seq<Row>, k: int, e: Edge)
    requires LastAt(rows, e.parent, k) || LastAt(rows, e.child, k)
    ensures 0 <= k < |rows|
  {
  }

  lemma {:induction false} ExpectedExact(x: Relationship, root: string, edges: seq<Edge>, packages: seq<SpdxPackage>,
                                         rows: seq<Row>)
    requires |packages| == |rows|
    requires forall e :: e in edges ==> e.parent in PackageIds(packages, rows) && e.child in PackageIds(packages, rows)
    ensures x in Expected(root, edges, PackageIds(packages, rows))
       <==> || (x.element == "SPDXRef-DOCUMENT" && x.kind == "DESCRIBES" && x.related == root)
            || exists e :: e in edges && StandsFor(x, e, packages, rows)
  {
    forall e | e in edges
      ensures StandsFor(x, e, packages, rows)
         <==> x == Relationship(PackageIds(packages, rows)[e.parent], "DEPENDS_ON", PackageIds(packages, rows)[e.child])
    {
      StandsExact(x, e, packages, rows);
    }
    hide PackageIds, StandsFor;
  }

  ghost predicate HeadChecked(doc: Document, digest: string) {
    && doc.header.version == "SPDX-2.3" && doc.header.license == "CC0-1.0" && doc.header.id == "SPDXRef-DOCUMENT"
    && doc.namespace == "https://github.com/pharos-lang/rust-engineering-mcp/sbom/" + digest
  }

  // The relationships are each listed once, and are the root's and the edges' own.
  ghost predicate RelationshipsChecked(doc: Document, rows: seq<Row>, edges: seq<Edge>, k: int)
    requires |doc.packages| == |rows| && LastRoot(rows, k)
  {
    && (forall e :: e in edges ==>
          (exists a :: LastAt(rows, e.parent, a)) && exists b :: LastAt(rows, e.child, b))
    && (forall i, j :: 0 <= i < j < |doc.relationships| ==> doc.relationships[i] != doc.relationships[j])
    && forall x :: x in doc.relationships <==>
         || (x.element == "SPDXRef-DOCUMENT" && x.kind == "DESCRIBES" && x.related == doc.packages[k].spdxId)
         || exists e :: e in edges && StandsFor(x, e, doc.packages, rows)
  }

  lemma {:induction false} RelationshipsExact(doc: Document, rows: seq<Row>, edges: seq<Edge>, k: int)
    requires |doc.packages| == |rows| && LastRoot(rows, k)
    ensures var ids := PackageIds(doc.packages, rows);
            (RelationshipsChecked(doc, rows, edges, k) <==>
              && (forall e :: e in edges ==> e.parent in ids && e.child in ids)
              && NoRepeats(doc.relationships)
              && Elements(doc.relationships) == Expected(doc.packages[k].spdxId, edges, ids))
  {
    var ids := PackageIds(doc.packages, rows);
    forall e | e in edges
      ensures e.parent in ids <==> exists a :: LastAt(rows, e.parent, a)
      ensures e.child in ids <==> exists b :: LastAt(rows, e.child, b)
    {
      IdsKept(doc.packages, rows, e.parent);
      IdsKept(doc.packages, rows, e.child);
    }
    hide PackageIds, LastAt, StandsFor, Expected;
    if forall e :: e in edges ==> e.parent in ids && e.child in ids {
      forall x
        ensures x in Expected(doc.packages[k].spdxId, edges, ids)
           <==> || (x.element == "SPDXRef-DOCUMENT" && x.kind == "DESCRIBES" && x.related == doc.packages[k].spdxId)
                || exists e :: e in edges && StandsFor(x, e, doc.packages, rows)
      {
        ExpectedExact(x, doc.packages[k].spdxId, edges, doc.packages, rows);
      }
    }
  }

  // The SPDX check, by the fields of the document and the inventory.
  lemma {:induction false} SpdxAcceptedExact(doc: Document, inv: Inventory, digest: Inventory -> string)
    ensures SpdxAccepted(doc, inv, digest)
       <==> && HeadChecked(doc, digest(inv)) && |doc.packages| == |inv.packages|
            && (forall i :: 0 <= i < |inv.packages| ==>
                  && PackageChecked(doc.packages[i], inv.packages[i])
                  && !HeldBefore(doc.packages, inv.packages, i, doc.packages[i].spdxId))
            && exists k :: LastRoot(inv.packages, k) && RelationshipsChecked(doc, inv.packages, inv.edges, k)
  {
    if |doc.packages| == |inv.packages| {
      PackagesExact(doc.packages, inv.packages);
      RootTaken(doc.packages, inv.packages);
      forall k | LastRoot(inv.packages, k)
        ensures var ids := PackageIds(doc.packages, inv.packages);
                (RelationshipsChecked(doc, inv.packages, inv.edges, k) <==>
                  && (forall e :: e in inv.edges ==> e.parent in ids && e.child in ids)
                  && NoRepeats(doc.relationships)
                  && Elements(doc.relationships) == Expected(doc.packages[k].spdxId, inv.edges, ids))
      {
        RelationshipsExact(doc, inv.packages, inv.edges, k);
      }
      hide PackageIds, RootSpdx, Expected, RelationshipsChecked, LastRoot, PackageChecked, HeldBefore, PackagesAccepted,
           NoRepeats, Elements;
    }
  }
}
