/** The order-independent digest of a sysroot archive. */
module SysrootDigest {
  import opened Ordering
  import opened Results
  import opened Text

  const TARGET := "aarch64-unknown-linux-gnu"
  const SYSROOT := "/opt/miri-sysroot/2026-09-07/" + TARGET
  const MEMBER_LIMIT := 200000
  const ARCHIVE_LIMIT := 192 * 1024 * 1024

  datatype Kind = Directory | File | Special

  // parts as PurePosixPath splits the name: no empty and no "." part, and an absolute name starts with "/".
  datatype Member = Member(parts: seq<string>, kind: Kind, digest: string, size: nat)

  datatype Row = Row(path: string, digest: string, size: nat)

  // The text that is hashed, the number of files and their bytes.
  datatype Tree = Tree(lines: string, files: nat, bytes: nat)

  datatype Refusal = TooManyMembers | SpecialMember | BadPath | TooManyBytes

  predicate PathFits(m: Member) {
    m.parts != [] && m.parts[0] == TARGET && ".." !in m.parts
  }

  function TreePath(m: Member): string
    requires m.parts != []
  {
    SYSROOT + "/" + if |m.parts| == 1 then "." else Join(m.parts[1..], '/')
  }

  function RowOf(m: Member): seq<Row> {
    if m.kind == File && m.parts != [] then [Row(TreePath(m), m.digest, m.size)] else []
  }

  function Rows(members: seq<Member>): (rows: seq<Row>) {
    if members == [] then [] else Rows(Front(members)) + RowOf(Last(members))
  }

  function Bytes(rows: seq<Row>): nat {
    if rows == [] then 0 else Bytes(Front(rows)) + Last(rows).size
  }

  predicate RowBefore(a: Row, b: Row) {
    Before(a.path, b.path)
    || (a.path == b.path && (Before(a.digest, b.digest) || (a.digest == b.digest && a.size < b.size)))
  }

  function Line(row: Row): string {
    row.digest + "  " + row.path
  }

  function Lines(rows: seq<Row>): string {
    if rows == [] then "" else Line(rows[0]) + ['\n'] + Lines(rows[1..])
  }

  // The lines of the sorted rows, and what the source returns beside their digest.
  function TreeOf(rows: seq<Row>): Tree {
    Tree(Lines(Sort(RowBefore, rows)), |rows|, Bytes(rows))
  }

  // What an archive may hold.
  ghost predicate Acceptable(members: seq<Member>) {
    && |members| <= MEMBER_LIMIT
    && (forall m :: m in members ==> m.kind != Special && PathFits(m))
    && Bytes(Rows(members)) <= ARCHIVE_LIMIT
  }

  // The first i members, read without trouble.
  ghost predicate ReadSoFar(members: seq<Member>, i: nat, rows: seq<Row>, total: nat) {
    && i <= |members| && i <= MEMBER_LIMIT && total <= ARCHIVE_LIMIT
    && rows == Rows(members[..i]) && total == Bytes(rows)
    && forall j :: 0 <= j < i ==> members[j].kind != Special && PathFits(members[j])
  }

  // sysroot_from_archive
  method ReadSysroot(members: seq<Member>) returns (r: Result<Tree, Refusal>)
    ensures r.Ok? <==> Acceptable(members)
    ensures r.Ok? ==> r.value == TreeOf(Rows(members))
  {
    var rows, total: nat := [], 0;
    assert ReadSoFar(members, 0, rows, total);
    hide *;
    for i: nat := 0 to |members|
      invariant ReadSoFar(members, i, rows, total)
    {
      ReadNext(members, i, rows, total);
      var refusal := CheckMember(members[i], i, total);
      if refusal.Some? {
        return Err(refusal.value);
      }
      rows, total := rows + RowOf(members[i]), total + Weight(members[i]);
    }
    ReadAll(members, rows, total);
    r := Ok(TreeOf(rows));
  }

  // The checks of one loop step, in the source's order.
  method CheckMember(m: Member, i: nat, total: nat) returns (refusal: Option<Refusal>)
    ensures refusal.Some? <==> Stops(m, i, total)
  {
    if i + 1 > MEMBER_LIMIT { return Some(TooManyMembers); }
    if m.kind == Special { return Some(SpecialMember); }
    if !PathFits(m) { return Some(BadPath); }
    if m.kind == File && total + m.size > ARCHIVE_LIMIT { return Some(TooManyBytes); }
    return None;
  }

  function Weight(m: Member): nat {
    if m.kind == File then m.size else 0
  }

  // The member the loop stops at, with `total` bytes before it.
  predicate Stops(m: Member, i: nat, total: nat) {
    i + 1 > MEMBER_LIMIT || m.kind == Special || !PathFits(m) || (m.kind == File && total + m.size > ARCHIVE_LIMIT)
  }

  lemma {:induction false} WeightAdds(rows: seq<Row>, m: Member)
    requires PathFits(m)
    ensures Bytes(rows + RowOf(m)) == Bytes(rows) + Weight(m)
  {
    if m.kind == File { BytesPrefix(rows, RowOf(m)[0]); } else { assert rows + [] == rows; }
  }

  lemma {:induction false} ReadNext(members: seq<Member>, i: nat, rows: seq<Row>, total: nat)
    requires i < |members| && ReadSoFar(members, i, rows, total)
    ensures Stops(members[i], i, total) ==> !Acceptable(members)
    ensures !Stops(members[i], i, total) ==>
            ReadSoFar(members, i + 1, rows + RowOf(members[i]), total + Weight(members[i]))
  {
    hide PathFits, Rows, Bytes, RowOf;
    var m := members[i];
    RowsPrefix(members, i);
    if PathFits(m) { WeightAdds(rows, m); }
    BytesGrow(members, i + 1);
    assert m in members;
  }

  lemma {:induction false} ReadAll(members: seq<Member>, rows: seq<Row>, total: nat)
    requires ReadSoFar(members, |members|, rows, total)
    ensures Acceptable(members) && rows == Rows(members)
  {
    hide PathFits, Rows, Bytes;
    assert members[..|members|] == members;
  }

  lemma {:induction false} RowsPrefix(members: seq<Member>, i: nat)
    requires i < |members|
    ensures Rows(members[..i + 1]) == Rows(members[..i]) + RowOf(members[i])
  {
    assert Front(members[..i + 1]) == members[..i];
  }

  lemma {:induction false} BytesPrefix(rows: seq<Row>, row: Row)
    ensures Bytes(rows + [row]) == Bytes(rows) + row.size
  {
    assert Front(rows + [row]) == rows;
  }

  lemma {:induction false} BytesGrow(members: seq<Member>, i: nat)
    requires i <= |members|
    ensures Bytes(Rows(members[..i])) <= Bytes(Rows(members))
  {
    assert members == members[..i] + members[i..];
    RowsJoin(members[..i], members[i..]);
    BytesJoin(Rows(members[..i]), Rows(members[i..]));
  }

  // ----- the order of the archive does not matter -----

  lemma {:induction false} RowsJoin(a: seq<Member>, b: seq<Member>)
    ensures Rows(a + b) == Rows(a) + Rows(b)
  {
    if b == [] {
      assert a + b == a;
    } else {
      assert Front(a + b) == a + Front(b);
      RowsJoin(a, Front(b));
    }
  }

  lemma {:induction false} RowsAround(a: seq<Member>, m: Member, b: seq<Member>)
    ensures Rows(a + [m] + b) == Rows(a) + RowOf(m) + Rows(b)
  {
    RowsJoin(a + [m], b);
    assert Front(a + [m]) == a;
  }

  lemma {:induction false} RowsPermute(members: seq<Member>, others: seq<Member>)
    requires multiset(members) == multiset(others)
    ensures multiset(Rows(members)) == multiset(Rows(others))
  {
    SamePermutation(members, others);
    if members != [] {
      var k := FindLast(members, others);
      var a, m, b := others[..k], others[k], others[k + 1..];
      assert others == a + [m] + b;
      RowsPermute(Front(members), a + b);
      RowsJoin(a, b);
      RowsAround(a, m, b);
    }
  }

  lemma {:induction false} BytesJoin(a: seq<Row>, b: seq<Row>)
    ensures Bytes(a + b) == Bytes(a) + Bytes(b)
  {
    if b == [] {
      assert a + b == a;
    } else {
      assert Front(a + b) == a + Front(b);
      BytesJoin(a, Front(b));
    }
  }

  lemma {:induction false} BytesPermute(rows: seq<Row>, others: seq<Row>)
    requires multiset(rows) == multiset(others)
    ensures Bytes(rows) == Bytes(others)
  {
    SamePermutation(rows, others);
    if rows != [] {
      var k := FindLast(rows, others);
      var a, row, b := others[..k], others[k], others[k + 1..];
      assert others == a + [row] + b;
      BytesPermute(Front(rows), a + b);
      BytesJoin(a, b);
      BytesPrefix(a, row);
      BytesJoin(a + [row], b);
    }
  }

  lemma {:induction false} RowsOrdered()
    ensures StrictTotal(RowBefore)
  {
    forall x ensures !RowBefore(x, x) { BeforeIrreflexive(x.path); BeforeIrreflexive(x.digest); }
    forall x, y, z | RowBefore(x, y) && RowBefore(y, z) ensures RowBefore(x, z) {
      if Before(x.path, y.path) && Before(y.path, z.path) { BeforeTransitive(x.path, y.path, z.path); }
      if Before(x.digest, y.digest) && Before(y.digest, z.digest) { BeforeTransitive(x.digest, y.digest, z.digest); }
    }
    forall x, y ensures x == y || RowBefore(x, y) || RowBefore(y, x) {
      BeforeTotal(x.path, y.path);
      BeforeTotal(x.digest, y.digest);
    }
  }

  // Any order of the same members is accepted or refused alike, with the same text, count and bytes.
  lemma {:induction false} DigestOrderFree(members: seq<Member>, others: seq<Member>)
    requires multiset(members) == multiset(others)
    ensures Acceptable(members) <==> Acceptable(others)
    ensures TreeOf(Rows(members)) == TreeOf(Rows(others))
  {
    SamePermutation(members, others);
    RowsPermute(members, others);
    RowsOrdered();
    SortForgets(RowBefore, Rows(members), Rows(others));
    SamePermutation(Rows(members), Rows(others));
    BytesPermute(Rows(members), Rows(others));
  }

  // ----- what the text says about the tree -----

  const ROOT := SYSROOT + "/"

  predicate HexDigest(d: string) {
    |d| == 64 && forall i :: 0 <= i < 64 ==> '0' <= d[i] <= '9' || 'a' <= d[i] <= 'f'
  }

  const HEADER := 66 + |ROOT|

  // The text starts like a line: a digest, two spaces and the root.
  predicate IsHeader(s: string) {
    |s| >= HEADER && HexDigest(s[..64]) && s[64] == s[65] == ' ' && s[66..HEADER] == ROOT
  }

  // What hashlib and the tree path make of a file.
  predicate ValidRow(row: Row) {
    HexDigest(row.digest) && ROOT <= row.path
  }

  ghost predicate Valid(rows: seq<Row>) {
    forall i :: 0 <= i < |rows| ==> ValidRow(rows[i])
  }

  // The path reads, from one of its newlines on, like another line.
  ghost predicate EmbedsAt(path: string, j: int) {
    0 <= j < |path| && path[j] == '\n' && IsHeader(path[j + 1..])
  }

  ghost predicate Embeds(path: string) {
    exists j :: EmbedsAt(path, j)
  }

  ghost predicate Readable(rows: seq<Row>) {
    forall i :: 0 <= i < |rows| ==> !Embeds(rows[i].path)
  }

  ghost predicate Alike(xs: seq<Row>, ys: seq<Row>) {
    |xs| == |ys| && forall i :: 0 <= i < |xs| ==> xs[i].path == ys[i].path && xs[i].digest == ys[i].digest
  }

  function Files(rows: seq<Row>): set<(string, string)> {
    set row | row in rows :: (row.path, row.digest)
  }

  lemma {:induction false} RootOneLine()
    ensures '\n' !in ROOT && |ROOT| > 0
  {
    assert '\n' !in SYSROOT;
    assert '\n' !in "/";
    assert forall c :: c in ROOT <==> c in SYSROOT || c in "/";
  }

  lemma {:induction false} HeaderOneLine(s: string, i: nat)
    requires IsHeader(s) && i < HEADER
    ensures s[i] != '\n'
  {
    RootOneLine();
    if i < 64 {
      assert s[i] == s[..64][i];
    } else if i >= 66 {
      assert s[i] == s[66..HEADER][i - 66];
    }
  }

  lemma {:induction false} HeaderStays(s: string, t: string)
    requires IsHeader(s) && |t| >= HEADER && s[..HEADER] == t[..HEADER]
    ensures IsHeader(t)
  {
    hide HexDigest;
    HeaderParts(s);
    HeaderParts(t);
  }

  lemma {:induction false} HeaderParts(s: string)
    requires |s| >= HEADER
    ensures s[..HEADER][..64] == s[..64] && s[..HEADER][66..] == s[66..HEADER]
    ensures s[..HEADER][64] == s[64] && s[..HEADER][65] == s[65]
  {
  }

  lemma {:induction false} ValidHeader(row: Row, rest: string)
    requires ValidRow(row)
    ensures IsHeader(Line(row) + rest)
  {
    var s := Line(row) + rest;
    assert |row.digest| == 64;
    hide HexDigest;
    assert s[..64] == row.digest && s[64] == s[65] == ' ';
    assert s[66..HEADER] == row.path[..|ROOT|];
  }

  // A line that runs on past another's end, where a header follows, embeds that header.
  lemma {:induction false} RunsOn(p: string, s: string, q: string, t: string)
    requires p + ['\n'] + s == q + ['\n'] + t && |p| < |q| && IsHeader(s)
    ensures EmbedsAt(q, |p|)
  {
    hide IsHeader;
    var all, n := p + ['\n'] + s, |p| + 1;
    assert all[|p|] == '\n' && all[|q|] == '\n';
    assert all[n..] == s && s[|q| - n..] == ['\n'] + t;
    if |q| - n < HEADER { HeaderLong(s); HeaderOneLine(s, |q| - n); }
    assert q[n..] == s[..|q| - n];
    HeaderStays(s, q[n..]);
  }

  lemma {:induction false} HeaderLong(s: string)
    requires IsHeader(s)
    ensures |s| >= HEADER
  {
  }

  // Lines without embedded headers end at the same place.
  lemma {:induction false} SameEnd(p: string, s: string, q: string, t: string)
    requires p + ['\n'] + s == q + ['\n'] + t && !Embeds(p) && !Embeds(q)
    requires (s == "" || IsHeader(s)) && (t == "" || IsHeader(t))
    ensures p == q && s == t
  {
    hide IsHeader;
    var all := p + ['\n'] + s;
    if |p| < |q| && s != "" { RunsOn(p, s, q, t); }
    if |q| < |p| && t != "" { RunsOn(q, t, p, s); }
    assert |p| == |q|;
    assert all[..|p|] == p && all[..|q|] == q && all[|p| + 1..] == s && all[|q| + 1..] == t;
  }

  lemma {:induction false} NextHeader(rows: seq<Row>)
    requires Valid(rows)
    ensures Lines(rows) == "" || IsHeader(Lines(rows))
  {
    if rows != [] {
      assert ValidRow(rows[0]);
      ValidHeader(rows[0], ['\n'] + Lines(rows[1..]));
      assert Lines(rows) == Line(rows[0]) + (['\n'] + Lines(rows[1..]));
    }
  }

  // Readable rows are read back from their text in one way only.
  lemma {:induction false} LinesDetermine(xs: seq<Row>, ys: seq<Row>)
    requires Valid(xs) && Valid(ys) && Readable(xs) && Readable(ys) && Lines(xs) == Lines(ys)
    ensures Alike(xs, ys)
  {
    if xs != [] && ys != [] {
      FirstRow(xs, ys);
      LinesDetermine(xs[1..], ys[1..]);
      hide ValidRow, Embeds, Lines;
      assert forall i :: 1 <= i < |xs| ==> xs[1..][i - 1] == xs[i] && ys[1..][i - 1] == ys[i];
    }
  }

  lemma {:induction false} FirstRow(xs: seq<Row>, ys: seq<Row>)
    requires Valid(xs) && Valid(ys) && Readable(xs) && Readable(ys) && Lines(xs) == Lines(ys) && xs != [] && ys != []
    ensures xs[0].path == ys[0].path && xs[0].digest == ys[0].digest && Lines(xs[1..]) == Lines(ys[1..])
    ensures Valid(xs[1..]) && Valid(ys[1..]) && Readable(xs[1..]) && Readable(ys[1..])
  {
    var s, t := Lines(xs[1..]), Lines(ys[1..]);
    assert Lines(xs) == Line(xs[0]) + ['\n'] + s && Lines(ys) == Line(ys[0]) + ['\n'] + t;
    assert ValidRow(xs[0]) && ValidRow(ys[0]) && !Embeds(xs[0].path) && !Embeds(ys[0].path);
    NextHeader(xs[1..]);
    NextHeader(ys[1..]);
    hide Embeds, IsHeader, Lines;
    CutRow(xs[0], s, ys[0], t);
    SameEnd(xs[0].path, s, ys[0].path, t);
  }

  lemma {:induction false} CutRow(x: Row, s: string, y: Row, t: string)
    requires |x.digest| == 64 && |y.digest| == 64 && Line(x) + ['\n'] + s == Line(y) + ['\n'] + t
    ensures x.digest == y.digest && x.path + ['\n'] + s == y.path + ['\n'] + t
  {
    var a, b := Line(x) + ['\n'] + s, Line(y) + ['\n'] + t;
    assert a[..64] == x.digest && b[..64] == y.digest;
    assert a[66..] == x.path + ['\n'] + s && b[66..] == y.path + ['\n'] + t;
  }

  lemma {:induction false} LinesApart(xs: seq<Row>, ys: seq<Row>)
    ensures Lines(xs + ys) == Lines(xs) + Lines(ys)
  {
    if xs == [] {
      assert xs + ys == ys;
    } else {
      LinesApart(xs[1..], ys);
      assert (xs + ys)[1..] == xs[1..] + ys && (xs + ys)[0] == xs[0];
    }
  }

  // A row with an embedded header reads as two.
  lemma {:induction false} SplitRow(row: Row, j: int) returns (a: Row, b: Row)
    requires ValidRow(row) && EmbedsAt(row.path, j)
    ensures ValidRow(a) && ValidRow(b) && Lines([a, b]) == Lines([row])
  {
    var p := row.path;
    var h := p[j + 1..];
    HeaderLong(h);
    a, b := Row(p[..j], row.digest, row.size), Row(h[66..], h[..64], 0);
    PathBefore(row, j);
    PathAfter(h);
    hide ValidRow, HexDigest, IsHeader, Line;
    TwoLines(a, b);
    TwoLines(row, row);
    assert Line(row) == Line(a) + ['\n'] + Line(b) by { LineCut(row, j); }
  }

  lemma {:induction false} PathBefore(row: Row, j: int)
    requires ValidRow(row) && EmbedsAt(row.path, j)
    ensures ROOT <= row.path[..j]
  {
    RootOneLine();
    hide HexDigest, IsHeader;
    var p := row.path;
    assert forall i :: 0 <= i < |ROOT| ==> p[i] == ROOT[i];
    assert j >= |ROOT|;
  }

  lemma {:induction false} PathAfter(h: string)
    requires IsHeader(h)
    ensures HexDigest(h[..64]) && ROOT <= h[66..]
  {
    hide HexDigest;
    assert h[66..][..|ROOT|] == h[66..HEADER];
  }

  lemma {:induction false} TwoLines(a: Row, b: Row)
    ensures Lines([a]) == Line(a) + ['\n'] && Lines([a, b]) == Line(a) + ['\n'] + Line(b) + ['\n']
  {
    hide Line;
    assert [a, b][1..] == [b] && [b][1..] == [] && [a][1..] == [];
    assert Lines([a]) == Line(a) + ['\n'] + Lines([]) && Lines([b]) == Line(b) + ['\n'] + Lines([]);
    assert Lines([a, b]) == Line(a) + ['\n'] + Lines([b]);
  }

  lemma {:induction false} LineCut(row: Row, j: int)
    requires EmbedsAt(row.path, j)
    ensures var h := row.path[j + 1..];
            |h| >= 66 && Line(row) == Line(Row(row.path[..j], row.digest, row.size)) + ['\n']
                + Line(Row(h[66..], h[..64], 0))
  {
    var p, h := row.path, row.path[j + 1..];
    hide HexDigest;
    assert h == h[..64] + "  " + h[66..];
    assert p == p[..j] + ['\n'] + h;
  }

  lemma {:induction false} RowsFitLines(rows: seq<Row>)
    ensures |rows| <= |Lines(rows)|
  {
    if rows != [] { RowsFitLines(rows[1..]); }
  }

  // Every text of valid rows is also the text of readable ones.
  lemma {:induction false} ReadableExists(rows: seq<Row>) returns (fine: seq<Row>)
    requires Valid(rows)
    ensures Valid(fine) && Readable(fine) && Lines(fine) == Lines(rows)
    decreases |Lines(rows)| - |rows|
  {
    RowsFitLines(rows);
    if Readable(rows) {
      fine := rows;
    } else {
      var i :| 0 <= i < |rows| && Embeds(rows[i].path);
      var j :| EmbedsAt(rows[i].path, j);
      assert ValidRow(rows[i]);
      var a, b := SplitRow(rows[i], j);
      var finer := Refine(rows, i, a, b);
      RowsFitLines(finer);
      fine := ReadableExists(finer);
    }
  }

  lemma {:induction false} Refine(rows: seq<Row>, i: nat, a: Row, b: Row) returns (finer: seq<Row>)
    requires i < |rows| && Valid(rows) && ValidRow(a) && ValidRow(b) && Lines([a, b]) == Lines([rows[i]])
    ensures Valid(finer) && Lines(finer) == Lines(rows) && |finer| == |rows| + 1
  {
    hide ValidRow, Lines;
    var left, right := rows[..i], rows[i + 1..];
    finer := left + ([a, b] + right);
    assert rows == left + ([rows[i]] + right);
    LinesApart(left, [rows[i]] + right);
    LinesApart([rows[i]], right);
    LinesApart(left, [a, b] + right);
    LinesApart([a, b], right);
    assert forall n :: 0 <= n < |left| ==> left[n] == rows[n];
    assert forall n :: 0 <= n < |right| ==> right[n] == rows[i + 1 + n];
  }

  // Rows are the only readable reading of their text exactly when no path embeds a line header.
  lemma {:induction false} ReadBackExact(rows: seq<Row>)
    requires Valid(rows)
    ensures (forall other :: Valid(other) && Readable(other) && Lines(other) == Lines(rows) ==> Alike(other, rows))
       <==> Readable(rows)
  {
    if Readable(rows) {
      forall other | Valid(other) && Readable(other) && Lines(other) == Lines(rows) ensures Alike(other, rows) {
        LinesDetermine(other, rows);
      }
    } else {
      var fine := ReadableExists(rows);
      assert Alike(fine, rows) ==> Readable(rows);
    }
  }

  // ----- trees -----

  // What an accepted archive's rows look like.
  lemma {:induction false} TreeValid(members: seq<Member>)
    requires forall m :: m in members ==> HexDigest(m.digest)
    ensures Valid(Rows(members))
  {
    if members != [] {
      TreeValid(Front(members));
      assert HexDigest(Last(members).digest);
      RowOfValid(Last(members));
      hide ValidRow, RowOf;
    }
  }

  lemma {:induction false} RowOfValid(m: Member)
    requires HexDigest(m.digest)
    ensures Valid(RowOf(m))
  {
    hide HexDigest, Join;
  }

  // Against a tree whose paths embed no header, an equal text means equal files exactly if the other tree's paths
  // embed none either.
  lemma {:induction false} TreeDetermines(members: seq<Member>, others: seq<Member>)
    requires forall m :: m in members + others ==> HexDigest(m.digest)
    requires TreeOf(Rows(members)).lines == TreeOf(Rows(others)).lines && Readable(Rows(others))
    ensures Files(Rows(members)) == Files(Rows(others)) <==> Readable(Rows(members))
  {
    hide *;
    var xs, ys := Sort(RowBefore, Rows(members)), Sort(RowBefore, Rows(others));
    TreeValid(members);
    TreeValid(others);
    SortedRows(Rows(members));
    SortedRows(Rows(others));
    assert Lines(xs) == Lines(ys) by { TreeText(Rows(members)); TreeText(Rows(others)); }
    if Readable(Rows(members)) {
      LinesDetermine(xs, ys);
      AlikeFiles(xs, ys);
    }
    if Files(Rows(members)) == Files(Rows(others)) { ReadableFiles(Rows(members), Rows(others)); }
  }

  lemma {:induction false} TreeText(rows: seq<Row>)
    ensures TreeOf(rows).lines == Lines(Sort(RowBefore, rows))
  {
  }

  lemma {:induction false} SortedRows(rows: seq<Row>)
    ensures Valid(rows) ==> Valid(Sort(RowBefore, rows))
    ensures Readable(rows) <==> Readable(Sort(RowBefore, rows))
    ensures Files(rows) == Files(Sort(RowBefore, rows))
  {
    hide ValidRow, Embeds, Sort;
    SortKeeps(RowBefore, rows);
    var sorted := Sort(RowBefore, rows);
    forall i | 0 <= i < |sorted| ensures sorted[i] in rows { assert sorted[i] in sorted; }
    forall i | 0 <= i < |rows| ensures rows[i] in sorted { assert rows[i] in rows; }
  }

  lemma {:induction false} AlikeFiles(xs: seq<Row>, ys: seq<Row>)
    requires Alike(xs, ys)
    ensures Files(xs) == Files(ys)
  {
    forall i | 0 <= i < |xs| ensures (xs[i].path, xs[i].digest) in Files(ys)
        && (ys[i].path, ys[i].digest) in Files(xs) {
      assert ys[i] in ys && xs[i] in xs;
    }
  }

  lemma {:induction false} ReadableFiles(xs: seq<Row>, ys: seq<Row>)
    requires Files(xs) == Files(ys) && Readable(ys)
    ensures Readable(xs)
  {
    hide Embeds;
    forall i | 0 <= i < |xs| ensures !Embeds(xs[i].path) {
      assert xs[i] in xs && (xs[i].path, xs[i].digest) in Files(ys);
      var row :| row in ys && row.path == xs[i].path && row.digest == xs[i].digest;
      var k :| 0 <= k < |ys| && ys[k] == row;
    }
  }

  // ----- every tree shares its text with another -----

  // What hashlib and PurePosixPath make of a member.
  ghost predicate Natural(m: Member) {
    HexDigest(m.digest) && forall part :: part in m.parts ==> part != "" && part != "." && '/' !in part
  }

  ghost predicate NaturalTree(members: seq<Member>) {
    forall m :: m in members ==> Natural(m)
  }

  // The file x below a directory whose name holds a newline and the digest of y, at what is left of y's path.
  function Swallow(x: Member, y: Member): Member
    requires |x.parts| >= 2
  {
    Member(Front(x.parts) + [Last(x.parts) + "\n" + y.digest + "  "] + ["opt", "miri-sysroot", "2026-09-07"] + y.parts,
           File, x.digest, x.size)
  }

  lemma {:induction false} JoinLonger(front: seq<string>, last: string, more: string, rest: seq<string>)
    requires rest != []
    ensures Join(front + [last + more] + rest, '/') == Join(front + [last], '/') + more + "/" + Join(rest, '/')
  {
    var whole, part := front + [last + more] + rest, front + [last];
    if front == [] {
      assert whole == [last + more] + rest && whole[1..] == rest && part == [last];
    } else {
      JoinLonger(front[1..], last, more, rest);
      assert whole[1..] == front[1..] + [last + more] + rest && part[1..] == front[1..] + [last];
      var head, tail := front[0] + ['/'], Join(part[1..], '/');
      assert head + (tail + more + "/" + Join(rest, '/')) == (head + tail) + more + "/" + Join(rest, '/');
    }
  }

  lemma {:induction false} JoinNext(part: string, rest: seq<string>)
    requires rest != []
    ensures Join([part] + rest, '/') == part + "/" + Join(rest, '/')
  {
    assert ([part] + rest)[1..] == rest;
  }

  // The root's own names before a path below it spell that path.
  lemma {:induction false} RootedPath(parts: seq<string>)
    requires |parts| >= 2 && parts[0] == TARGET
    ensures "/" + Join(["opt", "miri-sysroot", "2026-09-07"] + parts, '/') == ROOT + Join(parts[1..], '/')
  {
    var a, b, c := ["2026-09-07"] + parts, ["miri-sysroot"] + (["2026-09-07"] + parts), parts[1..];
    assert ["opt", "miri-sysroot", "2026-09-07"] + parts == ["opt"] + b && parts == [TARGET] + c;
    JoinNext("opt", b);
    JoinNext("miri-sysroot", a);
    JoinNext("2026-09-07", parts);
    JoinNext(TARGET, c);
    RootSpelled();
    Regroup("opt", "miri-sysroot", "2026-09-07", TARGET, Join(c, '/'));
  }

  lemma {:induction false} Regroup(b: string, c: string, d: string, e: string, f: string)
    ensures "/" + (b + "/" + (c + "/" + (d + "/" + (e + "/" + f)))) == ("/" + b + "/" + c + "/" + d + "/" + e + "/") + f
  {
  }

  lemma {:induction false} RootSpelled()
    ensures "/" + "opt" + "/" + "miri-sysroot" + "/" + "2026-09-07" + "/" + TARGET + "/" == ROOT
  {
    assert "/opt/miri-sysroot/2026-09-07/" == "/" + "opt" + "/" + "miri-sysroot" + "/" + "2026-09-07" + "/";
  }

  lemma {:induction false} SwallowParts(x: Member, y: Member)
    requires |x.parts| >= 2
    ensures x.parts[1..] == Front(x.parts)[1..] + [Last(x.parts)]
    ensures Swallow(x, y).parts[1..] == Front(x.parts)[1..] + [Last(x.parts) + ("\n" + y.digest + "  ")]
                                        + (["opt", "miri-sysroot", "2026-09-07"] + y.parts)
  {
    var last := Last(x.parts);
    assert last + ("\n" + y.digest + "  ") == last + "\n" + y.digest + "  ";
  }

  lemma {:induction false} SwallowPath(x: Member, y: Member)
    requires |x.parts| >= 2 && |y.parts| >= 2 && y.parts[0] == TARGET
    ensures TreePath(Swallow(x, y)) == TreePath(x) + "\n" + y.digest + "  " + TreePath(y)
  {
    var front, last, more := Front(x.parts)[1..], Last(x.parts), "\n" + y.digest + "  ";
    var rest := ["opt", "miri-sysroot", "2026-09-07"] + y.parts;
    SwallowParts(x, y);
    JoinLonger(front, last, more, rest);
    RootedPath(y.parts);
    assert |Swallow(x, y).parts| > 1 && rest != [];
    hide Join, Swallow, Front, Last;
    Nested(ROOT, Join(x.parts[1..], '/'), "\n", y.digest, "  ", "/", Join(rest, '/'));
  }

  lemma {:induction false} Nested(root: string, path: string, a: string, b: string, c: string, d: string, e: string)
    ensures root + (path + (a + b + c) + d + e) == (root + path) + a + b + c + (d + e)
  {
    assert path + (a + b + c) == path + a + b + c;
  }

  lemma {:induction false} SwallowFits(x: Member, y: Member)
    requires Natural(x) && Natural(y) && |x.parts| >= 2 && PathFits(x) && PathFits(y)
    ensures Natural(Swallow(x, y)) && PathFits(Swallow(x, y)) && Swallow(x, y).kind == File
  {
    var part := Last(x.parts) + "\n" + y.digest + "  ";
    assert |part| > 2 && Last(x.parts) in x.parts && '/' !in y.digest && '/' !in "\n" && '/' !in "  ";
    hide HexDigest;
    assert forall p :: p in Front(x.parts) ==> p in x.parts;
    forall p | p in Swallow(x, y).parts ensures p != "" && p != "." && p != ".." && '/' !in p {
      assert p in Front(x.parts) || p == part || p in {"opt", "miri-sysroot", "2026-09-07"} || p in y.parts;
    }
  }

  // For each row a file that has it.
  lemma {:induction false} MembersFor(members: seq<Member>, rows: seq<Row>) returns (files: seq<Member>)
    requires forall row :: row in rows ==> row in Rows(members)
    ensures Rows(files) == rows && |files| == |rows| && forall m :: m in files ==> m in members && m.kind == File
  {
    files := [];
    if rows != [] {
      var front, last := Front(rows), Last(rows);
      assert rows == front + [last] && last in rows && forall row :: row in front ==> row in rows;
      hide *;
      var most := MembersFor(members, front);
      var m := MemberFor(members, last);
      RowsPush(most, m);
      files := most + [m];
      assert forall x :: x in files ==> x in most || x == m;
    }
  }

  lemma {:induction false} RowsPush(members: seq<Member>, m: Member)
    ensures Rows(members + [m]) == Rows(members) + RowOf(m)
  {
    assert Front(members + [m]) == members;
  }

  lemma {:induction false} MemberFor(members: seq<Member>, row: Row) returns (m: Member)
    requires row in Rows(members)
    ensures m in members && m.kind == File && RowOf(m) == [row]
  {
    if row in RowOf(Last(members)) {
      m := Last(members);
    } else {
      m := MemberFor(Front(members), row);
    }
  }

  lemma {:induction false} RowsFit(members: seq<Member>)
    ensures |Rows(members)| <= |members|
  {
    if members != [] { RowsFit(Front(members)); }
  }

  lemma {:induction false} AscendingSorted(rows: seq<Row>)
    requires Ascending(RowBefore, rows)
    ensures Sort(RowBefore, rows) == rows
  {
    RowsOrdered();
    SortPermutes(RowBefore, rows);
    SortAscending(RowBefore, rows);
    AscendingUnique(RowBefore, Sort(RowBefore, rows), rows);
  }

  // A row after the last but one of sorted rows, by path.
  lemma {:induction false} LaterRow(rows: seq<Row>, later: Row)
    requires Ascending(RowBefore, rows) && rows != [] && Before(Last(rows).path, later.path)
    ensures Ascending(RowBefore, Front(rows) + [later])
    ensures forall row :: row in rows ==> row.path != later.path
  {
    forall i | 0 <= i < |rows| ensures Before(rows[i].path, later.path) && !RowBefore(later, rows[i])
        && rows[i].path != later.path {
      var w, x := rows[i], Last(rows);
      assert !RowBefore(x, w) || i == |rows| - 1;
      BeforeTotal(w.path, x.path);
      if Before(w.path, x.path) { BeforeTransitive(w.path, x.path, later.path); }
      BeforeIrreflexive(later.path);
      if Before(later.path, w.path) { BeforeTransitive(later.path, w.path, later.path); }
    }
  }

  // The last two of sorted rows as the one row that takes in both lines.
  lemma {:induction false} TwoAsOne(front: seq<Row>, x: Row, y: Row, one: Row)
    requires Ascending(RowBefore, front + [x] + [y])
    requires one.path == x.path + "\n" + y.digest + "  " + y.path && one.digest == x.digest
    ensures Ascending(RowBefore, front + [one]) && Lines(front + [one]) == Lines(front + [x] + [y])
    ensures (one.path, one.digest) !in Files(front + [x] + [y])
  {
    var rest := "\n" + y.digest + "  " + y.path;
    assert one.path == x.path + rest && |one.path| > |y.path|;
    PrefixBefore(x.path, rest);
    var all, most := front + [x] + [y], front + [x];
    assert forall i :: 0 <= i < |most| ==> most[i] == all[i];
    assert Front(most) == front && Last(most) == x && most + [y] == front + ([x] + [y]);
    LaterRow(most, one);
    assert Line(one) == Line(x) + ['\n'] + Line(y) by { OneLine(x, y, one); }
    hide Line, RowBefore;
    TwoLines(x, y);
    TwoLines(one, one);
    LinesApart(front, [one]);
    LinesApart(front, [x, y]);
    assert [x] + [y] == [x, y];
  }

  lemma {:induction false} OneLine(x: Row, y: Row, one: Row)
    requires one.path == x.path + "\n" + y.digest + "  " + y.path && one.digest == x.digest
    ensures Line(one) == Line(x) + ['\n'] + Line(y)
  {
    assert "\n" == ['\n'];
  }

  lemma {:induction false} OneRow(x: Member, y: Member)
    requires x.kind == File && y.kind == File && |x.parts| >= 2 && |y.parts| >= 2 && y.parts[0] == TARGET
    ensures var a, b := Row(TreePath(x), x.digest, x.size), Row(TreePath(y), y.digest, y.size);
            && RowOf(x) == [a] && RowOf(y) == [b]
            && RowOf(Swallow(x, y)) == [Row(a.path + "\n" + b.digest + "  " + b.path, a.digest, a.size)]
  {
    SwallowPath(x, y);
    hide TreePath;
  }

  // Files below the target with natural names that an accepted archive may hold.
  ghost predicate Below(m: Member) {
    Natural(m) && PathFits(m) && m.kind == File && |m.parts| >= 2
  }

  // The files of an archive in the order of their rows, the last two apart.
  lemma {:induction false} LastTwo(members: seq<Member>) returns (front: seq<Member>, x: Member, y: Member)
    requires |Rows(members)| >= 2
    ensures Rows(front) + RowOf(x) + RowOf(y) == Sort(RowBefore, Rows(members)) && |front| + 2 <= |members|
    ensures x in members && y in members && x.kind == File && y.kind == File
    ensures forall m :: m in front ==> m in members && m.kind == File
  {
    var rows := Sort(RowBefore, Rows(members));
    SortKeeps(RowBefore, Rows(members));
    RowsFit(members);
    var files := MembersFor(members, rows);
    hide *;
    front, x, y := CutTwo(files);
    RowsPush(front, x);
    RowsPush(front + [x], y);
  }

  lemma {:induction false} CutTwo<T>(xs: seq<T>) returns (front: seq<T>, x: T, y: T)
    requires |xs| >= 2
    ensures xs == front + [x] + [y] && |front| + 2 == |xs| && x in xs && y in xs && forall m :: m in front ==> m in xs
  {
    var n := |xs| - 2;
    front, x, y := xs[..n], xs[n], xs[n + 1];
  }

  lemma {:induction false} OneSize(rows: seq<Row>)
    requires |rows| == 1
    ensures Bytes(rows) == rows[0].size
  {
    BytesPrefix([], rows[0]);
    assert [] + [rows[0]] == rows;
  }

  // The bytes do not grow when one file is taken into another's name.
  lemma {:induction false} SwallowBytes(rows: seq<Row>, front: seq<Member>, x: Member, y: Member)
    requires Below(x) && Below(y) && Rows(front) + RowOf(x) + RowOf(y) == Sort(RowBefore, rows)
    ensures Bytes(Rows(front + [Swallow(x, y)])) <= Bytes(rows)
  {
    var one := Swallow(x, y);
    OneRow(x, y);
    OneSize(RowOf(x));
    OneSize(RowOf(one));
    hide Below, Swallow, RowOf, Rows, Bytes, Sort;
    SortPermutes(RowBefore, rows);
    BytesPermute(Sort(RowBefore, rows), rows);
    BytesJoin(Rows(front), RowOf(x));
    BytesJoin(Rows(front) + RowOf(x), RowOf(y));
    RowsPush(front, one);
    BytesJoin(Rows(front), RowOf(one));
  }

  // Taking one file into another's name leaves an acceptable archive.
  lemma {:induction false} SwallowAcceptable(members: seq<Member>, front: seq<Member>, x: Member, y: Member)
    requires Acceptable(members) && |front| + 2 <= |members| && Below(x) && Below(y) && forall m :: m in front ==>
             Below(m)
    requires Rows(front) + RowOf(x) + RowOf(y) == Sort(RowBefore, Rows(members))
    ensures Acceptable(front + [Swallow(x, y)]) && NaturalTree(front + [Swallow(x, y)])
  {
    var one := Swallow(x, y);
    SwallowFits(x, y);
    SwallowBytes(Rows(members), front, x, y);
    hide RowOf, Rows, Bytes, Sort, Natural, PathFits, Swallow;
    forall m | m in front + [one] ensures m.kind != Special && PathFits(m) && Natural(m) {
      assert m in front || m == one;
    }
  }

  // And leaves the text, but not the files.
  lemma {:induction false} SwallowRows(front: seq<Row>, x: Member, y: Member, rows: seq<Row>)
    requires Below(x) && Below(y) && rows == front + RowOf(x) + RowOf(y) && Ascending(RowBefore, rows)
    ensures Sort(RowBefore, front + RowOf(Swallow(x, y))) == front + RowOf(Swallow(x, y))
    ensures Lines(front + RowOf(Swallow(x, y))) == Lines(rows) && Files(front + RowOf(Swallow(x, y))) != Files(rows)
  {
    OneRow(x, y);
    var one := RowOf(Swallow(x, y))[0];
    hide Below, RowOf, Swallow, Ascending, Lines, Line, Files, RowBefore, TreePath;
    TwoAsOne(front, RowOf(x)[0], RowOf(y)[0], one);
    AscendingSorted(front + [one]);
    FileOf(front + [one], |front|);
  }

  lemma {:induction false} FileOf(rows: seq<Row>, i: nat)
    requires i < |rows|
    ensures (rows[i].path, rows[i].digest) in Files(rows)
  {
    assert rows[i] in rows;
  }

  // No text stands for one tree only: every accepted archive with two files below the target shares its text with an
  // accepted archive of other files.
  lemma {:induction false} EveryTreeCollides(members: seq<Member>) returns (others: seq<Member>)
    requires Acceptable(members) && NaturalTree(members) && |Rows(members)| >= 2
    requires forall m :: m in members && m.kind == File ==> |m.parts| >= 2
    ensures Acceptable(others) && NaturalTree(others)
    ensures TreeOf(Rows(others)).lines == TreeOf(Rows(members)).lines && Files(Rows(others)) != Files(Rows(members))
  {
    var front, x, y := LastTwo(members);
    assert Below(x) && Below(y) && y.parts[0] == TARGET && forall m :: m in front ==> Below(m);
    var rows, one := Sort(RowBefore, Rows(members)), Swallow(x, y);
    others := front + [one];
    hide *;
    SwallowAcceptable(members, front, x, y);
    RowsPush(front, one);
    RowsOrdered();
    SortAscending(RowBefore, Rows(members));
    SwallowRows(Rows(front), x, y, rows);
    SortedRows(Rows(members));
    TreeText(Rows(members));
    TreeText(Rows(others));
  }

  function PlainTree(d: string, e: string): seq<Member> {
    [Member([TARGET, "p"], File, d, 1), Member([TARGET, "q"], File, e, 1)]
  }

  lemma {:induction false} PlainRows(d: string, e: string)
    requires HexDigest(d) && HexDigest(e)
    ensures Acceptable(PlainTree(d, e)) && NaturalTree(PlainTree(d, e)) && |Rows(PlainTree(d, e))| == 2
  {
    var m, n := PlainTree(d, e)[0], PlainTree(d, e)[1];
    PlainFits("p", d);
    PlainFits("q", e);
    assert PlainTree(d, e) == [m] + [n];
    hide PlainTree, HexDigest, PathFits, RowOf, Natural;
    OneSize(RowOf(m));
    OneSize(RowOf(n));
    BytesJoin(RowOf(m), RowOf(n));
    RowsPush([m], n);
    OneMember(m);
    hide Rows, Bytes;
    assert forall x :: x in [m] + [n] ==> x == m || x == n;
  }

  lemma {:induction false} PlainFits(name: string, digest: string)
    requires name in {"p", "q"} && HexDigest(digest)
    ensures var m := Member([TARGET, name], File, digest, 1);
            Natural(m) && PathFits(m) && |RowOf(m)| == 1 && RowOf(m)[0].size == 1
  {
    TargetNatural();
    hide HexDigest;
  }

  lemma {:induction false} OneMember(m: Member)
    ensures Rows([m]) == RowOf(m)
  {
    RowsPush([], m);
    assert Rows([]) == [] && [] + [m] == [m] && [] + RowOf(m) == RowOf(m);
  }

  lemma {:induction false} TargetNatural()
    ensures TARGET !in {"", ".", ".."} && '/' !in TARGET && '/' !in "p" && '/' !in "q"
  {
    assert |TARGET| > 2;
  }

  // Two plain files p and q, for one.
  lemma {:induction false} NewlineCollides(d: string, e: string) returns (others: seq<Member>)
    requires HexDigest(d) && HexDigest(e)
    ensures Acceptable(PlainTree(d, e)) && Acceptable(others)
    ensures TreeOf(Rows(others)).lines == TreeOf(Rows(PlainTree(d, e))).lines
    ensures Files(Rows(others)) != Files(Rows(PlainTree(d, e)))
  {
    PlainRows(d, e);
    hide HexDigest, Acceptable, NaturalTree, Rows, TreeOf, Files;
    others := EveryTreeCollides(PlainTree(d, e));
  }

  // ----- the text, row by row -----

  // A member below the target, without a step upwards.
  lemma {:induction false} AcceptableExact(members: seq<Member>)
    ensures Acceptable(members)
       <==> && |members| <= 200000 && Bytes(Rows(members)) <= 201326592
            && forall i :: 0 <= i < |members| ==>
                 && members[i].kind != Special && |members[i].parts| > 0
                 && members[i].parts[0] == "aarch64-unknown-linux-gnu"
                 && forall k :: 0 <= k < |members[i].parts| ==> members[i].parts[k] != ".."
  {
    forall i | 0 <= i < |members|
      ensures members[i] in members
      ensures PathFits(members[i])
         <==> && |members[i].parts| > 0 && members[i].parts[0] == "aarch64-unknown-linux-gnu"
              && forall k :: 0 <= k < |members[i].parts| ==> members[i].parts[k] != ".."
    {
    }
    hide PathFits, Rows, Bytes;
  }

  // Files of the target stand below the installed sysroot; the target itself is its ".".
  lemma {:induction false} TreePathExact(m: Member)
    requires |m.parts| > 0
    ensures TreePath(m)
         == "/opt/miri-sysroot/2026-09-07/" + "aarch64-unknown-linux-gnu" + "/"
              + if |m.parts| > 1 then Join(m.parts[1..], '/') else "."
  {
    hide Join;
  }

  // Each file gives one row, and nothing else gives any.
  lemma {:induction false} FileRow(members: seq<Member>, m: Member)
    requires |m.parts| > 0
    ensures Rows([]) == [] && (m.kind != File ==> Rows(members + [m]) == Rows(members))
    ensures m.kind == File ==> Rows(members + [m]) == Rows(members) + [Row(TreePath(m), m.digest, m.size)]
  {
    assert Front(members + [m]) == members && Last(members + [m]) == m;
    assert Rows(members + [m]) == Rows(members) + RowOf(m);
  }

  // By path, then digest, then size.
  ghost predicate RowsAscend(rows: seq<Row>) {
    forall i, j :: 0 <= i < j < |rows| ==>
      && !Before(rows[j].path, rows[i].path)
      && (rows[i].path == rows[j].path ==> !Before(rows[j].digest, rows[i].digest))
      && (rows[i].path == rows[j].path && rows[i].digest == rows[j].digest ==> rows[i].size <= rows[j].size)
  }

  lemma {:induction false} LinesPush(rows: seq<Row>, row: Row)
    ensures Lines([]) == "" && Lines(rows + [row]) == Lines(rows) + Line(row) + "\n"
  {
    if rows == [] {
      assert rows + [row] == [row] && [row][1..] == [];
    } else {
      LinesPush(rows[1..], row);
      var all := rows + [row];
      assert all[1..] == rows[1..] + [row] && all[0] == rows[0];
      hide Line;
      assert Lines(all) == Line(rows[0]) + ['\n'] + Lines(all[1..]);
      assert Lines(rows) == Line(rows[0]) + ['\n'] + Lines(rows[1..]);
    }
  }

  // A line is a digest, two spaces and a path.
  lemma {:induction false} LineExact(row: Row)
    ensures Line(row)[..|row.digest|] == row.digest && |Line(row)| == |row.digest| + 2 + |row.path|
    ensures Line(row)[|row.digest|] == ' ' == Line(row)[|row.digest| + 1] && Line(row)[|row.digest| + 2..] == row.path
  {
  }

  lemma {:induction false} BytesPush(rows: seq<Row>, row: Row)
    ensures Bytes([]) == 0 && Bytes(rows + [row]) == Bytes(rows) + row.size
  {
    BytesPrefix(rows, row);
  }

  // The tree is the text of the sorted rows, with their number and their bytes.
  lemma {:induction false} TreeFields(rows: seq<Row>) returns (sorted: seq<Row>)
    ensures multiset(sorted) == multiset(rows) && RowsAscend(sorted)
    ensures TreeOf(rows).lines == Lines(sorted) && TreeOf(rows).files == |sorted| && TreeOf(rows).bytes == Bytes(sorted)
  {
    sorted := Sort(RowBefore, rows);
    RowsOrdered();
    SortAscending(RowBefore, rows);
    SortPermutes(RowBefore, rows);
    SortKeeps(RowBefore, rows);
    BytesPermute(sorted, rows);
    hide Sort, Before, Lines, Bytes;
    forall i, j | 0 <= i < j < |sorted|
      ensures !Before(sorted[j].path, sorted[i].path)
      ensures sorted[i].path == sorted[j].path ==> !Before(sorted[j].digest, sorted[i].digest)
      ensures sorted[i].path == sorted[j].path && sorted[i].digest == sorted[j].digest ==>
                sorted[i].size <= sorted[j].size
    {
      assert !RowBefore(sorted[j], sorted[i]);
    }
  }
}
