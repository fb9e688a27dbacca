/** Members, manifest and archive entries of a core release: what is written and what is verified. */
module ReleaseArchive {
  import opened CoreNames
  import opened Digits
  import opened Ordering
  import opened Results
  import opened SafePath
  import opened Text

  type Bytes = seq<bv8>

  const MANIFEST := "MANIFEST.json"
  const INVENTORY := "inventory.json"
  const MAX_BINARY_BYTES := 536870912

  datatype Member = Member(path: string, data: Bytes, mode: nat)

  // A manifest row: a payload row with exactly its four keys, the fixed self-describing row, or anything else.
  datatype ManifestRow =
    | PayloadRow(path: string, bytes: nat, sha256: string, mode: string)
    | SelfRow
    | OtherRow(path: string)

  function RowPath(row: ManifestRow): string {
    if row.SelfRow? then MANIFEST else row.path
  }

  // hashed: the schema and hash_algorithm strings are the fixed ones.
  datatype Manifest = Manifest(hashed: bool, members: seq<ManifestRow>)

  // SHA-256 and JSON, by the properties the release relies on.
  datatype Codec = Codec(hash: Bytes -> string, encode: Manifest -> Bytes, decode: Bytes -> Option<Manifest>,
                         packageNames: Bytes -> Option<seq<string>>)

  ghost predicate RoundTrips(codec: Codec) {
    forall m :: codec.decode(codec.encode(m)) == Some(m)
  }

  ghost predicate InjectiveHash(codec: Codec) {
    forall a, b :: codec.hash(a) == codec.hash(b) ==> a == b
  }

  function ModeText(mode: nat): string {
    Chars(Padded(mode, Octal, 4))
  }

  function ReadMode(text: string): nat {
    Value(seq(|text|, i requires 0 <= i < |text| => if '0' <= text[i] then text[i] as int - '0' as int else 0), Octal)
  }

  lemma {:induction false} ReadModeText(mode: nat)
    ensures ReadMode(ModeText(mode)) == mode
  {
    var ds := Padded(mode, Octal, 4);
    var text := ModeText(mode);
    assert seq(|text|, i requires 0 <= i < |text| => if '0' <= text[i] then text[i] as int - '0' as int else 0) == ds;
    PaddedValue(mode, Octal, 4);
  }

  function RowOf(m: Member, codec: Codec): ManifestRow {
    PayloadRow(m.path, |m.data|, codec.hash(m.data), ModeText(m.mode))
  }

  predicate MemberBefore(a: Member, b: Member) {
    Before(a.path, b.path)
  }

  predicate RowBefore(a: ManifestRow, b: ManifestRow) {
    Before(RowPath(a), RowPath(b))
  }

  lemma {:induction false} PathOrders()
    ensures StrictOrder(MemberBefore) && StrictOrder(RowBefore)
  {
    BeforeStrictTotal();
  }

  function Paths(members: seq<Member>): (paths: seq<string>)
    ensures |paths| == |members|
  {
    seq(|members|, i requires 0 <= i < |members| => members[i].path)
  }

  ghost predicate DistinctPaths(members: seq<Member>) {
    forall i, j :: 0 <= i < j < |members| ==> members[i].path != members[j].path
  }

  function Rows(members: seq<Member>, codec: Codec): (rows: seq<ManifestRow>)
    ensures |rows| == |members|
  {
    seq(|members|, i requires 0 <= i < |members| => RowOf(members[i], codec))
  }

  // ----- build_members -----

  function ManifestOf(payload: seq<Member>, codec: Codec): Manifest {
    Manifest(true, Sort(RowBefore, Rows(payload, codec) + [SelfRow]))
  }

  function Built(payload: seq<Member>, codec: Codec): seq<Member> {
    Sort(MemberBefore, payload + [Member(MANIFEST, codec.encode(ManifestOf(payload, codec)), 420)])
  }

  datatype BuildError = UnsafePath(path: string) | LicenseMissing | DuplicateMember

  function Payload(binaryName: string, binary: Bytes, documents: seq<Member>, inventory: Bytes, spdx: Bytes,
                   notices: Bytes): seq<Member> {
    [Member(binaryName, binary, 493)] + documents +
    [Member(INVENTORY, inventory, 420), Member("sbom.spdx.json", spdx, 420),
     Member("THIRD_PARTY_NOTICES.txt", notices, 420)]
  }

  // documents: README.md, SECURITY.md, NOTICE and the sorted LICENSE* files, each as read, with mode 0644.
  method BuildMembers(binaryName: string, binary: Bytes, documents: seq<Member>, inventory: Bytes, spdx: Bytes,
                      notices: Bytes, codec: Codec)
    returns (r: Result<seq<Member>, BuildError>)
    ensures var payload := Payload(binaryName, binary, documents, inventory, spdx, notices);
            && (r.Ok? <==>
                  && DistinctPaths(payload) && (forall m :: m in payload ==> SafeRelative(m.path).Ok?)
                  && exists d :: d in documents && "LICENSE" <= d.path)
            && (r.Ok? ==> r.value == Built(payload, codec))
  {
    hide SafeRelative;
    var payload := Payload(binaryName, binary, documents, inventory, spdx, notices);
    assert payload[0] in payload;
    if SafeRelative(binaryName).Err? {
      return Err(UnsafePath(binaryName));
    }
    if !exists d :: d in documents && "LICENSE" <= d.path {
      return Err(LicenseMissing);
    }
    var paths := Paths(payload);
    SizeOfPaths(payload);
    if |paths| != |Elements(paths)| {
      return Err(DuplicateMember);
    }
    for i := 0 to |payload|
      invariant forall k :: 0 <= k < i ==> SafeRelative(payload[k].path).Ok?
    {
      assert payload[i] in payload;
      if SafeRelative(payload[i].path).Err? {
        return Err(UnsafePath(payload[i].path));
      }
    }
    r := Ok(Built(payload, codec));
  }

  lemma {:induction false} SizeOfPaths(members: seq<Member>)
    ensures |Elements(Paths(members))| == |Paths(members)| <==> DistinctPaths(members)
  {
    RepeatsShrink(Paths(members));
    assert forall i :: 0 <= i < |members| ==> Paths(members)[i] == members[i].path;
  }

  // ----- writing -----

  datatype Kind = Regular | Special

  datatype Entry = Entry(name: string, kind: Kind, uid: nat, gid: nat, mtime: int, uname: string, gname: string,
                         mode: nat, data: Bytes)

  function EntryOf(prefix: string, m: Member): Entry {
    Entry(prefix + "/" + m.path, Regular, 0, 0, 0, "", "", m.mode, m.data)
  }

  function Written(prefix: string, members: seq<Member>): (entries: seq<Entry>)
    ensures |entries| == |members|
  {
    var sorted := Sort(MemberBefore, members);
    SortKeeps(MemberBefore, members);
    seq(|sorted|, i requires 0 <= i < |sorted| => EntryOf(prefix, sorted[i]))
  }

  method WriteArchive(prefix: string, members: seq<Member>) returns (r: Result<seq<Entry>, PathError>)
    ensures r.Ok? <==> SafeRelative(prefix).Ok?
    ensures r.Ok? ==> r.value == Written(prefix, members)
  {
    hide SafeRelative, Sort;
    if SafeRelative(prefix).Err? {
      return Err(SafeRelative(prefix).error);
    }
    var sorted := Sort(MemberBefore, members);
    var entries: seq<Entry> := [];
    for i := 0 to |sorted|
      invariant entries == seq(i, k requires 0 <= k < i => EntryOf(prefix, sorted[k]))
    {
      entries := entries + [EntryOf(prefix, sorted[i])];
    }
    r := Ok(entries);
  }

  // The archive does not depend on the order in which members with distinct paths are handed over.
  lemma {:induction false} WriteOrderFree(prefix: string, xs: seq<Member>, ys: seq<Member>)
    requires DistinctPaths(xs) && multiset(xs) == multiset(ys)
    ensures Written(prefix, xs) == Written(prefix, ys)
  {
    DistinctComparable(xs);
    PathOrders();
    SortCanonical(MemberBefore, xs, ys);
  }

  lemma {:induction false} DistinctComparable(xs: seq<Member>)
    requires DistinctPaths(xs)
    ensures Comparable(MemberBefore, xs)
  {
    forall i, j | 0 <= i < j < |xs| ensures MemberBefore(xs[i], xs[j]) || MemberBefore(xs[j], xs[i]) {
      BeforeTotal(xs[i].path, xs[j].path);
    }
  }

  // ----- verifying -----

  // {member.path: member.row()}: the last member of a path stands.
  function ExpectedRows(members: seq<Member>, codec: Codec): map<string, ManifestRow> {
    if members == [] then map[]
    else
      var last := members[|members| - 1];
      ExpectedRows(members[..|members| - 1], codec)[last.path := RowOf(last, codec)]
  }

  function ReadRows(rows: seq<ManifestRow>): map<string, ManifestRow> {
    if rows == [] then map[]
    else
      var last := rows[|rows| - 1];
      ReadRows(rows[..|rows| - 1])[RowPath(last) := last]
  }

  function Logical(prefix: string, e: Entry): string {
    if prefix + "/" <= e.name then e.name[|prefix| + 1..] else ""
  }

  // stream.read(MAX_BINARY_BYTES + 1)
  function ReadData(data: Bytes): Bytes {
    if |data| <= MAX_BINARY_BYTES + 1 then data else data[..MAX_BINARY_BYTES + 1]
  }

  predicate Untouched(e: Entry) {
    e.uid == 0 && e.gid == 0 && e.mtime == 0 && e.uname == "" && e.gname == ""
  }

  predicate RowMatches(e: Entry, row: ManifestRow, codec: Codec) {
    && row.PayloadRow?
    && |ReadData(e.data)| == row.bytes && codec.hash(ReadData(e.data)) == row.sha256
    && e.mode % 4096 == ReadMode(row.mode)
  }

  predicate EntryAccepted(e: Entry, prefix: string, rows: map<string, ManifestRow>, codec: Codec) {
    && SafeRelative(e.name).Ok? && prefix + "/" <= e.name && SafeRelative(Logical(prefix, e)).Ok?
    && e.kind == Regular && Untouched(e)
    && Logical(prefix, e) in rows && RowMatches(e, rows[Logical(prefix, e)], codec)
  }

  function Logicals(prefix: string, entries: seq<Entry>): (names: seq<string>)
    ensures |names| == |entries|
  {
    seq(|entries|, i requires 0 <= i < |entries| => Logical(prefix, entries[i]))
  }

  const PROHIBITED_PATH_PARTS := {"catalog", "fixture-1.tar.zst", "fixture-trust.json", "model", "model.onnx",
                                  "onnxruntime"}

  predicate Prohibited(logical: string) {
    || (exists part :: part in Parts(logical) && Lower(part) in PROHIBITED_PATH_PARTS)
    || (|logical| >= 5 && Lower(logical)[|logical| - 5..] == ".onnx")
  }

  predicate CoreOnly(names: seq<string>) {
    forall n :: n in names ==> CoreName(n)
  }

  // next(member.data for member in expected if member.path == "inventory.json")
  function FirstData(members: seq<Member>, path: string): Option<Bytes> {
    if members == [] then None
    else if members[0].path == path then Some(members[0].data)
    else FirstData(members[1..], path)
  }

  function ManifestData(prefix: string, entries: seq<Entry>): Option<Bytes> {
    if entries == [] then None
    else
      var n := |entries| - 1;
      if Logical(prefix, entries[n]) == MANIFEST then Some(ReadData(entries[n].data))
      else ManifestData(prefix, entries[..n])
  }

  predicate ManifestMatches(data: Bytes, rows: map<string, ManifestRow>, codec: Codec) {
    codec.decode(data).Some? && ReadRows(codec.decode(data).value.members) == rows[MANIFEST := SelfRow]
  }

  predicate CoreMembers(members: seq<Member>, codec: Codec) {
    && FirstData(members, INVENTORY).Some?
    && codec.packageNames(FirstData(members, INVENTORY).value).Some?
    && CoreOnly(codec.packageNames(FirstData(members, INVENTORY).value).value)
  }

  // The whole verification, as a property of the entries.
  ghost predicate ArchiveAccepted(entries: seq<Entry>, prefix: string, expected: seq<Member>, codec: Codec) {
    var rows := ExpectedRows(expected, codec);
    && (forall e :: e in entries ==> EntryAccepted(e, prefix, rows, codec))
    && NoRepeats(Logicals(prefix, entries))
    && Elements(Logicals(prefix, entries)) == rows.Keys
    && ManifestData(prefix, entries).Some?
    && ManifestMatches(ManifestData(prefix, entries).value, rows, codec)
    && (forall path :: path in rows ==> !Prohibited(path))
    && CoreMembers(expected, codec)
  }

  datatype Refusal =
    | EntryRefused(index: nat) | Duplicate(logical: string) | Incomplete | ManifestAbsent | ManifestMismatch
    | NotCore | ProhibitedAssets

  method VerifyArchive(entries: seq<Entry>, prefix: string, expected: seq<Member>, codec: Codec)
    returns (refusal: Option<Refusal>)
    ensures refusal.None? <==> ArchiveAccepted(entries, prefix, expected, codec)
  {
    hide SafeRelative, RowMatches, Logical, ReadData, Prohibited, CoreMembers, ManifestMatches;
    var rows := ExpectedRows(expected, codec);
    hide ExpectedRows;
    var seen: set<string> := {};
    var manifestData: Option<Bytes> := None;
    for i := 0 to |entries|
      invariant forall k :: 0 <= k < i ==> EntryAccepted(entries[k], prefix, rows, codec)
      invariant NoRepeats(Logicals(prefix, entries[..i])) && seen == Elements(Logicals(prefix, entries[..i]))
      invariant manifestData == ManifestData(prefix, entries[..i])
    {
      var e := entries[i];
      assert e in entries;
      LogicalsPush(prefix, entries, i);
      if !EntryAccepted(e, prefix, rows, codec) {
        return Some(EntryRefused(i));
      }
      var logical := Logical(prefix, e);
      if logical in seen {
        return Some(Duplicate(logical));
      }
      if logical == MANIFEST {
        manifestData := Some(ReadData(e.data));
      }
      seen := seen + {logical};
    }
    assert entries[..|entries|] == entries;
    if seen != rows.Keys {
      return Some(Incomplete);
    }
    if manifestData.None? {
      return Some(ManifestAbsent);
    }
    if !ManifestMatches(manifestData.value, rows, codec) {
      return Some(ManifestMismatch);
    }
    if !CoreMembers(expected, codec) {
      return Some(NotCore);
    }
    if exists path :: path in seen && Prohibited(path) {
      return Some(ProhibitedAssets);
    }
    refusal := None;
  }

  lemma {:induction false} LogicalsPush(prefix: string, entries: seq<Entry>, i: nat)
    requires i < |entries|
    ensures Logicals(prefix, entries[..i + 1]) == Logicals(prefix, entries[..i]) + [Logical(prefix, entries[i])]
    ensures Elements(Logicals(prefix, entries[..i + 1])) == Elements(Logicals(prefix, entries[..i]))
            + {Logical(prefix, entries[i])}
    ensures ManifestData(prefix, entries[..i + 1])
         == if Logical(prefix, entries[i]) == MANIFEST then Some(ReadData(entries[i].data))
         else ManifestData(prefix, entries[..i])
    ensures Logicals(prefix, entries[..i]) == Logicals(prefix, entries)[..i]
    ensures Logical(prefix, entries[i]) in Elements(Logicals(prefix, entries[..i])) ==>
            !NoRepeats(Logicals(prefix, entries))
    ensures NoRepeats(Logicals(prefix, entries[..i]))
            && Logical(prefix, entries[i]) !in Elements(Logicals(prefix, entries[..i]))
            ==> NoRepeats(Logicals(prefix, entries[..i + 1]))
  {
    hide Logical, ReadData;
    assert entries[..i + 1][..i] == entries[..i];
    var names := Logicals(prefix, entries);
    if names[i] in names[..i] {
      var k :| 0 <= k < i && names[k] == names[i];
    }
  }

  // ----- accepted archives -----

  lemma {:induction false} RowsRange(members: seq<Member>, codec: Codec, path: string)
    ensures path in ExpectedRows(members, codec) <==> exists m :: m in members && m.path == path
    ensures path in ExpectedRows(members, codec) ==>
              exists m :: m in members && m.path == path && ExpectedRows(members, codec)[path] == RowOf(m, codec)
    decreases |members|
  {
    hide RowOf;
    if members != [] {
      var front, last := members[..|members| - 1], members[|members| - 1];
      assert members == front + [last];
      RowsRange(front, codec, path);
      if path == last.path { assert last in members; }
    }
  }

  lemma {:induction false} RowsLookup(members: seq<Member>, codec: Codec, m: Member)
    requires DistinctPaths(members) && m in members
    ensures m.path in ExpectedRows(members, codec) && ExpectedRows(members, codec)[m.path] == RowOf(m, codec)
  {
    RowsRange(members, codec, m.path);
    var other :| other in members && other.path == m.path
        && ExpectedRows(members, codec)[m.path] == RowOf(other, codec);
    var i :| 0 <= i < |members| && members[i] == m;
    var j :| 0 <= j < |members| && members[j] == other;
    assert i == j;
  }

  // An entry stands for a member: same path, same readable bytes, same permissions, nothing else set.
  ghost predicate StandsFor(e: Entry, prefix: string, m: Member) {
    && e.name == prefix + "/" + m.path && e.kind == Regular && Untouched(e)
    && ReadData(e.data) == m.data && e.mode % 4096 == m.mode
  }

  lemma {:induction false} EntryStands(e: Entry, prefix: string, members: seq<Member>, codec: Codec) returns (m: Member)
    requires InjectiveHash(codec) && EntryAccepted(e, prefix, ExpectedRows(members, codec), codec)
    ensures m in members && m.path == Logical(prefix, e) && StandsFor(e, prefix, m)
  {
    var path := Logical(prefix, e);
    RowsRange(members, codec, path);
    m :| m in members && m.path == path && ExpectedRows(members, codec)[path] == RowOf(m, codec);
    hide ExpectedRows, SafeRelative, ModeText, ReadMode, ReadData;
    ReadModeText(m.mode);
    Prefixed(e, prefix);
  }

  lemma {:induction false} Prefixed(e: Entry, prefix: string)
    requires prefix + "/" <= e.name
    ensures e.name == prefix + "/" + Logical(prefix, e)
  {
    assert e.name[..|prefix| + 1] == prefix + "/";
  }

  lemma {:induction false} AcceptedEntry(entries: seq<Entry>, prefix: string, expected: seq<Member>, codec: Codec,
                                         i: nat) returns (m: Member)
    requires InjectiveHash(codec) && ArchiveAccepted(entries, prefix, expected, codec) && i < |entries|
    ensures m in expected && m.path == Logical(prefix, entries[i]) && StandsFor(entries[i], prefix, m)
    ensures forall j :: i < j < |entries| ==> entries[i].name != entries[j].name
  {
    assert entries[i] in entries;
    hide EntryAccepted, StandsFor, ManifestMatches, CoreMembers, Prohibited, ManifestData, ExpectedRows;
    m := EntryStands(entries[i], prefix, expected, codec);
    forall j | i < j < |entries| ensures entries[i].name != entries[j].name {
      assert Logicals(prefix, entries)[i] != Logicals(prefix, entries)[j];
    }
  }

  lemma {:induction false} AcceptedMember(entries: seq<Entry>, prefix: string, expected: seq<Member>, codec: Codec,
                                          m: Member) returns (i: nat)
    requires InjectiveHash(codec) && ArchiveAccepted(entries, prefix, expected, codec) && m in expected
    ensures i < |entries| && entries[i].name == prefix + "/" + m.path
  {
    RowsRange(expected, codec, m.path);
    assert m.path in Elements(Logicals(prefix, entries));
    i :| 0 <= i < |entries| && Logicals(prefix, entries)[i] == m.path;
    var n := AcceptedEntry(entries, prefix, expected, codec, i);
    NameOf(entries[i], prefix, n);
  }

  ghost predicate IsExpected(e: Entry, prefix: string, expected: seq<Member>) {
    exists m :: m in expected && StandsFor(e, prefix, m)
  }

  ghost predicate IsPresent(entries: seq<Entry>, name: string) {
    exists i :: 0 <= i < |entries| && entries[i].name == name
  }

  // A repetition-free arrangement of exactly the expected members.
  ghost predicate Arranges(entries: seq<Entry>, prefix: string, expected: seq<Member>) {
    && (forall i :: 0 <= i < |entries| ==> IsExpected(entries[i], prefix, expected))
    && (forall m :: m in expected ==> IsPresent(entries, prefix + "/" + m.path))
    && (forall i, j :: 0 <= i < j < |entries| ==> entries[i].name != entries[j].name)
  }

  // Under an injective hash, acceptance pins the archive down; bytes past the read limit are not seen by the check.
  lemma {:induction false} AcceptedExactly(entries: seq<Entry>, prefix: string, expected: seq<Member>, codec: Codec)
    requires InjectiveHash(codec) && ArchiveAccepted(entries, prefix, expected, codec)
    ensures Arranges(entries, prefix, expected)
  {
    hide ArchiveAccepted, StandsFor;
    forall i | 0 <= i < |entries|
      ensures IsExpected(entries[i], prefix, expected)
      ensures forall j :: i < j < |entries| ==> entries[i].name != entries[j].name
    {
      var m := AcceptedEntry(entries, prefix, expected, codec, i);
    }
    forall m | m in expected ensures IsPresent(entries, prefix + "/" + m.path) {
      var i := AcceptedMember(entries, prefix, expected, codec, m);
    }
  }

  lemma {:induction false} StandingBytes(e: Entry, prefix: string, m: Member)
    requires StandsFor(e, prefix, m) && |m.data| != MAX_BINARY_BYTES + 1
    ensures e.data == m.data
  {
  }

  // Every entry under a member's name has that member's very bytes.
  ghost predicate Carries(entries: seq<Entry>, prefix: string, expected: seq<Member>) {
    forall i, m :: 0 <= i < |entries| && m in expected && entries[i].name == prefix + "/" + m.path ==>
        entries[i].data == m.data
  }

  lemma {:induction false} AcceptedCarries(entries: seq<Entry>, prefix: string, expected: seq<Member>, codec: Codec)
    requires InjectiveHash(codec) && DistinctPaths(expected) && ArchiveAccepted(entries, prefix, expected, codec)
    requires forall m :: m in expected ==> |m.data| != MAX_BINARY_BYTES + 1
    ensures Carries(entries, prefix, expected)
  {
    hide InjectiveHash, ArchiveAccepted, StandsFor, Logical;
    forall i, m | 0 <= i < |entries| && m in expected && entries[i].name == prefix + "/" + m.path
      ensures entries[i].data == m.data
    {
      var n := AcceptedEntry(entries, prefix, expected, codec, i);
      LogicalNamed(entries[i], prefix, m.path);
      StandingBytes(entries[i], prefix, n);
    }
  }

  // The same archive with other bytes in one entry, past those that are read.
  ghost predicate Reads(entries: seq<Entry>, others: seq<Entry>, i: nat) {
    && |others| == |entries| && i < |entries|
    && (forall j :: 0 <= j < |entries| && j != i ==> others[j] == entries[j])
    && others[i] == entries[i].(data := others[i].data) && ReadData(others[i].data) == ReadData(entries[i].data)
  }

  lemma {:induction false} SameManifest(prefix: string, entries: seq<Entry>, others: seq<Entry>)
    requires |others| == |entries|
    requires forall j :: 0 <= j < |entries| ==>
               others[j].name == entries[j].name && ReadData(others[j].data) == ReadData(entries[j].data)
    ensures ManifestData(prefix, others) == ManifestData(prefix, entries)
    decreases |entries|
  {
    hide ReadData;
    if entries != [] { SameManifest(prefix, entries[..|entries| - 1], others[..|entries| - 1]); }
  }

  lemma {:induction false} UnreadBytes(entries: seq<Entry>, others: seq<Entry>, i: nat, prefix: string,
                                       expected: seq<Member>, codec: Codec)
    requires ArchiveAccepted(entries, prefix, expected, codec) && Reads(entries, others, i)
    ensures ArchiveAccepted(others, prefix, expected, codec)
  {
    hide ManifestMatches, CoreMembers, Prohibited, ExpectedRows, SafeRelative, NoRepeats;
    SameManifest(prefix, entries, others);
    assert Logicals(prefix, others) == Logicals(prefix, entries);
    forall e | e in others ensures EntryAccepted(e, prefix, ExpectedRows(expected, codec), codec) {
      var j :| 0 <= j < |others| && others[j] == e;
      assert entries[j] in entries;
    }
  }

  lemma {:induction false} LongerReads(e: Entry, prefix: string, m: Member)
    requires StandsFor(e, prefix, m) && |m.data| == MAX_BINARY_BYTES + 1
    ensures ReadData(m.data + [0]) == ReadData(e.data)
  {
    assert (m.data + [0])[..MAX_BINARY_BYTES + 1] == m.data;
  }

  lemma {:induction false} LongerAccepted(entries: seq<Entry>, prefix: string, expected: seq<Member>, codec: Codec,
                                          m: Member)
    returns (others: seq<Entry>)
    requires InjectiveHash(codec) && DistinctPaths(expected) && ArchiveAccepted(entries, prefix, expected, codec)
    requires m in expected && |m.data| == MAX_BINARY_BYTES + 1
    ensures ArchiveAccepted(others, prefix, expected, codec) && !Carries(others, prefix, expected)
  {
    hide InjectiveHash, ArchiveAccepted, StandsFor, ReadData, Logical;
    var i := AcceptedMember(entries, prefix, expected, codec, m);
    var n := AcceptedEntry(entries, prefix, expected, codec, i);
    LogicalNamed(entries[i], prefix, m.path);
    LongerReads(entries[i], prefix, n);
    others := entries[i := entries[i].(data := m.data + [0])];
    UnreadBytes(entries, others, i, prefix, expected, codec);
    assert others[i].data != m.data && others[i].name == prefix + "/" + m.path;
  }

  // Two accepted archives can differ in the bytes of a member exactly if some member is one byte over the read limit:
  // what follows that byte is not read.
  lemma {:induction false} BytesComparedExact(entries: seq<Entry>, prefix: string, expected: seq<Member>, codec: Codec)
    requires InjectiveHash(codec) && DistinctPaths(expected) && ArchiveAccepted(entries, prefix, expected, codec)
    ensures (forall others :: ArchiveAccepted(others, prefix, expected, codec) ==> Carries(others, prefix, expected))
       <==> (forall m :: m in expected ==> |m.data| != MAX_BINARY_BYTES + 1)
  {
    hide *;
    if forall m :: m in expected ==> |m.data| != MAX_BINARY_BYTES + 1 {
      forall others | ArchiveAccepted(others, prefix, expected, codec) ensures Carries(others, prefix, expected) {
        AcceptedCarries(others, prefix, expected, codec);
      }
    } else {
      var m :| m in expected && |m.data| == MAX_BINARY_BYTES + 1;
      var others := LongerAccepted(entries, prefix, expected, codec, m);
    }
  }

  lemma {:induction false} NameOf(e: Entry, prefix: string, m: Member)
    requires StandsFor(e, prefix, m)
    ensures e.name == prefix + "/" + m.path
  {
  }

  lemma {:induction false} LogicalNamed(e: Entry, prefix: string, path: string)
    requires e.name == prefix + "/" + path
    ensures prefix + "/" <= e.name && Logical(prefix, e) == path
  {
  }

  lemma {:induction false} StandingAccepted(e: Entry, prefix: string, expected: seq<Member>, codec: Codec, m: Member)
    requires DistinctPaths(expected) && m in expected && StandsFor(e, prefix, m) && Plain(prefix) && Plain(m.path)
    ensures EntryAccepted(e, prefix, ExpectedRows(expected, codec), codec) && Logical(prefix, e) == m.path
  {
    LogicalNamed(e, prefix, m.path);
    SafeJoin(prefix, m.path);
    SafeRelativeExact(m.path);
    RowsLookup(expected, codec, m);
    ReadModeText(m.mode);
    hide SafeRelative, Plain, ModeText, ReadMode, ExpectedRows, DistinctPaths, Logical;
  }

  lemma {:induction false} ArrangedEntry(entries: seq<Entry>, prefix: string, expected: seq<Member>, codec: Codec,
                                         i: nat)
    requires DistinctPaths(expected) && Arranges(entries, prefix, expected) && i < |entries|
    requires forall m :: m in expected ==> Plain(prefix) && Plain(m.path)
    ensures EntryAccepted(entries[i], prefix, ExpectedRows(expected, codec), codec)
    ensures Logical(prefix, entries[i]) in ExpectedRows(expected, codec)
    ensures entries[i].name == prefix + "/" + Logical(prefix, entries[i])
  {
    assert IsExpected(entries[i], prefix, expected);
    hide EntryAccepted, ExpectedRows, Plain, DistinctPaths, Logical, Arranges;
    var m :| m in expected && StandsFor(entries[i], prefix, m);
    StandingAccepted(entries[i], prefix, expected, codec, m);
    RowsRange(expected, codec, m.path);
  }

  lemma {:induction false} ArrangedPath(entries: seq<Entry>, prefix: string, expected: seq<Member>, codec: Codec,
                                        path: string)
    requires Arranges(entries, prefix, expected) && path in ExpectedRows(expected, codec)
    ensures path in Elements(Logicals(prefix, entries))
  {
    hide ExpectedRows, IsExpected, Logical;
    RowsRange(expected, codec, path);
    var m :| m in expected && m.path == path;
    assert IsPresent(entries, prefix + "/" + m.path);
    hide Arranges;
    var i :| 0 <= i < |entries| && entries[i].name == prefix + "/" + path;
    LogicalNamed(entries[i], prefix, path);
    assert Logicals(prefix, entries)[i] == path;
  }

  lemma {:induction false} NamesApart(entries: seq<Entry>, prefix: string, expected: seq<Member>)
    requires Arranges(entries, prefix, expected)
    requires forall e :: e in entries ==> e.name == prefix + "/" + Logical(prefix, e)
    ensures NoRepeats(Logicals(prefix, entries))
  {
    hide IsExpected, IsPresent, Logical;
    forall i, j | 0 <= i < j < |entries| ensures Logicals(prefix, entries)[i] != Logicals(prefix, entries)[j] {
      assert entries[i] in entries && entries[j] in entries;
    }
  }

  lemma {:induction false} ArrangedAccepted(entries: seq<Entry>, prefix: string, expected: seq<Member>, codec: Codec)
    requires DistinctPaths(expected) && Arranges(entries, prefix, expected)
    requires forall m :: m in expected ==> Plain(prefix) && Plain(m.path)
    ensures forall e :: e in entries ==> EntryAccepted(e, prefix, ExpectedRows(expected, codec), codec)
    ensures NoRepeats(Logicals(prefix, entries))
    ensures Elements(Logicals(prefix, entries)) == ExpectedRows(expected, codec).Keys
  {
    hide *;
    var rows := ExpectedRows(expected, codec);
    forall e | e in entries
      ensures EntryAccepted(e, prefix, rows, codec) && Logical(prefix, e) in rows
              && e.name == prefix + "/" + Logical(prefix, e)
    {
      var i :| 0 <= i < |entries| && entries[i] == e;
      ArrangedEntry(entries, prefix, expected, codec, i);
    }
    NamesApart(entries, prefix, expected);
    forall path ensures path in Elements(Logicals(prefix, entries)) <==> path in rows {
      if path in rows { ArrangedPath(entries, prefix, expected, codec, path); }
      if path in Elements(Logicals(prefix, entries)) { var e := LogicalIn(entries, prefix, path); }
    }
  }

  lemma {:induction false} LogicalIn(entries: seq<Entry>, prefix: string, path: string) returns (e: Entry)
    requires path in Elements(Logicals(prefix, entries))
    ensures e in entries && Logical(prefix, e) == path
  {
    var i :| 0 <= i < |entries| && Logicals(prefix, entries)[i] == path;
    e := entries[i];
  }

  lemma {:induction false} AcceptedPlain(entries: seq<Entry>, prefix: string, expected: seq<Member>, codec: Codec,
                                         m: Member)
    requires InjectiveHash(codec) && ArchiveAccepted(entries, prefix, expected, codec) && m in expected
    ensures Plain(prefix) && Plain(m.path)
  {
    hide *;
    var i := AcceptedMember(entries, prefix, expected, codec, m);
    AcceptedSafe(entries, prefix, expected, codec, i);
    SafeJoin(prefix, m.path);
  }

  lemma {:induction false} AcceptedSafe(entries: seq<Entry>, prefix: string, expected: seq<Member>, codec: Codec,
                                        i: nat)
    requires ArchiveAccepted(entries, prefix, expected, codec) && i < |entries|
    ensures SafeRelative(entries[i].name).Ok?
  {
    hide SafeRelative, RowMatches, Logical, ExpectedRows, CoreMembers, Prohibited, ManifestMatches, ManifestData;
    assert entries[i] in entries;
  }

  // With distinct expected paths, an archive is accepted exactly when it arranges the expected members under plain
  // names, carries their manifest, and neither a path nor a package is prohibited.
  lemma {:induction false} AcceptedIff(entries: seq<Entry>, prefix: string, expected: seq<Member>, codec: Codec)
    requires InjectiveHash(codec) && DistinctPaths(expected)
    ensures ArchiveAccepted(entries, prefix, expected, codec) <==>
              && Arranges(entries, prefix, expected)
              && (forall m :: m in expected ==> Plain(prefix) && Plain(m.path) && !Prohibited(m.path))
              && ManifestData(prefix, entries).Some?
              && ManifestMatches(ManifestData(prefix, entries).value, ExpectedRows(expected, codec), codec)
              && CoreMembers(expected, codec)
  {
    hide *;
    PathsPermitted(expected, codec);
    if ArchiveAccepted(entries, prefix, expected, codec) {
      AcceptedExactly(entries, prefix, expected, codec);
      forall m | m in expected ensures Plain(prefix) && Plain(m.path) {
        AcceptedPlain(entries, prefix, expected, codec, m);
      }
      AcceptedListed(entries, prefix, expected, codec);
      ArchiveMeans(entries, prefix, expected, codec);
    } else if Arranges(entries, prefix, expected) && forall m :: m in expected ==> Plain(prefix) && Plain(m.path) {
      ArrangedAccepted(entries, prefix, expected, codec);
      ArchiveMeans(entries, prefix, expected, codec);
    }
  }

  lemma {:induction false} AcceptedListed(entries: seq<Entry>, prefix: string, expected: seq<Member>, codec: Codec)
    requires ArchiveAccepted(entries, prefix, expected, codec)
    ensures NoRepeats(Logicals(prefix, entries))
            && Elements(Logicals(prefix, entries)) == ExpectedRows(expected, codec).Keys
  {
    hide EntryAccepted, Logicals, ExpectedRows, CoreMembers, Prohibited, ManifestMatches, ManifestData;
  }

  // ----- written archives -----

  lemma {:induction false} LogicalOf(prefix: string, m: Member)
    ensures Logical(prefix, EntryOf(prefix, m)) == m.path
  {
    var name := prefix + "/" + m.path;
    assert name[|prefix| + 1..] == m.path && name[..|prefix| + 1] == prefix + "/";
  }

  lemma {:induction false} SortedOf(prefix: string, members: seq<Member>) returns (sorted: seq<Member>)
    ensures sorted == Sort(MemberBefore, members)
    ensures |sorted| == |members| && multiset(sorted) == multiset(members)
    ensures forall m :: m in sorted <==> m in members
    ensures |Written(prefix, members)| == |sorted|
    ensures forall i :: 0 <= i < |sorted| ==> Written(prefix, members)[i] == EntryOf(prefix, sorted[i])
    ensures Logicals(prefix, Written(prefix, members)) == Paths(sorted)
  {
    sorted := Sort(MemberBefore, members);
    SortKeeps(MemberBefore, members);
    SortPermutes(MemberBefore, members);
    forall i | 0 <= i < |sorted| ensures Logical(prefix, Written(prefix, members)[i]) == sorted[i].path {
      LogicalOf(prefix, sorted[i]);
    }
  }

  lemma {:induction false} DistinctPermutes(xs: seq<Member>, ys: seq<Member>)
    requires multiset(xs) == multiset(ys) && DistinctPaths(xs)
    ensures DistinctPaths(ys)
  {
    DistinctComparable(xs);
    PathOrders();
    ComparablePermutes(MemberBefore, xs, ys);
    forall i, j | 0 <= i < j < |ys| ensures ys[i].path != ys[j].path {
      BeforeIrreflexive(ys[i].path);
    }
  }

  lemma {:induction false} WrittenRow(prefix: string, m: Member, codec: Codec)
    ensures RowMatches(EntryOf(prefix, m), RowOf(m, codec), codec) <==>
            |m.data| <= MAX_BINARY_BYTES + 1 && m.mode < 4096
  {
    ReadModeText(m.mode);
    hide ModeText, ReadMode;
  }

  // The entry written for a member is accepted, if its name is plain and its size and mode fit.
  lemma {:induction false} WrittenEntry(prefix: string, members: seq<Member>, m: Member, codec: Codec)
    requires DistinctPaths(members) && m in members
    ensures EntryAccepted(EntryOf(prefix, m), prefix, ExpectedRows(members, codec), codec)
       <==> Plain(prefix) && Plain(m.path) && |m.data| <= MAX_BINARY_BYTES + 1 && m.mode < 4096
  {
    hide SafeRelative, Plain, ExpectedRows, RowMatches, RowOf, DistinctPaths, Logical;
    LogicalOf(prefix, m);
    SafeJoin(prefix, m.path);
    SafeRelativeExact(m.path);
    RowsLookup(members, codec, m);
    WrittenRow(prefix, m, codec);
  }

  lemma {:induction false} ManifestDataAt(prefix: string, entries: seq<Entry>, k: nat)
    requires NoRepeats(Logicals(prefix, entries)) && k < |entries| && Logical(prefix, entries[k]) == MANIFEST
    ensures ManifestData(prefix, entries) == Some(ReadData(entries[k].data))
    decreases |entries|
  {
    hide ReadData, Logical;
    var n := |entries| - 1;
    if k < n {
      assert Logicals(prefix, entries)[k] != Logicals(prefix, entries)[n];
      assert Logicals(prefix, entries[..n]) == Logicals(prefix, entries)[..n];
      ManifestDataAt(prefix, entries[..n], k);
    }
  }

  ghost predicate DistinctRows(rows: seq<ManifestRow>) {
    forall i, j :: 0 <= i < j < |rows| ==> RowPath(rows[i]) != RowPath(rows[j])
  }

  lemma {:induction false} ReadRowsAt(rows: seq<ManifestRow>)
    requires DistinctRows(rows)
    ensures forall row :: row in rows ==> RowPath(row) in ReadRows(rows) && ReadRows(rows)[RowPath(row)] == row
    ensures forall path :: path in ReadRows(rows) ==> exists row :: row in rows && RowPath(row) == path
    decreases |rows|
  {
    if rows != [] {
      var front, last := rows[..|rows| - 1], rows[|rows| - 1];
      assert rows == front + [last] && ReadRows(rows) == ReadRows(front)[RowPath(last) := last];
      ReadRowsAt(front);
      hide ReadRows, RowPath;
      forall row | row in front ensures RowPath(row) != RowPath(last) {
        var k :| 0 <= k < |front| && front[k] == row;
        assert rows[k] == row;
      }
    }
  }

  lemma {:induction false} SortedRowsDistinct(rows: seq<ManifestRow>)
    requires DistinctRows(rows)
    ensures DistinctRows(Sort(RowBefore, rows)) && forall row :: row in Sort(RowBefore, rows) <==> row in rows
  {
    PathOrders();
    forall i, j | 0 <= i < j < |rows| ensures RowBefore(rows[i], rows[j]) || RowBefore(rows[j], rows[i]) {
      BeforeTotal(RowPath(rows[i]), RowPath(rows[j]));
    }
    SortIncreasing(RowBefore, rows);
    SortKeeps(RowBefore, rows);
    var sorted := Sort(RowBefore, rows);
    forall i, j | 0 <= i < j < |sorted| ensures RowPath(sorted[i]) != RowPath(sorted[j]) {
      BeforeIrreflexive(RowPath(sorted[i]));
    }
  }

  ghost predicate Unclaimed(payload: seq<Member>) {
    forall m :: m in payload ==> m.path != MANIFEST
  }

  lemma {:induction false} BuiltMembers(payload: seq<Member>, codec: Codec)
    ensures forall m :: m in Built(payload, codec) <==>
              m in payload || m == Member(MANIFEST, codec.encode(ManifestOf(payload, codec)), 420)
    ensures DistinctPaths(Built(payload, codec)) <==> DistinctPaths(payload) && Unclaimed(payload)
  {
    hide ManifestOf, Sort;
    var own := Member(MANIFEST, codec.encode(ManifestOf(payload, codec)), 420);
    var all := payload + [own];
    SortPermutes(MemberBefore, all);
    SortKeeps(MemberBefore, all);
    if DistinctPaths(Built(payload, codec)) {
      DistinctPermutes(Built(payload, codec), all);
      assert all[|payload|] == own;
      forall i, j | 0 <= i < j < |payload| ensures payload[i].path != payload[j].path {
        assert all[i] == payload[i] && all[j] == payload[j];
      }
      forall m | m in payload ensures m.path != MANIFEST {
        var i :| 0 <= i < |payload| && payload[i] == m;
        assert all[i] == m;
      }
    }
    if DistinctPaths(payload) && Unclaimed(payload) {
      DistinctPermutes(all, Built(payload, codec));
    }
  }

  lemma {:induction false} ManifestRows(payload: seq<Member>, codec: Codec)
    requires DistinctPaths(payload) && Unclaimed(payload)
    ensures var rows := ManifestOf(payload, codec).members;
            && DistinctRows(rows)
            && (forall row :: row in rows <==> row == SelfRow || exists m :: m in payload && row == RowOf(m, codec))
  {
    hide RowOf, Sort;
    var rows := Rows(payload, codec) + [SelfRow];
    forall i, j | 0 <= i < j < |rows| ensures RowPath(rows[i]) != RowPath(rows[j]) {
      RowOfPath(payload[i], codec);
      assert payload[i] in payload;
      if j < |payload| { RowOfPath(payload[j], codec); }
    }
    SortedRowsDistinct(rows);
    forall m | m in payload ensures RowOf(m, codec) in rows {
      var i :| 0 <= i < |payload| && payload[i] == m;
      assert rows[i] == RowOf(m, codec);
    }
  }

  lemma {:induction false} RowOfPath(m: Member, codec: Codec)
    ensures RowPath(RowOf(m, codec)) == m.path
  {
  }

  lemma {:induction false} ManifestReadsAt(payload: seq<Member>, codec: Codec, path: string)
    requires DistinctPaths(payload) && Unclaimed(payload) && path != MANIFEST
    ensures var left, right := ReadRows(ManifestOf(payload, codec).members), ExpectedRows(Built(payload, codec), codec);
            (path in left <==> path in right) && (path in left ==> left[path] == right[path])
  {
    ManifestRows(payload, codec);
    BuiltMembers(payload, codec);
    var members, rows := Built(payload, codec), ManifestOf(payload, codec).members;
    hide Built, ManifestOf, RowOf, Unclaimed, DistinctPaths, DistinctRows, ExpectedRows;
    ReadRowsAt(rows);
    var left, right := ReadRows(rows), ExpectedRows(members, codec);
    RowsRange(members, codec, path);
    if path in right {
      var m :| m in members && m.path == path && right[path] == RowOf(m, codec);
      RowOfPath(m, codec);
      assert RowOf(m, codec) in rows;
    }
    if path in left {
      var row :| row in rows && RowPath(row) == path;
      var m :| m in payload && row == RowOf(m, codec);
      RowOfPath(m, codec);
      RowsLookup(members, codec, m);
    }
  }

  // The manifest inside a built release lists exactly the other members, and itself without size or hash.
  lemma {:induction false} ManifestReads(payload: seq<Member>, codec: Codec)
    requires DistinctPaths(payload) && Unclaimed(payload)
    ensures ReadRows(ManifestOf(payload, codec).members)
            == ExpectedRows(Built(payload, codec), codec)[MANIFEST := SelfRow]
  {
    hide *;
    var members, rows := Built(payload, codec), ManifestOf(payload, codec).members;
    var left, right := ReadRows(rows), ExpectedRows(members, codec)[MANIFEST := SelfRow];
    SelfRowRead(payload, codec);
    forall path | path != MANIFEST
      ensures (path in left <==> path in right) && (path in left ==> left[path] == right[path])
    {
      ManifestReadsAt(payload, codec, path);
    }
    assert left.Keys == right.Keys;
  }

  lemma {:induction false} SelfRowRead(payload: seq<Member>, codec: Codec)
    requires DistinctPaths(payload) && Unclaimed(payload)
    ensures MANIFEST in ReadRows(ManifestOf(payload, codec).members)
    ensures ReadRows(ManifestOf(payload, codec).members)[MANIFEST] == SelfRow
  {
    ManifestRows(payload, codec);
    hide ManifestOf, DistinctPaths, Unclaimed, DistinctRows, RowOf;
    ReadRowsAt(ManifestOf(payload, codec).members);
    assert SelfRow in ManifestOf(payload, codec).members && RowPath(SelfRow) == MANIFEST;
  }

  // What a member needs to come back from its archive entry.
  ghost predicate Fits(prefix: string, m: Member) {
    Plain(prefix) && Plain(m.path) && |m.data| <= MAX_BINARY_BYTES + 1 && m.mode < 4096
  }

  lemma {:induction false} WrittenEntries(prefix: string, members: seq<Member>, codec: Codec)
    requires DistinctPaths(members)
    ensures var entries := Written(prefix, members); var rows := ExpectedRows(members, codec);
            && NoRepeats(Logicals(prefix, entries)) && Elements(Logicals(prefix, entries)) == rows.Keys
            && ((forall e :: e in entries ==> EntryAccepted(e, prefix, rows, codec))
                  <==> forall m :: m in members ==> Fits(prefix, m))
  {
    hide *;
    var entries, rows := Written(prefix, members), ExpectedRows(members, codec);
    var sorted := SortedOf(prefix, members);
    DistinctPermutes(members, sorted);
    PathsListed(members, sorted, codec);
    assert NoRepeats(Paths(sorted)) by { PathsApart(sorted); }
    forall m | m in members ensures Fits(prefix, m) <==> EntryAccepted(EntryOf(prefix, m), prefix, rows, codec) {
      FitsMeans(prefix, m);
      WrittenEntry(prefix, members, m, codec);
    }
    EntriesOf(prefix, members, sorted, entries, rows, codec);
  }

  lemma {:induction false} FitsMeans(prefix: string, m: Member)
    ensures Fits(prefix, m) <==> Plain(prefix) && Plain(m.path) && |m.data| <= MAX_BINARY_BYTES + 1 && m.mode < 4096
  {
    hide Plain;
  }

  lemma {:induction false} PathsApart(members: seq<Member>)
    requires DistinctPaths(members)
    ensures NoRepeats(Paths(members))
  {
  }

  lemma {:induction false} PathsListed(members: seq<Member>, sorted: seq<Member>, codec: Codec)
    requires forall m :: m in sorted <==> m in members
    ensures Elements(Paths(sorted)) == ExpectedRows(members, codec).Keys
  {
    hide ExpectedRows, RowOf;
    forall path ensures path in Elements(Paths(sorted)) <==> path in ExpectedRows(members, codec) {
      RowsRange(members, codec, path);
      if path in Elements(Paths(sorted)) {
        var i :| 0 <= i < |sorted| && Paths(sorted)[i] == path;
        assert sorted[i] in members && sorted[i].path == path;
      }
      if path in ExpectedRows(members, codec) {
        var m :| m in members && m.path == path;
        var i :| 0 <= i < |sorted| && sorted[i] == m;
        assert Paths(sorted)[i] == path;
      }
    }
  }

  lemma {:induction false} EntriesOf(prefix: string, members: seq<Member>, sorted: seq<Member>, entries: seq<Entry>,
                                     rows: map<string, ManifestRow>, codec: Codec)
    requires |entries| == |sorted| && (forall m :: m in sorted <==> m in members)
    requires forall i :: 0 <= i < |sorted| ==> entries[i] == EntryOf(prefix, sorted[i])
    requires forall m :: m in members ==> (Fits(prefix, m) <==> EntryAccepted(EntryOf(prefix, m), prefix, rows, codec))
    ensures (forall e :: e in entries ==> EntryAccepted(e, prefix, rows, codec)) <==>
            forall m :: m in members ==> Fits(prefix, m)
  {
    hide EntryAccepted, EntryOf, Fits;
    if forall e :: e in entries ==> EntryAccepted(e, prefix, rows, codec) {
      forall m | m in members ensures Fits(prefix, m) {
        assert m in sorted;
        var i :| 0 <= i < |sorted| && sorted[i] == m;
        assert entries[i] in entries;
      }
    }
    if forall m :: m in members ==> Fits(prefix, m) {
      forall i | 0 <= i < |entries| ensures EntryAccepted(entries[i], prefix, rows, codec) {
        assert sorted[i] in members;
      }
    }
  }

  lemma {:induction false} WrittenManifest(prefix: string, payload: seq<Member>, codec: Codec)
    requires RoundTrips(codec) && DistinctPaths(payload) && Unclaimed(payload)
    requires |codec.encode(ManifestOf(payload, codec))| <= MAX_BINARY_BYTES + 1
    ensures var members := Built(payload, codec); var entries := Written(prefix, members);
            && ManifestData(prefix, entries).Some?
            && ManifestMatches(ManifestData(prefix, entries).value, ExpectedRows(members, codec), codec)
  {
    var members := Built(payload, codec);
    var own := Member(MANIFEST, codec.encode(ManifestOf(payload, codec)), 420);
    BuiltMembers(payload, codec);
    ManifestReads(payload, codec);
    WrittenEntries(prefix, members, codec);
    var sorted := SortedOf(prefix, members);
    hide Built, Written, ExpectedRows, ManifestOf, Logicals;
    assert own in sorted;
    var k :| 0 <= k < |sorted| && sorted[k] == own;
    LogicalOf(prefix, own);
    ManifestDataAt(prefix, Written(prefix, members), k);
  }

  // When a built release can be archived: no member takes the manifest's own name, every member fits, nothing is
  // prohibited and the inventory names core packages only.
  ghost predicate Archivable(prefix: string, payload: seq<Member>, codec: Codec) {
    && Unclaimed(payload)
    && (forall m :: m in Built(payload, codec) ==> Fits(prefix, m) && !Prohibited(m.path))
    && CoreMembers(Built(payload, codec), codec)
  }

  lemma {:induction false} WrittenUnclaimed(prefix: string, payload: seq<Member>, codec: Codec)
    requires RoundTrips(codec) && DistinctPaths(payload) && Unclaimed(payload)
    ensures ArchiveAccepted(Written(prefix, Built(payload, codec)), prefix, Built(payload, codec), codec)
       <==> Archivable(prefix, payload, codec)
  {
    hide *;
    var members := Built(payload, codec);
    var entries, rows := Written(prefix, members), ExpectedRows(members, codec);
    BuiltMembers(payload, codec);
    WrittenEntries(prefix, members, codec);
    if (forall m :: m in members ==> Fits(prefix, m)) {
      OwnFits(prefix, payload, codec);
      WrittenManifest(prefix, payload, codec);
    }
    PathsPermitted(members, codec);
    ArchiveMeans(entries, prefix, members, codec);
    ArchivableMeans(prefix, payload, codec);
  }

  // The manifest of a release whose members all fit is not too large to be read whole.
  lemma {:induction false} OwnFits(prefix: string, payload: seq<Member>, codec: Codec)
    requires forall m :: m in Built(payload, codec) ==> Fits(prefix, m)
    ensures |codec.encode(ManifestOf(payload, codec))| <= MAX_BINARY_BYTES + 1
  {
    BuiltMembers(payload, codec);
    hide Built, ManifestOf;
    var own := Member(MANIFEST, codec.encode(ManifestOf(payload, codec)), 420);
    assert Fits(prefix, own);
  }

  lemma {:induction false} ArchiveMeans(entries: seq<Entry>, prefix: string, members: seq<Member>, codec: Codec)
    requires NoRepeats(Logicals(prefix, entries))
             && Elements(Logicals(prefix, entries)) == ExpectedRows(members, codec).Keys
    ensures ArchiveAccepted(entries, prefix, members, codec) <==>
              && (forall e :: e in entries ==> EntryAccepted(e, prefix, ExpectedRows(members, codec), codec))
              && ManifestData(prefix, entries).Some?
              && ManifestMatches(ManifestData(prefix, entries).value, ExpectedRows(members, codec), codec)
              && (forall path :: path in ExpectedRows(members, codec) ==> !Prohibited(path))
              && CoreMembers(members, codec)
  {
    hide EntryAccepted, ExpectedRows, ManifestData, ManifestMatches, Prohibited, CoreMembers, Logicals, NoRepeats,
         Elements;
  }

  lemma {:induction false} ArchivableMeans(prefix: string, payload: seq<Member>, codec: Codec)
    requires Unclaimed(payload)
    ensures Archivable(prefix, payload, codec) <==>
              && (forall m :: m in Built(payload, codec) ==> Fits(prefix, m))
              && (forall m :: m in Built(payload, codec) ==> !Prohibited(m.path))
              && CoreMembers(Built(payload, codec), codec)
  {
    hide Built, Fits, Prohibited, CoreMembers, Unclaimed;
  }

  lemma {:induction false} PathsPermitted(members: seq<Member>, codec: Codec)
    ensures (forall path :: path in ExpectedRows(members, codec) ==> !Prohibited(path))
       <==> forall m :: m in members ==> !Prohibited(m.path)
  {
    hide Prohibited, ExpectedRows;
    forall path ensures path in ExpectedRows(members, codec) <==> exists m :: m in members && m.path == path {
      RowsRange(members, codec, path);
    }
  }

  // What write_deterministic_archive makes of build_members' output verifies exactly when the release is archivable.
  lemma {:induction false} WrittenAccepted(prefix: string, payload: seq<Member>, codec: Codec)
    requires RoundTrips(codec) && DistinctPaths(payload)
    ensures ArchiveAccepted(Written(prefix, Built(payload, codec)), prefix, Built(payload, codec), codec)
       <==> Archivable(prefix, payload, codec)
  {
    if Unclaimed(payload) {
      WrittenUnclaimed(prefix, payload, codec);
    } else {
      var members := Built(payload, codec);
      BuiltMembers(payload, codec);
      var sorted := SortedOf(prefix, members);
      RepeatedPath(members, sorted, prefix, Written(prefix, members));
      NotAccepted(Written(prefix, members), prefix, members, codec);
      hide ArchiveAccepted, Built, Written;
    }
  }

  lemma {:induction false} RepeatedPath(members: seq<Member>, sorted: seq<Member>, prefix: string, entries: seq<Entry>)
    requires multiset(sorted) == multiset(members) && !DistinctPaths(members)
    requires Logicals(prefix, entries) == Paths(sorted)
    ensures !NoRepeats(Logicals(prefix, entries))
  {
    if DistinctPaths(sorted) { DistinctPermutes(sorted, members); }
    var i, j :| 0 <= i < j < |sorted| && sorted[i].path == sorted[j].path;
    assert Paths(sorted)[i] == Paths(sorted)[j];
  }

  lemma {:induction false} NotAccepted(entries: seq<Entry>, prefix: string, expected: seq<Member>, codec: Codec)
    requires !NoRepeats(Logicals(prefix, entries))
    ensures !ArchiveAccepted(entries, prefix, expected, codec)
  {
  }

  // ----- members, rows and entries, field by field -----

  // A mode reads in octal, in four digits or without a leading zero.
  ghost predicate ModeSpelled(text: string, mode: nat) {
    && Spelled(text, 8) == mode && |text| >= 4 && (|text| > 4 ==> text[0] != '0')
    && forall i :: 0 <= i < |text| ==> '0' <= text[i] <= '7'
  }

  lemma {:induction false} ModeSpells(mode: nat)
    ensures ModeSpelled(ModeText(mode), mode)
  {
    PaddedSpells(mode, Octal, 4);
  }

  lemma {:induction false} ModesOfReleases()
    ensures ModeText(420) == "0644" && ModeText(493) == "0755"
  {
    assert Numeral(6, Octal) == [6] && Numeral(52, Octal) == [6, 4] && Numeral(420, Octal) == [6, 4, 4];
    assert Numeral(7, Octal) == [7] && Numeral(61, Octal) == [7, 5] && Numeral(493, Octal) == [7, 5, 5];
    assert Padded(420, Octal, 4) == [0, 6, 4, 4] && Padded(493, Octal, 4) == [0, 7, 5, 5];
    assert '0' + 6 as char == '6' && '0' + 4 as char == '4' && '0' + 7 as char == '7' && '0' + 5 as char == '5';
  }

  ghost predicate RowDescribes(row: ManifestRow, m: Member, codec: Codec) {
    && row.PayloadRow? && row.path == m.path && row.bytes == |m.data| && row.sha256 == codec.hash(m.data)
    && ModeSpelled(row.mode, m.mode)
  }

  lemma {:induction false} RowOfDescribes(m: Member, codec: Codec)
    ensures RowDescribes(RowOf(m, codec), m, codec)
  {
    ModeSpells(m.mode);
    hide ModeText, ModeSpelled;
  }

  ghost predicate HasPath(row: ManifestRow, path: string) {
    if row.SelfRow? then path == "MANIFEST.json" else path == row.path
  }

  // The payload: the binary, executable, then the documents, the inventory, the SBOM and the notices.
  lemma {:induction false} PayloadFields(binaryName: string, binary: Bytes, documents: seq<Member>, inventory: Bytes,
                                         spdx: Bytes, notices: Bytes)
    ensures var payload := Payload(binaryName, binary, documents, inventory, spdx, notices);
            && |payload| == |documents| + 4
            && (forall m :: m in payload <==>
                  || (m.path == binaryName && m.data == binary && m.mode == 493)
                  || m in documents
                  || (m.path == "inventory.json" && m.data == inventory && m.mode == 420)
                  || (m.path == "sbom.spdx.json" && m.data == spdx && m.mode == 420)
                  || (m.path == "THIRD_PARTY_NOTICES.txt" && m.data == notices && m.mode == 420))
  {
    var first := [Member(binaryName, binary, 493)];
    var last := [Member("inventory.json", inventory, 420), Member("sbom.spdx.json", spdx, 420),
                 Member("THIRD_PARTY_NOTICES.txt", notices, 420)];
    var payload := Payload(binaryName, binary, documents, inventory, spdx, notices);
    assert payload == first + documents + last;
    forall m ensures m in payload <==> m in first || m in documents || m in last { }
    assert forall m :: m in last <==> m == last[0] || m == last[1] || m == last[2];
  }

  ghost predicate MembersAscend(members: seq<Member>) {
    forall i, j :: 0 <= i < j < |members| ==> !Before(members[j].path, members[i].path)
  }

  ghost predicate RowsAscend(rows: seq<ManifestRow>) {
    forall i, j, p, q :: 0 <= i < j < |rows| && HasPath(rows[i], p) && HasPath(rows[j], q) ==> !Before(q, p)
  }

  lemma {:induction false} PathOrdersWeak()
    ensures StrictWeak(MemberBefore) && StrictWeak(RowBefore)
  {
    BeforeStrictTotal();
    TotalWeak(Before);
    hide Before, RowPath;
  }

  lemma {:induction false} MembersSorted(members: seq<Member>)
    ensures MembersAscend(Sort(MemberBefore, members)) && multiset(Sort(MemberBefore, members)) == multiset(members)
    ensures |Sort(MemberBefore, members)| == |members|
  {
    PathOrdersWeak();
    SortWeakly(MemberBefore, members);
    SortPermutes(MemberBefore, members);
    SortKeeps(MemberBefore, members);
    hide Sort, Before;
    var sorted := Sort(MemberBefore, members);
    forall i, j | 0 <= i < j < |sorted| ensures !Before(sorted[j].path, sorted[i].path) {
      assert !MemberBefore(sorted[j], sorted[i]);
    }
  }

  lemma {:induction false} RowsSorted(rows: seq<ManifestRow>)
    ensures RowsAscend(Sort(RowBefore, rows)) && multiset(Sort(RowBefore, rows)) == multiset(rows)
    ensures |Sort(RowBefore, rows)| == |rows|
  {
    PathOrdersWeak();
    SortWeakly(RowBefore, rows);
    SortPermutes(RowBefore, rows);
    SortKeeps(RowBefore, rows);
    hide Sort, Before;
    var sorted := Sort(RowBefore, rows);
    forall i, j, p, q | 0 <= i < j < |sorted| && HasPath(sorted[i], p) && HasPath(sorted[j], q) ensures !Before(q, p) {
      assert !RowBefore(sorted[j], sorted[i]);
    }
  }

  lemma {:induction false} ListedRows(payload: seq<Member>, codec: Codec, rows: seq<ManifestRow>)
    requires multiset(rows) == multiset(Rows(payload, codec) + [SelfRow])
    ensures SelfRow in rows
    ensures forall m :: m in payload ==> exists row :: row in rows && RowDescribes(row, m, codec)
    ensures forall row :: row in rows ==> row == SelfRow || exists m :: m in payload && RowDescribes(row, m, codec)
  {
    var all := Rows(payload, codec) + [SelfRow];
    SamePermutation(rows, all);
    forall i | 0 <= i < |payload| ensures all[i] == RowOf(payload[i], codec) && RowDescribes(all[i], payload[i], codec)
    {
      RowOfDescribes(payload[i], codec);
    }
    assert all[|payload|] == SelfRow;
    hide RowOf, RowDescribes;
    forall m | m in payload ensures exists row :: row in rows && RowDescribes(row, m, codec) {
      var i :| 0 <= i < |payload| && payload[i] == m;
      assert all[i] in all;
    }
    forall row | row in rows && row != SelfRow ensures exists m :: m in payload && RowDescribes(row, m, codec) {
      assert row in all;
      var i :| 0 <= i < |all| && all[i] == row;
      assert payload[i] in payload;
    }
  }

  // What is built: the payload and a manifest of the whole release, both sorted by path. The manifest has one row for
  // each payload member and the fixed row for itself.
  lemma {:induction false} BuiltFields(payload: seq<Member>, codec: Codec) returns (manifest: Manifest, own: Member)
    ensures own.path == "MANIFEST.json" && own.mode == 420 && own.data == codec.encode(manifest)
    ensures multiset(Built(payload, codec)) == multiset(payload) + multiset{own} && MembersAscend(Built(payload, codec))
    ensures manifest.hashed && |manifest.members| == |payload| + 1 && RowsAscend(manifest.members)
    ensures SelfRow in manifest.members
    ensures forall m :: m in payload ==> exists row :: row in manifest.members && RowDescribes(row, m, codec)
    ensures forall row :: row in manifest.members ==>
              row == SelfRow || exists m :: m in payload && RowDescribes(row, m, codec)
  {
    manifest := ManifestOf(payload, codec);
    own := Member("MANIFEST.json", codec.encode(manifest), 420);
    MembersSorted(payload + [own]);
    RowsSorted(Rows(payload, codec) + [SelfRow]);
    hide Sort, RowDescribes, MembersAscend, RowsAscend, Rows;
    ListedRows(payload, codec, manifest.members);
  }

  // An entry holds a member: regular, below the prefix, with the member's mode and bytes and nothing else set.
  ghost predicate Encloses(e: Entry, prefix: string, m: Member) {
    && e.name == prefix + "/" + m.path && e.kind == Regular && e.mode == m.mode && e.data == m.data
    && e.uid == 0 && e.gid == 0 && e.mtime == 0 && e.uname == "" && e.gname == ""
  }

  lemma {:induction false} WrittenFields(prefix: string, members: seq<Member>) returns (sorted: seq<Member>)
    ensures multiset(sorted) == multiset(members) && MembersAscend(sorted)
    ensures |Written(prefix, members)| == |sorted|
    ensures forall i :: 0 <= i < |sorted| ==> Encloses(Written(prefix, members)[i], prefix, sorted[i])
  {
    sorted := SortedOf(prefix, members);
    MembersSorted(members);
    hide Sort, Written;
  }

  // ---- the checks ----

  // The last expected member of a path.
  ghost predicate LastMember(members: seq<Member>, path: string, k: int) {
    0 <= k < |members| && members[k].path == path && forall j :: k < j < |members| ==> members[j].path != path
  }

  lemma {:induction false} ExpectedLast(members: seq<Member>, codec: Codec, path: string)
    ensures path in ExpectedRows(members, codec) <==> exists k :: LastMember(members, path, k)
    ensures forall k :: LastMember(members, path, k) ==> ExpectedRows(members, codec)[path] == RowOf(members[k], codec)
    decreases |members|
  {
    hide RowOf;
    if members != [] {
      var n := |members| - 1;
      ExpectedLast(members[..n], codec, path);
      if members[n].path == path {
        assert LastMember(members, path, n);
      } else {
        forall k | LastMember(members, path, k) ensures LastMember(members[..n], path, k) { }
        forall k | LastMember(members[..n], path, k) ensures LastMember(members, path, k) { }
      }
    }
  }

  // At most one byte over the largest binary is read and compared.
  ghost predicate ReadsAs(data: Bytes, expected: Bytes, codec: Codec) {
    && (|data| <= 536870913 ==> |data| == |expected| && codec.hash(data) == codec.hash(expected))
    && (|data| > 536870913 ==> |expected| == 536870913 && codec.hash(data[..536870913]) == codec.hash(expected))
  }

  ghost predicate SafeName(name: string) {
    name == "." || Plain(name)
  }

  ghost predicate EntryChecked(e: Entry, prefix: string, m: Member, codec: Codec) {
    && e.name == prefix + "/" + m.path && SafeName(e.name) && SafeName(m.path) && e.kind == Regular
    && e.uid == 0 && e.gid == 0 && e.mtime == 0 && e.uname == "" && e.gname == ""
    && ReadsAs(e.data, m.data, codec) && e.mode % 4096 == m.mode
  }

  lemma {:induction false} RowMatchesExact(e: Entry, m: Member, codec: Codec)
    ensures RowMatches(e, RowOf(m, codec), codec) <==> ReadsAs(e.data, m.data, codec) && e.mode % 4096 == m.mode
  {
    ReadModeText(m.mode);
    hide ModeText, ReadMode;
  }

  // An entry passes exactly if it passes as the last expected member of its path.
  lemma {:induction false} EntryExact(e: Entry, prefix: string, expected: seq<Member>, codec: Codec)
    ensures EntryAccepted(e, prefix, ExpectedRows(expected, codec), codec)
       <==> exists k :: 0 <= k < |expected| && LastMember(expected, expected[k].path, k)
              && EntryChecked(e, prefix, expected[k], codec)
  {
    hide RowMatches, RowOf, ReadsAs, SafeRelative, Plain, ExpectedRows;
    forall k | 0 <= k < |expected| && e.name == prefix + "/" + expected[k].path
               && LastMember(expected, expected[k].path, k)
      ensures EntryAccepted(e, prefix, ExpectedRows(expected, codec), codec)
         <==> EntryChecked(e, prefix, expected[k], codec)
    {
      EntryAs(e, prefix, expected, codec, k);
    }
    if EntryAccepted(e, prefix, ExpectedRows(expected, codec), codec) {
      var path := Logical(prefix, e);
      Prefixed(e, prefix);
      ExpectedLast(expected, codec, path);
      var k :| LastMember(expected, path, k);
      assert expected[k].path == path;
    }
  }

  lemma {:induction false} EntryAs(e: Entry, prefix: string, expected: seq<Member>, codec: Codec, k: nat)
    requires k < |expected| && LastMember(expected, expected[k].path, k) && e.name == prefix + "/" + expected[k].path
    ensures EntryAccepted(e, prefix, ExpectedRows(expected, codec), codec)
       <==> EntryChecked(e, prefix, expected[k], codec)
  {
    LogicalNamed(e, prefix, expected[k].path);
    ExpectedLast(expected, codec, expected[k].path);
    RowMatchesExact(e, expected[k], codec);
    SafeRelativeExact(e.name);
    SafeRelativeExact(expected[k].path);
    hide RowMatches, RowOf, ReadsAs, SafeRelative, Plain, ExpectedRows, Logical, LastMember, ModeText;
  }

  // A path with a prohibited component, or one ending in ".onnx", in any letter case.
  ghost predicate Excluded(path: string) {
    || (exists i, j :: Between(path, '/', i, j)
          && Lower(path[i..j]) in {"catalog", "fixture-1.tar.zst", "fixture-trust.json", "model", "model.onnx",
                                   "onnxruntime"})
    || exists stem :: Lower(path) == stem + ".onnx"
  }

  lemma {:induction false} LowerKeeps(s: string)
    ensures |Lower(s)| == |s| && (s == "." ==> Lower(s) == ".")
  {
  }

  lemma {:induction false} ComponentsExcluded(path: string)
    ensures (exists part :: part in Parts(path) && Lower(part) in PROHIBITED_PATH_PARTS)
       <==> exists i, j :: Between(path, '/', i, j) && Lower(path[i..j]) in PROHIBITED_PATH_PARTS
  {
    hide Parts, Lower;
    forall part | Lower(part) in PROHIBITED_PATH_PARTS
      ensures part in Parts(path) <==> exists i, j :: Between(path, '/', i, j) && path[i..j] == part
    {
      PartsExact(path, part);
      LowerKeeps(part);
      assert "." !in PROHIBITED_PATH_PARTS && "" !in PROHIBITED_PATH_PARTS;
    }
    hide Between;
    if i, j :| Between(path, '/', i, j) && Lower(path[i..j]) in PROHIBITED_PATH_PARTS {
      assert path[i..j] in Parts(path);
    }
  }

  lemma {:induction false} ProhibitedExact(path: string)
    ensures Prohibited(path) <==> Excluded(path)
  {
    ComponentsExcluded(path);
    hide Parts, Between;
    var low := Lower(path);
    hide Lower;
    LowerKeeps(path);
    if |path| >= 5 && low[|path| - 5..] == ".onnx" { assert low == low[..|path| - 5] + ".onnx"; }
  }

  // The inventory is the first member of its name, and names core packages only.
  ghost predicate NamesCore(members: seq<Member>, codec: Codec) {
    exists k :: FirstMember(members, "inventory.json", k) && CoreList(codec.packageNames(members[k].data))
  }

  ghost predicate FirstMember(members: seq<Member>, path: string, k: int) {
    0 <= k < |members| && members[k].path == path && forall j :: 0 <= j < k ==> members[j].path != path
  }

  ghost predicate CoreList(names: Option<seq<string>>) {
    names.Some? && forall i :: 0 <= i < |names.value| ==> CoreName(names.value[i])
  }

  lemma {:induction false} FirstFound(members: seq<Member>, path: string)
    ensures FirstData(members, path).Some? <==> exists k :: FirstMember(members, path, k)
    ensures forall k :: FirstMember(members, path, k) ==> FirstData(members, path) == Some(members[k].data)
  {
    if members != [] {
      var rest := members[1..];
      assert forall j :: 0 <= j < |rest| ==> rest[j] == members[j + 1];
      assert forall j :: 1 <= j < |members| ==> members[j] == rest[j - 1];
      FirstFound(rest, path);
      if members[0].path == path {
        assert FirstMember(members, path, 0);
      } else {
        forall k | FirstMember(members, path, k) ensures FirstMember(rest, path, k - 1) { }
        forall k | FirstMember(rest, path, k) ensures FirstMember(members, path, k + 1) { }
      }
    }
  }

  lemma {:induction false} CoreMembersExact(members: seq<Member>, codec: Codec)
    ensures CoreMembers(members, codec) <==> NamesCore(members, codec)
  {
    hide FirstData, CoreName;
    FirstFound(members, "inventory.json");
    if k :| FirstMember(members, "inventory.json", k) {
      var names := codec.packageNames(members[k].data);
      assert names.Some? ==> forall i :: 0 <= i < |names.value| ==> names.value[i] in names.value;
    }
  }

  ghost predicate LastRow(rows: seq<ManifestRow>, path: string, k: int) {
    0 <= k < |rows| && HasPath(rows[k], path) && forall j :: k < j < |rows| ==> !HasPath(rows[j], path)
  }

  lemma {:induction false} RowsLast(rows: seq<ManifestRow>, path: string)
    ensures path in ReadRows(rows) <==> exists k :: LastRow(rows, path, k)
    ensures forall k :: LastRow(rows, path, k) ==> ReadRows(rows)[path] == rows[k]
    decreases |rows|
  {
    if rows != [] {
      var n := |rows| - 1;
      RowsLast(rows[..n], path);
      if HasPath(rows[n], path) {
        assert LastRow(rows, path, n);
      } else {
        forall k | LastRow(rows, path, k) ensures LastRow(rows[..n], path, k) { }
        forall k | LastRow(rows[..n], path, k) ensures LastRow(rows, path, k) { }
      }
    }
  }

  // The manifest reads, and by path its rows are the expected members' rows, with the fixed row for itself.
  ghost predicate ManifestChecked(data: Bytes, expected: seq<Member>, codec: Codec) {
    codec.decode(data).Some? && forall path :: PathChecked(codec.decode(data).value.members, path, expected, codec)
  }

  ghost predicate PathChecked(rows: seq<ManifestRow>, path: string, expected: seq<Member>, codec: Codec) {
    if path == "MANIFEST.json" then exists k :: LastRow(rows, path, k) && rows[k] == SelfRow
    else
      && ((exists k :: LastRow(rows, path, k)) <==> exists j :: LastMember(expected, path, j))
      && forall k, j :: LastRow(rows, path, k) && LastMember(expected, path, j) ==> rows[k] == RowOf(expected[j], codec)
  }

  lemma {:induction false} PathExact(rows: seq<ManifestRow>, path: string, expected: seq<Member>, codec: Codec)
    ensures var left, right := ReadRows(rows), ExpectedRows(expected, codec)[MANIFEST := SelfRow];
            PathChecked(rows, path, expected, codec) <==>
              (path in left <==> path in right) && (path in left ==> left[path] == right[path])
  {
    RowsLast(rows, path);
    ExpectedLast(expected, codec, path);
    LastInside(rows, expected, path);
    hide ExpectedRows, ReadRows, LastRow, LastMember, RowOf;
  }

  lemma {:induction false} ManifestCheckedExact(data: Bytes, expected: seq<Member>, codec: Codec)
    ensures ManifestMatches(data, ExpectedRows(expected, codec), codec) <==> ManifestChecked(data, expected, codec)
  {
    if codec.decode(data).Some? {
      var rows := codec.decode(data).value.members;
      var left, right := ReadRows(rows), ExpectedRows(expected, codec)[MANIFEST := SelfRow];
      forall path
        ensures PathChecked(rows, path, expected, codec) <==>
                  (path in left <==> path in right) && (path in left ==> left[path] == right[path])
      {
        PathExact(rows, path, expected, codec);
      }
      hide PathChecked, ExpectedRows, ReadRows;
      SameMaps(left, right);
    }
  }

  lemma {:induction false} LastInside(rows: seq<ManifestRow>, expected: seq<Member>, path: string)
    ensures forall k :: LastRow(rows, path, k) ==> 0 <= k < |rows|
    ensures forall k :: LastMember(expected, path, k) ==> 0 <= k < |expected|
  {
  }

  lemma {:induction false} SameMaps(left: map<string, ManifestRow>, right: map<string, ManifestRow>)
    ensures left == right <==>
              forall path :: (path in left <==> path in right) && (path in left ==> left[path] == right[path])
  {
  }

  // ---- the whole verification ----

  ghost predicate ReadsManifest(entries: seq<Entry>, prefix: string, expected: seq<Member>, codec: Codec) {
    exists i :: 0 <= i < |entries| && entries[i].name == prefix + "/MANIFEST.json"
      && (|entries[i].data| <= 536870913 ==> ManifestChecked(entries[i].data, expected, codec))
      && (|entries[i].data| > 536870913 ==> ManifestChecked(entries[i].data[..536870913], expected, codec))
  }

  ghost predicate EntryFor(e: Entry, prefix: string, expected: seq<Member>, codec: Codec) {
    exists k :: 0 <= k < |expected| && LastMember(expected, expected[k].path, k)
      && EntryChecked(e, prefix, expected[k], codec)
  }

  ghost predicate NamesDiffer(entries: seq<Entry>) {
    forall i, j :: 0 <= i < j < |entries| ==> entries[i].name != entries[j].name
  }

  ghost predicate AllPresent(entries: seq<Entry>, prefix: string, expected: seq<Member>) {
    forall k :: 0 <= k < |expected| ==> IsPresent(entries, prefix + "/" + expected[k].path)
  }

  lemma {:induction false} NamesExact(entries: seq<Entry>, prefix: string)
    requires forall i :: 0 <= i < |entries| ==> prefix + "/" <= entries[i].name
    ensures NoRepeats(Logicals(prefix, entries)) <==> NamesDiffer(entries)
  {
    forall i | 0 <= i < |entries| ensures entries[i].name == prefix + "/" + Logical(prefix, entries[i]) {
      Prefixed(entries[i], prefix);
    }
    hide Logical;
    forall i, j | 0 <= i < j < |entries|
      ensures Logicals(prefix, entries)[i] == Logicals(prefix, entries)[j] <==> entries[i].name == entries[j].name
    {
      SameTail(prefix + "/", Logical(prefix, entries[i]), Logical(prefix, entries[j]));
    }
  }

  lemma {:induction false} SameTail(head: string, a: string, b: string)
    ensures head + a == head + b ==> a == b
  {
    assert (head + a)[|head|..] == a && (head + b)[|head|..] == b;
  }

  lemma {:induction false} ManifestAbsentExact(prefix: string, entries: seq<Entry>)
    ensures ManifestData(prefix, entries).Some? ==>
              exists k :: 0 <= k < |entries| && Logical(prefix, entries[k]) == "MANIFEST.json"
    decreases |entries|
  {
    hide Logical, ReadData;
    var n := |entries| - 1;
    if entries != [] && Logical(prefix, entries[n]) != MANIFEST {
      ManifestAbsentExact(prefix, entries[..n]);
    }
  }

  lemma {:induction false} ManifestReadExact(entries: seq<Entry>, prefix: string, expected: seq<Member>, codec: Codec)
    requires forall i :: 0 <= i < |entries| ==> prefix + "/" <= entries[i].name
    requires NoRepeats(Logicals(prefix, entries))
    ensures ReadsManifest(entries, prefix, expected, codec)
       <==> && ManifestData(prefix, entries).Some?
            && ManifestMatches(ManifestData(prefix, entries).value, ExpectedRows(expected, codec), codec)
  {
    hide ManifestMatches, ManifestChecked, ExpectedRows, Logicals;
    ManifestAbsentExact(prefix, entries);
    forall i | 0 <= i < |entries|
      ensures entries[i].name == prefix + "/MANIFEST.json" <==> Logical(prefix, entries[i]) == "MANIFEST.json"
    {
      Prefixed(entries[i], prefix);
      SameTail(prefix + "/", Logical(prefix, entries[i]), "MANIFEST.json");
      assert prefix + "/" + "MANIFEST.json" == prefix + "/MANIFEST.json";
    }
    hide Logical;
    forall k | 0 <= k < |entries| && Logical(prefix, entries[k]) == "MANIFEST.json"
      ensures ManifestData(prefix, entries) == Some(ReadData(entries[k].data))
    {
      ManifestDataAt(prefix, entries, k);
    }
    forall data { ManifestCheckedExact(data, expected, codec); }
    hide ManifestData;
  }

  lemma {:induction false} MemberPresent(entries: seq<Entry>, prefix: string, expected: seq<Member>, codec: Codec,
                                         k: nat)
    requires Elements(Logicals(prefix, entries)) == ExpectedRows(expected, codec).Keys && k < |expected|
    requires forall i :: 0 <= i < |entries| ==> prefix + "/" <= entries[i].name
    ensures IsPresent(entries, prefix + "/" + expected[k].path)
  {
    var path := expected[k].path;
    RowsRange(expected, codec, path);
    assert expected[k] in expected;
    hide ExpectedRows, Logical;
    assert path in Elements(Logicals(prefix, entries));
    var i :| 0 <= i < |entries| && Logicals(prefix, entries)[i] == path;
    Prefixed(entries[i], prefix);
  }

  lemma {:induction false} PathPresent(entries: seq<Entry>, prefix: string, expected: seq<Member>, codec: Codec,
                                       path: string)
    requires AllPresent(entries, prefix, expected) && path in ExpectedRows(expected, codec)
    ensures path in Elements(Logicals(prefix, entries))
  {
    RowsRange(expected, codec, path);
    hide ExpectedRows, Logical;
    var m :| m in expected && m.path == path;
    var k :| 0 <= k < |expected| && expected[k] == m;
    assert IsPresent(entries, prefix + "/" + path);
    var i :| 0 <= i < |entries| && entries[i].name == prefix + "/" + path;
    LogicalNamed(entries[i], prefix, path);
    assert Logicals(prefix, entries)[i] == path;
  }

  lemma {:induction false} PresentExact(entries: seq<Entry>, prefix: string, expected: seq<Member>, codec: Codec)
    requires forall i :: 0 <= i < |entries| ==>
               prefix + "/" <= entries[i].name && Logical(prefix, entries[i]) in ExpectedRows(expected, codec)
    ensures Elements(Logicals(prefix, entries)) == ExpectedRows(expected, codec).Keys
       <==> AllPresent(entries, prefix, expected)
  {
    var names, rows := Logicals(prefix, entries), ExpectedRows(expected, codec);
    forall name | name in Elements(names) ensures name in rows { var e := LogicalIn(entries, prefix, name); }
    hide ExpectedRows, Logical, Logicals, Elements, IsPresent;
    if Elements(names) == rows.Keys {
      forall k | 0 <= k < |expected| ensures IsPresent(entries, prefix + "/" + expected[k].path) {
        MemberPresent(entries, prefix, expected, codec, k);
      }
    }
    if AllPresent(entries, prefix, expected) {
      forall path | path in rows ensures path in Elements(names) {
        PathPresent(entries, prefix, expected, codec, path);
      }
    }
  }

  lemma {:induction false} EntriesExact(entries: seq<Entry>, prefix: string, expected: seq<Member>, codec: Codec)
    ensures (forall e :: e in entries ==> EntryAccepted(e, prefix, ExpectedRows(expected, codec), codec))
       <==> forall i :: 0 <= i < |entries| ==> EntryFor(entries[i], prefix, expected, codec)
  {
    forall e ensures EntryAccepted(e, prefix, ExpectedRows(expected, codec), codec)
                <==> EntryFor(e, prefix, expected, codec)
    {
      EntryExact(e, prefix, expected, codec);
    }
    hide EntryAccepted, EntryFor, ExpectedRows;
    assert forall i :: 0 <= i < |entries| ==> entries[i] in entries;
  }

  lemma {:induction false} AcceptanceMeans(entries: seq<Entry>, prefix: string, expected: seq<Member>, codec: Codec)
    ensures ArchiveAccepted(entries, prefix, expected, codec)
       <==> && (forall e :: e in entries ==> EntryAccepted(e, prefix, ExpectedRows(expected, codec), codec))
            && NoRepeats(Logicals(prefix, entries))
            && Elements(Logicals(prefix, entries)) == ExpectedRows(expected, codec).Keys
            && ManifestData(prefix, entries).Some?
            && ManifestMatches(ManifestData(prefix, entries).value, ExpectedRows(expected, codec), codec)
            && (forall path :: path in ExpectedRows(expected, codec) ==> !Prohibited(path))
            && CoreMembers(expected, codec)
  {
    hide EntryAccepted, CoreMembers, Prohibited, ExpectedRows, ManifestData, ManifestMatches, Logicals, Elements,
         NoRepeats;
  }

  lemma {:induction false} AcceptedNames(entries: seq<Entry>, prefix: string, rows: map<string, ManifestRow>,
                                         codec: Codec)
    requires forall e :: e in entries ==> EntryAccepted(e, prefix, rows, codec)
    ensures forall i :: 0 <= i < |entries| ==>
              prefix + "/" <= entries[i].name && Logical(prefix, entries[i]) in rows
  {
    hide SafeRelative, RowMatches, Logical;
    assert forall i :: 0 <= i < |entries| ==> entries[i] in entries;
  }

  // The verification accepts exactly the archives whose entries are the expected members, each once and unchanged as
  // far as it is read, whose manifest matches, and where nothing is excluded.
  lemma {:induction false} ArchiveAcceptedExact(entries: seq<Entry>, prefix: string, expected: seq<Member>,
                                                codec: Codec)
    ensures ArchiveAccepted(entries, prefix, expected, codec)
       <==> && (forall i :: 0 <= i < |entries| ==> EntryFor(entries[i], prefix, expected, codec))
            && NamesDiffer(entries) && AllPresent(entries, prefix, expected)
            && ReadsManifest(entries, prefix, expected, codec)
            && (forall k :: 0 <= k < |expected| ==> !Excluded(expected[k].path))
            && NamesCore(expected, codec)
  {
    hide *;
    AcceptanceMeans(entries, prefix, expected, codec);
    EntriesExact(entries, prefix, expected, codec);
    CoreMembersExact(expected, codec);
    ExcludedExact(expected, codec);
    if forall e :: e in entries ==> EntryAccepted(e, prefix, ExpectedRows(expected, codec), codec) {
      AcceptedNames(entries, prefix, ExpectedRows(expected, codec), codec);
      NamesExact(entries, prefix);
      PresentExact(entries, prefix, expected, codec);
      if NamesDiffer(entries) { ManifestReadExact(entries, prefix, expected, codec); }
    }
  }

  lemma {:induction false} ExcludedExact(expected: seq<Member>, codec: Codec)
    ensures (forall path :: path in ExpectedRows(expected, codec) ==> !Prohibited(path))
       <==> forall k :: 0 <= k < |expected| ==> !Excluded(expected[k].path)
  {
    PathsPermitted(expected, codec);
    forall k | 0 <= k < |expected| ensures expected[k] in expected && (Prohibited(expected[k].path)
                                             <==> Excluded(expected[k].path))
    {
      ProhibitedExact(expected[k].path);
    }
    hide Prohibited, Excluded, ExpectedRows;
  }
}
