/** A whole release: what the producer builds from its metadata,
    and the installing program's checks of what it loads. */
module InstalledRelease {
  import opened InstalledArchive
  import opened ReleaseArchive
  import ReleaseGraph
  import ReleaseSpdx
  import opened Results
  import opened SafePath
  import opened Text

  const SPDX := "sbom.spdx.json"
  const SCHEMA := "rust-engineering-mcp-core-inventory-v1"
  const PROFILE := "core-default"
  const FILE_MODE := 420
  const BINARY_MODE := 493

  datatype BinaryRecord = BinaryRecord(name: string, bytes: nat, sha256: string, mode: string)

  datatype Resolution = Resolution(edgeKinds: seq<string>, devIncluded: bool, command: seq<string>)

  // The inventory as a JSON object: the graph part with everything around it.
  datatype Sheet = Sheet(schema: string, target: string, profile: string, binary: Option<BinaryRecord>,
                         resolution: Resolution, graph: ReleaseGraph.Inventory)

  // canonical_json and strict_json on the two objects, and the Mach-O test.
  datatype Formats = Formats(write: Sheet -> Bytes, read: Bytes -> Option<Sheet>,
                             writeDocument: ReleaseSpdx.Document -> Bytes,
                             readDocument: Bytes -> Option<ReleaseSpdx.Document>, machO: Bytes -> bool)

  ghost predicate ReadsBack(formats: Formats) {
    && (forall sheet :: formats.read(formats.write(sheet)) == Some(sheet))
    && forall doc :: formats.readDocument(formats.writeDocument(doc)) == Some(doc)
  }

  // ----- the producer -----

  function Command(target: string): seq<string> {
    ["cargo", "+1.98.1", "metadata", "--locked", "--offline", "--filter-platform", target, "--format-version", "1"]
  }

  function SheetOf(graph: ReleaseGraph.Inventory, target: string, name: string, binary: Bytes, codec: Codec): Sheet {
    Sheet(SCHEMA, target, PROFILE, Some(BinaryRecord(name, |binary|, codec.hash(binary), "0755")),
          Resolution(["normal", "build"], false, Command(target)), graph)
  }

  // The digest of the whole inventory, as a function of its graph part.
  function SealOf(sheet: Sheet, codec: Codec, formats: Formats): ReleaseSpdx.Seal {
    ReleaseSpdx.Seal(sheet.target, graph => codec.hash(formats.write(sheet.(graph := graph))))
  }

  // What the producer is started with.
  datatype Job = Job(md: ReleaseGraph.Metadata, lock: ReleaseGraph.Lock, workspace: string, tag: string, target: string,
                     binaryName: string, binary: Bytes, documents: seq<Member>, notices: Bytes)

  ghost predicate Prepared(job: Job) {
    job.workspace != [] && ReleaseGraph.TextsHashed(job.md.packages) && forall d :: d in job.documents ==>
        d.mode == FILE_MODE
  }

  function JobSheet(job: Job, graph: ReleaseGraph.Inventory, codec: Codec): Sheet {
    SheetOf(graph, job.target, job.binaryName, job.binary, codec)
  }

  // The release and its document, as the producer makes them.
  ghost predicate Made(job: Job, r: ReleaseGraph.Release, doc: ReleaseSpdx.Document, codec: Codec, formats: Formats)
    requires job.workspace != []
  {
    && ReleaseGraph.IsRelease(job.md, job.lock, job.workspace, job.tag, r)
    && ReleaseSpdx.IsDocument(r.inventory, r.rootId, r.closure.edges, job.workspace,
                              SealOf(JobSheet(job, r.inventory, codec), codec, formats), doc)
  }

  function JobPayload(job: Job, graph: ReleaseGraph.Inventory, doc: ReleaseSpdx.Document, codec: Codec,
                      formats: Formats)
    : seq<Member>
  {
    Payload(job.binaryName, job.binary, job.documents, formats.write(JobSheet(job, graph, codec)),
            formats.writeDocument(doc), job.notices)
  }

  // What build_members asks of its members.
  ghost predicate Buildable(payload: seq<Member>, documents: seq<Member>) {
    && DistinctPaths(payload) && (forall m :: m in payload ==> SafeRelative(m.path).Ok?)
    && exists d :: d in documents && "LICENSE" <= d.path
  }

  datatype ReleaseFailure = GraphFailed(graph: ReleaseGraph.ReleaseError) | MembersFailed(members: BuildError)

  // The producer up to the members. Its document step never fails.
  method BuildRelease(job: Job, codec: Codec, formats: Formats)
    returns (members: Result<seq<Member>, ReleaseFailure>, made: Option<(ReleaseGraph.Release, ReleaseSpdx.Document)>)
    requires job.workspace != []
    ensures made.Some? <==> ReleaseGraph.CanRelease(job.md, job.lock, job.tag)
    ensures made.Some? ==> Made(job, made.value.0, made.value.1, codec, formats)
    ensures members.Ok? <==>
              made.Some? && Buildable(JobPayload(job, made.value.0.inventory, made.value.1, codec, formats),
                                      job.documents)
    ensures members.Ok? ==>
              members.value == Built(JobPayload(job, made.value.0.inventory, made.value.1, codec, formats), codec)
  {
    hide ReleaseGraph.IsRelease, ReleaseGraph.CanRelease, ReleaseSpdx.IsDocument, ReleaseSpdx.EndsKnown, Built,
         SafeRelative, ReleaseSpdx.SpdxIds, DistinctPaths, Payload;
    made := None;
    var release := ReleaseGraph.InventoryAndNotices(job.md, job.lock, job.workspace, job.tag);
    if release.Err? {
      return Err(GraphFailed(release.error)), None;
    }
    var r := release.value;
    var sheet := JobSheet(job, r.inventory, codec);
    ReleaseSpdx.DocumentNeverFails(job.md, job.lock, job.workspace, job.tag, r);
    var doc := ReleaseSpdx.SpdxDocument(r.inventory, r.rootId, r.closure.edges, job.workspace,
                                        SealOf(sheet, codec, formats));
    made := Some((r, doc));
    var built := BuildMembers(job.binaryName, job.binary, job.documents, formats.write(sheet),
                              formats.writeDocument(doc), job.notices, codec);
    members := if built.Err? then Err(MembersFailed(built.error)) else Ok(built.value);
  }

  // ----- the installing program -----

  predicate BinaryAccepted(record: BinaryRecord, contents: map<string, Bytes>, modes: map<string, nat>, codec: Codec,
                           formats: Formats) {
    && SafeRelative(record.name).Ok? && |Parts(record.name)| == 1 && record.name in contents
    && formats.machO(contents[record.name])
    && record == BinaryRecord(record.name, |contents[record.name]|, codec.hash(contents[record.name]), "0755")
    && forall name :: name in modes ==> modes[name] == if name == record.name then BINARY_MODE else FILE_MODE
  }

  predicate ResolutionAccepted(resolution: Resolution, target: string) {
    && resolution.edgeKinds == ["normal", "build"] && !resolution.devIncluded
    && "--locked" in resolution.command && "--offline" in resolution.command
    && "--filter-platform" in resolution.command && target in resolution.command
  }

  ghost predicate SheetAccepted(sheet: Sheet, contents: map<string, Bytes>, modes: map<string, nat>, tag: string,
                                target: string, codec: Codec, formats: Formats) {
    && sheet.schema == SCHEMA && sheet.target == target && sheet.profile == PROFILE
    && sheet.binary.Some? && BinaryAccepted(sheet.binary.value, contents, modes, codec, formats)
    && ResolutionAccepted(sheet.resolution, target) && ReleaseGraph.GraphAccepted(sheet.graph, tag)
  }

  // json_member: the member, if it is there, not too large, and an object of its kind.
  function JsonMember<T>(contents: map<string, Bytes>, name: string, read: Bytes -> Option<T>): Option<T> {
    if name !in contents || |contents[name]| > MAX_JSON_BYTES then None else read(contents[name])
  }

  datatype InventoryRefusal =
    | Unreadable | HeadMismatch | BinaryMismatch | ResolutionMismatch | GraphRefused(graph: ReleaseGraph.GraphRefusal)

  // validate_inventory
  method ValidateInventory(contents: map<string, Bytes>, modes: map<string, nat>, tag: string, target: string,
                           codec: Codec, formats: Formats)
    returns (r: Result<Sheet, InventoryRefusal>)
    ensures r.Ok? <==>
              var sheet := JsonMember(contents, INVENTORY, formats.read);
              sheet.Some? && SheetAccepted(sheet.value, contents, modes, tag, target, codec, formats)
    ensures r.Ok? ==> JsonMember(contents, INVENTORY, formats.read) == Some(r.value)
  {
    hide ReleaseGraph.GraphAccepted, BinaryAccepted, ResolutionAccepted;
    var read := JsonMember(contents, INVENTORY, formats.read);
    if read.None? {
      return Err(Unreadable);
    }
    var sheet := read.value;
    if sheet.schema != SCHEMA || sheet.target != target || sheet.profile != PROFILE {
      return Err(HeadMismatch);
    }
    if sheet.binary.None? || !BinaryAccepted(sheet.binary.value, contents, modes, codec, formats) {
      return Err(BinaryMismatch);
    }
    if !ResolutionAccepted(sheet.resolution, target) {
      return Err(ResolutionMismatch);
    }
    var refusal := ReleaseGraph.ValidateGraph(sheet.graph, tag);
    r := if refusal.Some? then Err(GraphRefused(refusal.value)) else Ok(sheet);
  }

  ghost predicate DocumentAccepted(sheet: Sheet, contents: map<string, Bytes>, codec: Codec, formats: Formats) {
    var doc := JsonMember(contents, SPDX, formats.readDocument);
    doc.Some? && ReleaseSpdx.SpdxAccepted(doc.value, sheet.graph, SealOf(sheet, codec, formats).digest)
  }

  // The manifest, the inventory and the document, of one loaded archive.
  ghost predicate ReleaseAccepted(contents: map<string, Bytes>, modes: map<string, nat>, tag: string, target: string,
                                  codec: Codec, formats: Formats)
    requires contents.Keys == modes.Keys
  {
    && ManifestAccepted(contents, modes, codec)
    && var sheet := JsonMember(contents, INVENTORY, formats.read);
       && sheet.Some? && SheetAccepted(sheet.value, contents, modes, tag, target, codec, formats)
       && DocumentAccepted(sheet.value, contents, codec, formats)
  }

  // The archive loads, and what it loads is accepted.
  ghost predicate Installs(entries: seq<Entry>, prefix: string, contents: map<string, Bytes>, modes: map<string, nat>,
                           tag: string, target: string, codec: Codec, formats: Formats) {
    && LoadAccepted(entries, prefix) && contents.Keys == modes.Keys
    && ReleaseAccepted(contents, modes, tag, target, codec, formats)
  }

  datatype ReleaseRefusal =
    | LoadFailed(load: LoadError) | ManifestRefused(manifest: ManifestRefusal)
    | InventoryRefused(inventory: InventoryRefusal)
    | DocumentUnreadable | DocumentRefused(document: ReleaseSpdx.SpdxRefusal)

  // validate_archive, from the tar entries to the SPDX check.
  method ValidateRelease(entries: seq<Entry>, prefix: string, tag: string, target: string, codec: Codec,
                         formats: Formats)
    returns (refusal: Option<ReleaseRefusal>, contents: map<string, Bytes>, modes: map<string, nat>)
    ensures LoadAccepted(entries, prefix) ==> Loaded(entries, prefix, contents, modes)
    ensures refusal.None? <==> Installs(entries, prefix, contents, modes, tag, target, codec, formats)
  {
    var failure;
    failure, contents, modes := LoadArchive(entries, prefix);
    if failure.Some? {
      return Some(LoadFailed(failure.value)), contents, modes;
    }
    assert contents.Keys == modes.Keys;
    hide LoadAccepted, Loaded, ManifestAccepted, SheetAccepted, ReleaseSpdx.SpdxAccepted;
    var manifest := ValidateManifest(contents, modes, codec);
    if manifest.Some? {
      return Some(ManifestRefused(manifest.value)), contents, modes;
    }
    var inventory := ValidateInventory(contents, modes, tag, target, codec, formats);
    if inventory.Err? {
      return Some(InventoryRefused(inventory.error)), contents, modes;
    }
    var sheet := inventory.value;
    var doc := JsonMember(contents, SPDX, formats.readDocument);
    if doc.None? {
      return Some(DocumentUnreadable), contents, modes;
    }
    var document := ReleaseSpdx.ValidateSpdx(doc.value, sheet.graph, SealOf(sheet, codec, formats).digest);
    refusal := if document.Some? then Some(DocumentRefused(document.value)) else None;
  }

  // ----- what the producer builds against those checks -----

  // When the binary and the two JSON members can be read.
  ghost predicate Readable(job: Job, graph: ReleaseGraph.Inventory, doc: ReleaseSpdx.Document, codec: Codec,
                           formats: Formats) {
    && formats.machO(job.binary)
    && |formats.write(JobSheet(job, graph, codec))| <= MAX_JSON_BYTES && |formats.writeDocument(doc)| <= MAX_JSON_BYTES
  }

  // When the members can be delivered and read.
  ghost predicate Shippable(job: Job, prefix: string, graph: ReleaseGraph.Inventory, doc: ReleaseSpdx.Document,
                            codec: Codec, formats: Formats) {
    Deliverable(prefix, JobPayload(job, graph, doc, codec, formats), codec) && Readable(job, graph, doc, codec, formats)
  }

  // When the metadata keeps what the checks rely on.
  ghost predicate Genuine(job: Job, r: ReleaseGraph.Release)
    requires job.workspace != []
  {
    && ReleaseGraph.RenamesApart(r.closure.seen, job.workspace)
    && ReleaseGraph.RootRowGenuine(ReleaseGraph.ById(job.md.packages), r.rootId, job.tag)
    && ReleaseGraph.AllCoreFolded(ReleaseGraph.ById(job.md.packages), r.closure.seen)
  }

  // The loaded maps hold the three members the checks read, and every mode is the fixed one.
  ghost predicate Delivered(job: Job, graph: ReleaseGraph.Inventory, doc: ReleaseSpdx.Document, codec: Codec,
                            formats: Formats, contents: map<string, Bytes>, modes: map<string, nat>) {
    && job.binaryName in contents && contents[job.binaryName] == job.binary
    && INVENTORY in contents && contents[INVENTORY] == formats.write(JobSheet(job, graph, codec))
    && SPDX in contents && contents[SPDX] == formats.writeDocument(doc)
    && forall name :: name in modes ==> modes[name] == if name == job.binaryName then BINARY_MODE else FILE_MODE
  }

  lemma {:induction false} PayloadMembers(job: Job, graph: ReleaseGraph.Inventory, doc: ReleaseSpdx.Document,
                                          codec: Codec, formats: Formats)
    requires forall d :: d in job.documents ==> d.mode == FILE_MODE
    ensures var payload := JobPayload(job, graph, doc, codec, formats);
            && Member(job.binaryName, job.binary, BINARY_MODE) in payload
            && Member(INVENTORY, formats.write(JobSheet(job, graph, codec)), FILE_MODE) in payload
            && Member(SPDX, formats.writeDocument(doc), FILE_MODE) in payload
            && forall m :: m in payload ==>
                 m.mode < 4096 && (m == Member(job.binaryName, job.binary, BINARY_MODE) || m.mode == FILE_MODE)
  {
    var payload, n := JobPayload(job, graph, doc, codec, formats), |job.documents|;
    assert payload[0] in payload && payload[n + 1] in payload && payload[n + 2] in payload;
  }

  lemma {:induction false} FixedMode(payload: seq<Member>, codec: Codec, binary: Member, m: Member)
    requires DistinctPaths(Built(payload, codec)) && binary in Built(payload, codec) && m in Built(payload, codec)
    requires binary.mode == BINARY_MODE && (m == binary || m.mode == FILE_MODE)
    ensures m.mode == if m.path == binary.path then BINARY_MODE else FILE_MODE
  {
    var members := Built(payload, codec);
    hide Built;
    var i :| 0 <= i < |members| && members[i] == m;
    var j :| 0 <= j < |members| && members[j] == binary;
  }

  lemma {:induction false} HeldDelivered(job: Job, graph: ReleaseGraph.Inventory, doc: ReleaseSpdx.Document,
                                         codec: Codec, formats: Formats, contents: map<string, Bytes>,
                                         modes: map<string, nat>)
    requires forall d :: d in job.documents ==> d.mode == FILE_MODE
    requires var payload := JobPayload(job, graph, doc, codec, formats);
             DistinctPaths(payload) && Unclaimed(payload) && Holds(Built(payload, codec), contents, modes)
    ensures Delivered(job, graph, doc, codec, formats, contents, modes)
  {
    var payload, binary := JobPayload(job, graph, doc, codec, formats), Member(job.binaryName, job.binary, BINARY_MODE);
    PayloadMembers(job, graph, doc, codec, formats);
    BuiltMembers(payload, codec);
    var members := Built(payload, codec);
    hide JobPayload, JobSheet, Built, ManifestOf, DistinctPaths, Unclaimed;
    forall name | name in modes ensures modes[name] == if name == job.binaryName then BINARY_MODE else FILE_MODE {
      assert name in Paths(members);
      var i :| 0 <= i < |members| && Paths(members)[i] == name;
      assert members[i] in members;
      FixedMode(payload, codec, binary, members[i]);
    }
  }

  lemma {:induction false} CommandComplete(target: string)
    ensures ResolutionAccepted(Resolution(["normal", "build"], false, Command(target)), target)
  {
    var c := Command(target);
    assert c[3] in c && c[4] in c && c[5] in c && c[6] in c;
  }

  // Of the inventory the producer writes, only the size, the binary and the graph can be refused.
  lemma {:induction false} InventoryExact(job: Job, prefix: string, graph: ReleaseGraph.Inventory,
                                          doc: ReleaseSpdx.Document, codec: Codec, formats: Formats,
                                          contents: map<string, Bytes>, modes: map<string, nat>)
    requires ReadsBack(formats) && Delivered(job, graph, doc, codec, formats, contents, modes)
    requires Installable(prefix, Member(job.binaryName, job.binary, BINARY_MODE))
    ensures var sheet := JsonMember(contents, INVENTORY, formats.read);
            && (sheet.Some? <==> |formats.write(JobSheet(job, graph, codec))| <= MAX_JSON_BYTES)
            && (sheet.Some? ==>
                  && sheet.value == JobSheet(job, graph, codec)
                  && (SheetAccepted(sheet.value, contents, modes, job.tag, job.target, codec, formats) <==>
                        formats.machO(job.binary) && ReleaseGraph.GraphAccepted(graph, job.tag)))
  {
    SafeRelativeExact(job.binaryName);
    OnePart(job.binaryName);
    CommandComplete(job.target);
    hide SafeRelative, Parts, Plain, ResolutionAccepted, ReleaseGraph.GraphAccepted, Command;
  }

  lemma {:induction false} DocumentExact(job: Job, graph: ReleaseGraph.Inventory, doc: ReleaseSpdx.Document,
                                         codec: Codec, formats: Formats, contents: map<string, Bytes>,
                                         modes: map<string, nat>)
    requires ReadsBack(formats) && Delivered(job, graph, doc, codec, formats, contents, modes)
    ensures DocumentAccepted(JobSheet(job, graph, codec), contents, codec, formats) <==>
              && |formats.writeDocument(doc)| <= MAX_JSON_BYTES
              && ReleaseSpdx.SpdxAccepted(doc, graph, SealOf(JobSheet(job, graph, codec), codec, formats).digest)
  {
    hide ReleaseSpdx.SpdxAccepted, SealOf;
  }

  // Both halves of the metadata's condition: the graph check asks for it all, the SPDX check for no more.
  lemma {:induction false} GenuineExact(job: Job, r: ReleaseGraph.Release, doc: ReleaseSpdx.Document, codec: Codec,
                                        formats: Formats)
    requires Prepared(job) && Made(job, r, doc, codec, formats)
    ensures && ReleaseGraph.GraphAccepted(r.inventory, job.tag)
            && ReleaseSpdx.SpdxAccepted(doc, r.inventory,
                                        SealOf(JobSheet(job, r.inventory, codec), codec, formats).digest)
       <==> Genuine(job, r)
  {
    var seal := SealOf(JobSheet(job, r.inventory, codec), codec, formats);
    ReleaseGraph.ProducerAccepted(job.md, job.lock, job.workspace, job.tag, r);
    ReleaseSpdx.SpdxProducerAccepted(job.md, job.lock, job.workspace, job.tag, r, seal, doc);
    hide ReleaseGraph.IsRelease, ReleaseSpdx.IsDocument, ReleaseSpdx.SpdxAccepted, ReleaseGraph.GraphAccepted,
         ReleaseGraph.RenamesApart, ReleaseGraph.AllCoreFolded, ReleaseGraph.ById, SealOf, JobSheet;
  }

  lemma {:induction false} DeliveredAccepted(job: Job, prefix: string, graph: ReleaseGraph.Inventory,
                                             doc: ReleaseSpdx.Document, codec: Codec, formats: Formats,
                                             contents: map<string, Bytes>, modes: map<string, nat>)
    requires ReadsBack(formats) && Delivered(job, graph, doc, codec, formats, contents, modes)
    requires Installable(prefix, Member(job.binaryName, job.binary, BINARY_MODE))
    requires contents.Keys == modes.Keys && ManifestAccepted(contents, modes, codec)
    ensures ReleaseAccepted(contents, modes, job.tag, job.target, codec, formats) <==>
              && Readable(job, graph, doc, codec, formats) && ReleaseGraph.GraphAccepted(graph, job.tag)
              && ReleaseSpdx.SpdxAccepted(doc, graph, SealOf(JobSheet(job, graph, codec), codec, formats).digest)
  {
    InventoryExact(job, prefix, graph, doc, codec, formats, contents, modes);
    DocumentExact(job, graph, doc, codec, formats, contents, modes);
    hide ReadsBack, Delivered, Installable, ManifestAccepted, JsonMember, SheetAccepted, DocumentAccepted, SealOf,
         JobSheet, ReleaseSpdx.SpdxAccepted, ReleaseGraph.GraphAccepted;
  }

  lemma {:induction false} DeliverableParts(prefix: string, payload: seq<Member>, codec: Codec, m: Member)
    requires Deliverable(prefix, payload, codec) && m in payload
    ensures DistinctPaths(payload) && Unclaimed(payload) && Installable(prefix, m)
  {
  }

  // An archive with an accepted manifest installs exactly as the rest of its release allows.
  lemma {:induction false} DeliverableInstalls(job: Job, prefix: string, r: ReleaseGraph.Release,
                                               doc: ReleaseSpdx.Document, codec: Codec, formats: Formats,
                                               contents: map<string, Bytes>, modes: map<string, nat>)
    requires Prepared(job) && Made(job, r, doc, codec, formats) && ReadsBack(formats)
    requires var payload := JobPayload(job, r.inventory, doc, codec, formats);
             Deliverable(prefix, payload, codec) && Holds(Built(payload, codec), contents, modes)
    requires contents.Keys == modes.Keys && ManifestAccepted(contents, modes, codec)
    ensures ReleaseAccepted(contents, modes, job.tag, job.target, codec, formats)
       <==> Readable(job, r.inventory, doc, codec, formats) && Genuine(job, r)
  {
    hide *;
    var payload := JobPayload(job, r.inventory, doc, codec, formats);
    PreparedParts(job);
    PayloadMembers(job, r.inventory, doc, codec, formats);
    GenuineExact(job, r, doc, codec, formats);
    DeliverableParts(prefix, payload, codec, Member(job.binaryName, job.binary, BINARY_MODE));
    HeldDelivered(job, r.inventory, doc, codec, formats, contents, modes);
    DeliveredAccepted(job, prefix, r.inventory, doc, codec, formats, contents, modes);
  }

  lemma {:induction false} PreparedParts(job: Job)
    requires Prepared(job)
    ensures job.workspace != [] && forall d :: d in job.documents ==> d.mode == FILE_MODE
  {
  }

  lemma {:induction false} ShippableParts(job: Job, prefix: string, graph: ReleaseGraph.Inventory,
                                          doc: ReleaseSpdx.Document, codec: Codec, formats: Formats)
    ensures Shippable(job, prefix, graph, doc, codec, formats) <==>
              Deliverable(prefix, JobPayload(job, graph, doc, codec, formats), codec)
                  && Readable(job, graph, doc, codec, formats)
  {
    hide Deliverable, JobPayload, JobSheet, Readable;
  }

  lemma {:induction false} InstallsParts(entries: seq<Entry>, prefix: string, contents: map<string, Bytes>,
                                         modes: map<string, nat>, tag: string, target: string, codec: Codec,
                                         formats: Formats)
    requires LoadAccepted(entries, prefix) ==> Loaded(entries, prefix, contents, modes)
    ensures LoadAccepted(entries, prefix) ==> contents.Keys == modes.Keys
    ensures Installs(entries, prefix, contents, modes, tag, target, codec, formats) <==>
              && LoadAccepted(entries, prefix) && ManifestAccepted(contents, modes, codec)
              && ReleaseAccepted(contents, modes, tag, target, codec, formats)
  {
    hide LoadAccepted, ManifestAccepted, SheetAccepted, DocumentAccepted, JsonMember;
  }

  // The whole way: what the producer builds and writes passes the installing program's load, manifest, inventory and
  // SPDX checks if and only if it is shippable and its metadata genuine, and the loaded maps then hold exactly what was
  // built.
  lemma {:induction false} BuiltReleaseAccepted(job: Job, prefix: string, r: ReleaseGraph.Release,
                                                doc: ReleaseSpdx.Document, codec: Codec, formats: Formats,
                                                contents: map<string, Bytes>, modes: map<string, nat>)
    requires Prepared(job) && Made(job, r, doc, codec, formats) && RoundTrips(codec) && ReadsBack(formats)
    requires var entries := Written(prefix, Built(JobPayload(job, r.inventory, doc, codec, formats), codec));
             LoadAccepted(entries, prefix) ==> Loaded(entries, prefix, contents, modes)
    ensures var members := Built(JobPayload(job, r.inventory, doc, codec, formats), codec);
            && (Installs(Written(prefix, members), prefix, contents, modes, job.tag, job.target, codec, formats) <==>
                  Shippable(job, prefix, r.inventory, doc, codec, formats) && Genuine(job, r))
            && (Shippable(job, prefix, r.inventory, doc, codec, formats) ==> Holds(members, contents, modes))
  {
    hide *;
    var payload := JobPayload(job, r.inventory, doc, codec, formats);
    var entries := Written(prefix, Built(payload, codec));
    PreparedParts(job);
    PayloadMembers(job, r.inventory, doc, codec, formats);
    InstallsParts(entries, prefix, contents, modes, job.tag, job.target, codec, formats);
    ShippableParts(job, prefix, r.inventory, doc, codec, formats);
    ReleaseInstalls(prefix, payload, codec, contents, modes);
    if Deliverable(prefix, payload, codec) {
      DeliverableInstalls(job, prefix, r, doc, codec, formats, contents, modes);
    }
  }

  // ----- the inventory's frame, field by field -----

  // What the producer puts around the graph.
  lemma {:induction false} SheetFields(job: Job, graph: ReleaseGraph.Inventory, codec: Codec)
    ensures var sheet := JobSheet(job, graph, codec);
            && sheet.schema == "rust-engineering-mcp-core-inventory-v1" && sheet.profile == "core-default"
            && sheet.target == job.target && sheet.graph == graph && sheet.binary.Some?
            && sheet.binary.value.name == job.binaryName && sheet.binary.value.bytes == |job.binary|
            && sheet.binary.value.sha256 == codec.hash(job.binary) && sheet.binary.value.mode == "0755"
            && sheet.resolution.edgeKinds == ["normal", "build"] && sheet.resolution.devIncluded == false
            && sheet.resolution.command == ["cargo", "+1.98.1", "metadata", "--locked", "--offline",
                                            "--filter-platform", job.target, "--format-version", "1"]
  {
  }

  // The document's seal: the job's target, and the digest of the sheet around any graph.
  lemma {:induction false} SealFields(job: Job, graph: ReleaseGraph.Inventory, other: ReleaseGraph.Inventory,
                                      codec: Codec, formats: Formats)
    ensures var seal := SealOf(JobSheet(job, graph, codec), codec, formats);
            seal.target == job.target && seal.digest(other) == codec.hash(formats.write(JobSheet(job, other, codec)))
  {
  }

  // The members a job delivers besides its documents and its manifest.
  lemma {:induction false} PayloadOfJob(job: Job, graph: ReleaseGraph.Inventory, doc: ReleaseSpdx.Document,
                                        codec: Codec, formats: Formats)
    ensures forall m :: m in JobPayload(job, graph, doc, codec, formats) <==>
              || m in job.documents
              || (m.path == job.binaryName && m.mode == 493 && m.data == job.binary)
              || (m.path == "inventory.json" && m.mode == 420 && m.data == formats.write(JobSheet(job, graph, codec)))
              || (m.path == "sbom.spdx.json" && m.mode == 420 && m.data == formats.writeDocument(doc))
              || (m.path == "THIRD_PARTY_NOTICES.txt" && m.mode == 420 && m.data == job.notices)
  {
    PayloadFields(job.binaryName, job.binary, job.documents, formats.write(JobSheet(job, graph, codec)),
                  formats.writeDocument(doc), job.notices);
    hide Payload, JobSheet;
  }

  ghost predicate BinaryChecked(record: BinaryRecord, contents: map<string, Bytes>, modes: map<string, nat>,
                                codec: Codec, formats: Formats) {
    && OneName(record.name) && record.name in contents && formats.machO(contents[record.name])
    && record.bytes == |contents[record.name]| && record.sha256 == codec.hash(contents[record.name])
    && record.mode == "0755"
    && forall name :: name in modes ==>
         && (name == record.name ==> modes[name] == 493)
         && (name != record.name ==> modes[name] == 420)
  }

  lemma {:induction false} BinaryExact(record: BinaryRecord, contents: map<string, Bytes>, modes: map<string, nat>,
                                       codec: Codec, formats: Formats)
    ensures BinaryAccepted(record, contents, modes, codec, formats)
       <==> BinaryChecked(record, contents, modes, codec, formats)
  {
    OneNameExact(record.name);
    hide SafeRelative, Parts, OneName;
  }

  // The kinds and the command, whose words stand anywhere in it.
  ghost predicate ResolutionChecked(resolution: Resolution, target: string) {
    && resolution.edgeKinds == ["normal", "build"] && resolution.devIncluded == false
    && forall word :: word in ["--locked", "--offline", "--filter-platform", target] ==> word in resolution.command
  }

  lemma {:induction false} ResolutionExact(resolution: Resolution, target: string)
    ensures ResolutionAccepted(resolution, target) <==> ResolutionChecked(resolution, target)
  {
    var words := ["--locked", "--offline", "--filter-platform", target];
    assert words[0] in words && words[1] in words && words[2] in words && words[3] in words;
    assert forall word :: word in words ==>
      word == words[0] || word == words[1] || word == words[2] || word == words[3];
  }

  // The frame passes exactly with these fields, for the binary that was loaded and the target that was asked for.
  lemma {:induction false} SheetAcceptedExact(sheet: Sheet, contents: map<string, Bytes>, modes: map<string, nat>,
                                              tag: string, target: string, codec: Codec, formats: Formats)
    ensures SheetAccepted(sheet, contents, modes, tag, target, codec, formats)
       <==> && sheet.schema == "rust-engineering-mcp-core-inventory-v1" && sheet.profile == "core-default"
            && sheet.target == target
            && sheet.binary.Some? && BinaryChecked(sheet.binary.value, contents, modes, codec, formats)
            && ResolutionChecked(sheet.resolution, target) && ReleaseGraph.GraphAccepted(sheet.graph, tag)
  {
    if sheet.binary.Some? { BinaryExact(sheet.binary.value, contents, modes, codec, formats); }
    ResolutionExact(sheet.resolution, target);
    hide BinaryAccepted, BinaryChecked, ResolutionAccepted, ResolutionChecked, ReleaseGraph.GraphAccepted;
  }

  // A JSON member is read if it is there and at most 16 MiB long.
  lemma {:induction false} JsonMemberExact<T>(contents: map<string, Bytes>, name: string, read: Bytes -> Option<T>)
    ensures name in contents && |contents[name]| <= 16777216 ==>
              JsonMember(contents, name, read) == read(contents[name])
    ensures name !in contents || |contents[name]| > 16777216 ==> JsonMember(contents, name, read) == None
  {
  }
}
