/** The hand-written ustar printer of the client tests, against a reader for the format
    ("ustar Interchange Format" of the pax utility, IEEE Std 1003.1). */
module Ustar {
  import opened Digits
  import opened Results

  type Byte = b: int | 0 <= b < 256

  const BLOCK := 512
  const NAME_LIMIT := 100

  datatype Entry = Entry(name: string, data: seq<Byte>)

  // The printer writes ASCII names of at most a hundred bytes.
  type Member = m: Entry | Ascii(m.name) && |m.name| <= NAME_LIMIT witness Entry("", [])

  predicate Ascii(s: string) {
    forall i :: 0 <= i < |s| ==> s[i] as int < 128
  }

  // ASCII text without NUL: what a name field can hold.
  predicate PlainName(s: string) {
    Ascii(s) && |s| <= NAME_LIMIT && forall i :: 0 <= i < |s| ==> s[i] as int != 0
  }

  function Encode(s: string): (bytes: seq<Byte>)
    requires Ascii(s)
    ensures |bytes| == |s|
  {
    seq(|s|, i requires 0 <= i < |s| => s[i] as int)
  }

  function Repeat(b: Byte, n: nat): (bytes: seq<Byte>)
    ensures |bytes| == n
  {
    seq(n, _ => b)
  }

  function OctalText(value: nat, width: nat): (bytes: seq<Byte>)
    ensures |bytes| == |Padded(value, Octal, width)|
    ensures forall i :: 0 <= i < |bytes| ==> 48 <= bytes[i] < 56
  {
    var ds := Padded(value, Octal, width);
    seq(|ds|, i requires 0 <= i < |ds| => 48 + ds[i])
  }

  // f"{value:0{width-1}o}\0"
  function OctalField(value: nat, width: nat): seq<Byte>
    requires width >= 1
  {
    OctalText(value, width - 1) + [0]
  }

  function Sum(bytes: seq<Byte>): nat {
    if bytes == [] then 0 else bytes[0] + Sum(bytes[1..])
  }

  // bytearray slice assignment: the replacement need not have the length of the slice.
  function Overwrite(h: seq<Byte>, start: nat, end: nat, v: seq<Byte>): seq<Byte>
    requires start <= end <= |h|
  {
    h[..start] + v + h[end..]
  }

  const BLANKS: seq<Byte> := Repeat(32, 8)
  const MAGIC: seq<Byte> := [117, 115, 116, 97, 114, 0]
  const VERSION: seq<Byte> := [48, 48]

  type Slot = (nat, nat, nat)

  // The (start, end, value) rows of the octal loop.
  function Slots(size: nat): seq<Slot> {
    [(100, 108, 384), (108, 116, 0), (116, 124, 0), (124, 136, size), (136, 148, 0), (329, 337, 0), (337, 345, 0)]
  }

  ghost predicate SlotsFit(slots: seq<Slot>) {
    forall i :: 0 <= i < |slots| ==> slots[i].0 < slots[i].1 <= BLOCK
  }

  function WriteSlots(h: seq<Byte>, slots: seq<Slot>): (r: seq<Byte>)
    requires SlotsFit(slots) && |h| >= BLOCK
    ensures |r| >= |h|
    decreases |slots|
  {
    if slots == [] then h
    else
      var last := slots[|slots| - 1];
      var before := WriteSlots(h, slots[..|slots| - 1]);
      Overwrite(before, last.0, last.1, OctalField(last.2, last.1 - last.0))
  }

  function Unsummed(name: string, size: nat): (h: seq<Byte>)
    requires Ascii(name) && |name| <= NAME_LIMIT
    ensures |h| >= BLOCK
  {
    var h := WriteSlots(Named(name), Slots(size));
    var typed := h[156 := 48];
    var magic := Overwrite(typed, 257, 263, MAGIC);
    var version := Overwrite(magic, 263, 265, VERSION);
    Overwrite(version, 148, 156, BLANKS)
  }

  // The header as a value: every field blanked and rewritten, then summed into its own checksum field.
  function Header(name: string, size: nat): seq<Byte>
    requires Ascii(name) && |name| <= NAME_LIMIT
  {
    var h := Unsummed(name, size);
    Overwrite(h, 148, 156, OctalText(Sum(h), 6) + [0, 32])
  }

  method TarHeader(name: string, size: nat) returns (header: seq<Byte>)
    requires Ascii(name) && |name| <= NAME_LIMIT
    ensures header == Header(name, size)
  {
    hide WriteSlots, Slots, OctalText, Sum, Repeat;
    header := Repeat(0, BLOCK);
    header := Overwrite(header, 0, |name|, Encode(name));
    header := WriteFields(header, size);
    header := header[156 := 48];
    header := Overwrite(header, 257, 263, MAGIC);
    header := Overwrite(header, 263, 265, VERSION);
    header := Overwrite(header, 148, 156, BLANKS);
    var checksum := AddBytes(header);
    header := Overwrite(header, 148, 156, OctalText(checksum, 6) + [0, 32]);
  }

  // The octal loop.
  method WriteFields(named: seq<Byte>, size: nat) returns (header: seq<Byte>)
    requires |named| >= BLOCK
    ensures header == WriteSlots(named, Slots(size))
  {
    header := named;
    var slots := Slots(size);
    hide OctalField, Overwrite;
    for i := 0 to |slots|
      invariant SlotsFit(slots[..i]) && header == WriteSlots(named, slots[..i])
    {
      var (start, end, value) := slots[i];
      assert slots[..i + 1][..i] == slots[..i];
      header := Overwrite(header, start, end, OctalField(value, end - start));
    }
    assert slots[..|slots|] == slots;
  }

  // sum(header)
  method AddBytes(bytes: seq<Byte>) returns (total: nat)
    ensures total == Sum(bytes)
  {
    total := 0;
    for i := 0 to |bytes|
      invariant total + Sum(bytes[i..]) == Sum(bytes)
    {
      total := total + bytes[i];
    }
  }

  // ----- reading -----

  predicate IsOctal(bytes: seq<Byte>) {
    forall i :: 0 <= i < |bytes| ==> 48 <= bytes[i] < 56
  }

  function ReadOctal(bytes: seq<Byte>): nat
    requires IsOctal(bytes)
  {
    Value(seq(|bytes|, i requires 0 <= i < |bytes| => (bytes[i] - 48) as nat), Octal)
  }

  // The field's bytes up to its first NUL.
  function UntilNul(bytes: seq<Byte>): seq<Byte> {
    if bytes == [] || bytes[0] == 0 then [] else [bytes[0]] + UntilNul(bytes[1..])
  }

  function ReadHeader(h: seq<Byte>): Option<(seq<Byte>, nat)>
    requires |h| == BLOCK
  {
    if h[257..263] != MAGIC || h[263..265] != VERSION || h[156] != 48 then None
    else if !IsOctal(h[124..135]) || !IsOctal(h[148..154]) then None
    else if ReadOctal(h[148..154]) != Sum(h[..148] + BLANKS + h[156..]) then None
    else Some((UntilNul(h[..100]), ReadOctal(h[124..135])))
  }

  function RoundUp(n: nat): nat {
    n + (BLOCK - n % BLOCK) % BLOCK
  }

  function ReadArchive(bytes: seq<Byte>): Option<seq<(seq<Byte>, seq<Byte>)>>
    decreases |bytes|
  {
    if |bytes| < 2 * BLOCK then None
    else if bytes[..2 * BLOCK] == Repeat(0, 2 * BLOCK) then Some([])
    else
      var header := ReadHeader(bytes[..BLOCK]);
      if header.None? || |bytes| - BLOCK < RoundUp(header.value.1) then None
      else
        var body := bytes[BLOCK..];
        var rest := ReadArchive(body[RoundUp(header.value.1)..]);
        if rest.None? then None
        else Some([(header.value.0, body[..header.value.1])] + rest.value)
  }

  // ----- the archive -----

  function Record(m: Member): seq<Byte>
  {
    Header(m.name, |m.data|) + m.data + Padding(|m.data|)
  }

  function Records(members: seq<Member>): seq<seq<Byte>> {
    seq(|members|, i requires 0 <= i < |members| => Record(members[i]))
  }

  function Flatten(parts: seq<seq<Byte>>): seq<Byte> {
    if parts == [] then [] else parts[0] + Flatten(parts[1..])
  }

  function Printed(members: seq<Member>): seq<Byte> {
    Flatten(Records(members)) + Repeat(0, 2 * BLOCK)
  }

  method PrintArchive(members: seq<Member>) returns (archive: seq<Byte>)
    ensures archive == Printed(members)
  {
    hide Header;
    archive := [];
    for i := 0 to |members|
      invariant archive == Flatten(Records(members[..i]))
    {
      var m := members[i];
      ghost var before := archive;
      var header := TarHeader(m.name, |m.data|);
      archive := archive + header;
      archive := archive + m.data;
      archive := archive + Repeat(0, (BLOCK - |m.data| % BLOCK) % BLOCK);
      assert archive == before + Record(m);
      assert Records(members[..i + 1]) == Records(members[..i]) + [Record(m)];
      FlattenPush(Records(members[..i]), Record(m));
    }
    assert members[..|members|] == members;
    archive := archive + Repeat(0, 1024);
  }

  lemma {:induction false} FlattenPush(parts: seq<seq<Byte>>, last: seq<Byte>)
    ensures Flatten(parts + [last]) == Flatten(parts) + last
  {
    if parts == [] {
      assert Flatten([last]) == last + Flatten([]);
    } else {
      assert (parts + [last])[1..] == parts[1..] + [last];
      FlattenPush(parts[1..], last);
    }
  }

  // ----- proofs -----

  lemma {:induction false} SumBound(bytes: seq<Byte>)
    ensures Sum(bytes) <= 255 * |bytes|
  {
    if bytes != [] { SumBound(bytes[1..]); }
  }

  lemma {:induction false} OctalTextReads(value: nat, width: nat)
    ensures IsOctal(OctalText(value, width)) && ReadOctal(OctalText(value, width)) == value
  {
    var text := OctalText(value, width);
    assert seq(|text|, i requires 0 <= i < |text| => (text[i] - 48) as nat) == Padded(value, Octal, width);
    PaddedValue(value, Octal, width);
  }

  lemma {:induction false} EightPowers()
    ensures Power(Octal, 6) == 262144 && Power(Octal, 7) == 2097152 && Power(Octal, 11) == 8589934592
  {
    assert Power(Octal, 3) == 512;
    assert Power(Octal, 6) == 8 * (8 * (8 * Power(Octal, 3)));
    assert Power(Octal, 9) == 8 * (8 * (8 * Power(Octal, 6)));
    assert Power(Octal, 11) == 8 * (8 * Power(Octal, 9));
  }

  lemma {:induction false} FieldWidth(value: nat, width: nat)
    requires width >= 2
    ensures |OctalField(value, width)| == width <==> value < Power(Octal, width - 1)
  {
    PaddedWidth(value, Octal, width - 1);
  }

  // One slot: the bytes outside it stay, the bytes inside are the field.
  lemma {:induction false} OverwriteSlices(h: seq<Byte>, start: nat, end: nat, v: seq<Byte>, a: nat, b: nat)
    requires start <= end <= |h| && |v| == end - start && a <= b <= |h|
    ensures |Overwrite(h, start, end, v)| == |h|
    ensures Overwrite(h, start, end, v)[start..end] == v
    ensures b <= start || end <= a ==> Overwrite(h, start, end, v)[a..b] == h[a..b]
  {
    var r := Overwrite(h, start, end, v);
    assert forall i :: 0 <= i < start || end <= i < |h| ==> r[i] == h[i];
    if b <= start || end <= a {
      assert forall i :: 0 <= i < b - a ==> r[a..b][i] == r[a + i] == h[a + i] == h[a..b][i];
    }
  }

  lemma {:induction false} RepeatSlice(b: Byte, n: nat, lo: nat, hi: nat)
    requires lo <= hi <= n
    ensures Repeat(b, n)[lo..hi] == Repeat(b, hi - lo)
  {
  }

  lemma {:induction false} SliceOf(w: seq<Byte>, lo: nat, hi: nat, a: nat, b: nat)
    requires lo <= hi <= |w| && a <= b <= hi - lo
    ensures w[lo..hi][a..b] == w[lo + a..lo + b]
  {
    assert forall i :: 0 <= i < b - a ==> w[lo..hi][a..b][i] == w[lo + a + i];
  }

  ghost predicate Apart(slots: seq<Slot>, a: nat, b: nat) {
    forall i :: 0 <= i < |slots| ==> b <= slots[i].0 || slots[i].1 <= a
  }

  ghost predicate SlotsExact(slots: seq<Slot>) {
    && SlotsFit(slots)
    && (forall i :: 0 <= i < |slots| ==> |OctalField(slots[i].2, slots[i].1 - slots[i].0)| == slots[i].1 - slots[i].0)
    && (forall i, j :: 0 <= i < j < |slots| ==> slots[i].1 <= slots[j].0)
  }

  function FieldOf(slot: Slot): seq<Byte>
    requires slot.0 < slot.1
  {
    OctalField(slot.2, slot.1 - slot.0)
  }

  lemma {:induction false} LastSlot(h: seq<Byte>, slots: seq<Slot>, a: nat, b: nat)
    requires |h| == BLOCK && SlotsExact(slots) && slots != [] && |WriteSlots(h, slots[..|slots| - 1])| == BLOCK
             && a <= b <= BLOCK
    ensures |WriteSlots(h, slots)| == BLOCK
    ensures WriteSlots(h, slots)[slots[|slots| - 1].0..slots[|slots| - 1].1] == FieldOf(slots[|slots| - 1])
    ensures b <= slots[|slots| - 1].0 || slots[|slots| - 1].1 <= a
            ==> WriteSlots(h, slots)[a..b] == WriteSlots(h, slots[..|slots| - 1])[a..b]
  {
    var last := slots[|slots| - 1];
    var before := WriteSlots(h, slots[..|slots| - 1]);
    assert WriteSlots(h, slots) == Overwrite(before, last.0, last.1, FieldOf(last));
    hide WriteSlots, OctalField, Overwrite;
    OverwriteSlices(before, last.0, last.1, FieldOf(last), a, b);
  }

  lemma {:induction false} SlotsPrefix(slots: seq<Slot>)
    requires SlotsExact(slots) && slots != []
    ensures SlotsExact(slots[..|slots| - 1]) && slots[|slots| - 1].0 <= slots[|slots| - 1].1 <= BLOCK
    ensures forall i :: 0 <= i < |slots| - 1 ==> slots[i].1 <= slots[|slots| - 1].0
  {
    hide OctalField;
  }

  // Bytes outside every slot stay.
  lemma {:induction false} SlotFrame(h: seq<Byte>, slots: seq<Slot>, a: nat, b: nat)
    requires |h| == BLOCK && SlotsExact(slots)
    requires a <= b <= BLOCK && Apart(slots, a, b)
    ensures |WriteSlots(h, slots)| == BLOCK && WriteSlots(h, slots)[a..b] == h[a..b]
    decreases |slots|
  {
    if slots != [] {
      SlotsPrefix(slots);
      assert Apart(slots[..|slots| - 1], a, b) && (b <= slots[|slots| - 1].0 || slots[|slots| - 1].1 <= a);
      hide *;
      SlotFrame(h, slots[..|slots| - 1], a, b);
      LastSlot(h, slots, a, b);
    }
  }

  // Each slot holds its own field.
  lemma {:induction false} SlotField(h: seq<Byte>, slots: seq<Slot>, i: nat, start: nat, end: nat)
    requires |h| == BLOCK && SlotsExact(slots) && i < |slots| && start == slots[i].0 && end == slots[i].1
    ensures |WriteSlots(h, slots)| == BLOCK && start <= end <= BLOCK
            && WriteSlots(h, slots)[start..end] == FieldOf(slots[i])
    decreases |slots|
  {
    SlotsPrefix(slots);
    var front := slots[..|slots| - 1];
    assert start <= end <= BLOCK;
    hide *;
    if i == |slots| - 1 {
      NoSlot(front);
      SlotFrame(h, front, 0, 0);
    } else {
      assert front[i] == slots[i];
      SlotField(h, front, i, start, end);
    }
    LastSlot(h, slots, start, end);
  }

  lemma {:induction false} NoSlot(slots: seq<Slot>)
    ensures Apart(slots, 0, 0)
  {
  }

  function Named(name: string): (h: seq<Byte>)
    requires Ascii(name) && |name| <= NAME_LIMIT
    ensures |h| == BLOCK
  {
    Overwrite(Repeat(0, BLOCK), 0, |name|, Encode(name))
  }

  lemma {:induction false} SlotsOfHeader(size: nat)
    requires size < Power(Octal, 11)
    ensures SlotsExact(Slots(size))
  {
    EightPowers();
    FieldWidth(384, 8); FieldWidth(0, 8); FieldWidth(0, 12); FieldWidth(size, 12);
    hide OctalField, Power;
  }

  // The octal fields, each at the offset the format gives it.
  ghost predicate OctalFields(h: seq<Byte>, size: nat)
    requires |h| == BLOCK
  {
    && h[100..108] == OctalField(384, 8) && h[108..116] == OctalField(0, 8) && h[116..124] == OctalField(0, 8)
    && h[124..136] == OctalField(size, 12) && h[136..148] == OctalField(0, 12)
    && h[329..337] == OctalField(0, 8) && h[337..345] == OctalField(0, 8)
  }

  lemma {:induction false} SlotsWritten(name: string, size: nat)
    requires Ascii(name) && |name| <= NAME_LIMIT && size < Power(Octal, 11)
    ensures var h := WriteSlots(Named(name), Slots(size));
            |h| == BLOCK && OctalFields(h, size) && h[..100] == Named(name)[..100]
            && h[156..329] == Repeat(0, 173) && h[345..] == Repeat(0, 167)
  {
    hide OctalField;
    var n, s := Named(name), Slots(size);
    SlotsOfHeader(size);
    SlotField(n, s, 0, 100, 108); SlotField(n, s, 1, 108, 116); SlotField(n, s, 2, 116, 124);
    SlotField(n, s, 3, 124, 136);
    SlotField(n, s, 4, 136, 148); SlotField(n, s, 5, 329, 337); SlotField(n, s, 6, 337, 345);
    SlotFrame(n, s, 0, 100); SlotFrame(n, s, 156, 329); SlotFrame(n, s, 345, BLOCK);
    assert WriteSlots(n, s)[345..] == WriteSlots(n, s)[345..BLOCK];
  }

  // What the fixed writes leave of a 512-byte header whose octal slots are filled.
  function Dressed(w: seq<Byte>, checksum: seq<Byte>): (h: seq<Byte>)
    requires |w| == BLOCK && |checksum| == 8
    ensures |h| == BLOCK
  {
    w[..148] + checksum + [48] + w[157..257] + MAGIC + VERSION + w[265..]
  }

  lemma {:induction false} UnsummedDressed(name: string, size: nat)
    requires Ascii(name) && |name| <= NAME_LIMIT && size < Power(Octal, 11)
    ensures |WriteSlots(Named(name), Slots(size))| == BLOCK
    ensures Unsummed(name, size) == Dressed(WriteSlots(Named(name), Slots(size)), BLANKS)
  {
    hide OctalField, WriteSlots, Slots;
    SlotsWritten(name, size);
  }

  // Six octal digits always hold the sum of a header, whatever it contains.
  lemma {:induction false} ChecksumFits(h: seq<Byte>)
    requires |h| == BLOCK
    ensures |OctalText(Sum(h), 6)| == 6
  {
    SumBound(h);
    EightPowers();
    PaddedWidth(Sum(h), Octal, 6);
  }

  lemma {:induction false} HeaderDressed(name: string, size: nat)
    requires Ascii(name) && |name| <= NAME_LIMIT && size < Power(Octal, 11)
    ensures var w := WriteSlots(Named(name), Slots(size));
            && |w| == BLOCK
            && |OctalText(Sum(Dressed(w, BLANKS)), 6)| == 6
            && Header(name, size) == Dressed(w, OctalText(Sum(Dressed(w, BLANKS)), 6) + [0, 32])
  {
    UnsummedDressed(name, size);
    var h, w := Unsummed(name, size), WriteSlots(Named(name), Slots(size));
    ChecksumFits(h);
    hide OctalField, WriteSlots, Slots, Unsummed, Sum, Named, OctalText;
    var text := OctalText(Sum(h), 6);
    assert Header(name, size) == Overwrite(h, 148, 156, text + [0, 32]);
    hide Header;
    Redressed(w, text + [0, 32]);
  }

  lemma {:induction false} Redressed(w: seq<Byte>, checksum: seq<Byte>)
    requires |w| == BLOCK && |checksum| == 8
    ensures Overwrite(Dressed(w, BLANKS), 148, 156, checksum) == Dressed(w, checksum)
  {
    assert Dressed(w, BLANKS)[156..] == Dressed(w, checksum)[156..];
  }

  lemma {:induction false} DressedSlices(w: seq<Byte>, checksum: seq<Byte>)
    requires |w| == BLOCK && |checksum| == 8
    ensures var h := Dressed(w, checksum);
            && (forall i :: 0 <= i < 148 || 265 <= i < BLOCK ==> h[i] == w[i]) && h[148..156] == checksum
            && h[156] == 48 && h[157..257] == w[157..257]
            && h[257..263] == MAGIC && h[263..265] == VERSION
            && h[..148] + BLANKS + h[156..] == Dressed(w, BLANKS)
  {
  }

  lemma {:induction false} SameSlices(h: seq<Byte>, w: seq<Byte>, lo: nat, hi: nat)
    requires lo <= hi <= |h| == |w| && forall i :: lo <= i < hi ==> h[i] == w[i]
    ensures forall a, b {:trigger h[a..b]} :: lo <= a <= b <= hi ==> h[a..b] == w[a..b]
  {
  }

  // The octal fields and the name are as the slots left them.
  lemma {:induction false} DressedKeeps(w: seq<Byte>, checksum: seq<Byte>, size: nat)
    requires |w| == BLOCK && |checksum| == 8 && OctalFields(w, size)
    ensures OctalFields(Dressed(w, checksum), size) && Dressed(w, checksum)[..NAME_LIMIT] == w[..NAME_LIMIT]
  {
    var h := Dressed(w, checksum);
    DressedSlices(w, checksum);
    SameSlices(h, w, 265, BLOCK);
    SameSlices(h, w, 0, 148);
    hide Dressed, OctalField;
    assert h[..NAME_LIMIT] == h[0..NAME_LIMIT] == w[..NAME_LIMIT];
  }

  // The link name and the unused bytes stay empty.
  lemma {:induction false} DressedEmpty(w: seq<Byte>, checksum: seq<Byte>)
    requires |w| == BLOCK && |checksum| == 8 && w[156..329] == Repeat(0, 173) && w[345..] == Repeat(0, 167)
    ensures var h := Dressed(w, checksum);
            h[157..257] == Repeat(0, 100) && h[265..329] == Repeat(0, 64) && h[345..] == Repeat(0, 167)
  {
    var h := Dressed(w, checksum);
    DressedSlices(w, checksum);
    SameSlices(h, w, 265, BLOCK);
    hide Dressed;
    assert h[345..] == h[345..BLOCK] == w[345..];
    SliceOf(w, 156, 329, 1, 101);
    SliceOf(w, 156, 329, 109, 173);
    RepeatSlice(0, 173, 1, 101);
    RepeatSlice(0, 173, 109, 173);
  }

  // The fixed bytes, and the checksum over the header with a blank one.
  lemma {:induction false} DressedFixed(w: seq<Byte>, digits: seq<Byte>)
    requires |w| == BLOCK && |digits| == 6
    ensures var h := Dressed(w, digits + [0, 32]);
            && h[148..154] == digits && h[154..156] == [0, 32] && h[156] == 48
            && h[257..263] == MAGIC && h[263..265] == VERSION && h[..148] + BLANKS + h[156..] == Dressed(w, BLANKS)
  {
    var h := Dressed(w, digits + [0, 32]);
    DressedSlices(w, digits + [0, 32]);
    hide Dressed;
    SliceOf(h, 148, 156, 0, 6);
    SliceOf(h, 148, 156, 6, 8);
  }

  lemma {:induction false} NamedField(name: string)
    requires Ascii(name) && |name| <= NAME_LIMIT
    ensures Named(name)[..NAME_LIMIT] == Encode(name) + Repeat(0, NAME_LIMIT - |name|)
  {
  }

  // The whole header, field by field.
  lemma {:induction false} HeaderLayout(name: string, size: nat)
    requires Ascii(name) && |name| <= NAME_LIMIT && size < Power(Octal, 11)
    ensures var h := Header(name, size);
            && |h| == BLOCK
            && h[..NAME_LIMIT] == Encode(name) + Repeat(0, NAME_LIMIT - |name|)
            && OctalFields(h, size)
            && h[148..154] == OctalText(Sum(h[..148] + BLANKS + h[156..]), 6) && h[154..156] == [0, 32]
            && h[156] == 48 && h[157..257] == Repeat(0, 100)
            && h[257..263] == MAGIC && h[263..265] == VERSION
            && h[265..329] == Repeat(0, 64) && h[345..] == Repeat(0, 167)
  {
    HeaderDressed(name, size);
    SlotsWritten(name, size);
    NamedField(name);
    hide *;
    var w := WriteSlots(Named(name), Slots(size));
    var digits := OctalText(Sum(Dressed(w, BLANKS)), 6);
    DressedFixed(w, digits);
    DressedKeeps(w, digits + [0, 32], size);
    DressedEmpty(w, digits + [0, 32]);
  }

  lemma {:induction false} UntilNulReads(text: seq<Byte>, padding: seq<Byte>)
    requires 0 !in text && (padding != [] ==> padding[0] == 0)
    ensures UntilNul(text + padding) == text
  {
    if text == [] {
      assert text + padding == padding;
    } else {
      assert (text + padding)[1..] == text[1..] + padding;
      UntilNulReads(text[1..], padding);
    }
  }

  // The printed header reads back as the name and size it was printed from.
  lemma {:induction false} HeaderReads(name: string, size: nat)
    requires PlainName(name) && size < Power(Octal, 11)
    ensures |Header(name, size)| == BLOCK
    ensures ReadHeader(Header(name, size)) == Some((Encode(name), size))
  {
    HeaderLayout(name, size);
    var h := Header(name, size);
    hide Header;
    EightPowers();
    FieldWidth(size, 12);
    OctalTextReads(size, 11);
    SliceOf(h, 124, 136, 0, 11);
    assert h[124..135] == OctalText(size, 11);
    OctalTextReads(Sum(h[..148] + BLANKS + h[156..]), 6);
    UntilNulReads(Encode(name), Repeat(0, NAME_LIMIT - |name|));
  }

  // A header is one block exactly when its size fits the eleven octal digits of the field.
  lemma {:induction false} HeaderLength(name: string, size: nat)
    requires Ascii(name) && |name| <= NAME_LIMIT
    ensures |Header(name, size)| == BLOCK <==> size < Power(Octal, 11)
    ensures size < Power(Octal, 11) <==> size < 8589934592
  {
    EightPowers();
    hide Header, Power;
    if size < Power(Octal, 11) {
      HeaderLayout(name, size);
    } else {
      LongSlots(Named(name), size);
      LongHeader(name, size);
    }
  }

  // A size of more digits makes its slot, and with it the buffer, grow.
  lemma {:induction false} LongSlots(named: seq<Byte>, size: nat)
    requires |named| == BLOCK && size >= Power(Octal, 11)
    ensures |WriteSlots(named, Slots(size))| > BLOCK
  {
    hide OctalField, WriteSlots, Power;
    var s := Slots(size);
    FieldWidth(size, 12);
    FieldGrows(size, 12);
    FieldGrows(0, 12);
    FieldGrows(0, 8);
    WriteNext(named, s, 3);
    WriteNext(named, s, 4);
    WriteNext(named, s, 5);
    WriteNext(named, s, 6);
    assert s[..7] == s;
  }

  lemma {:induction false} FieldGrows(value: nat, width: nat)
    requires width >= 2
    ensures |OctalField(value, width)| >= width
  {
  }

  lemma {:induction false} LongHeader(name: string, size: nat)
    requires Ascii(name) && |name| <= NAME_LIMIT && |WriteSlots(Named(name), Slots(size))| > BLOCK
    ensures |Header(name, size)| > BLOCK
  {
    hide WriteSlots, Slots, Named, Sum, OctalText;
    var h := Unsummed(name, size);
    assert |h| > BLOCK;
    assert |OctalText(Sum(h), 6)| >= 6;
  }

  lemma {:induction false} WriteNext(h: seq<Byte>, slots: seq<Slot>, i: nat)
    requires SlotsFit(slots) && |h| >= BLOCK && i < |slots|
    ensures |WriteSlots(h, slots[..i + 1])|
         == |WriteSlots(h, slots[..i])| + |OctalField(slots[i].2, slots[i].1 - slots[i].0)| - (slots[i].1 - slots[i].0)
  {
    hide OctalField;
    assert slots[..i + 1][..i] == slots[..i];
  }

  ghost predicate Storable(members: seq<Member>) {
    forall m :: m in members ==> PlainName(m.name) && |m.data| < Power(Octal, 11)
  }

  // The members as a reader sees them: encoded names with their data.
  function Listed(members: seq<Member>): seq<(seq<Byte>, seq<Byte>)>
  {
    seq(|members|, i requires 0 <= i < |members| => (Encode(members[i].name), members[i].data))
  }

  lemma {:induction false} RecordParts(m: Member, rest: seq<Byte>)
    requires PlainName(m.name) && |m.data| < Power(Octal, 11)
    ensures |Record(m)| == BLOCK + RoundUp(|m.data|) && WholeBlocks(|Record(m)|)
    ensures (Record(m) + rest)[..BLOCK] == Header(m.name, |m.data|)
    ensures (Record(m) + rest)[BLOCK..][..|m.data|] == m.data
    ensures (Record(m) + rest)[BLOCK..][RoundUp(|m.data|)..] == rest
  {
    HeaderReads(m.name, |m.data|);
    hide Header, Repeat;
    var padding := Padding(|m.data|);
    Blocked(|m.data|);
    Cut(Header(m.name, |m.data|), m.data, padding, rest);
  }

  function Padding(n: nat): (zeros: seq<Byte>)
    ensures |zeros| == (BLOCK - n % BLOCK) % BLOCK
  {
    Repeat(0, (BLOCK - n % BLOCK) % BLOCK)
  }

  lemma {:induction false} Blocked(n: nat)
    ensures WholeBlocks(BLOCK + RoundUp(n))
  {
    var q, rest := n / 512, n % 512;
    assert n == 512 * q + rest;
    assert BLOCK + RoundUp(n) == 512 * (if rest == 0 then q + 1 else q + 2);
  }

  lemma {:induction false} Cut(h: seq<Byte>, data: seq<Byte>, padding: seq<Byte>, rest: seq<Byte>)
    ensures var all := h + data + padding + rest;
            && all[..|h|] == h && all[|h|..] == data + padding + rest
            && all[|h|..][..|data|] == data && all[|h|..][|data| + |padding|..] == rest
  {
    var all := h + data + padding + rest;
    assert all[|h|..] == data + padding + rest;
  }

  // The reader takes exactly one printed entry off the front.
  lemma {:induction false} RecordReads(m: Member, tail: seq<Byte>)
    requires PlainName(m.name) && |m.data| < Power(Octal, 11) && |tail| >= 2 * BLOCK
    ensures var rest := ReadArchive(tail);
            ReadArchive(Record(m) + tail) == if rest.None? then None else Some([(Encode(m.name), m.data)] + rest.value)
  {
    var archive := Record(m) + tail;
    RecordParts(m, tail);
    HeaderReads(m.name, |m.data|);
    NotTheEnd(m, tail);
    hide Header, ReadHeader, Record, Repeat, PlainName, Power;
    assert |archive| - BLOCK >= RoundUp(|m.data|);
  }

  // A header's type byte is not zero, so an entry is never taken for the end of the archive.
  lemma {:induction false} NotTheEnd(m: Member, tail: seq<Byte>)
    requires PlainName(m.name) && |m.data| < Power(Octal, 11) && |tail| >= 2 * BLOCK
    ensures |Record(m) + tail| >= 2 * BLOCK && (Record(m) + tail)[..2 * BLOCK] != Repeat(0, 2 * BLOCK)
  {
    var archive := Record(m) + tail;
    RecordParts(m, tail);
    HeaderLayout(m.name, |m.data|);
    hide Header, Record, OctalFields, PlainName, Power;
    assert archive[156] == archive[..BLOCK][156] == 48;
    assert archive[..2 * BLOCK][156] != Repeat(0, 2 * BLOCK)[156];
  }

  predicate WholeBlocks(n: nat) {
    n % BLOCK == 0
  }

  lemma {:induction false} BlocksAdd(a: nat, b: nat)
    requires WholeBlocks(a) && WholeBlocks(b)
    ensures WholeBlocks(a + b)
  {
  }

  lemma {:induction false} ArchiveBlocks(members: seq<Member>)
    requires Storable(members)
    ensures WholeBlocks(|Flatten(Records(members))|)
    decreases |members|
  {
    hide Record;
    if members == [] {
      assert |Flatten(Records(members))| == 0;
    } else {
      RecordParts(members[0], []);
      hide WholeBlocks;
      ArchiveBlocks(members[1..]);
      assert Records(members) == [Record(members[0])] + Records(members[1..]);
      BlocksAdd(|Record(members[0])|, |Flatten(Records(members[1..]))|);
    }
  }

  lemma {:induction false} StorableTail(members: seq<Member>)
    requires Storable(members) && members != []
    ensures Storable(members[1..]) && PlainName(members[0].name) && |members[0].data| < Power(Octal, 11)
  {
  }

  lemma {:induction false} ArchiveHead(members: seq<Member>)
    requires Storable(members) && members != [] && Storable(members[1..]) && PlainName(members[0].name)
    ensures Printed(members) == Record(members[0]) + Printed(members[1..])
    ensures |Printed(members[1..])| >= 2 * BLOCK
    ensures Listed(members) == [(Encode(members[0].name), members[0].data)] + Listed(members[1..])
  {
    hide Record, Storable, Encode, PlainName;
    var first, rest := members[0], members[1..];
    assert Records(members) == [Record(first)] + Records(rest);
    assert ([Record(first)] + Records(rest))[1..] == Records(rest);
  }

  // Reading the printed archive gives the members back, and the archive is a whole number of blocks.
  lemma {:induction false} ArchiveReads(members: seq<Member>)
    requires Storable(members)
    ensures WholeBlocks(|Printed(members)|)
    ensures ReadArchive(Printed(members)) == Some(Listed(members))
    decreases |members|
  {
    hide Record, ReadHeader;
    ArchiveBlocks(members);
    BlocksAdd(|Flatten(Records(members))|, 1024);
    hide WholeBlocks;
    if members == [] {
      assert Flatten(Records(members)) == [];
      assert Printed(members) == Repeat(0, 2 * BLOCK) == Printed(members)[..2 * BLOCK];
      assert Listed(members) == [];
    } else {
      var m, rest := members[0], members[1..];
      hide ReadArchive, Repeat, Encode, Storable, Power, PlainName, Listed, Records, Flatten;
      assert Storable(rest) by { StorableTail(members); }
      assert PlainName(m.name) && |m.data| < Power(Octal, 11) by { StorableTail(members); }
      ArchiveReads(rest);
      assert |Printed(rest)| >= 2 * BLOCK by { ArchiveHead(members); }
      RecordReads(m, Printed(rest));
      ArchiveHead(members);
    }
  }

  // ----- the printed bytes, one by one -----

  // The number that octal digits spell, from the left.
  ghost function SpelledBytes(bytes: seq<Byte>): int {
    if bytes == [] then 0 else 8 * SpelledBytes(bytes[..|bytes| - 1]) + (bytes[|bytes| - 1] as int - 48)
  }

  ghost predicate OctalDigits(bytes: seq<Byte>, value: int) {
    SpelledBytes(bytes) == value && forall i :: 0 <= i < |bytes| ==> 48 <= bytes[i] <= 55
  }

  lemma {:induction false} DigitsSpell(ds: seq<nat>, bytes: seq<Byte>)
    requires |bytes| == |ds| && forall i :: 0 <= i < |ds| ==> bytes[i] == 48 + ds[i]
    ensures SpelledBytes(bytes) == Value(ds, Octal)
    decreases |ds|
  {
    if ds != [] { DigitsSpell(ds[..|ds| - 1], bytes[..|bytes| - 1]); }
  }

  lemma {:induction false} OctalTextSpells(value: nat, width: nat)
    ensures OctalDigits(OctalText(value, width), value) && |OctalText(value, width)| >= width
  {
    DigitsSpell(Padded(value, Octal, width), OctalText(value, width));
    PaddedValue(value, Octal, width);
  }

  lemma {:induction false} EncodeExact(s: string)
    requires Ascii(s)
    ensures |Encode(s)| == |s| && forall i :: 0 <= i < |s| ==> Encode(s)[i] == s[i] as int
  {
  }

  // The sum counts every byte once.
  lemma {:induction false} SumPush(bytes: seq<Byte>, b: Byte)
    ensures Sum([]) == 0 && Sum(bytes + [b]) == Sum(bytes) + b
  {
    if bytes == [] {
      assert bytes + [b] == [b] && [b][1..] == [];
    } else {
      assert (bytes + [b])[1..] == bytes[1..] + [b];
      SumPush(bytes[1..], b);
    }
  }

  lemma {:induction false} ModeField()
    ensures OctalField(384, 8) == [48, 48, 48, 48, 54, 48, 48, 0]
  {
    assert Numeral(6, Octal) == [6] && Numeral(48, Octal) == [6, 0] && Numeral(384, Octal) == [6, 0, 0];
    assert Padded(384, Octal, 7) == [0, 0, 0, 0, 6, 0, 0];
  }

  lemma {:induction false} ZeroFields()
    ensures OctalField(0, 8) == [48, 48, 48, 48, 48, 48, 48, 0]
    ensures OctalField(0, 12) == [48, 48, 48, 48, 48, 48, 48, 48, 48, 48, 48, 0]
  {
    assert Padded(0, Octal, 7) == [0, 0, 0, 0, 0, 0, 0];
    assert Padded(0, Octal, 11) == [0, 0, 0, 0, 0, 0, 0, 0, 0, 0, 0];
  }

  ghost predicate Blank(h: seq<Byte>, from: nat, to: nat)
    requires to <= |h|
  {
    forall i :: from <= i < to ==> h[i] == 0
  }

  // Mode 0600, owner and group 0, the size in octal digits, and time 0.
  ghost predicate NumbersStand(h: seq<Byte>, size: nat)
    requires |h| == 512
  {
    && h[100..108] == [48, 48, 48, 48, 54, 48, 48, 0]
    && h[108..116] == [48, 48, 48, 48, 48, 48, 48, 0] && h[116..124] == [48, 48, 48, 48, 48, 48, 48, 0]
    && OctalDigits(h[124..135], size) && h[135] == 0
    && h[136..148] == [48, 48, 48, 48, 48, 48, 48, 48, 48, 48, 48, 0]
    && h[329..337] == [48, 48, 48, 48, 48, 48, 48, 0] && h[337..345] == [48, 48, 48, 48, 48, 48, 48, 0]
  }

  lemma {:induction false} NumbersExact(h: seq<Byte>, size: nat)
    requires |h| == BLOCK && OctalFields(h, size) && size < Power(Octal, 11)
    ensures NumbersStand(h, size)
  {
    ModeField();
    ZeroFields();
    EightPowers();
    FieldWidth(size, 12);
    OctalTextSpells(size, 11);
    SliceOf(h, 124, 136, 0, 11);
    var field := h[124..136];
    assert field == OctalText(size, 11) + [0] && |field| == 12;
    assert field[..11] == OctalText(size, 11) && field[11] == h[135];
    hide OctalField, OctalText, OctalDigits;
  }

  // The header, byte by byte: the name, the numbers, a checksum over the header with a blank one, the type "0", the
  // magic "ustar" with version "00", and zeros.
  lemma {:induction false} HeaderBytes(name: string, size: nat)
    requires Ascii(name) && |name| <= 100 && size < 8589934592
    ensures var h := Header(name, size);
            && |h| == 512 && (forall i :: 0 <= i < |name| ==> h[i] == name[i] as int) && Blank(h, |name|, 100)
            && NumbersStand(h, size)
            && OctalDigits(h[148..154], Sum(h[..148] + [32, 32, 32, 32, 32, 32, 32, 32] + h[156..]))
            && h[154] == 0 && h[155] == 32 && h[156] == 48 && Blank(h, 157, 257)
            && h[257..263] == [117, 115, 116, 97, 114, 0] && h[263..265] == [48, 48]
            && Blank(h, 265, 329) && Blank(h, 345, 512)
  {
    EightPowers();
    HeaderLayout(name, size);
    EncodeExact(name);
    var h := Header(name, size);
    NumbersExact(h, size);
    hide Header, Power, OctalFields, NumbersStand, Encode, Sum, OctalText, OctalDigits;
    assert BLANKS == [32, 32, 32, 32, 32, 32, 32, 32];
    OctalTextSpells(Sum(h[..148] + BLANKS + h[156..]), 6);
    forall i | 0 <= i < 100 ensures h[i] == if i < |name| then name[i] as int else 0 {
      assert h[i] == h[..NAME_LIMIT][i];
    }
    assert h[154] == h[154..156][0] && h[155] == h[154..156][1];
    forall i | 157 <= i < 257 ensures h[i] == 0 { assert h[i] == h[157..257][i - 157]; }
    forall i | 265 <= i < 329 ensures h[i] == 0 { assert h[i] == h[265..329][i - 265]; }
    forall i | 345 <= i < 512 ensures h[i] == 0 { assert h[i] == h[345..][i - 345]; }
  }

  lemma {:induction false} RecordsHead(m: Member, rest: seq<Member>)
    ensures Flatten(Records([m] + rest)) == Record(m) + Flatten(Records(rest)) && Flatten(Records([])) == []
  {
    hide Record;
    assert Records([m] + rest) == [Record(m)] + Records(rest);
    assert ([Record(m)] + Records(rest))[1..] == Records(rest);
    assert Records([]) == [];
  }

  // Each entry is its header, its data and zeros up to a whole block; two zero blocks end the archive.
  lemma {:induction false} PrintedBytes(m: Member, rest: seq<Member>) returns (padding: seq<Byte>)
    ensures Printed([m] + rest) == Header(m.name, |m.data|) + m.data + padding + Printed(rest)
    ensures |padding| < 512 && (|m.data| + |padding|) % 512 == 0 && Blank(padding, 0, |padding|)
    ensures |Printed([])| == 1024 && Blank(Printed([]), 0, 1024)
  {
    padding := Padding(|m.data|);
    RecordSplits(m, padding);
    WholeBlock(|m.data|, padding);
    RecordsHead(m, rest);
    EndBlocks();
    hide Header, Record, Padding, Flatten, Records, Repeat, Blank;
  }

  lemma {:induction false} RecordSplits(m: Member, padding: seq<Byte>)
    requires padding == Padding(|m.data|)
    ensures Record(m) == Header(m.name, |m.data|) + m.data + padding
  {
    hide Header, Padding;
  }

  lemma {:induction false} WholeBlock(n: nat, padding: seq<Byte>)
    requires padding == Padding(n)
    ensures |padding| < 512 && (n + |padding|) % 512 == 0 && Blank(padding, 0, |padding|)
  {
  }

  lemma {:induction false} EndBlocks()
    ensures |Printed([])| == 1024 && Blank(Printed([]), 0, 1024)
  {
    assert Records([]) == [];
  }
}
