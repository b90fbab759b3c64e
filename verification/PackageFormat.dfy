/** Three-part packages: what one contains, the bytes it is assembled into, and reading those back. */
module PackageFormat {
  import opened Bytes
  import opened HostIo
  import opened TpkgFormat

  /** An image with its slot metadata; mountPoint is the text, without padding. */
  datatype SlotPart = SlotPart(data: bytes, formatId: u32, flags: u32, mountPoint: bytes)

  datatype Options = Options(runtimeRef: bytes, packageFlags: u32, launcherAbi: u32)

  datatype Package = Package(bootstrap: bytes, slots: seq<SlotPart>, options: Options)

  // ---- assembling -------------------------------------------------------------

  /** The images one after the other. */
  function SlotData(slots: seq<SlotPart>): bytes {
    if slots == [] then [] else SlotData(slots[..|slots| - 1]) + slots[|slots| - 1].data
  }

  function Payload(p: Package): bytes {
    p.bootstrap + SlotData(p.slots)
  }

  /** Where slot i starts: after the bootstrap and the images before it. */
  function OffsetOf(p: Package, i: nat): nat
    requires i <= |p.slots|
  {
    |p.bootstrap| + |SlotData(p.slots[..i])|
  }

  predicate TextsFit(p: Package) {
    && |p.options.runtimeRef| < RUNTIME_REF_LEN
    && forall i :: 0 <= i < |p.slots| ==> |p.slots[i].mountPoint| < MOUNT_POINT_LEN
  }

  /** A package that assemble accepts and the file size limit admits. */
  ghost predicate Assemblable(p: Package) {
    && 1 <= |p.slots| <= MAX_SLOTS
    && TextsFit(p)
    && (forall i :: 0 <= i < |p.slots| ==> p.slots[i].formatId <= FORMAT_RUNTIME)
    && |Payload(p)| + TrailerSize(|p.slots|) <= OFF_MAX
  }

  /** strncpy into a zeroed field that is wider than the text. */
  function Field(s: bytes, width: nat): (r: bytes)
    requires |s| < width
    ensures |r| == width
  {
    Padded(CString(s), width)
  }

  function SlotRecord(p: Package, i: nat): Slot
    requires TextsFit(p) && i < |p.slots| && |Payload(p)| < U64_LIMIT
  {
    OffsetInPayload(p, i);
    Slot(OffsetOf(p, i), |p.slots[i].data|, p.slots[i].formatId, p.slots[i].flags,
         Field(p.slots[i].mountPoint, MOUNT_POINT_LEN))
  }

  function ManifestOf(p: Package): Manifest
    requires TextsFit(p) && |p.slots| <= MAX_SLOTS && |Payload(p)| < U64_LIMIT
  {
    Manifest(VERSION, p.options.packageFlags, |p.slots|, p.options.launcherAbi,
             Field(p.options.runtimeRef, RUNTIME_REF_LEN),
             seq(MAX_SLOTS, i requires 0 <= i < MAX_SLOTS => if i < |p.slots| then SlotRecord(p, i) else ZERO_SLOT))
  }

  /** The file: bootstrap, images, slot table, header. */
  function Assembled(p: Package): bytes
    requires TextsFit(p) && |p.slots| <= MAX_SLOTS && |Payload(p)| < U64_LIMIT
  {
    Payload(p) + Trailer(ManifestOf(p), |Payload(p)|)
  }

  ghost predicate IsAssembled(image: bytes, p: Package) {
    Assemblable(p) && image == Assembled(p)
  }

  lemma {:induction false} SlotDataConcat(a: seq<SlotPart>, b: seq<SlotPart>)
    ensures SlotData(a + b) == SlotData(a) + SlotData(b)
    decreases |b|
  {
    if b == [] {
      assert a + b == a;
    } else {
      assert (a + b)[..|a + b| - 1] == a + b[..|b| - 1];
      SlotDataConcat(a, b[..|b| - 1]);
    }
  }

  lemma SlotDataAt(slots: seq<SlotPart>, i: nat)
    requires i < |slots|
    ensures |SlotData(slots[..i])| + |slots[i].data| == |SlotData(slots[..i + 1])| <= |SlotData(slots)|
    ensures SlotData(slots)[|SlotData(slots[..i])|..|SlotData(slots[..i + 1])|] == slots[i].data
  {
    var before := slots[..i];
    assert slots[..i + 1][..i] == before;
    assert slots == slots[..i + 1] + slots[i + 1..];
    SlotDataConcat(slots[..i + 1], slots[i + 1..]);
  }

  lemma OffsetInPayload(p: Package, i: nat)
    requires i < |p.slots|
    ensures OffsetOf(p, i) + |p.slots[i].data| == OffsetOf(p, i + 1) <= |Payload(p)|
    ensures Payload(p)[OffsetOf(p, i)..OffsetOf(p, i + 1)] == p.slots[i].data
  {
    SlotDataAt(p.slots, i);
    assert p.slots[..|p.slots|] == p.slots;
  }

  // ---- taking apart ---------------------------------------------------------------

  /** slot_table_offset, as the header stores it. */
  function TableOffset(image: bytes): nat
    requires |image| >= HEADER_SIZE
  {
    U64At(HeaderOf(image), OFF_TABLE)
  }

  /** An image unbundle accepts: a readable trailer and every slot before the slot table. */
  ghost predicate InBounds(image: bytes) {
    && |image| <= OFF_MAX
    && ReadImage(image).Success?
    && forall i :: 0 <= i < ReadImage(image).value.slotCount ==>
         ReadImage(image).value.slots[i].offset + ReadImage(image).value.slots[i].size <= TableOffset(image)
  }

  lemma TableInImage(image: bytes)
    requires ReadImage(image).Success?
    ensures TableOffset(image) + TrailerSize(ReadImage(image).value.slotCount) <= |image|
    ensures 1 <= ReadImage(image).value.slotCount <= MAX_SLOTS
  {
    hide HeaderCode;
  }

  ghost function PartAt(image: bytes, i: nat): SlotPart
    requires InBounds(image) && i < ReadImage(image).value.slotCount
  {
    hide ReadImage, TableOffset;
    TableInImage(image);
    var s := ReadImage(image).value.slots[i];
    SlotPart(image[s.offset..s.offset + s.size], s.formatId, s.flags, CString(s.mountPoint))
  }

  /** What a package file holds. */
  ghost function PackageOf(image: bytes): Package
    requires InBounds(image)
  {
    hide ReadImage, TableOffset, PartAt;
    TableInImage(image);
    var m := ReadImage(image).value;
    Package(image[..m.slots[0].offset],
            seq(m.slotCount, i requires 0 <= i < m.slotCount => PartAt(image, i)),
            Options(CString(m.runtimeRef), m.packageFlags, m.launcherAbi))
  }

  // ---- text without NULs ------------------------------------------------------------

  predicate NoNul(s: bytes) {
    forall i :: 0 <= i < |s| ==> s[i] != 0
  }

  ghost predicate TextsWhole(p: Package) {
    && NoNul(p.options.runtimeRef)
    && forall i :: 0 <= i < |p.slots| ==> NoNul(p.slots[i].mountPoint)
  }

  /** p with each text cut at its first NUL, as C strings are. */
  function Cut(p: Package): Package {
    p.(options := p.options.(runtimeRef := CString(p.options.runtimeRef)),
       slots := seq(|p.slots|, i requires 0 <= i < |p.slots| =>
                  p.slots[i].(mountPoint := CString(p.slots[i].mountPoint))))
  }

  lemma CStringOfField(s: bytes, width: nat)
    requires |s| < width
    ensures CString(Field(s, width)) == CString(s) && Terminated(Field(s, width))
    ensures PutStr(Field(s, width)) == Field(s, width)
    ensures CString(CString(s)) == CString(s) && NoNul(CString(s))
  {
    StrLenUnique(Field(s, width), StrLen(s));
    StrLenUnique(CString(s), StrLen(s));
  }

  lemma CutWhole(p: Package)
    requires TextsWhole(p)
    ensures Cut(p) == p
  {
    StrLenUnique(p.options.runtimeRef, |p.options.runtimeRef|);
    forall i | 0 <= i < |p.slots| ensures CString(p.slots[i].mountPoint) == p.slots[i].mountPoint {
      StrLenUnique(p.slots[i].mountPoint, |p.slots[i].mountPoint|);
    }
    assert Cut(p).slots == p.slots;
  }

  lemma {:induction false} SlotDataOfCut(slots: seq<SlotPart>, cut: seq<SlotPart>)
    requires |slots| == |cut| && forall i :: 0 <= i < |slots| ==> slots[i].data == cut[i].data
    ensures SlotData(slots) == SlotData(cut)
    decreases |slots|
  {
    if slots != [] {
      SlotDataOfCut(slots[..|slots| - 1], cut[..|cut| - 1]);
    }
  }

  lemma SlotRecordCut(p: Package, i: nat)
    requires TextsFit(p) && i < |p.slots| && |Payload(p)| < U64_LIMIT
    ensures TextsFit(Cut(p)) && Payload(Cut(p)) == Payload(p) && SlotRecord(Cut(p), i) == SlotRecord(p, i)
  {
    hide Field;
    var c := Cut(p);
    SlotDataOfCut(p.slots, c.slots);
    SlotDataOfCut(p.slots[..i], c.slots[..i]);
    FieldOfCut(p.slots[i].mountPoint, MOUNT_POINT_LEN);
  }

  lemma FieldOfCut(s: bytes, width: nat)
    requires |s| < width
    ensures Field(CString(s), width) == Field(s, width)
  {
    CStringOfField(s, width);
  }

  /** Cutting the texts does not change the assembled bytes. */
  lemma AssembledCut(p: Package)
    requires Assemblable(p)
    ensures Assemblable(Cut(p)) && Assembled(Cut(p)) == Assembled(p)
  {
    var c := Cut(p);
    SlotDataOfCut(p.slots, c.slots);
    FieldOfCut(p.options.runtimeRef, RUNTIME_REF_LEN);
    hide SlotRecord, Field, CString, Trailer, SlotData;
    forall i | 0 <= i < |p.slots| ensures SlotRecord(c, i) == SlotRecord(p, i) { SlotRecordCut(p, i); }
    assert ManifestOf(c).slots == ManifestOf(p).slots;
  }

  // ---- assembling, then taking apart ----------------------------------------------------

  lemma ManifestOfValid(p: Package)
    requires Assemblable(p)
    ensures Valid(ManifestOf(p)) && Canonical(ManifestOf(p)) == ManifestOf(p)
  {
    var m := ManifestOf(p);
    CStringOfField(p.options.runtimeRef, RUNTIME_REF_LEN);
    forall i | 0 <= i < m.slotCount
      ensures SlotValid(m.slots[i]) && PutStr(m.slots[i].mountPoint) == m.slots[i].mountPoint
    {
      assert m.slots[i] == SlotRecord(p, i);
      OffsetInPayload(p, i);
      CStringOfField(p.slots[i].mountPoint, MOUNT_POINT_LEN);
    }
    assert Canonical(m).slots == m.slots;
  }

  lemma AssembledReads(p: Package)
    requires Assemblable(p)
    ensures ReadImage(Assembled(p)) == Success(ManifestOf(p))
    ensures TableOffset(Assembled(p)) == |Payload(p)| && |Assembled(p)| == |Payload(p)| + TrailerSize(|p.slots|)
    ensures InBounds(Assembled(p))
  {
    hide ReadImage, Canonical, Trailer;
    var image, m, end := Assembled(p), ManifestOf(p), |Payload(p)|;
    ManifestOfValid(p);
    AppendedTrailerReads(Payload(p), m);
    TrailerTable(Payload(p), m);
    forall i | 0 <= i < m.slotCount
      ensures m.slots[i].offset + m.slots[i].size <= end
    {
      OffsetInPayload(p, i);
    }
  }

  lemma LastHeader(before: bytes, h: bytes)
    requires |h| == HEADER_SIZE
    ensures HeaderOf(before + h) == h
  {
  }

  lemma TrailerTable(prefix: bytes, m: Manifest)
    requires m.slotCount <= MAX_SLOTS && |prefix| < U64_LIMIT
    ensures TableOffset(prefix + Trailer(m, |prefix|)) == |prefix|
  {
    hide Header, Table, HeaderBody, PutStr, HeaderOf;
    var table, h := Table(m.slots[..m.slotCount]), Header(m, |prefix|);
    assert prefix + (table + h) == (prefix + table) + h;
    LastHeader(prefix + table, h);
    HeaderFields(m, |prefix|);
  }

  lemma PartOfAssembled(p: Package, i: nat)
    requires Assemblable(p) && i < |p.slots|
    requires InBounds(Assembled(p)) && ReadImage(Assembled(p)) == Success(ManifestOf(p))
    ensures PartAt(Assembled(p), i) == Cut(p).slots[i]
  {
    hide ReadImage, Trailer, TableOffset, InBounds, Field;
    var image := Assembled(p);
    assert ManifestOf(p).slots[i] == SlotRecord(p, i);
    OffsetInPayload(p, i);
    CStringOfField(p.slots[i].mountPoint, MOUNT_POINT_LEN);
    assert image[OffsetOf(p, i)..OffsetOf(p, i + 1)] == Payload(p)[OffsetOf(p, i)..OffsetOf(p, i + 1)];
  }

  /** Taking apart what was assembled gives the package back, texts cut at their NULs. */
  lemma TakeApartAssembled(p: Package)
    requires Assemblable(p)
    ensures InBounds(Assembled(p)) && PackageOf(Assembled(p)) == Cut(p)
  {
    hide ReadImage, Trailer, TableOffset, PartAt, InBounds, Field, CString;
    AssembledReads(p);
    var image, m := Assembled(p), ManifestOf(p);
    var q := PackageOf(image);
    assert p.slots[..0] == [];
    assert m.slots[0] == SlotRecord(p, 0);
    assert q.bootstrap == p.bootstrap;
    CStringOfField(p.options.runtimeRef, RUNTIME_REF_LEN);
    forall i | 0 <= i < |p.slots| ensures q.slots[i] == Cut(p).slots[i] { PartOfAssembled(p, i); }
    assert q.slots == Cut(p).slots;
  }
}
