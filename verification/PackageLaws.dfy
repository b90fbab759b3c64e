/** Laws of the package tools on bytes: the unbundle/reassemble round trip and the algebra of edits. */
module PackageLaws {
  import opened Bytes
  import opened HostIo
  import opened TpkgFormat
  import opened PackageFormat

  // ---- what taking apart yields -----------------------------------------------

  /** A package read from a file assembles again, if the disk has room for it. */
  lemma TakenApartIsAssemblable(image: bytes)
    requires InBounds(image)
    requires |Payload(PackageOf(image))| + TrailerSize(|PackageOf(image).slots|) <= OFF_MAX
    ensures Assemblable(PackageOf(image))
  {
    hide ReadImage, TableOffset;
    TableInImage(image);
    ReadValid(image);
    var m, p := ReadImage(image).value, PackageOf(image);
    CStringOfPadded(m.runtimeRef);
    forall i | 0 <= i < |p.slots|
      ensures p.slots[i].formatId <= FORMAT_RUNTIME && |p.slots[i].mountPoint| < MOUNT_POINT_LEN
    {
      assert SlotValid(m.slots[i]);
      assert p.slots[i] == PartAt(image, i);
      CStringOfPadded(m.slots[i].mountPoint);
    }
  }

  lemma TextsAreWhole(image: bytes)
    requires InBounds(image)
    ensures TextsWhole(PackageOf(image))
  {
    hide ReadImage, TableOffset;
    TableInImage(image);
    var m, p := ReadImage(image).value, PackageOf(image);
    CStringOfPadded(m.runtimeRef);
    forall i | 0 <= i < |p.slots|
      ensures NoNul(p.slots[i].mountPoint)
    {
      assert p.slots[i] == PartAt(image, i);
      CStringOfPadded(m.slots[i].mountPoint);
    }
  }

  lemma ReadValid(image: bytes)
    requires ReadImage(image).Success?
    ensures Valid(ReadImage(image).value)
  {
  }

  lemma CStringOfPadded(field: bytes)
    ensures NoNul(CString(field)) && (Terminated(field) ==> |CString(field)| < |field|)
  {
  }

  // ---- gap-free images -----------------------------------------------------------

  /** What follows slot i directly: the next slot, or the table after the last one. */
  predicate Adjacent(m: Manifest, tableOffset: nat, i: nat)
    requires i < m.slotCount <= MAX_SLOTS
  {
    m.slots[i].offset + m.slots[i].size == if i + 1 < m.slotCount then m.slots[i + 1].offset else tableOffset
  }

  /** Slots follow one another, the table follows the last slot, the header follows the table. */
  ghost predicate Contiguous(m: Manifest, tableOffset: nat, size: nat) {
    && 1 <= m.slotCount <= MAX_SLOTS
    && (forall i :: 0 <= i < m.slotCount ==> Adjacent(m, tableOffset, i))
    && tableOffset + TrailerSize(m.slotCount) == size
  }

  ghost predicate GapFree(image: bytes) {
    && InBounds(image)
    && ReadImage(image).value == Canonical(ReadImage(image).value)
    && Contiguous(ReadImage(image).value, TableOffset(image), |image|)
  }

  lemma ManifestOffsets(p: Package, i: nat)
    requires Assemblable(p) && i < |p.slots|
    ensures var s := ManifestOf(p).slots[i];
            s.offset == OffsetOf(p, i) && s.offset + s.size == OffsetOf(p, i + 1)
  {
    OffsetInPayload(p, i);
  }

  lemma AssembledContiguous(p: Package)
    requires Assemblable(p)
    ensures Contiguous(ManifestOf(p), |Payload(p)|, |Payload(p)| + TrailerSize(|p.slots|))
  {
    hide SlotRecord;
    var m := ManifestOf(p);
    assert p.slots[..|p.slots|] == p.slots;
    forall i | 0 <= i < m.slotCount
      ensures Adjacent(m, |Payload(p)|, i)
    {
      ManifestOffsets(p, i);
      if i + 1 < m.slotCount {
        ManifestOffsets(p, i + 1);
      }
    }
  }

  lemma AssembledIsGapFree(image: bytes, p: Package)
    requires IsAssembled(image, p)
    ensures GapFree(image)
  {
    hide ReadImage, TableOffset, Canonical, Assembled, InBounds, ManifestOf, Contiguous;
    AssembledReads(p);
    ManifestOfValid(p);
    AssembledContiguous(p);
  }

  lemma PartFacts(image: bytes, i: nat)
    requires InBounds(image) && i < ReadImage(image).value.slotCount
    ensures |PackageOf(image).slots| == ReadImage(image).value.slotCount
    ensures var s := ReadImage(image).value.slots[i];
            s.offset + s.size <= TableOffset(image) <= |image| &&
            PackageOf(image).slots[i] ==
            SlotPart(image[s.offset..s.offset + s.size], s.formatId, s.flags, CString(s.mountPoint))
  {
    hide ReadImage, TableOffset;
    TableInImage(image);
  }

  /** The images of contiguous slots, one after the other, are a stretch of the file. */
  lemma {:induction false} ContiguousStretch(image: bytes, m: Manifest, table: nat, p: Package, i: nat)
    requires Contiguous(m, table, |image|) && |p.slots| == m.slotCount && i <= m.slotCount
    requires forall j :: 0 <= j < m.slotCount ==>
               m.slots[j].offset + m.slots[j].size <= |image| &&
               p.slots[j].data == image[m.slots[j].offset..m.slots[j].offset + m.slots[j].size]
    requires p.bootstrap == image[..m.slots[0].offset]
    ensures OffsetOf(p, i) == if i < m.slotCount then m.slots[i].offset else table
    ensures OffsetOf(p, i) <= |image|
    ensures image[..OffsetOf(p, i)] == p.bootstrap + SlotData(p.slots[..i])
  {
    if i == 0 {
      assert p.slots[..0] == [];
    } else {
      hide SlotData;
      ContiguousStretch(image, m, table, p, i - 1);
      SlotDataStep(p.slots, i);
      assert Adjacent(m, table, i - 1);
      var at, s := OffsetOf(p, i - 1), m.slots[i - 1];
      assert OffsetOf(p, i) == at + s.size;
      Grow(image, at, s.size, p.bootstrap, SlotData(p.slots[..i - 1]));
    }
  }

  lemma Grow(image: bytes, at: nat, n: nat, a: bytes, b: bytes)
    requires at + n <= |image| && image[..at] == a + b
    ensures image[..at + n] == a + (b + image[at..at + n])
  {
  }

  lemma SlotDataStep(slots: seq<SlotPart>, i: nat)
    requires 0 < i <= |slots|
    ensures SlotData(slots[..i]) == SlotData(slots[..i - 1]) + slots[i - 1].data
  {
    assert slots[..i][..i - 1] == slots[..i - 1];
  }

  lemma ContiguousOffset(image: bytes, i: nat)
    requires GapFree(image) && i <= ReadImage(image).value.slotCount
    ensures |PackageOf(image).slots| == ReadImage(image).value.slotCount
    ensures var m := ReadImage(image).value;
            OffsetOf(PackageOf(image), i) == if i < m.slotCount then m.slots[i].offset else TableOffset(image)
    ensures OffsetOf(PackageOf(image), i) <= TableOffset(image) <= |image|
    ensures image[..OffsetOf(PackageOf(image), i)] ==
            PackageOf(image).bootstrap + SlotData(PackageOf(image).slots[..i])
  {
    hide ReadImage, TableOffset, Canonical, PackageOf, OffsetOf;
    var m, p := ReadImage(image).value, PackageOf(image);
    forall j | 0 <= j < m.slotCount
      ensures |p.slots| == m.slotCount && m.slots[j].offset + m.slots[j].size <= TableOffset(image) <= |image|
      ensures p.slots[j].data == image[m.slots[j].offset..m.slots[j].offset + m.slots[j].size]
    {
      PartFacts(image, j);
    }
    BootstrapOf(image);
    ContiguousStretch(image, m, TableOffset(image), p, i);
  }

  lemma BootstrapOf(image: bytes)
    requires InBounds(image)
    ensures ReadImage(image).value.slots[0].offset <= |image|
    ensures PackageOf(image).bootstrap == image[..ReadImage(image).value.slots[0].offset]
  {
    hide ReadImage, TableOffset;
    TableInImage(image);
  }

  lemma ContiguousPayload(image: bytes)
    requires GapFree(image)
    ensures TableOffset(image) <= |image| && Payload(PackageOf(image)) == image[..TableOffset(image)]
    ensures Assemblable(PackageOf(image))
  {
    hide ReadImage, TableOffset, Canonical;
    var m, p := ReadImage(image).value, PackageOf(image);
    ContiguousOffset(image, m.slotCount);
    assert p.slots[..m.slotCount] == p.slots;
    TakenApartIsAssemblable(image);
  }

  lemma ManifestOfTakenApart(image: bytes)
    requires GapFree(image) && Assemblable(PackageOf(image))
    ensures ManifestOf(PackageOf(image)) == ReadImage(image).value
  {
    hide ReadImage, TableOffset;
    TableInImage(image);
    ReadValid(image);
    var m, p := ReadImage(image).value, PackageOf(image);
    FieldOfString(m.runtimeRef);
    assert Canonical(m).runtimeRef == m.runtimeRef;
    forall i | 0 <= i < MAX_SLOTS
      ensures ManifestOf(p).slots[i] == m.slots[i]
    {
      assert Canonical(m).slots[i] == m.slots[i];
      if i < m.slotCount {
        ContiguousOffset(image, i);
        assert p.slots[i] == PartAt(image, i) && SlotValid(m.slots[i]);
        FieldOfString(m.slots[i].mountPoint);
      }
    }
    assert ManifestOf(p).slots == m.slots;
  }

  lemma FieldOfString(field: bytes)
    requires Terminated(field)
    ensures Field(CString(field), |field|) == PutStr(field)
  {
    StrLenUnique(CString(field), StrLen(field));
  }

  /**
   * The files assemble can have written are exactly the gap-free ones: no byte between
   * parts, no byte outside them, and zero padding in the text fields.
   */
  lemma GapFreeIffAssembled(image: bytes)
    ensures GapFree(image) <==> InBounds(image) && IsAssembled(image, PackageOf(image))
  {
    hide ReadImage, Canonical, Trailer;
    if GapFree(image) {
      ContiguousPayload(image);
      ManifestOfTakenApart(image);
      PaddedImageIsWritten(image);
    }
    if InBounds(image) && IsAssembled(image, PackageOf(image)) {
      AssembledIsGapFree(image, PackageOf(image));
    }
  }

  // ---- holding a package -----------------------------------------------------------

  /** The file is gap-free and what can be taken out of it is exactly p. */
  ghost predicate Holds(image: bytes, p: Package) {
    GapFree(image) && PackageOf(image) == p
  }

  /** Holding a package without NULs in its texts is being what assemble writes for it. */
  lemma HoldsIffAssembled(image: bytes, p: Package)
    ensures Holds(image, p) <==> IsAssembled(image, p) && TextsWhole(p)
  {
    hide ReadImage, Canonical, TableOffset, Assembled, Assemblable, InBounds, PackageOf, Contiguous;
    if Holds(image, p) {
      GapFreeIffAssembled(image);
      ContiguousPayload(image);
      TextsAreWhole(image);
    }
    if IsAssembled(image, p) && TextsWhole(p) {
      TakeApartAssembled(p);
      CutWhole(p);
      AssembledIsGapFree(image, p);
    }
  }

  /**
   * Reassembling what was unbundled keeps the bootstrap, every image and all metadata and
   * leaves no gaps.
   */
  lemma ReassemblyKeepsEverything(image: bytes, again: bytes)
    requires InBounds(image) && IsAssembled(again, PackageOf(image))
    ensures Holds(again, PackageOf(image))
  {
    hide ReadImage, Assembled, Assemblable, GapFree, InBounds, PackageOf, TextsWhole, IsAssembled;
    TextsAreWhole(image);
    HoldsIffAssembled(again, PackageOf(image));
  }

  /** Reassembling what was taken out of an assembled file, texts with NULs included, restores it. */
  lemma ReassemblyIsIdentity(image: bytes, p: Package, again: bytes)
    requires IsAssembled(image, p) && InBounds(image) && IsAssembled(again, PackageOf(image))
    ensures again == image
  {
    hide ReadImage, Assembled, Assemblable, InBounds, PackageOf;
    TakeApartAssembled(p);
    AssembledCut(p);
  }

  /** Rebuilding an untouched directory gives the original bytes exactly when the package has no gaps. */
  lemma RebuildIsIdenticalIffGapFree(image: bytes, again: bytes)
    requires InBounds(image) && IsAssembled(again, PackageOf(image))
    ensures again == image <==> GapFree(image)
  {
    hide ReadImage, Assembled, Assemblable, InBounds, PackageOf, GapFree;
    GapFreeIffAssembled(image);
  }

  /** A package with one stray byte between its last part and its slot table. */
  function WithStrayByte(p: Package): bytes
    requires TextsFit(p) && |p.slots| <= MAX_SLOTS && |Payload(p)| + 1 < U64_LIMIT
  {
    Payload(p) + [0] + Trailer(ManifestOf(p), |Payload(p)| + 1)
  }

  /** Such a package is accepted, and rebuilding it drops the byte: the promise of identity does not cover it. */
  lemma StrayByteIsLost(p: Package)
    requires Assemblable(p) && |Payload(p)| + 1 + TrailerSize(|p.slots|) <= OFF_MAX
    ensures InBounds(WithStrayByte(p))
    ensures forall again :: IsAssembled(again, PackageOf(WithStrayByte(p))) ==> again != WithStrayByte(p)
  {
    hide ReadImage, Canonical, Trailer, Assembled, PackageOf;
    var image, m, prefix := WithStrayByte(p), ManifestOf(p), Payload(p) + [0];
    ManifestOfValid(p);
    AppendedTrailerReads(prefix, m);
    TrailerTable(prefix, m);
    forall i | 0 <= i < m.slotCount ensures m.slots[i].offset + m.slots[i].size <= |Payload(p)| {
      OffsetInPayload(p, i);
    }
    OffsetInPayload(p, |p.slots| - 1);
    assert InBounds(image);
    assert !Adjacent(m, TableOffset(image), m.slotCount - 1);
    forall again | IsAssembled(again, PackageOf(image)) ensures again != image {
      RebuildIsIdenticalIffGapFree(image, again);
    }
  }

  // ---- edits ------------------------------------------------------------------------

  function Inserted(p: Package, s: SlotPart): Package {
    p.(slots := p.slots + [s])
  }

  function Removed(p: Package, k: nat): Package
    requires k < |p.slots|
  {
    p.(slots := p.slots[..k] + p.slots[k + 1..])
  }

  function Rebased(p: Package, bootstrap: bytes): Package {
    p.(bootstrap := bootstrap)
  }

  /** Inserting an image adds it behind the others and keeps everything there was. */
  lemma InsertKeepsEverything(image: bytes, p: Package, s: SlotPart, after: bytes)
    requires Holds(image, p) && NoNul(s.mountPoint) && IsAssembled(after, Inserted(p, s))
    ensures Holds(after, Inserted(p, s))
  {
    hide Holds, IsAssembled;
    HoldsIffAssembled(image, p);
    HoldsIffAssembled(after, Inserted(p, s));
  }

  /** Inserting an image and removing the last one restores the file byte for byte. */
  lemma InsertThenRemove(image: bytes, p: Package, s: SlotPart, after: bytes, q: Package, back: bytes)
    requires Holds(image, p) && NoNul(s.mountPoint) && IsAssembled(after, Inserted(p, s))
    requires Holds(after, q) && q.slots != [] && IsAssembled(back, Removed(q, |q.slots| - 1))
    ensures back == image
  {
    hide GapFree, InBounds, PackageOf, Assembled, Assemblable;
    HoldsIffAssembled(image, p);
    InsertKeepsEverything(image, p, s, after);
    assert Removed(q, |q.slots| - 1).slots == p.slots;
  }

  lemma RemovedDataFits(slots: seq<SlotPart>, k: nat)
    requires k < |slots|
    ensures |SlotData(slots[..k] + slots[k + 1..])| + |slots[k].data| == |SlotData(slots)|
  {
    SlotDataAt(slots, k);
    SlotDataConcat(slots[..k], slots[k + 1..]);
    assert slots == slots[..k + 1] + slots[k + 1..];
    SlotDataConcat(slots[..k + 1], slots[k + 1..]);
  }

  lemma AssembledSize(p: Package)
    requires Assemblable(p)
    ensures |Assembled(p)| == |Payload(p)| + TrailerSize(|p.slots|)
  {
    hide Payload, Trailer;
  }

  /**
   * Removing slot k of several always fits; the other images keep their bytes, metadata and
   * order, and the file shrinks by exactly that image and its record.
   */
  lemma RemoveKeepsOthers(image: bytes, p: Package, k: nat)
    requires Holds(image, p) && k < |p.slots| && |p.slots| > 1
    ensures Assemblable(Removed(p, k))
    ensures Holds(Assembled(Removed(p, k)), Removed(p, k))
    ensures |Assembled(Removed(p, k))| == |image| - |p.slots[k].data| - SLOT_SIZE
  {
    hide Holds, Assembled;
    HoldsIffAssembled(image, p);
    RemovedDataFits(p.slots, k);
    AssembledSize(p);
    AssembledSize(Removed(p, k));
    HoldsIffAssembled(Assembled(Removed(p, k)), Removed(p, k));
  }

  /** Replacing the bootstrap keeps every image; putting the old one back restores the file. */
  lemma SetRuntimeAndBack(image: bytes, p: Package, bootstrap: bytes, after: bytes, q: Package, back: bytes)
    requires Holds(image, p) && IsAssembled(after, Rebased(p, bootstrap))
    requires Holds(after, q) && IsAssembled(back, Rebased(q, p.bootstrap))
    ensures q == Rebased(p, bootstrap)
    ensures back == image
  {
    hide GapFree, InBounds, PackageOf, Assembled, Assemblable;
    HoldsIffAssembled(image, p);
    HoldsIffAssembled(after, Rebased(p, bootstrap));
  }
}
