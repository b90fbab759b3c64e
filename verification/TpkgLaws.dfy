/**
 * The trailer byte by byte (include/tebako/tpkg.h): which bytes say what, when a file has a
 * readable trailer, and which error a file without one is given.
 */
module TpkgLaws {
  import opened Bytes
  import opened Words
  import opened Crc
  import opened HostIo
  import opened TpkgFormat
  import opened PackageFormat

  // ---- numbers and texts in a file ----------------------------------------------

  /** Four bytes as a number, the first one the least. */
  function Four(a: int, b: int, c: int, d: int): int {
    a + 0x100 * b + 0x1_0000 * c + 0x100_0000 * d
  }

  function Number32(bs: bytes, at: nat): int
    requires at + 4 <= |bs|
  {
    Four(bs[at], bs[at + 1], bs[at + 2], bs[at + 3])
  }

  function Number64(bs: bytes, at: nat): int
    requires at + 8 <= |bs|
  {
    Number32(bs, at) + 0x1_0000_0000 * Number32(bs, at + 4)
  }

  lemma FourBytes(bs: bytes)
    requires |bs| == 4
    ensures LeValue(bs) == Four(bs[0], bs[1], bs[2], bs[3])
  {
    assert LeValue(bs[1..]) == bs[1] + 0x100 * LeValue(bs[1..][1..]);
    assert LeValue(bs[1..][1..]) == bs[2] + 0x100 * LeValue(bs[1..][1..][1..]);
    assert LeValue(bs[1..][1..][1..]) == bs[3] + 0x100 * LeValue(bs[1..][1..][1..][1..]);
  }

  lemma EightBytes(bs: bytes)
    requires |bs| == 8
    ensures LeValue(bs) == LeValue(bs[..4]) + 0x1_0000_0000 * LeValue(bs[4..])
  {
    FourBytes(bs[..4]);
    assert bs[1..][1..] == bs[2..] && bs[2..][1..] == bs[3..] && bs[3..][1..] == bs[4..];
    assert LeValue(bs[1..]) == bs[1] + 0x100 * LeValue(bs[2..]) && LeValue(bs[2..]) == bs[2] + 0x100 * LeValue(bs[3..]);
    assert LeValue(bs[3..]) == bs[3] + 0x100 * LeValue(bs[4..]);
  }

  lemma Read32(bs: bytes, at: nat)
    requires at + 4 <= |bs|
    ensures U32At(bs, at) == Number32(bs, at)
  {
    FourBytes(bs[at..at + 4]);
  }

  lemma Read64(bs: bytes, at: nat)
    requires at + 8 <= |bs|
    ensures U64At(bs, at) == Number64(bs, at)
  {
    hide LeValue;
    EightBytes(bs[at..at + 8]);
    assert bs[at..at + 8][..4] == bs[at..at + 4] && bs[at..at + 8][4..] == bs[at + 4..at + 8];
    FourBytes(bs[at..at + 4]);
    FourBytes(bs[at + 4..at + 8]);
  }

  lemma Segment(bs: bytes, from: nat, to: nat, i: nat, j: nat)
    requires from + j <= to <= |bs| && i <= j
    ensures bs[from..to][i..j] == bs[from + i..from + j]
  {
    assert forall k :: 0 <= k < j - i ==> bs[from..to][i..j][k] == bs[from..to][i + k] == bs[from + i + k];
  }

  lemma TerminatedIff(s: bytes)
    ensures Terminated(s) <==> 0 in s
  {
  }

  // ---- the trailer ------------------------------------------------------------------

  /** The 280 bytes of a slot record. */
  ghost predicate SlotSays(image: bytes, at: nat, s: Slot)
    requires at + 280 <= |image|
  {
    && s.offset == Number64(image, at) && s.size == Number64(image, at + 8)
    && s.formatId == Number32(image, at + 16) && s.flags == Number32(image, at + 20)
    && s.mountPoint == image[at + 24..at + 280]
  }

  /** The 166 bytes of the header, and t, where it says the slot table is. */
  ghost predicate HeaderSays(image: bytes, at: nat, m: Manifest, t: int)
    requires at + 166 <= |image|
  {
    && m.version == Number32(image, at + 10) && m.packageFlags == Number32(image, at + 14)
    && m.slotCount == Number32(image, at + 18) && t == Number64(image, at + 22)
    && m.runtimeRef == image[at + 30..at + 158] && m.launcherAbi == Number32(image, at + 158)
  }

  /** "TEBAKOTFS" and a NUL. */
  ghost predicate Marked(image: bytes, at: nat)
    requires at + 10 <= |image|
  {
    image[at..at + 10] == [0x54, 0x45, 0x42, 0x41, 0x4B, 0x4F, 0x54, 0x46, 0x53, 0]
  }

  /** The last four bytes of the header are the CRC of those before. */
  ghost predicate Checked(image: bytes, at: nat)
    requires at + 166 <= |image|
  {
    image[at + 162..at + 166] == WordBytes(Crc32(image[at..at + 162]))
  }

  /** The records lie one after the other; a slot without one is all zero. */
  ghost predicate SlotsSay(image: bytes, m: Manifest, t: nat)
    requires m.slotCount <= 8 && t + 280 * m.slotCount <= |image|
  {
    && (forall i :: 0 <= i < m.slotCount ==> SlotSays(image, t + 280 * i, m.slots[i]))
    && (forall i :: m.slotCount <= i < 8 ==> m.slots[i] == Slot(0, 0, 0, 0, Zeros(256)))
  }

  /** The file ends in a header for m, with its slot table at t. */
  ghost predicate Layout(image: bytes, m: Manifest, t: nat) {
    && |image| >= 166
    && var h := |image| - 166;
    && Marked(image, h) && Checked(image, h) && HeaderSays(image, h, m, t)
    && m.slotCount <= 8 && t + 280 * m.slotCount <= h
    && SlotsSay(image, m, t)
  }

  ghost predicate SlotSound(s: Slot) {
    s.offset + s.size < 0x1_0000_0000_0000_0000 && s.formatId <= 4 && 0 in s.mountPoint
  }

  ghost predicate Sound(m: Manifest) {
    && m.version == 1 && 1 <= m.slotCount <= 8 && 0 in m.runtimeRef
    && forall i :: 0 <= i < m.slotCount ==> SlotSound(m.slots[i])
  }

  lemma SoundIff(m: Manifest)
    ensures Sound(m) <==> Valid(m)
  {
    TerminatedIff(m.runtimeRef);
    forall i | 0 <= i < 8 ensures SlotSound(m.slots[i]) <==> SlotValid(m.slots[i]) {
      TerminatedIff(m.slots[i].mountPoint);
    }
  }

  lemma ValidCounts(m: Manifest)
    ensures Valid(m) ==> m.version == 1 && 1 <= m.slotCount <= 8
  {
  }

  /** What validation makes of a manifest: the version first, then the count, then everything else. */
  lemma ValidationCodes(m: Manifest)
    ensures ValidationCode(m) ==
      if Sound(m) then Ok else if m.version != 1 then Version else if !(1 <= m.slotCount <= 8) then SlotCount else Invalid
  {
    SoundIff(m);
    ValidCounts(m);
    hide Valid, Sound;
  }

  // ---- reading ------------------------------------------------------------------------

  lemma InHeader(image: bytes, i: nat, j: nat)
    requires |image| >= 166 && i <= j <= 166
    ensures HeaderOf(image)[i..j] == image[|image| - 166 + i..|image| - 166 + j]
  {
    Segment(image, |image| - 166, |image|, i, j);
  }

  lemma Header32(image: bytes, at: nat)
    requires |image| >= 166 && at + 4 <= 166
    ensures U32At(HeaderOf(image), at) == Number32(image, |image| - 166 + at)
  {
    InHeader(image, at, at + 4);
    Read32(image, |image| - 166 + at);
  }

  lemma Header64(image: bytes, at: nat)
    requires |image| >= 166 && at + 8 <= 166
    ensures U64At(HeaderOf(image), at) == Number64(image, |image| - 166 + at)
  {
    InHeader(image, at, at + 8);
    Read64(image, |image| - 166 + at);
  }

  lemma StoredCrcIff(hdr: bytes)
    requires |hdr| == 166
    ensures Crc32(hdr[..162]) == Word4(hdr[162..]) <==> hdr[162..] == WordBytes(Crc32(hdr[..162]))
  {
    hide Crc32, Word4, WordBytes;
    WordOfBytes(hdr[162..]);
    BytesOfWord(Crc32(hdr[..162]));
  }

  /** The code for the header: the first of these checks that fails. */
  lemma HeaderCodes(image: bytes)
    requires |image| >= 166
    ensures var h := |image| - 166;
      HeaderCode(HeaderOf(image)) ==
        if image[h..h + 4] != [0x54, 0x45, 0x42, 0x41] then NoTrailer
        else if !Marked(image, h) then BadMagic
        else if !Checked(image, h) then BadCrc
        else if Number32(image, h + 10) != 1 then Version
        else if !(1 <= Number32(image, h + 18) <= 8) then SlotCount
        else Ok
  {
    hide Crc32, Word4, WordBytes, U32At, Number32, HeaderOf;
    var hdr := HeaderOf(image);
    InHeader(image, 0, 4);
    InHeader(image, 0, 10);
    InHeader(image, 0, 162);
    InHeader(image, 162, 166);
    assert hdr[..4] == hdr[0..4] && hdr[..10] == hdr[0..10] && hdr[..162] == hdr[0..162] && hdr[162..] == hdr[162..166];
    StoredCrcIff(hdr);
    Header32(image, 10);
    Header32(image, 18);
  }

  lemma ParsedHeader(image: bytes)
    requires |image| >= 166
    ensures var hdr, h := HeaderOf(image), |image| - 166;
      && U32At(hdr, 10) == Number32(image, h + 10) && U32At(hdr, 14) == Number32(image, h + 14)
      && U32At(hdr, 18) == Number32(image, h + 18) && U64At(hdr, 22) == Number64(image, h + 22)
      && hdr[30..158] == image[h + 30..h + 158] && U32At(hdr, 158) == Number32(image, h + 158)
  {
    hide U32At, U64At, Number32, Number64, HeaderOf;
    Header32(image, 10);
    Header32(image, 14);
    Header32(image, 18);
    Header64(image, 22);
    Header32(image, 158);
    InHeader(image, 30, 158);
  }

  lemma ParsedSlot(image: bytes, at: nat, s: Slot)
    requires at + 280 <= |image|
    ensures SlotSays(image, at, s) <==> s == ParseRecord(image[at..at + 280])
  {
    hide Number32, Number64;
    Read64(image, at);
    Read64(image, at + 8);
    Read32(image, at + 16);
    Read32(image, at + 20);
    Segment(image, at, at + 280, 0, 8);
    Segment(image, at, at + 280, 8, 16);
    Segment(image, at, at + 280, 16, 20);
    Segment(image, at, at + 280, 20, 24);
    Segment(image, at, at + 280, 24, 280);
  }

  lemma ParsedManifest(image: bytes, m: Manifest, t: nat)
    requires |image| >= 166 && t == U64At(HeaderOf(image), 22)
    requires U32At(HeaderOf(image), 18) <= 8 && t + 280 * U32At(HeaderOf(image), 18) <= |image| - 166
    ensures var hdr := HeaderOf(image);
      m == ParseManifest(hdr, image[t..t + 280 * U32At(hdr, 18)]) <==>
        HeaderSays(image, |image| - 166, m, t) && m.slotCount == U32At(hdr, 18) && SlotsSay(image, m, t)
  {
    hide U32At, U64At, Number32, Number64, HeaderOf, ParseRecord, SlotSays;
    var hdr := HeaderOf(image);
    var count := U32At(hdr, 18);
    var table := image[t..t + 280 * count];
    var p := ParseManifest(hdr, table);
    ParsedHeader(image);
    forall i | 0 <= i < count ensures SlotSays(image, t + 280 * i, m.slots[i]) <==> m.slots[i] == p.slots[i] {
      Segment(image, t, t + 280 * count, 280 * i, 280 * (i + 1));
      ParsedSlot(image, t + 280 * i, m.slots[i]);
    }
    forall i | 0 <= i < count ensures SlotSays(image, t + 280 * i, p.slots[i]) {
      Segment(image, t, t + 280 * count, 280 * i, 280 * (i + 1));
      ParsedSlot(image, t + 280 * i, p.slots[i]);
    }
    assert m.slots == p.slots <==> forall i :: 0 <= i < 8 ==> m.slots[i] == p.slots[i];
  }

  /** A reader finds m exactly if the file is laid out for it and m is sound. */
  lemma ReadIff(image: bytes, m: Manifest)
    ensures ReadImage(image) == Success(m) <==> Sound(m) && exists t :: Layout(image, m, t)
  {
    SoundIff(m);
    hide Sound, Valid, HeaderOf, Number32, Number64, HeaderCode, ParseManifest, SlotSays, Marked, Checked;
    if |image| >= 166 {
      HeaderCodes(image);
      ParsedHeader(image);
      var hdr := HeaderOf(image);
      var t := U64At(hdr, 22);
      ValidCounts(m);
      MarkedStart(image, |image| - 166);
      if TableFits(hdr, |image|) && U32At(hdr, 18) <= 8 {
        ParsedManifest(image, m, t);
      }
      if ReadImage(image) == Success(m) {
        assert Layout(image, m, t);
      }
      if k :| Layout(image, m, k) && Valid(m) {
        assert k == t;
      }
    }
  }

  lemma MarkedStart(image: bytes, at: nat)
    requires at + 10 <= |image|
    ensures Marked(image, at) ==> image[at..at + 4] == [0x54, 0x45, 0x42, 0x41]
  {
    assert image[at..at + 4] == image[at..at + 10][..4];
  }

  /** Why a file has no readable trailer. "TEBA" in its place tells a damaged one from none. */
  lemma ReadErrors(image: bytes)
    ensures |image| < 166 ==> ReadImage(image) == Failure(NoTrailer)
    ensures |image| >= 166 && ReadImage(image).Failure? ==>
      var h := |image| - 166;
      var n, t := Number32(image, h + 18), Number64(image, h + 22);
      ReadImage(image).error ==
        if image[h..h + 4] != [0x54, 0x45, 0x42, 0x41] then NoTrailer
        else if !Marked(image, h) then BadMagic
        else if !Checked(image, h) then BadCrc
        else if Number32(image, h + 10) != 1 then Version
        else if !(1 <= n <= 8) then SlotCount
        else if t + 280 * n > h then Bounds
        else Invalid
  {
    hide Valid, HeaderOf, Number32, Number64, HeaderCode, ParseManifest, Marked, Checked;
    if |image| >= 166 {
      HeaderCodes(image);
      ParsedHeader(image);
    }
  }

  // ---- writing ------------------------------------------------------------------------

  /** The same text: equal up to the first NUL, and nothing but NULs after it. */
  ghost predicate SameText(a: bytes, b: bytes) {
    |a| == |b| && forall i :: 0 <= i < |a| ==> b[i] == if 0 in a[..i] then 0 else a[i]
  }

  lemma PaddedText(a: bytes)
    ensures SameText(a, PutStr(a))
  {
    var n := StrLen(a);
    forall i | 0 <= i < |a| ensures PutStr(a)[i] == if 0 in a[..i] then 0 else a[i] {
      assert n < i ==> a[..i][n] == 0;
    }
  }

  /** What is read of a written manifest: everything but what lies behind a NUL or in an unused slot. */
  lemma CanonicalTells(m: Manifest)
    requires m.slotCount <= 8
    ensures var c := Canonical(m);
      && c.version == m.version && c.packageFlags == m.packageFlags && c.slotCount == m.slotCount
      && c.launcherAbi == m.launcherAbi && SameText(m.runtimeRef, c.runtimeRef)
      && (forall i :: 0 <= i < m.slotCount ==> SameText(m.slots[i].mountPoint, c.slots[i].mountPoint))
      && (forall i :: 0 <= i < m.slotCount ==> c.slots[i] == m.slots[i].(mountPoint := c.slots[i].mountPoint))
  {
    hide PutStr, SameText;
    PaddedText(m.runtimeRef);
    forall i | 0 <= i < m.slotCount ensures SameText(m.slots[i].mountPoint, Canonical(m).slots[i].mountPoint) {
      PaddedText(m.slots[i].mountPoint);
    }
  }

  lemma TableNamed(image: bytes, m: Manifest, t: nat)
    requires Layout(image, m, t)
    ensures t == TableOffset(image)
  {
    ParsedHeader(image);
  }

  lemma TableIsAt(image: bytes, m: Manifest)
    requires ReadImage(image) == Success(m)
    ensures Layout(image, m, TableOffset(image))
  {
    ReadIff(image, m);
    hide Layout;
    var t :| Layout(image, m, t);
    TableNamed(image, m, t);
  }

  /** A written trailer: the records start at the old end of the file, and the header says so. */
  lemma WrittenLayout(prefix: bytes, m: Manifest)
    requires Sound(m) && |prefix| < 0x1_0000_0000_0000_0000
    ensures var image := prefix + Trailer(m, |prefix|);
      |image| == |prefix| + 280 * m.slotCount + 166 && Layout(image, Canonical(m), |prefix|)
  {
    SoundIff(m);
    hide ReadImage, Canonical, Layout, TableOffset;
    AppendedTrailerReads(prefix, m);
    TrailerTable(prefix, m);
    TableIsAt(prefix + Trailer(m, |prefix|), Canonical(m));
  }

  // ---- assembled packages ------------------------------------------------------------------

  /** The size of the first n images. */
  function Total(slots: seq<SlotPart>, n: nat): nat
    requires n <= |slots|
  {
    if n == 0 then 0 else Total(slots, n - 1) + |slots[n - 1].data|
  }

  /** The field holds the text up to its first NUL, and NULs. */
  ghost predicate Holds(field: bytes, text: bytes) {
    |text| < |field| && forall i :: 0 <= i < |field| ==> field[i] == if i < |text| && 0 !in text[..i] then text[i] else 0
  }

  lemma FieldHolds(text: bytes, width: nat)
    requires |text| < width
    ensures Holds(Field(text, width), text)
  {
    var n := StrLen(text);
    forall i | 0 <= i < width ensures Field(text, width)[i] == if i < |text| && 0 !in text[..i] then text[i] else 0 {
      assert n < i <= |text| ==> text[..i][n] == 0;
    }
  }

  lemma {:induction false} TotalIs(slots: seq<SlotPart>, n: nat)
    requires n <= |slots|
    ensures |SlotData(slots[..n])| == Total(slots, n)
  {
    if n > 0 {
      TotalIs(slots, n - 1);
      assert slots[..n][..n - 1] == slots[..n - 1];
    }
  }

  /** Slot i of the manifest m tells of image i, and the image is where it tells. */
  ghost predicate ImageAt(image: bytes, p: Package, m: Manifest, i: nat)
    requires i < |p.slots| <= 8
  {
    var s, part := m.slots[i], p.slots[i];
    && s.offset == |p.bootstrap| + Total(p.slots, i) && s.size == |part.data|
    && s.formatId == part.formatId && s.flags == part.flags && Holds(s.mountPoint, part.mountPoint)
    && s.offset + s.size <= |image| && image[s.offset..s.offset + s.size] == part.data
  }

  lemma PayloadAt(p: Package, i: nat)
    requires Assemblable(p) && i < |p.slots|
    ensures ImageAt(Assembled(p), p, ManifestOf(p), i)
  {
    hide Trailer, Holds;
    TotalIs(p.slots, i);
    OffsetInPayload(p, i);
    FieldHolds(p.slots[i].mountPoint, 256);
    assert ManifestOf(p).slots[i] == SlotRecord(p, i);
    assert Assembled(p)[OffsetOf(p, i)..OffsetOf(p, i + 1)] == Payload(p)[OffsetOf(p, i)..OffsetOf(p, i + 1)];
  }

  /** The fields that are about the whole package. */
  ghost predicate Introduces(p: Package, m: Manifest) {
    && m.version == 1 && m.slotCount == |p.slots| <= 8 && m.packageFlags == p.options.packageFlags
    && m.launcherAbi == p.options.launcherAbi && Holds(m.runtimeRef, p.options.runtimeRef)
  }

  lemma AssembledHeader(p: Package)
    requires Assemblable(p)
    ensures Introduces(p, ManifestOf(p))
  {
    hide Holds, SlotRecord, Field;
    FieldHolds(p.options.runtimeRef, 128);
  }

  /** Where the images end. */
  function EndOf(p: Package): nat {
    |p.bootstrap| + Total(p.slots, |p.slots|)
  }

  lemma AssembledEnd(p: Package)
    requires Assemblable(p)
    ensures |Payload(p)| == EndOf(p) && Assembled(p)[..|p.bootstrap|] == p.bootstrap
  {
    hide Trailer, ManifestOf;
    TotalIs(p.slots, |p.slots|);
    assert p.slots[..|p.slots|] == p.slots;
  }

  /** The sizes, and what a reader finds. */
  lemma AssembledFacts(image: bytes, p: Package)
    requires IsAssembled(image, p)
    ensures |p.slots| <= 8 && |image| == EndOf(p) + 280 * |p.slots| + 166
    ensures |p.bootstrap| <= |image| && image[..|p.bootstrap|] == p.bootstrap
    ensures ReadImage(image) == Success(ManifestOf(p)) && TableOffset(image) == EndOf(p)
  {
    hide ReadImage, TableOffset, Trailer, EndOf;
    AssembledEnd(p);
    AssembledReads(p);
  }

  /** The bootstrap and the images one behind the other, then the records, then the header. */
  ghost predicate LaidOut(image: bytes, p: Package, m: Manifest) {
    && |p.slots| <= 8 && |image| == EndOf(p) + 280 * |p.slots| + 166 && Layout(image, m, EndOf(p))
    && |p.bootstrap| <= |image| && image[..|p.bootstrap|] == p.bootstrap
    && forall i :: 0 <= i < |p.slots| ==> ImageAt(image, p, m, i)
  }

  /** An assembled file has that layout; what is read from it tells of the package and of every image in it. */
  lemma AssembledLayout(image: bytes, p: Package, m: Manifest)
    requires IsAssembled(image, p) && ReadImage(image) == Success(m)
    ensures LaidOut(image, p, m) && Introduces(p, m)
  {
    AssembledFacts(image, p);
    AssembledHeader(p);
    TableIsAt(image, m);
    hide Layout, ReadImage, EndOf, ImageAt, Introduces, TableOffset, ManifestOf, Assembled, Assemblable;
    forall i | 0 <= i < |p.slots| ensures ImageAt(image, p, m, i) { PayloadAt(p, i); }
  }

  // ---- taking apart ---------------------------------------------------------------------------

  /** t is the text in a field: what comes before its first NUL. */
  ghost predicate TextIn(field: bytes, t: bytes) {
    |t| < |field| && field[..|t|] == t && field[|t|] == 0 && 0 !in t
  }

  lemma CStringIs(field: bytes)
    requires Terminated(field)
    ensures TextIn(field, CString(field))
  {
  }

  /** What a package is taken apart into: the bytes before its first image, and the range of each slot. */
  lemma TakenApart(image: bytes, m: Manifest)
    requires InBounds(image) && ReadImage(image) == Success(m)
    ensures var p := PackageOf(image);
      && |p.slots| == m.slotCount && m.slots[0].offset <= |image| && p.bootstrap == image[..m.slots[0].offset]
      && p.options.packageFlags == m.packageFlags && p.options.launcherAbi == m.launcherAbi
      && TextIn(m.runtimeRef, p.options.runtimeRef)
      && forall i :: 0 <= i < m.slotCount ==> TakenFrom(image, m.slots[i], p.slots[i])
  {
    ReadIff(image, m);
    SoundIff(m);
    hide ReadImage, TableOffset, TextIn, CString, Layout, Terminated;
    TableInImage(image);
    CStringIs(m.runtimeRef);
    forall i | 0 <= i < m.slotCount ensures TakenFrom(image, m.slots[i], PackageOf(image).slots[i]) {
      CStringIs(m.slots[i].mountPoint);
    }
  }

  ghost predicate TakenFrom(image: bytes, s: Slot, part: SlotPart) {
    && s.offset + s.size <= |image| && part.data == image[s.offset..s.offset + s.size]
    && part.formatId == s.formatId && part.flags == s.flags && TextIn(s.mountPoint, part.mountPoint)
  }

  /** The packages assemble accepts: up to 8 images, texts that fit their fields, known formats, a file that fits. */
  lemma AssemblableIff(p: Package)
    ensures Assemblable(p) <==>
      && 1 <= |p.slots| <= 8 && |p.options.runtimeRef| < 128
      && (forall i :: 0 <= i < |p.slots| ==> |p.slots[i].mountPoint| < 256 && p.slots[i].formatId <= 4)
      && EndOf(p) + 280 * |p.slots| + 166 <= 0x7FFF_FFFF_FFFF_FFFF
  {
    TotalIs(p.slots, |p.slots|);
    assert p.slots[..|p.slots|] == p.slots;
  }
}
