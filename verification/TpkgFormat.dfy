/** The tpkg manifest trailer: structures, wire layout, and what a reader makes of any bytes. */
module TpkgFormat {
  import opened Bytes
  import opened Words
  import opened Crc

  // ---- format constants (tpkg.h) ---------------------------------------------

  const VERSION := 1
  const MAX_SLOTS := 8
  const HEADER_SIZE := 166
  const SLOT_SIZE := 280
  const MOUNT_POINT_LEN := 256
  const RUNTIME_REF_LEN := 128
  const FORMAT_RUNTIME := 4

  const OFF_VERSION := 10
  const OFF_PACKAGE_FLAGS := 14
  const OFF_SLOT_COUNT := 18
  const OFF_TABLE := 22
  const OFF_RUNTIME_REF := 30
  const OFF_LAUNCHER_ABI := 158
  const OFF_CRC := 162

  const REC_SIZE := 8
  const REC_FORMAT := 16
  const REC_FLAGS := 20
  const REC_MOUNT := 24

  /** "TEBAKOTFS" and its terminating NUL; the first four bytes tell absent from corrupt. */
  const MAGIC: bytes := [0x54, 0x45, 0x42, 0x41, 0x4B, 0x4F, 0x54, 0x46, 0x53, 0]
  const MAGIC_PREFIX: bytes := [0x54, 0x45, 0x42, 0x41]

  datatype ErrCode =
    Ok | NoTrailer | BadMagic | BadCrc | Io | Bounds | SlotCount | Invalid | Arg | Version

  datatype Result<+T> = Success(value: T) | Failure(error: ErrCode)

  // ---- structures --------------------------------------------------------------

  type MountField = b: bytes | |b| == MOUNT_POINT_LEN witness Zeros(MOUNT_POINT_LEN)
  type RefField = b: bytes | |b| == RUNTIME_REF_LEN witness Zeros(RUNTIME_REF_LEN)

  datatype Slot = Slot(offset: u64, size: u64, formatId: u32, flags: u32, mountPoint: MountField)

  const ZERO_SLOT := Slot(0, 0, 0, 0, Zeros(MOUNT_POINT_LEN))

  type Slots = s: seq<Slot> | |s| == MAX_SLOTS witness seq(MAX_SLOTS, _ => ZERO_SLOT)

  datatype Manifest = Manifest(
    version: u32, packageFlags: u32, slotCount: u32, launcherAbi: u32, runtimeRef: RefField, slots: Slots)

  // ---- strings in fixed fields --------------------------------------------------

  /** tpkg__strnlen: the number of bytes before the first NUL, or the whole width. */
  function StrLen(s: bytes): (n: nat)
    ensures n <= |s|
    ensures forall i :: 0 <= i < n ==> s[i] != 0
    ensures n < |s| ==> s[n] == 0
  {
    if s == [] || s[0] == 0 then 0 else 1 + StrLen(s[1..])
  }

  function CString(s: bytes): bytes {
    s[..StrLen(s)]
  }

  predicate Terminated(s: bytes) {
    StrLen(s) < |s|
  }

  /** tpkg__put_str: the string, zero-padded to the field. */
  function Padded(s: bytes, width: nat): (r: bytes)
    requires |s| <= width
    ensures |r| == width
  {
    s + Zeros(width - |s|)
  }

  function PutStr(s: bytes): (r: bytes)
    ensures |r| == |s|
  {
    Padded(CString(s), |s|)
  }

  lemma StrLenUnique(s: bytes, n: nat)
    requires n <= |s| && (forall i :: 0 <= i < n ==> s[i] != 0) && (n < |s| ==> s[n] == 0)
    ensures StrLen(s) == n
  {
  }

  /** Padding keeps the string, and does nothing the second time. */
  lemma PutStrKeepsString(s: bytes)
    ensures CString(PutStr(s)) == CString(s)
    ensures Terminated(PutStr(s)) <==> Terminated(s)
    ensures PutStr(PutStr(s)) == PutStr(s)
  {
    StrLenUnique(PutStr(s), StrLen(s));
  }

  // ---- validation ----------------------------------------------------------------

  predicate SlotValid(s: Slot) {
    s.offset + s.size <= U64_MAX && s.formatId <= FORMAT_RUNTIME && Terminated(s.mountPoint)
  }

  /** What tpkg_validate promises of an accepted manifest. */
  ghost predicate Valid(m: Manifest) {
    && m.version == VERSION
    && 1 <= m.slotCount <= MAX_SLOTS
    && Terminated(m.runtimeRef)
    && forall i :: 0 <= i < m.slotCount ==> SlotValid(m.slots[i])
  }

  /** The code tpkg_validate leaves: the first check that fails. */
  ghost function ValidationCode(m: Manifest): ErrCode {
    if m.version != VERSION then Version
    else if !(1 <= m.slotCount <= MAX_SLOTS) then SlotCount
    else if Valid(m) then Ok
    else Invalid
  }

  // ---- the trailer as written -----------------------------------------------------

  function Record(s: Slot): (r: bytes)
    ensures |r| == SLOT_SIZE
  {
    LeBytes(s.offset, 8) + LeBytes(s.size, 8) + LeBytes(s.formatId, 4) + LeBytes(s.flags, 4) + PutStr(s.mountPoint)
  }

  function Table(slots: seq<Slot>): (r: bytes)
    ensures |r| == SLOT_SIZE * |slots|
  {
    if slots == [] then [] else Table(slots[..|slots| - 1]) + Record(slots[|slots| - 1])
  }

  function HeaderBody(m: Manifest, tableOffset: u64): (r: bytes)
    ensures |r| == OFF_CRC
  {
    MAGIC + LeBytes(m.version, 4) + LeBytes(m.packageFlags, 4) + LeBytes(m.slotCount, 4) + LeBytes(tableOffset, 8) +
    PutStr(m.runtimeRef) + LeBytes(m.launcherAbi, 4)
  }

  function Header(m: Manifest, tableOffset: u64): (r: bytes)
    ensures |r| == HEADER_SIZE
  {
    HeaderBody(m, tableOffset) + WordBytes(Crc32(HeaderBody(m, tableOffset)))
  }

  function TrailerSize(slotCount: nat): nat {
    SLOT_SIZE * slotCount + HEADER_SIZE
  }

  /** What tpkg_write_fd appends to a file of size `end`. */
  function Trailer(m: Manifest, end: u64): (r: bytes)
    requires m.slotCount <= MAX_SLOTS
    ensures |r| == TrailerSize(m.slotCount)
  {
    Table(m.slots[..m.slotCount]) + Header(m, end)
  }

  // ---- the trailer as read ----------------------------------------------------------

  function ParseRecord(rec: bytes): Slot
    requires |rec| == SLOT_SIZE
  {
    Slot(U64At(rec, 0), U64At(rec, REC_SIZE), U32At(rec, REC_FORMAT), U32At(rec, REC_FLAGS), rec[REC_MOUNT..])
  }

  function RecordAt(table: bytes, i: nat): bytes
    requires SLOT_SIZE * (i + 1) <= |table|
  {
    table[SLOT_SIZE * i..SLOT_SIZE * (i + 1)]
  }

  function ParseSlots(table: bytes, count: nat): (r: seq<Slot>)
    requires SLOT_SIZE * count <= |table|
    ensures |r| == count
  {
    seq(count, i requires 0 <= i < count => ParseRecord(RecordAt(table, i)))
  }

  function ParseManifest(hdr: bytes, table: bytes): Manifest
    requires |hdr| == HEADER_SIZE
    requires U32At(hdr, OFF_SLOT_COUNT) <= MAX_SLOTS && |table| == SLOT_SIZE * U32At(hdr, OFF_SLOT_COUNT)
  {
    var count := U32At(hdr, OFF_SLOT_COUNT);
    Manifest(
      U32At(hdr, OFF_VERSION), U32At(hdr, OFF_PACKAGE_FLAGS), count, U32At(hdr, OFF_LAUNCHER_ABI),
      hdr[OFF_RUNTIME_REF..OFF_LAUNCHER_ABI],
      ParseSlots(table, count) + seq(MAX_SLOTS - count, _ => ZERO_SLOT))
  }

  function HeaderOf(image: bytes): (hdr: bytes)
    requires |image| >= HEADER_SIZE
    ensures |hdr| == HEADER_SIZE
  {
    image[|image| - HEADER_SIZE..]
  }

  /** The checks on the header alone, in the reader's order. */
  function HeaderCode(hdr: bytes): ErrCode
    requires |hdr| == HEADER_SIZE
  {
    if hdr[..4] != MAGIC_PREFIX then NoTrailer
    else if hdr[..OFF_VERSION] != MAGIC then BadMagic
    else if Crc32(hdr[..OFF_CRC]) != Word4(hdr[OFF_CRC..]) then BadCrc
    else if U32At(hdr, OFF_VERSION) != VERSION then Version
    else if !(1 <= U32At(hdr, OFF_SLOT_COUNT) <= MAX_SLOTS) then SlotCount
    else Ok
  }

  predicate TableFits(hdr: bytes, size: nat)
    requires |hdr| == HEADER_SIZE && size >= HEADER_SIZE
  {
    U64At(hdr, OFF_TABLE) + SLOT_SIZE * U32At(hdr, OFF_SLOT_COUNT) <= size - HEADER_SIZE
  }

  /** The manifest a reader finds at the end of a file, or why it finds none. */
  ghost function ReadImage(image: bytes): Result<Manifest> {
    if |image| < HEADER_SIZE then Failure(NoTrailer)
    else
      var hdr := HeaderOf(image);
      if HeaderCode(hdr) != Ok then Failure(HeaderCode(hdr))
      else if !TableFits(hdr, |image|) then Failure(Bounds)
      else
        var at, count := U64At(hdr, OFF_TABLE), U32At(hdr, OFF_SLOT_COUNT);
        var m := ParseManifest(hdr, image[at..at + SLOT_SIZE * count]);
        if Valid(m) then Success(m) else Failure(Invalid)
  }

  /** m as a reader reports it: strings up to their NUL, unused slots cleared. */
  function Canonical(m: Manifest): Manifest
    requires m.slotCount <= MAX_SLOTS
  {
    m.(runtimeRef := PutStr(m.runtimeRef),
       slots := seq(MAX_SLOTS, i requires 0 <= i < MAX_SLOTS =>
                  if i < m.slotCount then m.slots[i].(mountPoint := PutStr(m.slots[i].mountPoint)) else ZERO_SLOT))
  }

  lemma CanonicalValid(m: Manifest)
    requires Valid(m)
    ensures Valid(Canonical(m))
  {
    PutStrKeepsString(m.runtimeRef);
    forall i | 0 <= i < m.slotCount ensures SlotValid(Canonical(m).slots[i]) {
      assert SlotValid(m.slots[i]);
      PutStrKeepsString(m.slots[i].mountPoint);
    }
  }

  // ---- round trips --------------------------------------------------------------------

  lemma {:induction false} TableRecord(slots: seq<Slot>, i: nat)
    requires i < |slots|
    ensures RecordAt(Table(slots), i) == Record(slots[i])
    decreases |slots|
  {
    hide Record;
    var last := |slots| - 1;
    if i < last {
      TableRecord(slots[..last], i);
      assert RecordAt(Table(slots), i) == RecordAt(Table(slots[..last]), i);
    }
  }

  lemma U32Field(bs: bytes, at: nat, v: u32)
    requires at + 4 <= |bs| && bs[at..at + 4] == LeBytes(v, 4)
    ensures U32At(bs, at) == v
  {
    U32Bytes(v);
  }

  lemma U64Field(bs: bytes, at: nat, v: u64)
    requires at + 8 <= |bs| && bs[at..at + 8] == LeBytes(v, 8)
    ensures U64At(bs, at) == v
  {
    U64Bytes(v);
  }

  lemma ParseOfRecord(s: Slot)
    ensures ParseRecord(Record(s)) == s.(mountPoint := PutStr(s.mountPoint))
  {
    hide PutStr, LeBytes, LeValue, U32At, U64At;
    var r := Record(s);
    U64Field(r, 0, s.offset);
    U64Field(r, 8, s.size);
    U32Field(r, 16, s.formatId);
    U32Field(r, 20, s.flags);
    assert r[24..] == PutStr(s.mountPoint);
  }

  lemma HeaderFields(m: Manifest, end: u64)
    ensures var h := Header(m, end);
            && h[..OFF_VERSION] == MAGIC
            && h[..OFF_CRC] == HeaderBody(m, end)
            && h[OFF_CRC..] == WordBytes(Crc32(HeaderBody(m, end)))
            && U32At(h, OFF_VERSION) == m.version
            && U32At(h, OFF_PACKAGE_FLAGS) == m.packageFlags
            && U32At(h, OFF_SLOT_COUNT) == m.slotCount
            && U64At(h, OFF_TABLE) == end
            && h[OFF_RUNTIME_REF..OFF_LAUNCHER_ABI] == PutStr(m.runtimeRef)
            && U32At(h, OFF_LAUNCHER_ABI) == m.launcherAbi
  {
    hide Crc32, WordBytes, PutStr, LeBytes, LeValue, U32At, U64At;
    var h := Header(m, end);
    var body := HeaderBody(m, end);
    assert h[..162] == body;
    U32Field(h, 10, m.version);
    U32Field(h, 14, m.packageFlags);
    U32Field(h, 18, m.slotCount);
    U64Field(h, 22, end);
    U32Field(h, 158, m.launcherAbi);
  }

  lemma HeaderPasses(m: Manifest, end: u64)
    requires Valid(m)
    ensures HeaderCode(Header(m, end)) == Ok
  {
    hide Crc32, WordBytes, Word4, HeaderBody, Header;
    var h := Header(m, end);
    HeaderFields(m, end);
    assert h[..4] == h[..OFF_VERSION][..4] == MAGIC_PREFIX;
    BytesOfWord(Crc32(HeaderBody(m, end)));
  }

  lemma ParseOfTable(m: Manifest)
    requires m.slotCount <= MAX_SLOTS
    ensures ParseSlots(Table(m.slots[..m.slotCount]), m.slotCount) == Canonical(m).slots[..m.slotCount]
  {
    hide Record, ParseRecord, PutStr, RecordAt;
    var slots := m.slots[..m.slotCount];
    forall i | 0 <= i < m.slotCount
      ensures ParseSlots(Table(slots), m.slotCount)[i] == Canonical(m).slots[i]
    {
      TableRecord(slots, i);
      ParseOfRecord(slots[i]);
    }
  }

  /**
   * Appending the trailer of a valid manifest to any bytes at all, even bytes that
   * already end in a trailer, and reading back gives that manifest.
   */
  lemma AppendedTrailerReads(prefix: bytes, m: Manifest)
    requires Valid(m) && |prefix| < U64_LIMIT
    ensures ReadImage(prefix + Trailer(m, |prefix|)) == Success(Canonical(m))
  {
    hide Crc32, HeaderBody, Header, HeaderCode, PutStr, ParseSlots;
    var table := Table(m.slots[..m.slotCount]);
    var h := Header(m, |prefix|);
    var image := prefix + Trailer(m, |prefix|);
    assert image == prefix + table + h;
    assert HeaderOf(image) == h;
    HeaderPasses(m, |prefix|);
    HeaderFields(m, |prefix|);
    assert image[|prefix|..|prefix| + SLOT_SIZE * m.slotCount] == table;
    ParseOfTable(m);
    CanonicalValid(m);
    assert ParseManifest(h, table).slots == Canonical(m).slots;
    assert ParseManifest(h, table) == Canonical(m);
  }

  /** A manifest is determined by its trailer up to padding and unused slots. */
  lemma TrailerInjective(m: Manifest, n: Manifest, end: u64)
    requires Valid(m) && Valid(n) && Trailer(m, end) == Trailer(n, end)
    ensures Canonical(m) == Canonical(n)
  {
    AppendedTrailerReads(Zeros(end), m);
    AppendedTrailerReads(Zeros(end), n);
  }

  // ---- the reader is exact ---------------------------------------------------------------

  lemma RecordOfParse(rec: bytes)
    requires |rec| == SLOT_SIZE && PutStr(rec[REC_MOUNT..]) == rec[REC_MOUNT..]
    ensures Record(ParseRecord(rec)) == rec
  {
    hide PutStr, LeBytes, LeValue;
    LeBytesOfValue(rec[0..8]);
    LeBytesOfValue(rec[8..16]);
    LeBytesOfValue(rec[16..20]);
    LeBytesOfValue(rec[20..24]);
    assert rec == rec[0..8] + rec[8..16] + rec[16..20] + rec[20..24] + rec[24..];
  }

  lemma {:induction false} TableOfParse(table: bytes, count: nat)
    requires |table| == SLOT_SIZE * count
    requires forall i :: 0 <= i < count ==> Record(ParseSlots(table, count)[i]) == RecordAt(table, i)
    ensures Table(ParseSlots(table, count)) == table
  {
    hide Record, ParseRecord;
    if count > 0 {
      var front := table[..SLOT_SIZE * (count - 1)];
      forall i | 0 <= i < count - 1
        ensures ParseSlots(front, count - 1)[i] == ParseSlots(table, count)[i]
      {
        assert RecordAt(front, i) == RecordAt(table, i);
      }
      assert ParseSlots(table, count)[..count - 1] == ParseSlots(front, count - 1);
      forall i | 0 <= i < count - 1
        ensures Record(ParseSlots(front, count - 1)[i]) == RecordAt(front, i)
      {
        assert RecordAt(front, i) == RecordAt(table, i);
      }
      TableOfParse(front, count - 1);
      assert table == front + RecordAt(table, count - 1);
    }
  }

  lemma CutUp(bs: bytes, i: nat, j: nat)
    requires i <= j <= |bs|
    ensures bs[..j] == bs[..i] + bs[i..j]
  {
  }

  lemma HeaderOfParse(hdr: bytes, m: Manifest)
    requires |hdr| == HEADER_SIZE && HeaderCode(hdr) == Ok
    requires m.version == U32At(hdr, OFF_VERSION) && m.packageFlags == U32At(hdr, OFF_PACKAGE_FLAGS)
    requires m.slotCount == U32At(hdr, OFF_SLOT_COUNT) && m.launcherAbi == U32At(hdr, OFF_LAUNCHER_ABI)
    requires PutStr(m.runtimeRef) == hdr[OFF_RUNTIME_REF..OFF_LAUNCHER_ABI]
    ensures Header(m, U64At(hdr, OFF_TABLE)) == hdr
  {
    hide Crc32, WordBytes, Word4, PutStr, LeBytes, LeValue;
    LeBytesOfValue(hdr[10..14]);
    LeBytesOfValue(hdr[14..18]);
    LeBytesOfValue(hdr[18..22]);
    LeBytesOfValue(hdr[22..30]);
    LeBytesOfValue(hdr[158..162]);
    CutUp(hdr, 10, 14);
    CutUp(hdr, 14, 18);
    CutUp(hdr, 18, 22);
    CutUp(hdr, 22, 30);
    CutUp(hdr, 30, 158);
    CutUp(hdr, 158, 162);
    assert hdr[..162] == hdr[..10] + hdr[10..14] + hdr[14..18] + hdr[18..22] + hdr[22..30] + hdr[30..158] + hdr[158..162];
    assert HeaderBody(m, U64At(hdr, OFF_TABLE)) == hdr[..162];
    WordOfBytes(hdr[162..]);
    assert hdr == hdr[..162] + hdr[162..];
  }

  lemma PaddedTable(m: Manifest, table: bytes)
    requires m.slotCount <= MAX_SLOTS && m == Canonical(m) && |table| == SLOT_SIZE * m.slotCount
    requires m.slots[..m.slotCount] == ParseSlots(table, m.slotCount)
    ensures Table(m.slots[..m.slotCount]) == table
  {
    hide PutStr, ParseRecord, Record, Canonical;
    forall i | 0 <= i < m.slotCount
      ensures Record(ParseSlots(table, m.slotCount)[i]) == RecordAt(table, i)
    {
      assert m.slots[i] == ParseSlots(table, m.slotCount)[i];
      SlotIsPadded(m, table, i);
      RecordOfParse(RecordAt(table, i));
    }
    TableOfParse(table, m.slotCount);
  }

  /**
   * An image whose manifest m reads back, whose fixed string fields are zero-padded
   * and whose slot table touches the header is, byte for byte, what the writer
   * appends for m. With AppendedTrailerReads: reading inverts writing both ways.
   */
  lemma PaddedImageIsWritten(image: bytes)
    requires |image| < U64_LIMIT && ReadImage(image).Success?
    requires ReadImage(image).value == Canonical(ReadImage(image).value)
    requires U64At(HeaderOf(image), OFF_TABLE) + TrailerSize(ReadImage(image).value.slotCount) == |image|
    ensures var m, end := ReadImage(image).value, U64At(HeaderOf(image), OFF_TABLE);
            image == image[..end] + Trailer(m, end)
  {
    hide Crc32, Header, HeaderCode, PutStr, ParseRecord, Record, Table, RecordAt;
    var m, end, hdr := ReadImage(image).value, U64At(HeaderOf(image), OFF_TABLE), HeaderOf(image);
    var table := image[end..end + SLOT_SIZE * m.slotCount];
    HeaderOfParse(hdr, m);
    assert m.slots[..m.slotCount] == ParseSlots(table, m.slotCount);
    PaddedTable(m, table);
    assert image == image[..end] + table + hdr;
  }

  lemma SlotIsPadded(m: Manifest, table: bytes, i: nat)
    requires m.slotCount <= MAX_SLOTS && m == Canonical(m) && |table| == SLOT_SIZE * m.slotCount && i < m.slotCount
    requires m.slots[i] == ParseRecord(RecordAt(table, i))
    ensures PutStr(RecordAt(table, i)[REC_MOUNT..]) == RecordAt(table, i)[REC_MOUNT..]
  {
    hide PutStr, RecordAt;
    assert Canonical(m).slots[i].mountPoint == PutStr(m.slots[i].mountPoint);
  }

  // ---- corruption ----------------------------------------------------------------------------

  lemma ReadableHeaderHasResidue(hdr: bytes)
    requires |hdr| == HEADER_SIZE
    ensures Crc32(hdr[..OFF_CRC]) == Word4(hdr[OFF_CRC..]) <==> Feed(ONES, hdr) == RESIDUE
  {
    hide Crc32, Word4, WordBytes, Feed, RESIDUE;
    StoredCrc(hdr[..OFF_CRC], hdr[OFF_CRC..]);
    WordOfBytes(hdr[OFF_CRC..]);
    BytesOfWord(Crc32(hdr[..OFF_CRC]));
    assert hdr == hdr[..OFF_CRC] + hdr[OFF_CRC..];
  }

  /**
   * Changing any one to four adjacent bytes of the header of a readable image, the
   * stored CRC included, makes the reader fail, at one of its first three checks.
   */
  lemma CorruptHeaderRejected(image: bytes, at: nat, patch: bytes)
    requires ReadImage(image).Success?
    requires |image| - HEADER_SIZE <= at && |patch| <= 4 && at + |patch| <= |image|
    requires patch != image[at..at + |patch|]
    ensures var damaged := Patched(image, at, patch);
            && ReadImage(damaged).Failure?
            && ReadImage(damaged).error in {NoTrailer, BadMagic, BadCrc}
  {
    hide Crc32, Word4, Feed, ParseManifest, RESIDUE;
    var base := |image| - HEADER_SIZE;
    var damaged := Patched(image, at, patch);
    var hdr, hdr' := HeaderOf(image), HeaderOf(damaged);
    var before, after := hdr[..at - base], hdr[at - base + |patch|..];
    var was := image[at..at + |patch|];
    assert hdr == before + was + after;
    assert hdr' == before + patch + after;
    BurstDetected(ONES, before, was, patch, after);
    ReadableHeaderHasResidue(hdr);
    ReadableHeaderHasResidue(hdr');
  }
}
