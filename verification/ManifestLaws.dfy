/**
 * What a successful unbundle leaves behind, said of the files themselves: manifest.json,
 * parsed, tells of every part where it was in the package, how it is flagged, and the CRC
 * of the file it is in now (src/cli/package.cpp).
 */
module ManifestLaws {
  import opened Bytes
  import opened Crc
  import opened HostFiles
  import TF = TpkgFormat
  import opened PackageFormat
  import opened PackageLaws
  import opened JsonFormat
  import opened JsonRoundTrip
  import opened ManifestJson
  import opened PackagePlan
  import Unbundling

  /** The member of that name is the number n. */
  ghost predicate Number64(v: JsonValue, key: string, n: int) {
    0 <= n < U64_LIMIT && v.Find(key).Some? && v.Find(key).value.AsU64() == Some(n)
  }

  ghost predicate TextIs(v: JsonValue, key: string, t: string) {
    v.Find(key) == Some(String(t))
  }

  lemma Printed(v: JsonValue, key: string, n: u64)
    requires v.Find(key) == Some(Number(Decimal(n)))
    ensures Number64(v, key, n)
  {
    hide Decimal, StrToULL;
    DecimalRoundTrip(n);
  }

  /** The CRC of a file, as the number that is printed. */
  function CrcNumber(data: bytes): u32 {
    WordValue(Crc32(data))
  }

  function ImageFile(i: nat): string {
    "image-" + Decimal(i) + ".bin"
  }

  function NameOfFormat(id: int): string {
    if id == 1 then "dwarfs" else if id == 2 then "squashfs" else if id == 3 then "zip" else "auto"
  }

  lemma FormatNames(id: u32)
    ensures FormatName(id) == NameOfFormat(id)
  {
  }

  // ---- what each object says --------------------------------------------------------

  lemma RootFieldsFirst(r: Report)
    requires Complete(r)
    ensures var root, m := ValueOf(ManifestDoc(r)), r.manifest;
      && root.Find("format") == Some(String("tpkg")) && root.Find("format_version") == Some(Number(Decimal(m.version)))
      && root.Find("package_flags") == Some(Number(Decimal(m.packageFlags)))
      && root.Find("launcher_abi") == Some(Number(Decimal(m.launcherAbi)))
      && root.Find("runtime_ref") == Some(String(Chars(TF.CString(m.runtimeRef))))
  {
    hide Decimal, BootstrapDoc, SlotsDoc, Chars, JsonValue.Find;
    var d := ManifestDoc(r);
    FindField(d, 0);
    FindField(d, 1);
    FindField(d, 2);
    FindField(d, 3);
    FindField(d, 4);
  }

  lemma RootFieldsLast(r: Report)
    requires Complete(r)
    ensures var root := ValueOf(ManifestDoc(r));
      && root.Find("slot_table_offset") == Some(Number(Decimal(r.tableOffset)))
      && root.Find("header_crc32") == Some(Number(Decimal(r.headerCrc)))
      && root.Find("bootstrap") == Some(ValueOf(BootstrapDoc(r)))
      && root.Find("slots") == Some(ValueOf(SlotsDoc(r)))
  {
    hide Decimal, BootstrapDoc, SlotsDoc, Chars, JsonValue.Find;
    var d := ManifestDoc(r);
    FindField(d, 5);
    FindField(d, 6);
    FindField(d, 7);
    FindField(d, 8);
  }

  lemma RootTells(r: Report)
    requires Complete(r) && r.tableOffset < U64_LIMIT && r.headerCrc < U64_LIMIT
    ensures var root, m := ValueOf(ManifestDoc(r)), r.manifest;
      && TextIs(root, "format", "tpkg") && Number64(root, "format_version", m.version)
      && Number64(root, "package_flags", m.packageFlags) && Number64(root, "launcher_abi", m.launcherAbi)
      && TextIs(root, "runtime_ref", Chars(TF.CString(m.runtimeRef)))
      && Number64(root, "slot_table_offset", r.tableOffset) && Number64(root, "header_crc32", r.headerCrc)
      && root.Find("bootstrap") == Some(ValueOf(BootstrapDoc(r)))
      && root.Find("slots") == Some(ValueOf(SlotsDoc(r)))
  {
    RootFieldsFirst(r);
    RootFieldsLast(r);
    hide Decimal, ManifestDoc, BootstrapDoc, SlotsDoc, Chars, JsonValue.Find, Number64, ValueOf;
    var root, m := ValueOf(ManifestDoc(r)), r.manifest;
    Printed(root, "format_version", m.version);
    Printed(root, "package_flags", m.packageFlags);
    Printed(root, "launcher_abi", m.launcherAbi);
    Printed(root, "slot_table_offset", r.tableOffset);
    Printed(root, "header_crc32", r.headerCrc);
  }

  lemma BootstrapTells(r: Report)
    requires Complete(r) && r.bootstrapSize < U64_LIMIT && r.bootstrapCrc < U64_LIMIT
    ensures var v := ValueOf(BootstrapDoc(r));
      TextIs(v, "file", "bootstrap.bin") && Number64(v, "size", r.bootstrapSize) && Number64(v, "crc32", r.bootstrapCrc)
  {
    hide Decimal, JsonValue.Find, Number64;
    var d := BootstrapDoc(r);
    FindField(d, 0);
    FindField(d, 1);
    FindField(d, 2);
    Printed(ValueOf(d), "size", r.bootstrapSize);
    Printed(ValueOf(d), "crc32", r.bootstrapCrc);
  }

  lemma SlotFieldsFirst(r: Report, i: nat)
    requires Complete(r) && i < r.manifest.slotCount
    ensures var v, s := ValueOf(SlotDoc(r, i)), r.manifest.slots[i];
      && v.Find("index") == Some(Number(Decimal(i))) && v.Find("file") == Some(String(ImageFile(i)))
      && v.Find("offset") == Some(Number(Decimal(s.offset))) && v.Find("size") == Some(Number(Decimal(s.size)))
      && v.Find("format_id") == Some(Number(Decimal(s.formatId)))
  {
    hide Decimal, Chars, FormatName, JsonValue.Find;
    var d := SlotDoc(r, i);
    FindField(d, 0);
    FindField(d, 1);
    FindField(d, 2);
    FindField(d, 3);
    FindField(d, 4);
  }

  lemma SlotFieldsLast(r: Report, i: nat)
    requires Complete(r) && i < r.manifest.slotCount
    ensures var v, s := ValueOf(SlotDoc(r, i)), r.manifest.slots[i];
      && v.Find("format") == Some(String(FormatName(s.formatId))) && v.Find("flags") == Some(Number(Decimal(s.flags)))
      && v.Find("mount_point") == Some(String(Chars(TF.CString(s.mountPoint))))
      && v.Find("crc32") == Some(Number(Decimal(r.crcs[i])))
  {
    hide Decimal, Chars, FormatName, PartName, JsonValue.Find;
    var d := SlotDoc(r, i);
    FindField(d, 5);
    FindField(d, 6);
    FindField(d, 7);
    FindField(d, 8);
  }

  lemma SlotTells(r: Report, i: nat)
    requires Complete(r) && i < r.manifest.slotCount && r.crcs[i] < U64_LIMIT
    ensures var v, s := ValueOf(SlotDoc(r, i)), r.manifest.slots[i];
      && Number64(v, "index", i) && TextIs(v, "file", ImageFile(i))
      && Number64(v, "offset", s.offset) && Number64(v, "size", s.size)
      && Number64(v, "format_id", s.formatId) && TextIs(v, "format", NameOfFormat(s.formatId))
      && Number64(v, "flags", s.flags) && TextIs(v, "mount_point", Chars(TF.CString(s.mountPoint)))
      && Number64(v, "crc32", r.crcs[i])
  {
    FormatNames(r.manifest.slots[i].formatId);
    SlotFieldsFirst(r, i);
    SlotFieldsLast(r, i);
    hide Decimal, Chars, FormatName, NameOfFormat, ImageFile, JsonValue.Find, Number64, SlotDoc, ValueOf;
    var s, v := r.manifest.slots[i], ValueOf(SlotDoc(r, i));
    Printed(v, "index", i);
    Printed(v, "offset", s.offset);
    Printed(v, "size", s.size);
    Printed(v, "format_id", s.formatId);
    Printed(v, "flags", s.flags);
    Printed(v, "crc32", r.crcs[i]);
  }

  // ---- the directory -------------------------------------------------------------------

  /** The object for slot i, against the slot's record and the files of the directory. */
  ghost predicate SlotTold(v: JsonValue, i: nat, s: TF.Slot, image: bytes, after: Files, dir: string) {
    var path := dir + "/" + ImageFile(i);
    && Number64(v, "index", i) && TextIs(v, "file", ImageFile(i))
    && Number64(v, "offset", s.offset) && Number64(v, "size", s.size)
    && Number64(v, "format_id", s.formatId) && Number64(v, "flags", s.flags)
    && TextIs(v, "format", NameOfFormat(s.formatId))
    && TextIs(v, "mount_point", Chars(TF.CString(s.mountPoint)))
    && s.offset + s.size <= |image|
    && path in after && after[path] == image[s.offset..s.offset + s.size]
    && Number64(v, "crc32", CrcNumber(after[path]))
  }

  ghost predicate BootstrapTold(v: JsonValue, s: TF.Slot, image: bytes, after: Files, dir: string) {
    var path := dir + "/" + "bootstrap.bin";
    && TextIs(v, "file", "bootstrap.bin") && Number64(v, "size", s.offset)
    && s.offset <= |image| && path in after && after[path] == image[..s.offset]
    && Number64(v, "crc32", CrcNumber(after[path]))
  }

  ghost predicate RootTold(root: JsonValue, m: TF.Manifest, header: bytes)
    requires |header| == 166
  {
    && TextIs(root, "format", "tpkg") && Number64(root, "format_version", m.version)
    && Number64(root, "package_flags", m.packageFlags) && Number64(root, "launcher_abi", m.launcherAbi)
    && TextIs(root, "runtime_ref", Chars(TF.CString(m.runtimeRef)))
    && Number64(root, "slot_table_offset", LeValue(header[22..30]))
    && Number64(root, "header_crc32", LeValue(header[162..166]))
  }

  ghost predicate SlotsTold(slots: JsonValue, m: TF.Manifest, image: bytes, after: Files, dir: string) {
    && slots.Array? && |slots.items| == m.slotCount <= 8
    && forall i: nat :: i < m.slotCount ==> SlotTold(slots.items[i], i, m.slots[i], image, after, dir)
  }

  /** After unbundling a package, manifest.json says where everything was and what its file's CRC is. */
  lemma UnbundledTells(files: Files, dir: string, image: bytes) returns (root: JsonValue)
    requires InBounds(image)
    ensures var after, m, path := Unbundled(files, dir, image), TF.ReadImage(image).value, dir + "/" + "manifest.json";
      && |image| >= 166
      && path in after && ParseDocument(Chars(after[path])) == Yes(root, "")
      && RootTold(root, m, image[|image| - 166..])
      && root.Find("bootstrap").Some? && BootstrapTold(root.Find("bootstrap").value, m.slots[0], image, after, dir)
      && root.Find("slots").Some? && SlotsTold(root.Find("slots").value, m, image, after, dir)
  {
    hide TF.ReadImage, InBounds, Unbundled, ReportOf, ManifestText, ParseDocument, JsonValue.Find, ValueOf, ManifestDoc;
    hide BootstrapTold, SlotsTold, RootTold, BootstrapDoc, SlotsDoc, Chars, RawBytes;
    ImageIsReadable(image);
    root := ValueOf(ManifestDoc(ReportOf(image)));
    ManifestThere(files, dir, image);
    RootSays(image);
    BootstrapSays(files, dir, image);
    SlotsSay(files, dir, image);
  }

  lemma SlotsSay(files: Files, dir: string, image: bytes)
    requires InBounds(image)
    ensures SlotsTold(ValueOf(SlotsDoc(ReportOf(image))), TF.ReadImage(image).value, image, Unbundled(files, dir, image), dir)
  {
    hide TF.ReadImage, InBounds, Unbundled, ReportOf, ValueOf, SlotsDoc, SlotDoc, SlotTold;
    ImageIsReadable(image);
    var r := ReportOf(image);
    Unbundling.SlotItems(r);
    forall i: nat | i < r.manifest.slotCount
      ensures SlotTold(ValueOf(SlotDoc(r, i)), i, r.manifest.slots[i], image, Unbundled(files, dir, image), dir)
    {
      SlotSays(files, dir, image, i, r, Unbundled(files, dir, image));
    }
  }

  lemma ImageIsReadable(image: bytes)
    requires InBounds(image)
    ensures |image| >= 166 && ReportOf(image).manifest == TF.ReadImage(image).value
    ensures Complete(ReportOf(image)) && 1 <= TF.ReadImage(image).value.slotCount <= 8
    ensures ReportOf(image).tableOffset == LeValue(image[|image| - 166..][22..30])
    ensures ReportOf(image).headerCrc == LeValue(image[|image| - 166..][162..166])
  {
    TableInImage(image);
  }

  lemma ManifestThere(files: Files, dir: string, image: bytes)
    requires InBounds(image)
    ensures var after, path := Unbundled(files, dir, image), dir + "/" + "manifest.json";
      && path in after
      && ParseDocument(Chars(after[path])) == Yes(ValueOf(ManifestDoc(ReportOf(image))), "")
  {
    hide InBounds, Unbundled, ReportOf, ManifestText, ParseDocument, ValueOf, ManifestDoc, Chars, RawBytes, PackageOf, PartName;
    var r := ReportOf(image);
    Unbundling.DirectoryHolds(files, dir, image);
    ManifestByteText(r);
    CharsOfRawBytes(ManifestText(r));
    ManifestParses(r);
  }

  lemma RootSays(image: bytes)
    requires InBounds(image) && |image| >= 166
    ensures var r := ReportOf(image);
      && Complete(r)
      && RootTold(ValueOf(ManifestDoc(r)), TF.ReadImage(image).value, image[|image| - 166..])
      && ValueOf(ManifestDoc(r)).Find("bootstrap") == Some(ValueOf(BootstrapDoc(r)))
      && ValueOf(ManifestDoc(r)).Find("slots") == Some(ValueOf(SlotsDoc(r)))
  {
    hide TF.ReadImage, InBounds, ReportOf, ValueOf, ManifestDoc, BootstrapDoc, SlotsDoc, JsonValue.Find, Number64, Chars, LeValue;
    ImageIsReadable(image);
    HeaderNumbers(image);
    RootTells(ReportOf(image));
  }

  lemma HeaderNumbers(image: bytes)
    requires |image| >= 166
    ensures LeValue(image[|image| - 166..][22..30]) < U64_LIMIT && LeValue(image[|image| - 166..][162..166]) < U64_LIMIT
  {
    LeBytesOfValue(image[|image| - 166..][22..30]);
    LeBytesOfValue(image[|image| - 166..][162..166]);
    Pow256Widths();
  }

  lemma BootstrapSays(files: Files, dir: string, image: bytes)
    requires InBounds(image)
    ensures BootstrapTold(ValueOf(BootstrapDoc(ReportOf(image))), TF.ReadImage(image).value.slots[0], image,
                          Unbundled(files, dir, image), dir)
  {
    BootstrapFacts(image);
    BootstrapThere(files, dir, image);
    hide TF.ReadImage, InBounds, Unbundled, ReportOf, ValueOf, BootstrapDoc, JsonValue.Find, Number64, PackageOf, WordValue, Crc32;
    BootstrapTells(ReportOf(image));
  }

  lemma BootstrapThere(files: Files, dir: string, image: bytes)
    requires InBounds(image)
    ensures var after, path := Unbundled(files, dir, image), dir + "/" + "bootstrap.bin";
      path in after && after[path] == PackageOf(image).bootstrap
  {
    hide InBounds, Unbundled, ReportOf, PackageOf, PartName, ManifestText, RawBytes;
    Unbundling.DirectoryHolds(files, dir, image);
  }

  lemma BootstrapFacts(image: bytes)
    requires InBounds(image)
    ensures var r, s := ReportOf(image), TF.ReadImage(image).value.slots[0];
      && Complete(r)
      && s.offset <= |image| && PackageOf(image).bootstrap == image[..s.offset]
      && r.bootstrapSize == s.offset && r.bootstrapCrc == CrcNumber(PackageOf(image).bootstrap)
  {
    hide TF.ReadImage, WordValue, Crc32, TableOffset;
    BootstrapOf(image);
  }

  lemma SlotSays(files: Files, dir: string, image: bytes, i: nat, r: Report, after: Files)
    requires InBounds(image) && r == ReportOf(image) && after == Unbundled(files, dir, image)
    requires i < r.manifest.slotCount <= TF.MAX_SLOTS
    ensures SlotTold(ValueOf(SlotDoc(r, i)), i, r.manifest.slots[i], image, after, dir)
  {
    SlotInFile(files, dir, image, i, r, after);
    hide *;
    SlotTells(r, i);
    SlotFolded(r, i, image, after, dir);
  }

  lemma SlotFolded(r: Report, i: nat, image: bytes, after: Files, dir: string)
    requires Complete(r) && i < r.manifest.slotCount <= TF.MAX_SLOTS
    requires var s, path := r.manifest.slots[i], dir + "/" + ImageFile(i);
      && s.offset + s.size <= |image|
      && path in after && after[path] == image[s.offset..s.offset + s.size] && r.crcs[i] == CrcNumber(after[path])
    ensures SlotTold(ValueOf(SlotDoc(r, i)), i, r.manifest.slots[i], image, after, dir)
  {
    hide ValueOf, SlotDoc, JsonValue.Find, Number64, TextIs, CrcNumber, Chars, ImageFile, NameOfFormat;
    SlotTells(r, i);
  }

  lemma SlotInFile(files: Files, dir: string, image: bytes, i: nat, r: Report, after: Files)
    requires InBounds(image) && r == ReportOf(image) && after == Unbundled(files, dir, image)
    requires i < r.manifest.slotCount <= TF.MAX_SLOTS
    ensures var s, path := r.manifest.slots[i], dir + "/" + ImageFile(i);
      && s.offset + s.size <= |image|
      && path in after && after[path] == image[s.offset..s.offset + s.size] && r.crcs[i] == CrcNumber(after[path])
  {
    SlotFacts(image, i, r);
    hide TF.ReadImage, InBounds, Unbundled, ReportOf, PackageOf, WordValue, Crc32, ImageFile;
    SlotThere(files, dir, image, i);
  }

  lemma SlotThere(files: Files, dir: string, image: bytes, i: nat)
    requires InBounds(image) && i < |PackageOf(image).slots|
    ensures var after, path := Unbundled(files, dir, image), dir + "/" + ImageFile(i);
      path in after && after[path] == PackageOf(image).slots[i].data
  {
    hide InBounds, Unbundled, ReportOf, PackageOf, ManifestText, RawBytes, Decimal;
    Unbundling.DirectoryHolds(files, dir, image);
    assert Within(dir, PartName(i)) in Unbundled(files, dir, image);
  }

  lemma SlotFacts(image: bytes, i: nat, r: Report)
    requires InBounds(image) && r == ReportOf(image) && i < r.manifest.slotCount <= TF.MAX_SLOTS
    ensures i < |PackageOf(image).slots|
    ensures var s := r.manifest.slots[i];
      && s.offset + s.size <= |image|
      && PackageOf(image).slots[i].data == image[s.offset..s.offset + s.size]
      && r.crcs[i] == CrcNumber(PackageOf(image).slots[i].data)
  {
    hide TF.ReadImage, WordValue, Crc32, TableOffset;
    TableInImage(image);
    PartFacts(image, i);
  }
}
