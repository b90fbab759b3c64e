/** The manifest.json that unbundle writes: its layout, its text, and what find() sees in it. */
module ManifestJson {
  import opened Bytes
  import opened Words
  import opened TpkgFormat
  import opened JsonFormat
  import opened JsonRoundTrip

  // ---- std::string as raw bytes ------------------------------------------------

  function Chars(b: bytes): (s: string)
    ensures |s| == |b|
  {
    seq(|b|, i requires 0 <= i < |b| => b[i] as char)
  }

  function RawBytes(s: string): (b: bytes)
    ensures |b| == |s|
  {
    seq(|s|, i requires 0 <= i < |s| => s[i] as int % 0x100)
  }

  lemma RawBytesOfChars(b: bytes)
    ensures RawBytes(Chars(b)) == b
  {
  }

  ghost predicate ByteText(s: string) {
    forall i :: 0 <= i < |s| ==> s[i] as int < 0x100
  }

  lemma CharsOfRawBytes(s: string)
    requires ByteText(s)
    ensures Chars(RawBytes(s)) == s
  {
  }

  // ---- the document ----------------------------------------------------------------

  /** A CRC register as the number that is printed. */
  function WordValue(w: Word): u32 {
    LeBytesOfValue(WordBytes(w));
    Pow256Widths();
    LeValue(WordBytes(w))
  }

  function FormatName(formatId: u32): string {
    match formatId
    case 1 => "dwarfs"
    case 2 => "squashfs"
    case 3 => "zip"
    case _ => "auto"
  }

  function PartName(i: nat): string {
    "image-" + Decimal(i) + ".bin"
  }

  const BOOTSTRAP_NAME := "bootstrap.bin"

  /** What manifest.json reports: the manifest, two raw header fields, and a CRC for every part. */
  datatype Report = Report(
    manifest: Manifest, tableOffset: nat, headerCrc: nat, bootstrapSize: nat, bootstrapCrc: nat, crcs: seq<nat>)

  predicate Complete(r: Report) {
    1 <= r.manifest.slotCount <= MAX_SLOTS && |r.crcs| == r.manifest.slotCount
  }

  function BootstrapDoc(r: Report): Doc {
    Fields([
      Field(" ", "file", " ", Text(BOOTSTRAP_NAME), ""),
      Field(" ", "size", " ", Num(r.bootstrapSize), ""),
      Field(" ", "crc32", " ", Num(r.bootstrapCrc), " ")])
  }

  function SlotDoc(r: Report, i: nat): Doc
    requires Complete(r) && i < r.manifest.slotCount
  {
    var s := r.manifest.slots[i];
    Fields([
      Field(" ", "index", " ", Num(i), ""),
      Field(" ", "file", " ", Text(PartName(i)), ""),
      Field(" ", "offset", " ", Num(s.offset), ""),
      Field(" ", "size", " ", Num(s.size), ""),
      Field(" ", "format_id", " ", Num(s.formatId), ""),
      Field(" ", "format", " ", Text(FormatName(s.formatId)), ""),
      Field(" ", "flags", " ", Num(s.flags), ""),
      Field(" ", "mount_point", " ", Text(Chars(CString(s.mountPoint))), ""),
      Field(" ", "crc32", " ", Num(r.crcs[i]), " ")])
  }

  function SlotItem(r: Report, i: nat): Item
    requires Complete(r) && i < r.manifest.slotCount
  {
    Item("\n    ", SlotDoc(r, i), if i + 1 < r.manifest.slotCount then "" else "\n  ")
  }

  function SlotsDoc(r: Report): Doc
    requires Complete(r)
  {
    Items(seq(r.manifest.slotCount, i requires 0 <= i < r.manifest.slotCount => SlotItem(r, i)))
  }

  function ManifestDoc(r: Report): Doc
    requires Complete(r)
  {
    Fields([
      Field("\n  ", "format", " ", Text("tpkg"), ""),
      Field("\n  ", "format_version", " ", Num(r.manifest.version), ""),
      Field("\n  ", "package_flags", " ", Num(r.manifest.packageFlags), ""),
      Field("\n  ", "launcher_abi", " ", Num(r.manifest.launcherAbi), ""),
      Field("\n  ", "runtime_ref", " ", Text(Chars(CString(r.manifest.runtimeRef))), ""),
      Field("\n  ", "slot_table_offset", " ", Num(r.tableOffset), ""),
      Field("\n  ", "header_crc32", " ", Num(r.headerCrc), ""),
      Field("\n  ", "bootstrap", " ", BootstrapDoc(r), ""),
      Field("\n  ", "slots", " ", SlotsDoc(r), "\n")])
  }

  function ManifestText(r: Report): string
    requires Complete(r)
  {
    Render(ManifestDoc(r)) + "\n"
  }

  // ---- reading it back -----------------------------------------------------------------

  lemma BlankGaps()
    ensures Blank("") && Blank(" ") && Blank("\n") && Blank("\n  ") && Blank("\n    ")
  {
  }

  lemma SlotLaid(r: Report, i: nat)
    requires Complete(r) && i < r.manifest.slotCount
    ensures WellLaid(SlotDoc(r, i))
  {
    hide Blank, PartName;
    BlankGaps();
  }

  lemma ManifestLaid(r: Report)
    requires Complete(r)
    ensures WellLaid(ManifestDoc(r))
  {
    hide Blank, SlotDoc, PartName;
    BlankGaps();
    forall i | 0 <= i < r.manifest.slotCount ensures WellLaid(SlotDoc(r, i)) { SlotLaid(r, i); }
    assert WellLaid(SlotsDoc(r));
    assert WellLaid(BootstrapDoc(r));
  }

  /** The parser, given the text of manifest.json, returns the values that were printed. */
  lemma ManifestParses(r: Report)
    requires Complete(r)
    ensures ParseDocument(ManifestText(r)) == Yes(ValueOf(ManifestDoc(r)), "")
  {
    hide ManifestDoc, ParseDocument, Render, ValueOf;
    ManifestLaid(r);
    BlankGaps();
    assert "" + Render(ManifestDoc(r)) + "\n" == ManifestText(r);
    FileRead("", ManifestDoc(r), "\n");
  }

  lemma {:induction false} FieldValueAt(d: Doc, n: nat, j: nat)
    requires d.Fields? && j < n <= |d.fields|
    ensures FieldValues(d, n)[j] == (d.fields[j].key, ValueOf(d.fields[j].doc))
    decreases n
  {
    if j < n - 1 {
      FieldValueAt(d, n - 1, j);
    }
  }

  lemma {:induction false} ItemValueAt(d: Doc, n: nat, j: nat)
    requires d.Items? && j < n <= |d.items|
    ensures ItemValues(d, n)[j] == ValueOf(d.items[j].doc)
    decreases n
  {
    if j < n - 1 {
      ItemValueAt(d, n - 1, j);
    }
  }

  /** find() on the parsed document gives the value of the first field with that name. */
  lemma FindField(d: Doc, j: nat)
    requires d.Fields? && j < |d.fields| && forall k :: 0 <= k < j ==> d.fields[k].key != d.fields[j].key
    ensures ValueOf(d).Find(d.fields[j].key) == Some(ValueOf(d.fields[j].doc))
  {
    var n := |d.fields|;
    forall k | 0 <= k < n ensures FieldValues(d, n)[k] == (d.fields[k].key, ValueOf(d.fields[k].doc)) {
      FieldValueAt(d, n, k);
    }
    LookupAt(FieldValues(d, n), j);
  }

  // ---- every character is a byte ----------------------------------------------------------

  lemma {:induction false} EscapeByteText(s: string)
    requires ByteText(s)
    ensures ByteText(Escape(s))
  {
    if s != "" {
      EscapeByteText(s[1..]);
      assert ByteText(EscapeChar(s[0]));
    }
  }

  ghost predicate DocBytes(d: Doc)
    decreases d
  {
    match d
    case Text(v) => ByteText(v)
    case Num(n) => true
    case Items(items) =>
      forall i :: 0 <= i < |items| ==> ByteText(items[i].before) && ByteText(items[i].after) && DocBytes(items[i].doc)
    case Fields(fields) =>
      forall i :: 0 <= i < |fields| ==>
        && ByteText(fields[i].before) && ByteText(fields[i].key) && ByteText(fields[i].gap)
        && ByteText(fields[i].after) && DocBytes(fields[i].doc)
  }

  lemma ByteTextConcat(a: string, b: string)
    requires ByteText(a) && ByteText(b)
    ensures ByteText(a + b)
  {
  }

  lemma DecimalByteText(n: nat)
    ensures ByteText(Decimal(n))
  {
    forall i | 0 <= i < |Decimal(n)| ensures Decimal(n)[i] as int < 0x100 {
      assert IsDigit(Decimal(n)[i]);
    }
  }

  lemma QuotedByteText(v: string)
    requires ByteText(v)
    ensures ByteText(Quoted(v))
  {
    EscapeByteText(v);
  }

  /** A document made of byte strings renders as a byte string. */
  lemma {:induction false} RenderByteText(d: Doc)
    requires DocBytes(d)
    ensures ByteText(Render(d))
    decreases d, 1
  {
    hide Quoted, Decimal;
    match d {
      case Text(v) =>
        QuotedByteText(v);
      case Num(n) =>
        DecimalByteText(n);
      case Items(items) =>
        ItemsByteText(d, 0);
      case Fields(fields) =>
        FieldsByteText(d, 0);
    }
  }

  lemma {:induction false} ItemsByteText(d: Doc, i: nat)
    requires d.Items? && DocBytes(d) && i <= |d.items|
    ensures ByteText(RenderItems(d, i))
    decreases d, 0, |d.items| - i
  {
    hide Render;
    if i < |d.items| {
      RenderByteText(d.items[i].doc);
      ItemsByteText(d, i + 1);
      ByteTextConcat(d.items[i].before + Render(d.items[i].doc), d.items[i].after);
      ByteTextConcat(RenderItem(d, i), Separator(i, |d.items|));
      ByteTextConcat(RenderItem(d, i) + Separator(i, |d.items|), RenderItems(d, i + 1));
    }
  }

  lemma {:induction false} FieldsByteText(d: Doc, i: nat)
    requires d.Fields? && DocBytes(d) && i <= |d.fields|
    ensures ByteText(RenderFields(d, i))
    decreases d, 0, |d.fields| - i
  {
    hide Render, Quoted;
    if i < |d.fields| {
      var f := d.fields[i];
      RenderByteText(f.doc);
      QuotedByteText(f.key);
      FieldsByteText(d, i + 1);
      ByteTextConcat(f.before + Quoted(f.key) + ":" + f.gap, Render(f.doc));
      ByteTextConcat(f.before + Quoted(f.key) + ":" + f.gap + Render(f.doc), f.after);
      ByteTextConcat(RenderField(d, i), Separator(i, |d.fields|));
      ByteTextConcat(RenderField(d, i) + Separator(i, |d.fields|), RenderFields(d, i + 1));
    }
  }

  lemma CharsByteText(b: bytes)
    ensures ByteText(Chars(b))
  {
  }

  lemma PartNameByteText(i: nat)
    ensures ByteText(PartName(i))
  {
    DecimalByteText(i);
  }

  lemma LayoutByteText()
    ensures ByteText("") && ByteText(" ") && ByteText("\n") && ByteText("\n  ") && ByteText("\n    ")
  {
  }

  lemma SlotKeysByteText()
    ensures ByteText("index") && ByteText("file") && ByteText("offset") && ByteText("size") && ByteText("format_id")
    ensures ByteText("format") && ByteText("flags") && ByteText("mount_point") && ByteText("crc32")
    ensures forall f: u32 :: ByteText(FormatName(f))
  {
  }

  lemma ManifestKeysByteText()
    ensures ByteText("tpkg") && ByteText("format") && ByteText("runtime_ref") && ByteText("slots")
    ensures ByteText("bootstrap") && ByteText(BOOTSTRAP_NAME)
  {
  }

  lemma LongKeysByteText()
    ensures ByteText("format_version") && ByteText("package_flags") && ByteText("launcher_abi")
    ensures ByteText("slot_table_offset") && ByteText("header_crc32")
  {
  }

  lemma SlotDocBytes(r: Report, i: nat)
    requires Complete(r) && i < r.manifest.slotCount
    ensures DocBytes(SlotDoc(r, i))
  {
    SlotKeysByteText();
    hide Chars, PartName, FormatName, ByteText;
    LayoutByteText();
    CharsByteText(CString(r.manifest.slots[i].mountPoint));
    PartNameByteText(i);
  }

  lemma ManifestDocBytes(r: Report)
    requires Complete(r)
    ensures DocBytes(ManifestDoc(r))
  {
    hide Chars, ByteText, SlotDoc;
    LayoutByteText();
    SlotKeysByteText();
    ManifestKeysByteText();
    LongKeysByteText();
    CharsByteText(CString(r.manifest.runtimeRef));
    forall i | 0 <= i < r.manifest.slotCount ensures DocBytes(SlotDoc(r, i)) { SlotDocBytes(r, i); }
    assert DocBytes(SlotsDoc(r));
    assert DocBytes(BootstrapDoc(r));
  }

  lemma ManifestByteText(r: Report)
    requires Complete(r)
    ensures ByteText(ManifestText(r))
  {
    hide Render, ManifestDoc;
    ManifestDocBytes(r);
    RenderByteText(ManifestDoc(r));
  }
}
