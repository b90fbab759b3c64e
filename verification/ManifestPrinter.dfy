/** How unbundle prints manifest.json, member by member. */
module ManifestPrinter {
  import opened Bytes
  import TF = TpkgFormat
  import opened JsonFormat
  import opened JsonRoundTrip
  import Json
  import opened ManifestJson

  /** A document's fields up to number n, commas included. */
  function FieldsUpTo(d: Doc, n: nat): string
    requires d.Fields? && n <= |d.fields|
  {
    if n == 0 then "" else FieldsUpTo(d, n - 1) + RenderField(d, n - 1) + Separator(n - 1, |d.fields|)
  }

  lemma {:induction false} FieldsUpToEnd(d: Doc, n: nat)
    requires d.Fields? && n <= |d.fields|
    ensures FieldsUpTo(d, n) + RenderFields(d, n) == RenderFields(d, 0)
  {
    hide RenderField, Separator;
    if n == 0 {
      assert FieldsUpTo(d, 0) + RenderFields(d, 0) == RenderFields(d, 0);
    } else {
      FieldsUpToEnd(d, n - 1);
      var a, b, c, e := FieldsUpTo(d, n - 1), RenderField(d, n - 1), Separator(n - 1, |d.fields|), RenderFields(d, n);
      assert a + (b + c + e) == a + b + c + e;
    }
  }

  lemma AllFields(d: Doc)
    requires d.Fields?
    ensures FieldsUpTo(d, |d.fields|) == RenderFields(d, 0)
    ensures Render(d) == "{" + FieldsUpTo(d, |d.fields|) + "}"
  {
    hide FieldsUpTo;
    FieldsUpToEnd(d, |d.fields|);
    assert FieldsUpTo(d, |d.fields|) + "" == FieldsUpTo(d, |d.fields|);
  }

  function ItemsUpTo(d: Doc, n: nat): string
    requires d.Items? && n <= |d.items|
  {
    if n == 0 then "" else ItemsUpTo(d, n - 1) + RenderItem(d, n - 1) + Separator(n - 1, |d.items|)
  }

  lemma {:induction false} ItemsUpToEnd(d: Doc, n: nat)
    requires d.Items? && n <= |d.items|
    ensures ItemsUpTo(d, n) + RenderItems(d, n) == RenderItems(d, 0)
  {
    hide RenderItem, Separator;
    if n == 0 {
      assert ItemsUpTo(d, 0) + RenderItems(d, 0) == RenderItems(d, 0);
    } else {
      ItemsUpToEnd(d, n - 1);
      var a, b, c, e := ItemsUpTo(d, n - 1), RenderItem(d, n - 1), Separator(n - 1, |d.items|), RenderItems(d, n);
      assert a + (b + c + e) == a + b + c + e;
    }
  }

  lemma AllItems(d: Doc)
    requires d.Items?
    ensures Render(d) == "[" + ItemsUpTo(d, |d.items|) + "]"
  {
    hide ItemsUpTo;
    ItemsUpToEnd(d, |d.items|);
    assert ItemsUpTo(d, |d.items|) + "" == ItemsUpTo(d, |d.items|);
  }

  /** A member as the code prints it: quoted name, colon, blank, value. */
  function Line(before: string, key: string, value: string, after: string): string {
    before + "\"" + key + "\": " + value + after
  }

  lemma LineIsField(d: Doc, k: nat, value: string)
    requires d.Fields? && k < |d.fields| && Plain(d.fields[k].key) && d.fields[k].gap == " "
    requires value == Render(d.fields[k].doc)
    ensures Line(d.fields[k].before, d.fields[k].key, value, d.fields[k].after) == RenderField(d, k)
  {
    hide Render;
    EscapePlain(d.fields[k].key);
  }

  /** Printing field k after the first k fields. */
  lemma NextLine(json: string, d: Doc, k: nat, value: string)
    requires d.Fields? && k < |d.fields| && Plain(d.fields[k].key) && d.fields[k].gap == " "
    requires json == "{" + FieldsUpTo(d, k) && value == Render(d.fields[k].doc)
    ensures json + Line(d.fields[k].before, d.fields[k].key, value, d.fields[k].after) + Separator(k, |d.fields|)
         == "{" + FieldsUpTo(d, k + 1)
  {
    hide Render, RenderField, Line, Separator;
    LineIsField(d, k, value);
  }

  function QuotedText(escaped: string): string {
    "\"" + escaped + "\""
  }

  lemma NumberRenders(n: nat)
    ensures Render(Num(n)) == Decimal(n)
  {
  }

  lemma TextRenders(v: string)
    ensures Render(Text(v)) == QuotedText(Escape(v))
  {
  }

  lemma PlainRenders(v: string)
    requires Plain(v)
    ensures Render(Text(v)) == QuotedText(v)
  {
    EscapePlain(v);
  }

  lemma PartNamePlain(i: nat)
    ensures Plain(PartName(i))
  {
    forall k | 0 <= k < |Decimal(i)| ensures Decimal(i)[k] >= ' ' && Decimal(i)[k] != '\"' && Decimal(i)[k] != '\\' {
      assert IsDigit(Decimal(i)[k]);
    }
  }

  lemma FieldsUpToNone(d: Doc)
    requires d.Fields?
    ensures "{" + FieldsUpTo(d, 0) == "{"
  {
  }

  lemma SlotKeysPlain()
    ensures Plain("index") && Plain("file") && Plain("offset") && Plain("size") && Plain("format_id")
    ensures Plain("format") && Plain("flags") && Plain("mount_point") && Plain("crc32")
    ensures forall f: u32 :: Plain(FormatName(f))
  {
  }

  lemma ManifestKeysPlain()
    ensures Plain("tpkg") && Plain("format") && Plain("format_version") && Plain("package_flags") && Plain("launcher_abi")
    ensures Plain("runtime_ref") && Plain("slot_table_offset") && Plain("header_crc32") && Plain("bootstrap")
    ensures Plain("slots")
  {
    LongKeysPlain();
  }

  lemma LongKeysPlain()
    ensures Plain("format_version") && Plain("package_flags") && Plain("slot_table_offset") && Plain("header_crc32")
  {
  }

  method BootstrapText(r: Report) returns (json: string)
    requires Complete(r)
    ensures json == Render(BootstrapDoc(r))
  {
    hide Render, RenderField, FieldsUpTo, Decimal, Line;
    ghost var d := BootstrapDoc(r);
    FieldsUpToNone(d);
    json := "{";
    PlainRenders(BOOTSTRAP_NAME);
    NextLine(json, d, 0, QuotedText(BOOTSTRAP_NAME));
    json := json + Line(" ", "file", QuotedText(BOOTSTRAP_NAME), "") + ",";
    NumberRenders(r.bootstrapSize);
    NextLine(json, d, 1, Decimal(r.bootstrapSize));
    json := json + Line(" ", "size", Decimal(r.bootstrapSize), "") + ",";
    NumberRenders(r.bootstrapCrc);
    NextLine(json, d, 2, Decimal(r.bootstrapCrc));
    json := json + Line(" ", "crc32", Decimal(r.bootstrapCrc), " ");
    AllFields(d);
    json := json + "}";
  }

  /** The first five fields of a slot's object. */
  method SlotTextStart(r: Report, i: nat) returns (json: string)
    requires Complete(r) && i < r.manifest.slotCount
    ensures json == "{" + FieldsUpTo(SlotDoc(r, i), 5)
  {
    SlotKeysPlain();
    hide Render, RenderField, FieldsUpTo, Decimal, Line, PartName, Escape, Plain, FormatName;
    var s := r.manifest.slots[i];
    PartNamePlain(i);
    ghost var d := SlotDoc(r, i);
    FieldsUpToNone(d);
    json := "{";
    NumberRenders(i);
    NextLine(json, d, 0, Decimal(i));
    json := json + Line(" ", "index", Decimal(i), "") + ",";
    PlainRenders(PartName(i));
    NextLine(json, d, 1, QuotedText(PartName(i)));
    json := json + Line(" ", "file", QuotedText(PartName(i)), "") + ",";
    NumberRenders(s.offset);
    NextLine(json, d, 2, Decimal(s.offset));
    json := json + Line(" ", "offset", Decimal(s.offset), "") + ",";
    NumberRenders(s.size);
    NextLine(json, d, 3, Decimal(s.size));
    json := json + Line(" ", "size", Decimal(s.size), "") + ",";
    NumberRenders(s.formatId);
    NextLine(json, d, 4, Decimal(s.formatId));
    json := json + Line(" ", "format_id", Decimal(s.formatId), "") + ",";
  }

  method SlotText(r: Report, i: nat) returns (json: string)
    requires Complete(r) && i < r.manifest.slotCount
    ensures json == Render(SlotDoc(r, i))
  {
    SlotKeysPlain();
    hide Render, RenderField, FieldsUpTo, Decimal, Line, PartName, Escape, Plain, FormatName;
    var s := r.manifest.slots[i];
    var mountPoint := Json.JsonEscape(Chars(TF.CString(s.mountPoint)));
    ghost var d := SlotDoc(r, i);
    json := SlotTextStart(r, i);
    PlainRenders(FormatName(s.formatId));
    NextLine(json, d, 5, QuotedText(FormatName(s.formatId)));
    json := json + Line(" ", "format", QuotedText(FormatName(s.formatId)), "") + ",";
    NumberRenders(s.flags);
    NextLine(json, d, 6, Decimal(s.flags));
    json := json + Line(" ", "flags", Decimal(s.flags), "") + ",";
    TextRenders(Chars(TF.CString(s.mountPoint)));
    NextLine(json, d, 7, QuotedText(mountPoint));
    json := json + Line(" ", "mount_point", QuotedText(mountPoint), "") + ",";
    NumberRenders(r.crcs[i]);
    NextLine(json, d, 8, Decimal(r.crcs[i]));
    json := json + Line(" ", "crc32", Decimal(r.crcs[i]), " ");
    AllFields(d);
    json := json + "}";
  }

  lemma ItemsUpToNone(d: Doc)
    requires d.Items?
    ensures "[" + ItemsUpTo(d, 0) == "["
  {
  }

  lemma NextSlot(r: Report, json: string, i: nat, slot: string)
    requires Complete(r) && i < r.manifest.slotCount && slot == Render(SlotDoc(r, i))
    requires json == "[" + ItemsUpTo(SlotsDoc(r), i)
    ensures json + "\n    " + slot + (if i + 1 < r.manifest.slotCount then "," else "\n  ")
         == "[" + ItemsUpTo(SlotsDoc(r), i + 1)
  {
    hide Render, SlotDoc, ItemsUpTo;
    var d, n := SlotsDoc(r), r.manifest.slotCount;
    var after := if i + 1 < n then "" else "\n  ";
    ItemsUpToNext(d, i);
    assert RenderItem(d, i) == "\n    " + slot + after;
    Regroup(json, "\n    ", slot, after, Separator(i, n));
    assert after + Separator(i, n) == if i + 1 < n then "," else "\n  ";
    Regroup2("[", ItemsUpTo(d, i), RenderItem(d, i), Separator(i, n));
  }

  lemma ItemsUpToNext(d: Doc, i: nat)
    requires d.Items? && i < |d.items|
    ensures ItemsUpTo(d, i + 1) == ItemsUpTo(d, i) + RenderItem(d, i) + Separator(i, |d.items|)
  {
  }

  lemma Regroup(a: string, b: string, c: string, d: string, e: string)
    ensures a + (b + c + d) + e == a + b + c + (d + e)
  {
  }

  lemma Regroup2(a: string, b: string, c: string, d: string)
    ensures a + b + c + d == a + (b + c + d)
  {
  }

  method SlotsText(r: Report) returns (json: string)
    requires Complete(r)
    ensures json == Render(SlotsDoc(r))
  {
    hide Render, SlotDoc, ItemsUpTo;
    ghost var d := SlotsDoc(r);
    var n := r.manifest.slotCount;
    ItemsUpToNone(d);
    json := "[";
    for i := 0 to n
      invariant json == "[" + ItemsUpTo(d, i)
    {
      var slot := SlotText(r, i);
      NextSlot(r, json, i, slot);
      json := json + "\n    " + slot + (if i + 1 < n then "," else "\n  ");
    }
    AllItems(d);
    json := json + "]";
  }

  /** The five fields that come before the offsets. */
  method PrintManifestStart(r: Report) returns (json: string)
    requires Complete(r)
    ensures json == "{" + FieldsUpTo(ManifestDoc(r), 5)
  {
    ManifestKeysPlain();
    hide Render, RenderField, FieldsUpTo, Decimal, Line, Escape, SlotsDoc, BootstrapDoc, Plain;
    var m := r.manifest;
    var runtimeRef := Json.JsonEscape(Chars(TF.CString(m.runtimeRef)));
    ghost var d := ManifestDoc(r);
    FieldsUpToNone(d);
    json := "{";
    PlainRenders("tpkg");
    NextLine(json, d, 0, QuotedText("tpkg"));
    json := json + Line("\n  ", "format", QuotedText("tpkg"), "") + ",";
    NumberRenders(m.version);
    NextLine(json, d, 1, Decimal(m.version));
    json := json + Line("\n  ", "format_version", Decimal(m.version), "") + ",";
    NumberRenders(m.packageFlags);
    NextLine(json, d, 2, Decimal(m.packageFlags));
    json := json + Line("\n  ", "package_flags", Decimal(m.packageFlags), "") + ",";
    NumberRenders(m.launcherAbi);
    NextLine(json, d, 3, Decimal(m.launcherAbi));
    json := json + Line("\n  ", "launcher_abi", Decimal(m.launcherAbi), "") + ",";
    TextRenders(Chars(TF.CString(m.runtimeRef)));
    NextLine(json, d, 4, QuotedText(runtimeRef));
    json := json + Line("\n  ", "runtime_ref", QuotedText(runtimeRef), "") + ",";
  }

  /** The text of manifest.json. */
  method PrintManifest(r: Report) returns (json: string)
    requires Complete(r)
    ensures json == ManifestText(r)
  {
    ManifestKeysPlain();
    hide Render, RenderField, FieldsUpTo, Decimal, Line, Escape, SlotsDoc, BootstrapDoc, Plain;
    var bootstrap := BootstrapText(r);
    var slots := SlotsText(r);
    ghost var d := ManifestDoc(r);
    json := PrintManifestStart(r);
    NumberRenders(r.tableOffset);
    NextLine(json, d, 5, Decimal(r.tableOffset));
    json := json + Line("\n  ", "slot_table_offset", Decimal(r.tableOffset), "") + ",";
    NumberRenders(r.headerCrc);
    NextLine(json, d, 6, Decimal(r.headerCrc));
    json := json + Line("\n  ", "header_crc32", Decimal(r.headerCrc), "") + ",";
    NextLine(json, d, 7, bootstrap);
    json := json + Line("\n  ", "bootstrap", bootstrap, "") + ",";
    NextLine(json, d, 8, slots);
    json := json + Line("\n  ", "slots", slots, "\n");
    AllFields(d);
    json := json + "}" + "\n";
  }
}
