/** unbundle and reassemble of package.cpp, and the round trip through a directory. */
module Unbundling {
  import opened Bytes
  import opened Words
  import opened Crc
  import opened HostIo
  import opened HostFiles
  import TF = TpkgFormat
  import Tpkg
  import opened PackageFormat
  import opened PackageLaws
  import opened JsonFormat
  import opened JsonRoundTrip
  import Json
  import opened ManifestJson
  import ManifestPrinter
  import opened PackagePlan
  import opened Assembly
  import opened PackageEdits

  // ---- part names -----------------------------------------------------------------

  lemma PartNamesDiffer(i: nat, j: nat)
    requires PartName(i) == PartName(j)
    ensures i == j
  {
    var a, b := Decimal(i), Decimal(j);
    assert PartName(i) == "image-" + (a + ".bin") && PartName(j) == "image-" + (b + ".bin");
    assert PartName(i)[6..] == a + ".bin" && PartName(j)[6..] == b + ".bin";
    assert |a| == |b|;
    assert (a + ".bin")[..|a|] == a && (b + ".bin")[..|b|] == b;
    ValueOfDecimal(i);
    ValueOfDecimal(j);
  }

  lemma WithinInjective(dir: string, a: string, b: string)
    requires Within(dir, a) == Within(dir, b)
    ensures a == b
  {
    assert Within(dir, a) == dir + ("/" + a) && Within(dir, b) == dir + ("/" + b);
    assert Within(dir, a)[|dir| + 1..] == a && Within(dir, b)[|dir| + 1..] == b;
  }

  lemma NamesApart(dir: string, i: nat)
    ensures Within(dir, PartName(i)) != Within(dir, BOOTSTRAP_NAME)
    ensures Within(dir, PartName(i)) != Within(dir, MANIFEST_NAME)
    ensures Within(dir, BOOTSTRAP_NAME) != Within(dir, MANIFEST_NAME)
  {
    assert PartName(i)[0] == 'i' && BOOTSTRAP_NAME[0] == 'b' && MANIFEST_NAME[0] == 'm';
    if Within(dir, PartName(i)) == Within(dir, BOOTSTRAP_NAME) {
      WithinInjective(dir, PartName(i), BOOTSTRAP_NAME);
    }
    if Within(dir, PartName(i)) == Within(dir, MANIFEST_NAME) {
      WithinInjective(dir, PartName(i), MANIFEST_NAME);
    }
    if Within(dir, BOOTSTRAP_NAME) == Within(dir, MANIFEST_NAME) {
      WithinInjective(dir, BOOTSTRAP_NAME, MANIFEST_NAME);
    }
  }

  lemma NamesSafe(i: nat)
    ensures SafePartName(PartName(i)) && SafePartName(BOOTSTRAP_NAME)
  {
    forall k | 0 <= k < |Decimal(i)| ensures Decimal(i)[k] != '/' {
      assert IsDigit(Decimal(i)[k]);
    }
    assert PartName(i)[0] == 'i';
  }

  // ---- what is in the directory afterwards --------------------------------------------

  lemma {:induction false} PartsWritten(files: Files, dir: string, p: Package, n: nat, i: nat)
    requires i < n <= |p.slots|
    ensures Within(dir, PartName(i)) in WithParts(files, dir, p, n)
    ensures WithParts(files, dir, p, n)[Within(dir, PartName(i))] == p.slots[i].data
    decreases n
  {
    hide PartName, Within;
    if i < n - 1 {
      PartsWritten(files, dir, p, n - 1, i);
      if Within(dir, PartName(i)) == Within(dir, PartName(n - 1)) {
        WithinInjective(dir, PartName(i), PartName(n - 1));
        PartNamesDiffer(i, n - 1);
      }
    }
  }

  lemma {:induction false} BootstrapWritten(files: Files, dir: string, p: Package, n: nat)
    requires n <= |p.slots|
    ensures Within(dir, BOOTSTRAP_NAME) in WithParts(files, dir, p, n)
    ensures WithParts(files, dir, p, n)[Within(dir, BOOTSTRAP_NAME)] == p.bootstrap
  {
    hide PartName, Within;
    if n > 0 {
      BootstrapWritten(files, dir, p, n - 1);
      NamesApart(dir, n - 1);
    }
  }

  /** Everything reassemble looks for is there, with the right content. */
  lemma DirectoryHolds(files: Files, dir: string, image: bytes)
    requires InBounds(image)
    ensures var after, p := Unbundled(files, dir, image), PackageOf(image);
            && Within(dir, BOOTSTRAP_NAME) in after && after[Within(dir, BOOTSTRAP_NAME)] == p.bootstrap
            && (forall i: nat :: i < |p.slots| ==>
                  Within(dir, PartName(i)) in after && after[Within(dir, PartName(i))] == p.slots[i].data)
            && Within(dir, MANIFEST_NAME) in after
            && after[Within(dir, MANIFEST_NAME)] == RawBytes(ManifestText(ReportOf(image)))
  {
    hide InBounds, PackageOf, PartName, Within, ReportOf, ManifestText;
    var p := PackageOf(image);
    NamesApart(dir, 0);
    BootstrapWritten(files, dir, p, |p.slots|);
    forall i: nat | i < |p.slots|
      ensures Within(dir, PartName(i)) in Unbundled(files, dir, image)
      ensures Unbundled(files, dir, image)[Within(dir, PartName(i))] == p.slots[i].data
    {
      PartsWritten(files, dir, p, |p.slots|, i);
      NamesApart(dir, i);
    }
  }

  // ---- the manifest read back -------------------------------------------------------------

  lemma ManifestMembers(r: Report)
    requires Complete(r)
    ensures var root := ValueOf(ManifestDoc(r));
            && root.Object?
            && root.Find("format") == Some(String("tpkg"))
            && root.Find("package_flags") == Some(Number(Decimal(r.manifest.packageFlags)))
            && root.Find("launcher_abi") == Some(Number(Decimal(r.manifest.launcherAbi)))
            && root.Find("runtime_ref") == Some(String(Chars(TF.CString(r.manifest.runtimeRef))))
            && root.Find("bootstrap") == Some(ValueOf(BootstrapDoc(r)))
            && root.Find("slots") == Some(ValueOf(SlotsDoc(r)))
  {
    hide Decimal, BootstrapDoc, SlotsDoc, Chars, JsonValue.Find;
    var d := ManifestDoc(r);
    FindField(d, 0);
    FindField(d, 2);
    FindField(d, 3);
    FindField(d, 4);
    FindField(d, 7);
    FindField(d, 8);
  }

  lemma BootstrapMembers(r: Report)
    requires Complete(r)
    ensures ValueOf(BootstrapDoc(r)).Find("file") == Some(String(BOOTSTRAP_NAME))
  {
    hide Decimal, JsonValue.Find;
    FindField(BootstrapDoc(r), 0);
  }

  lemma SlotMembers(r: Report, i: nat)
    requires Complete(r) && i < r.manifest.slotCount
    ensures var v, s := ValueOf(SlotDoc(r, i)), r.manifest.slots[i];
            && v.Find("file") == Some(String(PartName(i)))
            && v.Find("format_id") == Some(Number(Decimal(s.formatId)))
            && v.Find("flags") == Some(Number(Decimal(s.flags)))
            && v.Find("mount_point") == Some(String(Chars(TF.CString(s.mountPoint))))
  {
    hide Decimal, PartName, Chars, FormatName, JsonValue.Find;
    var d := SlotDoc(r, i);
    FindField(d, 1);
    FindField(d, 4);
    FindField(d, 6);
    FindField(d, 7);
  }

  // ---- the plan read back ------------------------------------------------------------------

  lemma NumberMember(v: JsonValue, key: string, n: u32, default: u32)
    requires v.Find(key) == Some(Number(Decimal(n)))
    ensures U32Member(v, key, default) == Ready(n)
  {
    hide Decimal, JsonValue.Find, StrToULL;
    DecimalRoundTrip(n);
  }

  /** The slot source reassemble should find for image i. */
  function ExpectedSlot(dir: string, m: TF.Manifest, i: nat): SlotSource
    requires i < TF.MAX_SLOTS
  {
    SlotSource(WholeFile(Within(dir, PartName(i))), m.slots[i].formatId, m.slots[i].flags, TF.CString(m.slots[i].mountPoint))
  }

  lemma SlotPlanned(files: Files, dir: string, r: Report, i: nat)
    requires Complete(r) && i < r.manifest.slotCount && Within(dir, PartName(i)) in files
    ensures PlanSlot(files, dir, ValueOf(SlotDoc(r, i)), i) == Ready(ExpectedSlot(dir, r.manifest, i))
  {
    hide Decimal, PartName, ValueOf, JsonValue.Find, SniffFormat, DefaultMount, U32Member, Chars, RawBytes, SafePartName;
    var v, s := ValueOf(SlotDoc(r, i)), r.manifest.slots[i];
    SlotMembers(r, i);
    NamesSafe(i);
    RawBytesOfChars(TF.CString(s.mountPoint));
    NumberMember(v, "format_id", s.formatId, SniffFormat(files[Within(dir, PartName(i))]));
    NumberMember(v, "flags", s.flags, 0);
  }

  lemma {:induction false} SlotsPlanned(files: Files, dir: string, r: Report, items: seq<JsonValue>, n: nat)
    requires Complete(r) && |items| == r.manifest.slotCount && n <= |items|
    requires forall i: nat :: i < |items| ==> items[i] == ValueOf(SlotDoc(r, i))
    requires forall i: nat :: i < |items| ==> Within(dir, PartName(i)) in files
    ensures PlanSlots(files, dir, items, n).Ready?
    ensures forall i :: 0 <= i < n ==> PlanSlots(files, dir, items, n).value[i] == ExpectedSlot(dir, r.manifest, i)
    decreases n
  {
    hide PlanSlot, ExpectedSlot, SlotDoc, ValueOf, Within;
    if n > 0 {
      SlotsPlanned(files, dir, r, items, n - 1);
      SlotPlanned(files, dir, r, n - 1);
    }
  }

  lemma SlotItems(r: Report)
    requires Complete(r)
    ensures ValueOf(SlotsDoc(r)).Array? && |ValueOf(SlotsDoc(r)).items| == r.manifest.slotCount
    ensures forall i: nat :: i < r.manifest.slotCount ==> ValueOf(SlotsDoc(r)).items[i] == ValueOf(SlotDoc(r, i))
  {
    hide SlotDoc;
    var d := SlotsDoc(r);
    forall i: nat | i < r.manifest.slotCount ensures ItemValues(d, |d.items|)[i] == ValueOf(SlotDoc(r, i)) {
      ItemValueAt(d, |d.items|, i);
    }
  }

  lemma OptionsPlanned(r: Report)
    requires Complete(r)
    ensures PlanOptions(ValueOf(ManifestDoc(r))) == Ready(OptionsOf(r.manifest))
  {
    hide Decimal, ValueOf, ManifestDoc, JsonValue.Find, U32Member, Chars, RawBytes;
    var root, m := ValueOf(ManifestDoc(r)), r.manifest;
    ManifestMembers(r);
    RawBytesOfChars(TF.CString(m.runtimeRef));
    NumberMember(root, "package_flags", m.packageFlags, 0);
    NumberMember(root, "launcher_abi", m.launcherAbi, 0);
  }

  lemma BootstrapPlanned(files: Files, dir: string, r: Report)
    requires Complete(r) && Within(dir, BOOTSTRAP_NAME) in files
    ensures PlanBootstrap(files, dir, ValueOf(ManifestDoc(r))) == Ready(WholeFile(Within(dir, BOOTSTRAP_NAME)))
  {
    hide ValueOf, ManifestDoc, BootstrapDoc, JsonValue.Find, SafePartName, Within;
    ManifestMembers(r);
    BootstrapMembers(r);
    NamesSafe(0);
  }

  /** In an unbundled directory reassemble finds exactly the unbundled package. */
  lemma PlanReadBack(files: Files, dir: string, r: Report)
    requires Complete(r)
    requires Within(dir, MANIFEST_NAME) in files && files[Within(dir, MANIFEST_NAME)] == RawBytes(ManifestText(r))
    requires Within(dir, BOOTSTRAP_NAME) in files
    requires forall i: nat :: i < r.manifest.slotCount ==> Within(dir, PartName(i)) in files
    ensures PlanOf(files, dir).Ready?
    ensures var plan, m := PlanOf(files, dir).value, r.manifest;
            && plan.bootstrap == WholeFile(Within(dir, BOOTSTRAP_NAME))
            && plan.options == OptionsOf(m)
            && |plan.slots| == m.slotCount
            && forall i :: 0 <= i < m.slotCount ==> plan.slots[i] == ExpectedSlot(dir, m, i)
  {
    hide ParseDocument, ValueOf, ManifestDoc, SlotsDoc, SlotDoc, ManifestText, JsonValue.Find;
    hide PlanOptions, PlanBootstrap, PlanSlots, ExpectedSlot, Chars, RawBytes, Within, PartName;
    ManifestByteText(r);
    CharsOfRawBytes(ManifestText(r));
    ManifestParses(r);
    ManifestMembers(r);
    OptionsPlanned(r);
    BootstrapPlanned(files, dir, r);
    SlotItems(r);
    var items := ValueOf(SlotsDoc(r)).items;
    SlotsPlanned(files, dir, r, items, |items|);
  }

  /** The plan reads only the part files of dir. */
  ghost predicate FromDirectory(dir: string, plan: Plan) {
    && plan.bootstrap.path == Within(dir, BOOTSTRAP_NAME)
    && |plan.slots| <= TF.MAX_SLOTS
    && forall i: nat :: i < |plan.slots| ==> plan.slots[i].source.path == Within(dir, PartName(i))
  }

  /** output is none of the part files of dir. */
  ghost predicate OutputApart(dir: string, output: string) {
    output != Within(dir, BOOTSTRAP_NAME) && forall i: nat :: i < TF.MAX_SLOTS ==> output != Within(dir, PartName(i))
  }

  /**
   * The directory round trip: from what unbundle leaves in dir, reassemble gathers the
   * very package that was in the image.
   */
  lemma DirectoryRoundTrip(files: Files, dir: string, image: bytes)
    requires InBounds(image)
    ensures var after := Unbundled(files, dir, image);
            && PlanOf(after, dir).Ready?
            && var plan := PlanOf(after, dir).value;
               Readable(after, plan.bootstrap, plan.slots) &&
               Gathered(after, plan.bootstrap, plan.slots, plan.options) == PackageOf(image) &&
               FromDirectory(dir, plan)
  {
    hide TF.ReadImage, TableOffset, Unbundled, ManifestText, Within, PartName, PlanOf;
    DirectoryHolds(files, dir, image);
    TableInImage(image);
    var after, r, p := Unbundled(files, dir, image), ReportOf(image), PackageOf(image);
    PlanReadBack(after, dir, r);
    var plan := PlanOf(after, dir).value;
    WholePart(after, Within(dir, BOOTSTRAP_NAME));
    forall i | 0 <= i < |plan.slots|
      ensures PartReadable(after, plan.slots[i].source)
      ensures SlotPartOf(after, plan.slots[i]) == p.slots[i]
    {
      PartFacts(image, i);
      WholePart(after, Within(dir, PartName(i)));
    }
    assert Gathered(after, plan.bootstrap, plan.slots, plan.options).slots == p.slots;
  }

  lemma WholePart(files: Files, path: string)
    requires path in files
    ensures PartReadable(files, WholeFile(path)) && PartBytes(files, WholeFile(path)) == files[path]
  {
  }

  // ---- unbundle ------------------------------------------------------------------------------

  /** Nothing but the files unbundle writes has changed. */
  ghost predicate SameOutside(f: Files, g: Files, dir: string) {
    forall q {:trigger q in f} {:trigger q in g} ::
      !UnbundlePath(dir, q) ==> (q in f <==> q in g) && (q in f ==> f[q] == g[q])
  }

  lemma OutsideStep(f: Files, g: Files, h: Files, dir: string, p: string)
    requires SameExcept(f, g, p) && UnbundlePath(dir, p) && SameOutside(g, h, dir)
    ensures SameOutside(f, h, dir)
  {
  }

  /** stream_out: one part into its own file. */
  method StreamOut(host: Host, src: PartSource, dest: string) returns (ok: bool, crc: Word)
    requires host.Valid()
    modifies host
    ensures host.Valid() && SameExcept(host.files, old(host.files), dest)
    ensures ok && src.path != dest ==>
              && PartReadable(old(host.files), src)
              && host.files == old(host.files)[dest := PartBytes(old(host.files), src)]
              && crc == Crc32(PartBytes(old(host.files), src))
    ensures ok ==> host.faulted == old(host.faulted)
    ensures !ok && src.path != dest ==> host.faulted || !PartReadable(old(host.files), src)
    ensures old(host.faulted) ==> host.faulted
  {
    hide Crc32;
    ghost var files := host.files;
    crc := ONES;
    ok := host.Create(dest);
    if !ok {
      return;
    }
    ghost var created := host.files;
    var written;
    ok, written, crc := StreamPart(host, src, dest);
    if src.path != dest {
      PartElsewhere(created, files, src, dest);
    }
    SameExceptTwice(host.files, created, files, dest);
    if !ok {
      var _ := host.Remove(dest);
      return;
    }
    SameExceptIsUpdate(host.files, files, dest);
    if src.path != dest {
      assert [] + PartBytes(created, src) == PartBytes(created, src);
    }
  }

  /** The slot ranges must lie before the slot table. */
  method CheckRanges(m: TF.Manifest, tableOffset: u64) returns (ok: bool)
    requires m.slotCount <= TF.MAX_SLOTS
    ensures ok <==> forall i :: 0 <= i < m.slotCount ==> m.slots[i].offset + m.slots[i].size <= tableOffset
  {
    for i := 0 to m.slotCount
      invariant forall j :: 0 <= j < i ==> m.slots[j].offset + m.slots[j].size <= tableOffset
    {
      if m.slots[i].offset > tableOffset || m.slots[i].size > tableOffset - m.slots[i].offset {
        return false;
      }
    }
    return true;
  }

  /** package_unbundle up to the point where it starts writing. */
  method ReadLayout(host: Host, lib: Tpkg.Library, binary: string)
    returns (res: Outcome, m: TF.Manifest, tableOffset: u64, headerCrc: u32)
    requires host.Valid()
    modifies host`faulted, lib
    ensures res.Done? ==>
              && binary in host.files && InBounds(host.files[binary])
              && m == TF.ReadImage(host.files[binary]).value
              && tableOffset == TableOffset(host.files[binary])
              && headerCrc == U32At(TF.HeaderOf(host.files[binary]), TF.OFF_CRC)
    ensures res.Failed? ==> host.faulted || binary !in host.files || !InBounds(host.files[binary])
    ensures old(host.faulted) ==> host.faulted
  {
    hide TF.ReadImage;
    tableOffset, headerCrc := 0, 0;
    res, m := RequireManifest(host, lib, binary);
    if res.Failed? {
      return;
    }
    TableInImage(host.files[binary]);
    var ok, size := host.OpenForRead(binary);
    if !ok {
      return Failed(CannotStat), m, 0, 0;
    }
    var hdr;
    ok, hdr := host.Read(binary, size - TF.HEADER_SIZE, TF.HEADER_SIZE);
    if !ok {
      return Failed(CannotRead), m, 0, 0;
    }
    assert hdr == TF.HeaderOf(host.files[binary]);
    tableOffset, headerCrc := U64At(hdr, TF.OFF_TABLE), U32At(hdr, TF.OFF_CRC);
    ok := CheckRanges(m, tableOffset);
    if !ok {
      return Failed(SlotOutOfBounds), m, 0, 0;
    }
    return Done, m, tableOffset, headerCrc;
  }

  /** The parts as unbundle names them: bootstrap.bin, image-0.bin, image-1.bin, ... */
  method StreamParts(host: Host, binary: string, dir: string, m: TF.Manifest, ghost image: bytes)
    returns (ok: bool, bootstrapCrc: u32, crcs: seq<u32>)
    requires host.Valid() && binary in host.files && host.files[binary] == image
    requires InBounds(image) && m == TF.ReadImage(image).value
    modifies host
    ensures host.Valid() && SameOutside(host.files, old(host.files), dir)
    ensures ok ==> |crcs| == m.slotCount
    ensures ok && !UnbundlePath(dir, binary) ==>
              var p := PackageOf(image);
              && |p.slots| == m.slotCount
              && host.files == WithParts(old(host.files), dir, p, m.slotCount)
              && bootstrapCrc == WordValue(Crc32(p.bootstrap))
              && forall i :: 0 <= i < m.slotCount ==> crcs[i] == WordValue(Crc32(p.slots[i].data))
    ensures !ok && !UnbundlePath(dir, binary) ==> host.faulted
    ensures old(host.faulted) ==> host.faulted
  {
    hide TF.ReadImage, InBounds, PackageOf, Crc32, WordValue, PartBytes, PartReadable, Within, PartName,
      SameOutside, UnbundlePath, WithParts;
    ghost var files, p := host.files, PackageOf(image);
    OwnParts(files, binary);
    crcs := [];
    var crc;
    ok, crc := StreamBootstrap(host, binary, dir, m);
    bootstrapCrc := WordValue(crc);
    if !ok {
      return;
    }
    for i := 0 to m.slotCount
      invariant ok && host.Valid() && |crcs| == i
      invariant SameOutside(host.files, files, dir)
      invariant !UnbundlePath(dir, binary) ==> host.files == WithParts(files, dir, p, i)
      invariant !UnbundlePath(dir, binary) ==> forall j :: 0 <= j < i ==> crcs[j] == WordValue(Crc32(p.slots[j].data))
      invariant old(host.faulted) ==> host.faulted
    {
      OwnSlot(files, binary, i);
      ok, crc := StreamImage(host, binary, dir, m, i, files);
      if !ok {
        return;
      }
      crcs := crcs + [WordValue(crc)];
    }
  }

  /** Before that loop: the bootstrap into its own file. */
  method StreamBootstrap(host: Host, binary: string, dir: string, m: TF.Manifest) returns (ok: bool, crc: Word)
    requires host.Valid() && binary in host.files && InBounds(host.files[binary])
    requires m == ManifestIn(host.files, binary)
    modifies host
    ensures host.Valid() && SameOutside(host.files, old(host.files), dir)
    ensures ok && !UnbundlePath(dir, binary) ==>
              var p := PackageOf(old(host.files)[binary]);
              host.files == WithParts(old(host.files), dir, p, 0) && crc == Crc32(p.bootstrap)
    ensures !ok && !UnbundlePath(dir, binary) ==> host.faulted
    ensures old(host.faulted) ==> host.faulted
  {
    hide TF.ReadImage, InBounds, PackageOf, Crc32, PartBytes, PartReadable, Within, PartName;
    ghost var files := host.files;
    OwnParts(files, binary);
    ok, crc := StreamOut(host, BootstrapSource(binary, m), Within(dir, BOOTSTRAP_NAME));
    OutsideSelf(files, dir);
    OutsideStep(host.files, files, files, dir, Within(dir, BOOTSTRAP_NAME));
  }

  /** One turn of that loop: one image into its own file. */
  method StreamImage(host: Host, binary: string, dir: string, m: TF.Manifest, i: nat, ghost files: Files)
    returns (ok: bool, crc: Word)
    requires host.Valid() && binary in files && InBounds(files[binary])
    requires m == ManifestIn(files, binary) && i < m.slotCount && i < |PackageOf(files[binary]).slots|
    requires SameOutside(host.files, files, dir)
    requires !UnbundlePath(dir, binary) ==> host.files == WithParts(files, dir, PackageOf(files[binary]), i)
    modifies host
    ensures host.Valid() && SameOutside(host.files, files, dir)
    ensures ok && !UnbundlePath(dir, binary) ==>
              && host.files == WithParts(files, dir, PackageOf(files[binary]), i + 1)
              && crc == Crc32(PackageOf(files[binary]).slots[i].data)
    ensures !ok && !UnbundlePath(dir, binary) ==> host.faulted
    ensures old(host.faulted) ==> host.faulted
  {
    hide TF.ReadImage, InBounds, PackageOf, Crc32, PartBytes, PartReadable, Within, PartName;
    ghost var before := host.files;
    var dest := Within(dir, PartName(i));
    OwnSlot(files, binary, i);
    var src := PartSource(binary, m.slots[i].offset, m.slots[i].size);
    if !UnbundlePath(dir, binary) {
      SamePart(before, files, dir, src);
    }
    ok, crc := StreamOut(host, src, dest);
    OutsideStep(host.files, before, files, dir, dest);
  }

  lemma OwnSlot(files: Files, binary: string, i: nat)
    requires binary in files && InBounds(files[binary]) && i < ManifestIn(files, binary).slotCount
    ensures var m := ManifestIn(files, binary);
      var src := PartSource(binary, m.slots[i].offset, m.slots[i].size);
      && i < |PackageOf(files[binary]).slots| == m.slotCount <= TF.MAX_SLOTS
      && PartReadable(files, src)
      && PartBytes(files, src) == PackageOf(files[binary]).slots[i].data
  {
    hide TF.ReadImage, PackageOf, PartBytes, PartReadable;
    OwnParts(files, binary);
    SlotCountIs(files, binary);
    var m := ManifestIn(files, binary);
    assert SlotPartOf(files, SlotSources(binary, m)[i]) == PackageOf(files[binary]).slots[i];
  }

  lemma OutsideSelf(f: Files, dir: string)
    ensures SameOutside(f, f, dir)
  {
  }

  lemma SamePart(f: Files, g: Files, dir: string, src: PartSource)
    requires SameOutside(f, g, dir) && !UnbundlePath(dir, src.path)
    ensures PartReadable(f, src) == PartReadable(g, src)
    ensures PartReadable(f, src) ==> PartBytes(f, src) == PartBytes(g, src)
  {
  }

  /** package_unbundle: parts, then manifest.json; slots out of bounds are refused first. */
  method Unbundle(host: Host, lib: Tpkg.Library, binary: string, dir: string) returns (res: Outcome)
    requires host.Valid()
    modifies host, lib
    ensures host.Valid() && SameOutside(host.files, old(host.files), dir)
    ensures res.Done? ==> binary in old(host.files) && InBounds(old(host.files)[binary])
    ensures res.Done? && !UnbundlePath(dir, binary) ==>
              host.files == Unbundled(old(host.files), dir, old(host.files)[binary])
    ensures res.Failed? && !UnbundlePath(dir, binary) ==>
              || host.faulted || binary !in old(host.files) || !InBounds(old(host.files)[binary])
              || |ManifestText(ReportOf(old(host.files)[binary]))| > OFF_MAX
    ensures old(host.faulted) ==> host.faulted
  {
    hide TF.ReadImage, InBounds, PackageOf, ReportOf, ManifestText, TableOffset, Within, WithParts, RawBytes, Crc32;
    ghost var files := host.files;
    OutsideSelf(files, dir);
    var m, tableOffset, headerCrc;
    res, m, tableOffset, headerCrc := ReadLayout(host, lib, binary);
    if res.Failed? {
      return;
    }
    var ok := host.MakeDirectory(dir);
    if !ok {
      return Failed(CannotMakeDirectory);
    }
    ghost var image := files[binary];
    var bootstrapCrc, crcs;
    ok, bootstrapCrc, crcs := StreamParts(host, binary, dir, m, image);
    if !ok {
      return Failed(PartFailed);
    }
    SlotCountInRange(image);
    var report := Report(m, tableOffset, headerCrc, m.slots[0].offset, bootstrapCrc, crcs);
    if !UnbundlePath(dir, binary) {
      ReportIs(image, report);
    }
    ghost var written := host.files;
    res := WriteManifest(host, dir, report);
    OutsideStep(host.files, written, files, dir, Within(dir, MANIFEST_NAME));
  }

  /** The end of package_unbundle: manifest.json. */
  method WriteManifest(host: Host, dir: string, report: Report) returns (res: Outcome)
    requires host.Valid() && Complete(report)
    modifies host
    ensures host.Valid() && SameExcept(host.files, old(host.files), Within(dir, MANIFEST_NAME))
    ensures res.Done? ==> host.files == old(host.files)[Within(dir, MANIFEST_NAME) := RawBytes(ManifestText(report))]
    ensures res.Failed? ==> host.faulted || |ManifestText(report)| > OFF_MAX
    ensures old(host.faulted) ==> host.faulted
  {
    hide ManifestText, RawBytes;
    var json := ManifestPrinter.PrintManifest(report);
    var dest := Within(dir, MANIFEST_NAME);
    var ok := host.Create(dest);
    if !ok {
      return Failed(CannotCreate);
    }
    ok := host.Append(dest, RawBytes(json));
    if !ok {
      return Failed(PartFailed);
    }
    assert [] + RawBytes(json) == RawBytes(json);
    return Done;
  }

  lemma SlotCountInRange(image: bytes)
    requires InBounds(image)
    ensures 1 <= TF.ReadImage(image).value.slotCount <= TF.MAX_SLOTS
  {
    hide TF.ReadImage;
    TableInImage(image);
  }

  lemma ReportIs(image: bytes, r: Report)
    requires InBounds(image) && r.manifest == TF.ReadImage(image).value && Complete(r)
    requires r.tableOffset == TableOffset(image) && r.headerCrc == U32At(TF.HeaderOf(image), TF.OFF_CRC)
    requires r.bootstrapSize == r.manifest.slots[0].offset && r.bootstrapCrc == WordValue(Crc32(PackageOf(image).bootstrap))
    requires |PackageOf(image).slots| == |r.crcs| &&
             forall i :: 0 <= i < |r.crcs| ==> r.crcs[i] == WordValue(Crc32(PackageOf(image).slots[i].data))
    ensures r == ReportOf(image)
  {
    hide TF.ReadImage, Crc32, WordValue, TableOffset;
    BootstrapOf(image);
    assert r.crcs == ReportOf(image).crcs;
  }

  // ---- reassemble ----------------------------------------------------------------------------

  /** An optional number of the manifest: kept at its default, truncated to 32 bits, or refused. */
  method ReadU32(v: JsonValue, key: string, default: u32) returns (ok: bool, value: u32)
    ensures U32Member(v, key, default) == if ok then Ready(value) else Rejected(BadField)
  {
    value := default;
    var member := v.Find(key);
    if member.Some? {
      var n := member.value.AsU64();
      if n.None? { return false, default; }
      value := n.value % U32_LIMIT;
    }
    ok := true;
  }

  method ReadText(v: JsonValue, key: string, default: string) returns (ok: bool, value: string)
    ensures TextMember(v, key, default) == if ok then Ready(value) else Rejected(BadField)
  {
    value := default;
    var member := v.Find(key);
    if member.Some? {
      var text := member.value.AsString();
      if text.None? { return false, default; }
      value := text.value;
    }
    ok := true;
  }

  method ReadOptions(root: JsonValue) returns (r: Planned<Options>)
    ensures r == PlanOptions(root)
  {
    hide U32Member, TextMember;
    var ok, flags := ReadU32(root, "package_flags", 0);
    if !ok { return Rejected(BadField); }
    var abi, ref;
    ok, abi := ReadU32(root, "launcher_abi", 0);
    if !ok { return Rejected(BadField); }
    ok, ref := ReadText(root, "runtime_ref", "");
    if !ok { return Rejected(BadField); }
    return Ready(Options(RawBytes(ref), flags, abi));
  }

  method ReadBootstrap(host: Host, dir: string, root: JsonValue) returns (r: Planned<PartSource>)
    ensures r == PlanBootstrap(host.files, dir, root)
  {
    hide TextMember, Within, SafePartName;
    var name := BOOTSTRAP_NAME;
    var member := root.Find("bootstrap");
    if member.Some? {
      var ok;
      ok, name := ReadText(member.value, "file", BOOTSTRAP_NAME);
      if !ok { return Rejected(BadField); }
    }
    if !SafePartName(name) { return Rejected(UnsafeName); }
    var path := Within(dir, name);
    var found := host.IsRegularFile(path);
    if !found { return Rejected(PartMissing); }
    return Ready(WholeFile(path));
  }

  /** One entry of the slots array. */
  method ReadSlot(host: Host, dir: string, sj: JsonValue, i: nat) returns (r: Planned<SlotSource>)
    ensures r == PlanSlot(host.files, dir, sj, i)
  {
    hide U32Member, TextMember, Within, SafePartName, SniffFormat, DefaultMount;
    var member := sj.Find("file");
    if member.None? { return Rejected(BadField); }
    var file := member.value.AsString();
    if file.None? { return Rejected(BadField); }
    if !SafePartName(file.value) { return Rejected(UnsafeName); }
    var path := Within(dir, file.value);
    var found := host.IsRegularFile(path);
    if !found { return Rejected(PartMissing); }
    var ok, mountPoint := ReadText(sj, "mount_point", DefaultMount(i));
    if !ok { return Rejected(BadField); }
    var formatId, flags;
    ok, formatId := ReadU32(sj, "format_id", SniffFormat(host.files[path]));
    if !ok { return Rejected(BadField); }
    ok, flags := ReadU32(sj, "flags", 0);
    if !ok { return Rejected(BadField); }
    return Ready(SlotSource(WholeFile(path), formatId, flags, RawBytes(mountPoint)));
  }

  /** The slots loop of package_reassemble. */
  method ReadSlots(host: Host, dir: string, items: seq<JsonValue>) returns (r: Planned<seq<SlotSource>>)
    ensures r == PlanSlots(host.files, dir, items, |items|)
  {
    var slots: seq<SlotSource> := [];
    for i := 0 to |items|
      invariant PlanSlots(host.files, dir, items, i) == Ready(slots)
    {
      hide PlanSlot;
      var slot := ReadSlot(host, dir, items[i], i);
      if slot.Rejected? {
        RejectedStays(host.files, dir, items, i, |items|);
        return Rejected(slot.reason);
      }
      slots := slots + [slot.value];
    }
    return Ready(slots);
  }

  lemma {:induction false} RejectedStays(files: Files, dir: string, items: seq<JsonValue>, i: nat, n: nat)
    requires i < n <= |items| && PlanSlots(files, dir, items, i).Ready?
    requires PlanSlot(files, dir, items[i], i).Rejected?
    ensures PlanSlots(files, dir, items, n) == Rejected(PlanSlot(files, dir, items[i], i).reason)
    decreases n
  {
    hide PlanSlot;
    if i < n - 1 {
      RejectedStays(files, dir, items, i, n - 1);
    }
  }

  /** package_reassemble up to the call of assemble: manifest.json to part sources. */
  method ReadPlan(host: Host, dir: string) returns (r: Planned<Plan>)
    modifies host`faulted
    ensures r == PlanOf(host.files, dir) || (r == Rejected(CannotRead) && host.faulted)
    ensures old(host.faulted) ==> host.faulted
  {
    hide PlanSlot, ParseDocument, Chars, Within, PlanOptions, PlanBootstrap;
    var path := Within(dir, MANIFEST_NAME);
    if path !in host.files {
      return Rejected(ManifestMissing);
    }
    var ok, content := host.Read(path, 0, |host.files[path]|);
    if !ok {
      return Rejected(CannotRead);
    }
    assert content == host.files[path];
    var parser := new Json.JsonParser(Chars(content));
    var root, err;
    ok, root, err := parser.Parse();
    if !ok {
      return Rejected(ManifestUnparsable);
    }
    if !root.Object? {
      return Rejected(NotAnObject);
    }
    if !FormatAccepted(root) {
      return Rejected(UnsupportedFormat);
    }
    var options := ReadOptions(root);
    if options.Rejected? {
      return Rejected(options.reason);
    }
    var bootstrap := ReadBootstrap(host, dir, root);
    if bootstrap.Rejected? {
      return Rejected(bootstrap.reason);
    }
    if !SlotsUsable(root) {
      return Rejected(BadSlots);
    }
    var slots := ReadSlots(host, dir, root.Find("slots").value.items);
    if slots.Rejected? {
      return Rejected(slots.reason);
    }
    return Ready(Plan(bootstrap.value, slots.value, options.value));
  }

  /** output is now the file that the manifest.json of dir describes. */
  ghost predicate Rebuilt(after: Files, before: Files, dir: string, output: string) {
    && PlanOf(before, dir).Ready?
    && var plan := PlanOf(before, dir).value;
       && CanAssemble(before, plan.bootstrap, plan.slots, output, plan.options)
       && output in after
       && after[output] == Assembled(Gathered(before, plan.bootstrap, plan.slots, plan.options))
  }

  /** package_reassemble: gather what manifest.json names and assemble it. */
  method Reassemble(host: Host, lib: Tpkg.Library, dir: string, output: string) returns (res: Outcome)
    requires host.Valid()
    modifies host, lib
    ensures host.Valid() && SameExcept(host.files, old(host.files), output)
    ensures res.Done? ==> Rebuilt(host.files, old(host.files), dir, output)
    ensures res.Failed? && !host.faulted && PlanOf(old(host.files), dir).Rejected? ==>
              res == Failed(PlanOf(old(host.files), dir).reason) && host.files == old(host.files)
    ensures res.Failed? && PlanOf(old(host.files), dir).Ready? ==>
              var plan := PlanOf(old(host.files), dir).value;
              host.faulted || !CanAssemble(old(host.files), plan.bootstrap, plan.slots, output, plan.options)
    ensures old(host.faulted) ==> host.faulted
  {
    hide PlanOf, CanAssemble, Assembled, Gathered, Precheck;
    SameSelf(host.files, output);
    var plan := ReadPlan(host, dir);
    if plan.Rejected? {
      return Failed(plan.reason);
    }
    res := Assemble(host, lib, plan.value.bootstrap, plan.value.slots, output, plan.value.options);
  }

  // ---- there and back ---------------------------------------------------------------------------

  /**
   * unbundle takes the disk from f0 to f1, reassemble from f1 to f2. The result holds exactly what
   * the package held, without gaps; if the package had no gaps, it is the same file byte for byte.
   */
  lemma UnbundleThenReassemble(f0: Files, f1: Files, f2: Files, binary: string, dir: string, output: string)
    requires binary in f0 && InBounds(f0[binary]) && f1 == Unbundled(f0, dir, f0[binary])
    requires Rebuilt(f2, f1, dir, output)
    ensures output in f2 && Holds(f2[output], PackageOf(f0[binary]))
    ensures GapFree(f0[binary]) <==> f2[output] == f0[binary]
  {
    hide TF.ReadImage, InBounds, PackageOf, GapFree, Assembled, Assemblable, Unbundled, PlanOf, Readable;
    hide FromDirectory, Precheck;
    var image := f0[binary];
    DirectoryRoundTrip(f0, dir, image);
    ReassemblyKeepsEverything(image, f2[output]);
    GapFreeIffAssembled(image);
  }

  /** After unbundling, nothing but the host can stop the rebuilding of a package that assemble accepts. */
  lemma UnbundledCanBeRebuilt(f0: Files, f1: Files, binary: string, dir: string, output: string)
    requires binary in f0 && InBounds(f0[binary]) && f1 == Unbundled(f0, dir, f0[binary])
    requires OutputApart(dir, output)
    ensures PlanOf(f1, dir).Ready?
    ensures var plan := PlanOf(f1, dir).value;
      CanAssemble(f1, plan.bootstrap, plan.slots, output, plan.options) <==> Assemblable(PackageOf(f0[binary]))
  {
    hide TF.ReadImage, InBounds, PackageOf, Assemblable, Unbundled, PlanOf, Readable, FromDirectory, OutputApart, Precheck;
    DirectoryRoundTrip(f0, dir, f0[binary]);
    if Assemblable(PackageOf(f0[binary])) {
      PlanPassesChecks(f1, dir, PlanOf(f1, dir).value, output);
    }
  }

  /** The sources reassemble finds in an unbundled directory pass the checks of assemble. */
  lemma PlanPassesChecks(files: Files, dir: string, plan: Plan, output: string)
    requires FromDirectory(dir, plan) && OutputApart(dir, output) && Readable(files, plan.bootstrap, plan.slots)
    requires Assemblable(Gathered(files, plan.bootstrap, plan.slots, plan.options))
    ensures Precheck(plan.bootstrap, plan.slots, output, plan.options) == None
  {
    hide Readable, Gathered, Assemblable, Within, PartName;
    FittingPlanPasses(files, plan, output);
  }
}
