/** What the package commands do to the host's files, as functions of the files before. */
module PackagePlan {
  import opened Bytes
  import opened Crc
  import opened HostFiles
  import TF = TpkgFormat
  import opened PackageFormat
  import opened JsonFormat
  import opened ManifestJson

  // ---- parts ------------------------------------------------------------------

  /** A byte range of a file; length U64_MAX means up to the end. */
  datatype PartSource = PartSource(path: string, offset: u64, length: u64)

  datatype SlotSource = SlotSource(source: PartSource, formatId: u32, flags: u32, mountPoint: bytes)

  function WholeFile(path: string): PartSource {
    PartSource(path, 0, U64_MAX)
  }

  predicate PartReadable(files: Files, s: PartSource) {
    s.path in files && s.offset <= |files[s.path]|
  }

  /** The range, cut off at the end of the file. */
  function PartBytes(files: Files, s: PartSource): bytes
    requires PartReadable(files, s)
  {
    var available := |files[s.path]| - s.offset;
    var n := if s.length == U64_MAX || s.length > available then available else s.length;
    files[s.path][s.offset..s.offset + n]
  }

  datatype Reason =
    | SlotCountOutOfRange | RuntimeRefTooLong | MountPointTooLong | OutputClash
    | CannotCreate | PartFailed | CannotReopen | TrailerFailed(code: TF.ErrCode) | CannotReplace
    | NotAPackage(code: TF.ErrCode) | CannotStat | CannotRead | SlotOutOfBounds | CannotMakeDirectory
    | ManifestMissing | ManifestUnparsable | NotAnObject | UnsupportedFormat | BadField
    | UnsafeName | PartMissing | BadSlots
    | PackageFull | ImageMissing | SelfInsert | NoSuchSlot | LastSlot | RuntimeMissing | OwnRuntime

  datatype Outcome = Done | Failed(reason: Reason)

  // ---- assemble ------------------------------------------------------------------

  /** The checks assemble makes before it touches the disk, in order. */
  function Precheck(bootstrap: PartSource, slots: seq<SlotSource>, output: string, options: Options): Option<Reason> {
    if !(1 <= |slots| <= TF.MAX_SLOTS) then Some(SlotCountOutOfRange)
    else if |options.runtimeRef| >= TF.RUNTIME_REF_LEN then Some(RuntimeRefTooLong)
    else if exists i :: 0 <= i < |slots| && |slots[i].mountPoint| >= TF.MOUNT_POINT_LEN then Some(MountPointTooLong)
    else if bootstrap.path == output then Some(OutputClash)
    else if exists i :: 0 <= i < |slots| && slots[i].source.path != bootstrap.path && slots[i].source.path == output then
      Some(OutputClash)
    else None
  }

  predicate Readable(files: Files, bootstrap: PartSource, slots: seq<SlotSource>) {
    PartReadable(files, bootstrap) && forall i :: 0 <= i < |slots| ==> PartReadable(files, slots[i].source)
  }

  function SlotPartOf(files: Files, s: SlotSource): SlotPart
    requires PartReadable(files, s.source)
  {
    SlotPart(PartBytes(files, s.source), s.formatId, s.flags, s.mountPoint)
  }

  /** The package that the sources describe. */
  function Gathered(files: Files, bootstrap: PartSource, slots: seq<SlotSource>, options: Options): (p: Package)
    requires Readable(files, bootstrap, slots)
    ensures |p.slots| == |slots|
  {
    Package(PartBytes(files, bootstrap),
            seq(|slots|, i requires 0 <= i < |slots| => SlotPartOf(files, slots[i])),
            options)
  }

  ghost predicate CanAssemble(
    files: Files, bootstrap: PartSource, slots: seq<SlotSource>, output: string, options: Options)
  {
    && Precheck(bootstrap, slots, output, options) == None
    && Readable(files, bootstrap, slots)
    && Assemblable(Gathered(files, bootstrap, slots, options))
  }

  // ---- editing in place -----------------------------------------------------------

  /** slots_from_manifest: the slots of a package, as ranges of its own file. */
  function SlotSourceAt(binary: string, m: TF.Manifest, i: nat): SlotSource
    requires i < m.slotCount <= TF.MAX_SLOTS
  {
    var s := m.slots[i];
    SlotSource(PartSource(binary, s.offset, s.size), s.formatId, s.flags, TF.CString(s.mountPoint))
  }

  function SlotSources(binary: string, m: TF.Manifest): (r: seq<SlotSource>)
    requires m.slotCount <= TF.MAX_SLOTS
    ensures |r| == m.slotCount
  {
    seq(m.slotCount, i requires 0 <= i < m.slotCount => SlotSourceAt(binary, m, i))
  }

  function OptionsOf(m: TF.Manifest): Options {
    Options(TF.CString(m.runtimeRef), m.packageFlags, m.launcherAbi)
  }

  function BootstrapSource(binary: string, m: TF.Manifest): PartSource {
    PartSource(binary, 0, m.slots[0].offset)
  }

  function TemporaryName(binary: string, pid: nat, serial: nat): (r: string)
    ensures r != binary
  {
    var r := binary + (".tpkg-tmp-" + Decimal(pid) + "-" + Decimal(serial));
    assert |r| > |binary|;
    r
  }

  const DWARFS_MAGIC: bytes := [0x44, 0x57, 0x41, 0x52, 0x46, 0x53]
  const SQUASHFS_MAGIC: bytes := [0x68, 0x73, 0x71, 0x73]
  const ZIP_MAGIC: bytes := [0x50, 0x4B, 3, 4]
  const EMPTY_ZIP_MAGIC: bytes := [0x50, 0x4B, 5, 6]

  predicate BytesPrefix(p: bytes, b: bytes) {
    |p| <= |b| && b[..|p|] == p
  }

  /** sniff_format: the format id an image's first bytes announce. */
  function SniffFormat(content: bytes): u32 {
    if BytesPrefix(DWARFS_MAGIC, content) then 1
    else if BytesPrefix(SQUASHFS_MAGIC, content) then 2
    else if BytesPrefix(ZIP_MAGIC, content) || BytesPrefix(EMPTY_ZIP_MAGIC, content) then 3
    else 0
  }

  /** package_default_mount. */
  function DefaultMount(i: nat): string {
    if i == 0 then "/__tebako_memfs__" else "/__tebako_memfs_" + Decimal(i) + "__"
  }

  // ---- unbundle ----------------------------------------------------------------------

  function Within(dir: string, name: string): string {
    dir + "/" + name
  }

  const MANIFEST_NAME := "manifest.json"

  ghost function ReportOf(image: bytes): (r: Report)
    requires InBounds(image)
    ensures Complete(r)
  {
    hide TF.ReadImage, TableOffset;
    TableInImage(image);
    var m, p := TF.ReadImage(image).value, PackageOf(image);
    Report(m, TableOffset(image), U32At(TF.HeaderOf(image), TF.OFF_CRC), |p.bootstrap|,
           WordValue(Crc32(p.bootstrap)),
           seq(m.slotCount, i requires 0 <= i < m.slotCount => WordValue(Crc32(p.slots[i].data))))
  }

  /** The files after the bootstrap and the first n images have been written to dir. */
  function WithParts(files: Files, dir: string, p: Package, n: nat): Files
    requires n <= |p.slots|
  {
    if n == 0 then files[Within(dir, BOOTSTRAP_NAME) := p.bootstrap]
    else WithParts(files, dir, p, n - 1)[Within(dir, PartName(n - 1)) := p.slots[n - 1].data]
  }

  ghost function Unbundled(files: Files, dir: string, image: bytes): Files
    requires InBounds(image)
  {
    var p := PackageOf(image);
    WithParts(files, dir, p, |p.slots|)[Within(dir, MANIFEST_NAME) := RawBytes(ManifestText(ReportOf(image)))]
  }

  /** The paths unbundle may write. */
  ghost predicate UnbundlePath(dir: string, path: string) {
    || path == Within(dir, BOOTSTRAP_NAME)
    || path == Within(dir, MANIFEST_NAME)
    || exists i: nat :: i < TF.MAX_SLOTS && path == Within(dir, PartName(i))
  }

  // ---- reassemble ------------------------------------------------------------------------

  datatype Plan = Plan(bootstrap: PartSource, slots: seq<SlotSource>, options: Options)

  datatype Planned<+T> = Ready(value: T) | Rejected(reason: Reason)

  predicate SafePartName(name: string) {
    name != "" && '/' !in name && name != "." && name != ".."
  }

  /** An optional unsigned member, truncated to 32 bits. */
  function U32Member(v: JsonValue, key: string, default: u32): Planned<u32> {
    match v.Find(key)
    case None => Ready(default)
    case Some(x) => if x.AsU64().None? then Rejected(BadField) else Ready(x.AsU64().value % U32_LIMIT)
  }

  function TextMember(v: JsonValue, key: string, default: string): Planned<string> {
    match v.Find(key)
    case None => Ready(default)
    case Some(x) => if x.AsString().None? then Rejected(BadField) else Ready(x.AsString().value)
  }

  /** The source for slots[i] of the manifest, with what it leaves out filled in. */
  function PlanSlot(files: Files, dir: string, sj: JsonValue, i: nat): Planned<SlotSource> {
    if sj.Find("file").None? || sj.Find("file").value.AsString().None? then Rejected(BadField)
    else
      var file := sj.Find("file").value.AsString().value;
      var path := Within(dir, file);
      if !SafePartName(file) then Rejected(UnsafeName)
      else if path !in files then Rejected(PartMissing)
      else
        match TextMember(sj, "mount_point", DefaultMount(i))
        case Rejected(e) => Rejected(e)
        case Ready(mountPoint) =>
          match U32Member(sj, "format_id", SniffFormat(files[path]))
          case Rejected(e) => Rejected(e)
          case Ready(formatId) =>
            match U32Member(sj, "flags", 0)
            case Rejected(e) => Rejected(e)
            case Ready(flags) => Ready(SlotSource(WholeFile(path), formatId, flags, RawBytes(mountPoint)))
  }

  /** The first n slots, or the first one that is wrong. */
  function PlanSlots(files: Files, dir: string, items: seq<JsonValue>, n: nat): (r: Planned<seq<SlotSource>>)
    requires n <= |items|
    ensures r.Ready? ==> |r.value| == n
  {
    if n == 0 then Ready([])
    else
      match PlanSlots(files, dir, items, n - 1)
      case Rejected(e) => Rejected(e)
      case Ready(before) =>
        match PlanSlot(files, dir, items[n - 1], n - 1)
        case Rejected(e) => Rejected(e)
        case Ready(s) => Ready(before + [s])
  }

  function PlanOptions(root: JsonValue): Planned<Options> {
    match U32Member(root, "package_flags", 0)
    case Rejected(e) => Rejected(e)
    case Ready(flags) =>
      match U32Member(root, "launcher_abi", 0)
      case Rejected(e) => Rejected(e)
      case Ready(abi) =>
        match TextMember(root, "runtime_ref", "")
        case Rejected(e) => Rejected(e)
        case Ready(ref) => Ready(Options(RawBytes(ref), flags, abi))
  }

  function PlanBootstrap(files: Files, dir: string, root: JsonValue): Planned<PartSource> {
    var name := match root.Find("bootstrap")
                case None => Ready(BOOTSTRAP_NAME)
                case Some(b) => TextMember(b, "file", BOOTSTRAP_NAME);
    match name
    case Rejected(e) => Rejected(e)
    case Ready(n) =>
      if !SafePartName(n) then Rejected(UnsafeName)
      else if Within(dir, n) !in files then Rejected(PartMissing)
      else Ready(WholeFile(Within(dir, n)))
  }

  predicate FormatAccepted(root: JsonValue) {
    root.Find("format").None? || root.Find("format").value.AsString() == Some("tpkg")
  }

  predicate SlotsUsable(root: JsonValue) {
    root.Find("slots").Some? && root.Find("slots").value.Array? && 1 <= |root.Find("slots").value.items| <= TF.MAX_SLOTS
  }

  /** From the parsed manifest.json to the sources of a package, checks in the order of the code. */
  function PlanOfRoot(files: Files, dir: string, root: JsonValue): Planned<Plan> {
    if !root.Object? then Rejected(NotAnObject)
    else if !FormatAccepted(root) then Rejected(UnsupportedFormat)
    else
      match PlanOptions(root)
      case Rejected(e) => Rejected(e)
      case Ready(options) =>
        match PlanBootstrap(files, dir, root)
        case Rejected(e) => Rejected(e)
        case Ready(bootstrap) =>
          if !SlotsUsable(root) then Rejected(BadSlots)
          else
            var items := root.Find("slots").value.items;
            match PlanSlots(files, dir, items, |items|)
            case Rejected(e) => Rejected(e)
            case Ready(slots) => Ready(Plan(bootstrap, slots, options))
  }

  function PlanOf(files: Files, dir: string): Planned<Plan> {
    if Within(dir, MANIFEST_NAME) !in files then Rejected(ManifestMissing)
    else
      match ParseDocument(Chars(files[Within(dir, MANIFEST_NAME)]))
      case No(_) => Rejected(ManifestUnparsable)
      case Yes(root, _) => PlanOfRoot(files, dir, root)
  }
}
