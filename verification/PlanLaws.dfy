/**
 * What package files and the manifest.json of an unbundled directory are taken to mean, said of
 * their members and bytes (src/cli/package.cpp).
 */
module PlanLaws {
  import opened Bytes
  import opened HostFiles
  import TF = TpkgFormat
  import opened PackageFormat
  import opened JsonFormat
  import opened ManifestJson
  import opened PackagePlan
  import PackageEdits
  import Paths

  // ---- single values --------------------------------------------------------------

  /** The file starts with this text. */
  predicate Starts(content: bytes, text: string) {
    |text| <= |content| && forall i :: 0 <= i < |text| ==> content[i] == text[i] as int
  }

  /** The format an image announces: 1 for DwarFS, 2 for SquashFS, 3 for ZIP, even an empty one, 0 otherwise. */
  ghost predicate Announces(content: bytes, id: int) {
    id == if Starts(content, "DWARFS") then 1 else if Starts(content, "hsqs") then 2
          else if Starts(content, "PK\U{3}\U{4}") || Starts(content, "PK\U{5}\U{6}") then 3 else 0
  }

  lemma SniffedIs(content: bytes, id: int)
    ensures SniffFormat(content) == id <==> Announces(content, id)
  {
    PrefixIff(DWARFS_MAGIC, content, "DWARFS");
    PrefixIff(SQUASHFS_MAGIC, content, "hsqs");
    PrefixIff(ZIP_MAGIC, content, "PK\U{3}\U{4}");
    PrefixIff(EMPTY_ZIP_MAGIC, content, "PK\U{5}\U{6}");
  }

  lemma PrefixIff(magic: bytes, content: bytes, text: string)
    requires |magic| == |text| && forall i :: 0 <= i < |text| ==> magic[i] == text[i] as int
    ensures BytesPrefix(magic, content) <==> Starts(content, text)
  {
    if Starts(content, text) {
      assert content[..|magic|] == magic;
    }
  }

  /** The mount point of a slot that is given none. */
  ghost predicate StandardMount(i: nat, mount: string) {
    if i == 0 then mount == "/__tebako_memfs__"
    else i < 10 && mount == "/__tebako_memfs_" + ["0123456789"[i]] + "__"
  }

  lemma DefaultMountIs(i: nat, mount: string)
    requires i < 10
    ensures DefaultMount(i) == mount <==> StandardMount(i, mount)
  {
    assert Decimal(i) == ["0123456789"[i]];
  }

  /** A part: the bytes of a file from its offset on, as many as asked for and there. */
  lemma PartIs(files: Files, s: PartSource)
    requires s.path in files && s.offset <= |files[s.path]|
    ensures PartReadable(files, s)
    ensures var part, rest := PartBytes(files, s), files[s.path][s.offset..];
      && part == rest[..|part|]
      && (s.length == 0xFFFF_FFFF_FFFF_FFFF ==> part == rest)
      && (s.length < 0xFFFF_FFFF_FFFF_FFFF ==> |part| == if s.length <= |rest| then s.length else |rest|)
  {
  }

  /** What assemble checks first, and in which order. */
  lemma Prechecked(bootstrap: PartSource, slots: seq<SlotSource>, output: string, options: Options)
    ensures Precheck(bootstrap, slots, output, options) ==
      if |slots| == 0 || |slots| > 8 then Some(SlotCountOutOfRange)
      else if |options.runtimeRef| > 127 then Some(RuntimeRefTooLong)
      else if exists i :: 0 <= i < |slots| && |slots[i].mountPoint| > 255 then Some(MountPointTooLong)
      else if output == bootstrap.path || exists i :: 0 <= i < |slots| && slots[i].source.path == output then Some(OutputClash)
      else None
  {
  }

  // ---- names of parts -----------------------------------------------------------------

  /** A safe name names an entry of the directory itself, under that very name; no other name does. */
  lemma SafeIffDirect(dir: string, name: string)
    requires Paths.IsNormal(dir) && Paths.IsAbsolute(dir)
    ensures SafePartName(name) <==>
      var path := Paths.Normal(Within(dir, name));
      name != "" && Paths.Filename(path) == name && Paths.Parent(path) == dir
  {
    hide Paths.Scan, Paths.Resolve, Paths.Joined, Paths.Filename, Paths.Parent, Paths.Normal;
    var path := Paths.Normal(Within(dir, name));
    var cs := Paths.Components(dir);
    Paths.NormalIsRendered(dir);
    Paths.ComponentsOfJoin(dir, name);
    Paths.NormalForm(Within(dir, name));
    assert Paths.IsAbsolute(Within(dir, name));
    if '/' !in name {
      Paths.ComponentsOfPlain(name);
    }
    if SafePartName(name) {
      DirectChild(dir, name);
    } else if name != "" && Paths.Filename(path) == name && Paths.Parent(path) == dir {
      FilenameHasNoSlash(path);
      assert name == "." || name == "..";
      NamedIsNoRoot(path);
      Paths.SplitAtLastSlash(path);
      assert false;
    }
  }

  lemma NamedIsNoRoot(path: string)
    requires Paths.Filename(path) != ""
    ensures path != "" && path != "/"
  {
  }

  lemma RootHasNoNames()
    ensures Paths.Components("/") == []
  {
  }

  lemma FilenameHasNoSlash(path: string)
    ensures '/' !in Paths.Filename(path)
  {
    hide Paths.LastIndexOf;
  }

  lemma DirectChild(dir: string, name: string)
    requires Paths.IsNormal(dir) && Paths.IsAbsolute(dir) && SafePartName(name)
    ensures var path := Paths.Normal(Within(dir, name));
      Paths.Filename(path) == name && Paths.Parent(path) == dir
  {
    hide Paths.Scan, Paths.Resolve, Paths.Joined, Paths.Filename, Paths.Parent, Paths.Render;
    var path := Paths.Normal(Within(dir, name));
    var cs := Paths.Components(dir);
    Paths.NormalIsRendered(dir);
    Paths.ComponentsOfJoin(dir, name);
    Paths.ComponentsOfPlain(name);
    assert Paths.IsAbsolute(Within(dir, name));
    Paths.ResolveOfCanonical([], cs + [name], true);
    assert [] + (cs + [name]) == cs + [name];
    Paths.RenderIsNormal(true, cs + [name]);
    Paths.RenderAbsolute(true, cs + [name]);
    assert path == Paths.Render(true, cs + [name]);
    RootHasNoNames();
    Paths.SplitAtLastSlash(path);
    assert (cs + [name])[..|cs|] == cs;
  }

  // ---- members of manifest.json -----------------------------------------------------------

  /** n is the number under that key, modulo 2^32, or the default where there is no such member. */
  ghost predicate NumberIn(v: JsonValue, key: string, default: u32, n: int) {
    match v.Find(key)
    case None => n == default
    case Some(x) => x.AsU64().Some? && 0 <= n < 0x1_0000_0000 && (x.AsU64().value - n) % 0x1_0000_0000 == 0
  }

  ghost predicate TextIn(v: JsonValue, key: string, default: string, t: string) {
    v.Find(key) == if v.Find(key).None? && t == default then None else Some(String(t))
  }

  lemma NumberIs(v: JsonValue, key: string, default: u32, n: u32)
    ensures U32Member(v, key, default) == Ready(n) <==> NumberIn(v, key, default, n)
    ensures U32Member(v, key, default).Rejected? ==>
      U32Member(v, key, default) == Rejected(BadField) && forall k :: !NumberIn(v, key, default, k)
  {
    hide StrToULL, JsonValue.Find;
  }

  lemma TextIs(v: JsonValue, key: string, default: string, t: string)
    ensures TextMember(v, key, default) == Ready(t) <==> TextIn(v, key, default, t)
    ensures TextMember(v, key, default).Rejected? ==>
      TextMember(v, key, default) == Rejected(BadField) && forall u :: !TextIn(v, key, default, u)
  {
    hide JsonValue.Find;
  }

  /** The whole of a file that lies in the directory. */
  ghost predicate PartIn(files: Files, dir: string, name: string, s: PartSource) {
    && name != "" && '/' !in name && name !in {".", ".."}
    && s.path == dir + "/" + name && s.path in files && s.offset == 0 && s.length == 0xFFFF_FFFF_FFFF_FFFF
  }

  /** The characters of a text as bytes. */
  ghost predicate BytesOf(t: string, b: bytes) {
    |b| == |t| && forall i :: 0 <= i < |t| ==> b[i] == t[i] as int % 0x100
  }

  lemma RawBytesIs(t: string, b: bytes)
    ensures RawBytes(t) == b <==> BytesOf(t, b)
  {
  }

  ghost predicate MountIn(sj: JsonValue, i: nat, b: bytes) {
    exists standard, t :: StandardMount(i, standard) && TextIn(sj, "mount_point", standard, t) && BytesOf(t, b)
  }

  /** s is what entry i of "slots" describes: a file of the directory, and its settings or their defaults. */
  ghost predicate SlotIn(files: Files, dir: string, sj: JsonValue, i: nat, s: SlotSource) {
    && (exists name :: sj.Find("file") == Some(String(name)) && PartIn(files, dir, name, s.source))
    && MountIn(sj, i, s.mountPoint)
    && (exists announced: u32 :: Announces(files[s.source.path], announced) && NumberIn(sj, "format_id", announced, s.formatId))
    && NumberIn(sj, "flags", 0, s.flags)
  }

  lemma MountIs(sj: JsonValue, i: nat, b: bytes)
    requires i < 10
    ensures MountIn(sj, i, b) <==>
      var t := TextMember(sj, "mount_point", DefaultMount(i));
      t.Ready? && RawBytes(t.value) == b
  {
    hide TextIn, TextMember, StandardMount, DefaultMount, BytesOf;
    var standard, t := DefaultMount(i), TextMember(sj, "mount_point", DefaultMount(i));
    DefaultMountIs(i, standard);
    if t.Ready? {
      TextIs(sj, "mount_point", standard, t.value);
      RawBytesIs(t.value, b);
    }
    if other, u :| StandardMount(i, other) && TextIn(sj, "mount_point", other, u) && BytesOf(u, b) {
      DefaultMountIs(i, other);
      TextIs(sj, "mount_point", other, u);
      RawBytesIs(u, b);
    }
  }

  lemma FormatIs(sj: JsonValue, content: bytes, n: u32)
    ensures (exists announced: u32 :: Announces(content, announced) && NumberIn(sj, "format_id", announced, n)) <==>
      U32Member(sj, "format_id", SniffFormat(content)) == Ready(n)
  {
    hide Announces, NumberIn, SniffFormat, U32Member;
    SniffedIs(content, SniffFormat(content));
    NumberIs(sj, "format_id", SniffFormat(content), n);
    if announced: u32 :| Announces(content, announced) && NumberIn(sj, "format_id", announced, n) {
      SniffedIs(content, announced);
    }
  }

  /** One entry: planned exactly as what it describes, or rejected for the first thing wrong with it. */
  lemma SlotIff(files: Files, dir: string, sj: JsonValue, i: nat, s: SlotSource)
    requires i < 10
    ensures PlanSlot(files, dir, sj, i) == Ready(s) <==> SlotIn(files, dir, sj, i, s)
  {
    hide Announces, NumberIn, SniffFormat, U32Member, TextMember, DefaultMount, RawBytes, MountIn, JsonValue.Find;
    MountIs(sj, i, s.mountPoint);
    NumberIs(sj, "flags", 0, s.flags);
    if s.source.path in files {
      FormatIs(sj, files[s.source.path], s.formatId);
    }
  }

  /** Why an entry is rejected. */
  ghost predicate SlotFault(files: Files, dir: string, sj: JsonValue, e: Reason) {
    match sj.Find("file")
    case Some(String(name)) =>
      e == if name == "" || '/' in name || name in {".", ".."} then UnsafeName
           else if dir + "/" + name !in files then PartMissing else BadField
    case _ => e == BadField
  }

  lemma SlotFaults(files: Files, dir: string, sj: JsonValue, i: nat)
    requires PlanSlot(files, dir, sj, i).Rejected?
    ensures SlotFault(files, dir, sj, PlanSlot(files, dir, sj, i).reason)
  {
    hide SniffFormat, StrToULL, DefaultMount, RawBytes, JsonValue.Find;
  }

  // ---- manifest.json as a whole ---------------------------------------------------------------

  ghost predicate OptionsIn(root: JsonValue, o: Options) {
    && NumberIn(root, "package_flags", 0, o.packageFlags) && NumberIn(root, "launcher_abi", 0, o.launcherAbi)
    && exists t :: TextIn(root, "runtime_ref", "", t) && BytesOf(t, o.runtimeRef)
  }

  /** Without a "bootstrap" member, or one that names no file, it is bootstrap.bin. */
  ghost predicate BootstrapNamed(root: JsonValue, name: string) {
    match root.Find("bootstrap")
    case None => name == "bootstrap.bin"
    case Some(b) => TextIn(b, "file", "bootstrap.bin", name)
  }

  ghost predicate BootstrapIn(files: Files, dir: string, root: JsonValue, s: PartSource) {
    exists name :: BootstrapNamed(root, name) && PartIn(files, dir, name, s)
  }

  ghost predicate TaggedTpkg(root: JsonValue) {
    root.Find("format").None? || root.Find("format") == Some(String("tpkg"))
  }

  ghost predicate SlotListed(root: JsonValue, items: seq<JsonValue>) {
    root.Find("slots") == Some(Array(items)) && 1 <= |items| <= 8
  }

  ghost predicate SlotsIn(files: Files, dir: string, items: seq<JsonValue>, slots: seq<SlotSource>) {
    |slots| == |items| && forall i :: 0 <= i < |slots| ==> SlotIn(files, dir, items[i], i, slots[i])
  }

  /** The plan is what manifest.json describes. */
  ghost predicate Described(files: Files, dir: string, root: JsonValue, plan: Plan) {
    && root.Object? && TaggedTpkg(root)
    && OptionsIn(root, plan.options)
    && BootstrapIn(files, dir, root, plan.bootstrap)
    && exists items :: SlotListed(root, items) && SlotsIn(files, dir, items, plan.slots)
  }

  lemma OptionsIff(root: JsonValue, o: Options)
    ensures PlanOptions(root) == Ready(o) <==> OptionsIn(root, o)
    ensures PlanOptions(root).Rejected? ==> PlanOptions(root) == Rejected(BadField)
  {
    hide NumberIn, TextIn, U32Member, TextMember, RawBytes, BytesOf;
    NumberIs(root, "package_flags", 0, o.packageFlags);
    NumberIs(root, "launcher_abi", 0, o.launcherAbi);
    var t := TextMember(root, "runtime_ref", "");
    if t.Ready? {
      TextIs(root, "runtime_ref", "", t.value);
      RawBytesIs(t.value, o.runtimeRef);
    } else {
      TextIs(root, "runtime_ref", "", "");
    }
    if u :| TextIn(root, "runtime_ref", "", u) && BytesOf(u, o.runtimeRef) {
      TextIs(root, "runtime_ref", "", u);
      RawBytesIs(u, o.runtimeRef);
    }
  }

  lemma BootstrapIff(files: Files, dir: string, root: JsonValue, s: PartSource)
    ensures PlanBootstrap(files, dir, root) == Ready(s) <==> BootstrapIn(files, dir, root, s)
  {
    hide JsonValue.Find, TextIn, TextMember;
    if root.Find("bootstrap").Some? {
      var b := root.Find("bootstrap").value;
      var t := TextMember(b, "file", "bootstrap.bin");
      TextIs(b, "file", "bootstrap.bin", if t.Ready? then t.value else "");
      if name :| BootstrapNamed(root, name) && PartIn(files, dir, name, s) {
        TextIs(b, "file", "bootstrap.bin", name);
      }
      assert t.Ready? ==> BootstrapNamed(root, t.value);
    } else {
      assert BootstrapNamed(root, "bootstrap.bin");
    }
  }

  lemma {:induction false} SlotsIff(files: Files, dir: string, items: seq<JsonValue>, n: nat, slots: seq<SlotSource>)
    requires n <= |items| <= 8 && n == |slots|
    ensures PlanSlots(files, dir, items, n) == Ready(slots) <==> SlotsIn(files, dir, items[..n], slots)
  {
    hide PlanSlot, SlotIn;
    if n > 0 {
      var front := slots[..n - 1];
      SlotsIff(files, dir, items, n - 1, front);
      SlotIff(files, dir, items[n - 1], n - 1, slots[n - 1]);
      assert slots == front + [slots[n - 1]];
      assert items[..n - 1] == items[..n][..n - 1];
    }
  }

  lemma SlotsMatch(files: Files, dir: string, items: seq<JsonValue>, slots: seq<SlotSource>)
    ensures SlotsIn(files, dir, items, slots) ==> |slots| == |items|
  {
  }

  /** Every plan is what manifest.json describes, and whatever it describes is planned. */
  lemma PlanIff(files: Files, dir: string, root: JsonValue, plan: Plan)
    ensures PlanOfRoot(files, dir, root) == Ready(plan) <==> Described(files, dir, root, plan)
  {
    hide PlanOptions, PlanBootstrap, PlanSlots, SlotsIn, OptionsIn, BootstrapIn, JsonValue.Find;
    OptionsIff(root, plan.options);
    BootstrapIff(files, dir, root, plan.bootstrap);
    assert FormatAccepted(root) <==> TaggedTpkg(root);
    if SlotsUsable(root) {
      var items := root.Find("slots").value.items;
      assert SlotListed(root, items) && items[..|items|] == items;
      if |plan.slots| == |items| {
        SlotsIff(files, dir, items, |items|, plan.slots);
      }
      SlotsMatch(files, dir, items, plan.slots);
    }
  }

  /** Why a manifest.json is rejected: the first of these that is wrong with it. */
  lemma PlanFaults(files: Files, dir: string, root: JsonValue)
    requires PlanOfRoot(files, dir, root).Rejected?
    ensures var e := PlanOfRoot(files, dir, root).reason;
      && (!root.Object? ==> e == NotAnObject)
      && (root.Object? && !TaggedTpkg(root) ==> e == UnsupportedFormat)
      && (root.Object? && TaggedTpkg(root) && (forall o :: !OptionsIn(root, o)) ==> e == BadField)
      && (root.Object? && TaggedTpkg(root) && (exists o :: OptionsIn(root, o)) ==>
            if (forall b :: !BootstrapIn(files, dir, root, b)) then BootstrapFault(files, dir, root, e)
            else if (forall items :: !SlotListed(root, items)) then e == BadSlots
            else exists i :: FirstFault(files, dir, root.Find("slots").value, i, e))
  {
    hide PlanOptions, PlanBootstrap, PlanSlots, OptionsIn, BootstrapIn, BootstrapFault, FirstFault, JsonValue.Find;
    var options, bootstrap := PlanOptions(root), PlanBootstrap(files, dir, root);
    assert FormatAccepted(root) <==> TaggedTpkg(root);
    forall o ensures options == Ready(o) <==> OptionsIn(root, o) { OptionsIff(root, o); }
    forall b ensures bootstrap == Ready(b) <==> BootstrapIn(files, dir, root, b) { BootstrapIff(files, dir, root, b); }
    OptionsIff(root, if options.Ready? then options.value else Options([], 0, 0));
    if bootstrap.Rejected? {
      BootstrapFaults(files, dir, root);
    }
    if SlotsUsable(root) {
      var items := root.Find("slots").value.items;
      assert SlotListed(root, items);
      if PlanSlots(files, dir, items, |items|).Rejected? {
        var i := SlotsFault(files, dir, items, |items|);
        assert root.Find("slots").value == Array(items);
      }
    }
  }

  ghost predicate BootstrapFault(files: Files, dir: string, root: JsonValue, e: Reason) {
    if name :| BootstrapNamed(root, name) then
      e == if name == "" || '/' in name || name in {".", ".."} then UnsafeName else PartMissing
    else e == BadField
  }

  lemma BootstrapFaults(files: Files, dir: string, root: JsonValue)
    requires PlanBootstrap(files, dir, root).Rejected?
    ensures BootstrapFault(files, dir, root, PlanBootstrap(files, dir, root).reason)
  {
    hide JsonValue.Find;
    assert root.Find("bootstrap").None? ==> BootstrapNamed(root, "bootstrap.bin");
    assert root.Find("bootstrap").Some? ==>
      var t := TextMember(root.Find("bootstrap").value, "file", "bootstrap.bin");
      (t.Ready? ==> BootstrapNamed(root, t.value)) && forall n :: BootstrapNamed(root, n) ==> t == Ready(n);
  }

  ghost predicate Describes(files: Files, dir: string, sj: JsonValue, i: nat) {
    exists s :: SlotIn(files, dir, sj, i, s)
  }

  /** Entry i is the first one that describes nothing, and e is why. */
  ghost predicate FirstFault(files: Files, dir: string, slots: JsonValue, i: nat, e: Reason) {
    && slots.Array? && i < |slots.items| && SlotFault(files, dir, slots.items[i], e)
    && !Describes(files, dir, slots.items[i], i)
    && forall j: nat :: j < i ==> Describes(files, dir, slots.items[j], j)
  }

  lemma {:induction false} SlotsFault(files: Files, dir: string, items: seq<JsonValue>, n: nat) returns (i: nat)
    requires n <= |items| <= 8 && PlanSlots(files, dir, items, n).Rejected?
    ensures FirstFault(files, dir, Array(items), i, PlanSlots(files, dir, items, n).reason)
  {
    hide PlanSlot, SlotIn, SlotFault;
    if PlanSlots(files, dir, items, n - 1).Rejected? {
      i := SlotsFault(files, dir, items, n - 1);
      assert PlanSlots(files, dir, items, n) == Rejected(PlanSlots(files, dir, items, n - 1).reason);
    } else {
      i := n - 1;
      SlotFaults(files, dir, items[i], i);
      var slots := PlanSlots(files, dir, items, i).value;
      assert PlanSlots(files, dir, items, n) == Rejected(PlanSlot(files, dir, items[i], i).reason);
      forall s ensures !SlotIn(files, dir, items[i], i, s) { SlotIff(files, dir, items[i], i, s); }
      SlotsIff(files, dir, items, i, slots);
      forall j: nat | j < i ensures Describes(files, dir, items[j], j) {
        assert SlotIn(files, dir, items[..i][j], j, slots[j]) && items[..i][j] == items[j];
      }
    }
  }

  /** Where manifest.json is looked for, and what stands in the way of reading it. */
  lemma ManifestFile(files: Files, dir: string)
    ensures var path := dir + "/manifest.json";
      PlanOf(files, dir) ==
        if path !in files then Rejected(ManifestMissing)
        else match ParseDocument(Chars(files[path]))
          case No(_) => Rejected(ManifestUnparsable)
          case Yes(root, _) => PlanOfRoot(files, dir, root)
  {
    hide PlanOfRoot, ParseDocument, Chars;
    assert Within(dir, MANIFEST_NAME) == dir + "/manifest.json";
  }

  /** The name an edit assembles under, beside the package; two edits of one package never share one. */
  lemma TemporaryNames(binary: string, pid: nat, serial: nat, otherPid: nat, otherSerial: nat)
    ensures TemporaryName(binary, pid, serial) == binary + (".tpkg-tmp-" + Decimal(pid) + "-" + Decimal(serial))
    ensures TemporaryName(binary, pid, serial) == TemporaryName(binary, otherPid, otherSerial) <==>
      pid == otherPid && serial == otherSerial
  {
    hide Decimal;
    var p, q, r, t := Decimal(pid), Decimal(serial), Decimal(otherPid), Decimal(otherSerial);
    if TemporaryName(binary, pid, serial) == TemporaryName(binary, otherPid, otherSerial) {
      SameRest(binary, ".tpkg-tmp-" + p + "-" + q, ".tpkg-tmp-" + r + "-" + t);
      assert ".tpkg-tmp-" + p + "-" + q == ".tpkg-tmp-" + (p + "-" + q);
      assert ".tpkg-tmp-" + r + "-" + t == ".tpkg-tmp-" + (r + "-" + t);
      SameRest(".tpkg-tmp-", p + "-" + q, r + "-" + t);
      SameUpToDash(p, q, r, t);
      ValueOfDecimal(pid);
      ValueOfDecimal(otherPid);
      ValueOfDecimal(serial);
      ValueOfDecimal(otherSerial);
    }
  }

  lemma SameRest(front: string, a: string, b: string)
    requires front + a == front + b
    ensures a == b
  {
    assert (front + a)[|front|..] == a && (front + b)[|front|..] == b;
  }

  lemma SameUpToDash(a: string, b: string, c: string, d: string)
    requires '-' !in a && '-' !in c && a + "-" + b == c + "-" + d
    ensures a == c && b == d
  {
    var s := a + "-" + b;
    assert s[|a|] == '-' && s[|c|] == '-';
    assert forall k :: 0 <= k < |a| ==> s[k] == a[k] && a[k] in a;
    assert forall k :: 0 <= k < |c| ==> s[k] == c[k] && c[k] in c;
    assert s[..|a|] == a && s[..|c|] == c && s[|a| + 1..] == b && s[|c| + 1..] == d;
  }

  // ---- an inserted image ------------------------------------------------------------------------

  /** The image goes behind the package's own slots: the whole file, as what it announces, without flags. */
  lemma InsertedImage(files: Files, binary: string, image: string, mountPoint: string, plan: Plan)
    requires PackageEdits.InsertPlan(files, binary, image, mountPoint, plan)
    ensures var n, m := |plan.slots| - 1, TF.ReadImage(files[binary]).value;
      && n == m.slotCount < 8 && image in files && image != binary
      && var s := plan.slots[n];
      && s.source == PartSource(image, 0, 0xFFFF_FFFF_FFFF_FFFF)
      && Announces(files[image], s.formatId) && s.flags == 0
      && (mountPoint != "" ==> BytesOf(mountPoint, s.mountPoint))
      && (mountPoint == "" ==> exists t :: StandardMount(n, t) && BytesOf(t, s.mountPoint))
  {
    hide TF.ReadImage, SniffFormat, DefaultMount, RawBytes, StandardMount, Announces, BytesOf;
    var s := plan.slots[|plan.slots| - 1];
    SniffedIs(files[image], s.formatId);
    RawBytesIs(mountPoint, s.mountPoint);
    var n := |plan.slots| - 1;
    DefaultMountIs(n, DefaultMount(n));
    RawBytesIs(DefaultMount(n), s.mountPoint);
  }
}
