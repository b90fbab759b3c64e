/** Editing a package file in place: insert-image, remove-image, set-runtime. */
module PackageEdits {
  import opened Bytes
  import opened HostFiles
  import TF = TpkgFormat
  import Tpkg
  import opened PackageFormat
  import opened PackageLaws
  import opened JsonFormat
  import opened ManifestJson
  import opened PackagePlan
  import opened Assembly

  // ---- finding the manifest ----------------------------------------------------

  ghost predicate IsPackage(files: Files, binary: string) {
    binary in files && TF.ReadImage(files[binary]).Success?
  }

  ghost function ManifestIn(files: Files, binary: string): TF.Manifest
    requires IsPackage(files, binary)
  {
    TF.ReadImage(files[binary]).value
  }

  const BLANK := TF.Manifest(0, 0, 0, 0, Zeros(TF.RUNTIME_REF_LEN), seq(TF.MAX_SLOTS, _ => TF.ZERO_SLOT))

  /** package_probe and require_manifest: the manifest of a package file, or why there is none. */
  method RequireManifest(host: Host, lib: Tpkg.Library, binary: string) returns (res: Outcome, m: TF.Manifest)
    requires host.Valid()
    modifies host`faulted, lib
    ensures res.Done? ==> IsPackage(host.files, binary) && m == ManifestIn(host.files, binary)
    ensures res.Done? ==> TF.Valid(m)
    ensures res.Failed? ==> host.faulted || !IsPackage(host.files, binary)
    ensures res.Failed? ==> res.reason.NotAPackage?
    ensures res.Failed? && !host.faulted && binary in host.files ==>
              TF.ReadImage(host.files[binary]) == TF.Failure(res.reason.code)
    ensures old(host.faulted) ==> host.faulted
  {
    m := BLANK;
    var f := host.OpenFd(binary);
    if f == null {
      return Failed(NotAPackage(TF.Io)), m;
    }
    var rc;
    rc, m := lib.ReadFd(f, m);
    var code := lib.lastErr;
    host.CloseRead(f);
    if rc != 0 {
      return Failed(NotAPackage(code)), m;
    }
    return Done, m;
  }

  // ---- rewriting ---------------------------------------------------------------------

  /** The package now has these bytes; the temporary file is gone; all else is as it was. */
  ghost predicate Rewritten(after: Files, before: Files, binary: string, tmp: string, image: bytes) {
    binary in after && after[binary] == image && tmp !in after && SameExceptTwo(after, before, tmp, binary)
  }

  /** How the three host calls that put a new file in a package's place went. */
  datatype Replacement = Replacement(renamed: bool, removed: bool, retried: bool)

  const NOT_TRIED := Replacement(false, false, false)

  /**
   * How a failed edit leaves the disk. Before the rename the package is untouched. When replacing
   * it fails, it is gone exactly when removing it succeeded between two failed renames.
   */
  ghost predicate FailedCleanly(
    after: Files, before: Files, binary: string, tmp: string, reason: Reason, move: Replacement)
  {
    && SameExceptTwo(after, before, tmp, binary)
    && (reason != CannotReplace ==> SameExcept(after, before, tmp))
    && (reason == CannotReplace ==> !move.renamed && !move.retried)
    && (reason == CannotReplace && move.removed ==> binary !in after)
    && (reason == CannotReplace && !move.removed ==> SameExcept(after, before, tmp))
  }

  /** The disk as it was, or without the temporary file. */
  ghost predicate CleanedUp(after: Files, before: Files, tmp: string) {
    after == before || after == before - {tmp}
  }

  /** rewrite_in_place: assemble into a temporary file, then rename it over the package. */
  method RewriteInPlace(
    host: Host, lib: Tpkg.Library, binary: string, bootstrap: PartSource, slots: seq<SlotSource>, options: Options,
    pid: nat, serial: nat)
    returns (res: Outcome, ghost move: Replacement)
    requires host.Valid()
    modifies host, lib
    ensures host.Valid()
    ensures var tmp := TemporaryName(binary, pid, serial);
            && (res.Done? ==> CanAssemble(old(host.files), bootstrap, slots, tmp, options))
            && (res.Done? ==> Rewritten(host.files, old(host.files), binary, tmp,
                                        Assembled(Gathered(old(host.files), bootstrap, slots, options))))
            && (res.Failed? ==> FailedCleanly(host.files, old(host.files), binary, tmp, res.reason, move))
            && (res.Failed? ==> host.faulted || !CanAssemble(old(host.files), bootstrap, slots, tmp, options))
            && (res.Failed? ==> host.faulted || CleanedUp(host.files, old(host.files), tmp))
    ensures old(host.faulted) ==> host.faulted
  {
    hide CanAssemble, Assembled, Gathered, TemporaryName, Precheck;
    ghost var before := host.files;
    var tmp := TemporaryName(binary, pid, serial);
    move := NOT_TRIED;
    res := Assemble(host, lib, bootstrap, slots, tmp, options);
    if res.Failed? {
      if tmp !in host.files {
        SameExceptIsRemoval(host.files, before, tmp);
      }
      return;
    }
    ghost var assembled := host.files;
    var ok;
    ok, move := MoveOver(host, tmp, binary);
    MovedFiles(host.files, assembled, before, tmp, binary, ok, move);
    if !ok {
      return Failed(CannotReplace), move;
    }
  }

  /** What a rename over the package, with its fall-back, leaves behind. */
  ghost predicate Moved(after: Files, before: Files, tmp: string, binary: string, ok: bool, move: Replacement)
    requires tmp in before
  {
    && SameExceptTwo(after, before, tmp, binary)
    && (ok <==> move.renamed || move.retried)
    && (ok ==> binary in after && after[binary] == before[tmp] && tmp !in after)
    && (!ok && move.removed ==> binary !in after)
    && (!ok && !move.removed ==> SameExcept(after, before, tmp))
  }

  /** Rename; if that fails, remove the package and rename again; if that fails too, drop the new file. */
  method MoveOver(host: Host, tmp: string, binary: string) returns (ok: bool, ghost move: Replacement)
    requires host.Valid() && tmp in host.files && tmp != binary
    modifies host
    ensures host.Valid() && Moved(host.files, old(host.files), tmp, binary, ok, move)
    ensures !ok ==> host.faulted
    ensures old(host.faulted) ==> host.faulted
  {
    move := NOT_TRIED;
    ok := host.Rename(tmp, binary);
    if ok {
      move := Replacement(true, false, false);
    } else {
      var removed := host.Remove(binary);
      ok := host.Rename(tmp, binary);
      move := Replacement(false, removed, ok);
    }
    if !ok {
      var _ := host.Remove(tmp);
    }
  }

  lemma MovedFiles(
    after: Files, assembled: Files, before: Files, tmp: string, binary: string, ok: bool, move: Replacement)
    requires SameExcept(assembled, before, tmp) && tmp in assembled && tmp != binary
    requires Moved(after, assembled, tmp, binary, ok, move)
    ensures ok ==> Rewritten(after, before, binary, tmp, assembled[tmp])
    ensures !ok ==> FailedCleanly(after, before, binary, tmp, CannotReplace, move)
  {
    SameElsewhere(assembled, before, tmp, binary);
  }

  // ---- a package's own parts ----------------------------------------------------------------

  /** The ranges slots_from_manifest makes are, for slots in bounds, the parts of the package. */
  lemma OwnParts(files: Files, binary: string)
    requires binary in files && InBounds(files[binary])
    ensures var m := ManifestIn(files, binary);
            && 1 <= m.slotCount <= TF.MAX_SLOTS
            && Readable(files, BootstrapSource(binary, m), SlotSources(binary, m))
            && Gathered(files, BootstrapSource(binary, m), SlotSources(binary, m), OptionsOf(m))
               == PackageOf(files[binary])
  {
    hide TF.ReadImage, TableOffset;
    var image, m := files[binary], ManifestIn(files, binary);
    TableInImage(image);
    BootstrapOf(image);
    var slots := SlotSources(binary, m);
    forall i | 0 <= i < m.slotCount
      ensures PartReadable(files, slots[i].source)
      ensures SlotPartOf(files, slots[i]) == PackageOf(image).slots[i]
    {
      PartFacts(image, i);
    }
    assert Gathered(files, BootstrapSource(binary, m), slots, OptionsOf(m)).slots == PackageOf(image).slots;
  }

  // ---- insert-image -----------------------------------------------------------------------

  function InsertedSource(files: Files, image: string, mountPoint: string, m: TF.Manifest): SlotSource
    requires image in files
  {
    SlotSource(WholeFile(image), SniffFormat(files[image]), 0,
               RawBytes(if mountPoint == "" then DefaultMount(m.slotCount) else mountPoint))
  }

  /** The checks insert-image makes before it rewrites anything. */
  ghost predicate InsertAllowed(files: Files, binary: string, image: string) {
    && IsPackage(files, binary)
    && ManifestIn(files, binary).slotCount < TF.MAX_SLOTS
    && image in files && image != binary
  }

  /** The sources insert-image assembles: the package's own parts and the new image. */
  ghost predicate InsertPlan(files: Files, binary: string, image: string, mountPoint: string, plan: Plan) {
    && InsertAllowed(files, binary, image)
    && var m := ManifestIn(files, binary);
       m.slotCount <= TF.MAX_SLOTS &&
       plan == Plan(BootstrapSource(binary, m),
                    SlotSources(binary, m) + [InsertedSource(files, image, mountPoint, m)],
                    OptionsOf(m))
  }

  /** An edit has replaced the package by what its plan assembles to. */
  ghost predicate Edited(after: Files, before: Files, binary: string, tmp: string, plan: Plan) {
    && CanAssemble(before, plan.bootstrap, plan.slots, tmp, plan.options)
    && Rewritten(after, before, binary, tmp, Assembled(Gathered(before, plan.bootstrap, plan.slots, plan.options)))
  }

  /** package_insert_image. */
  method InsertImage(host: Host, lib: Tpkg.Library, binary: string, image: string, mountPoint: string, pid: nat, serial: nat)
    returns (res: Outcome, ghost plan: Plan, ghost move: Replacement)
    requires host.Valid()
    modifies host, lib
    ensures host.Valid()
    ensures res.Done? ==> InsertPlan(old(host.files), binary, image, mountPoint, plan)
    ensures res.Done? ==> Edited(host.files, old(host.files), binary, TemporaryName(binary, pid, serial), plan)
    ensures res.Failed? ==>
              FailedCleanly(host.files, old(host.files), binary, TemporaryName(binary, pid, serial), res.reason, move)
    ensures res.Failed? ==> host.faulted || CleanedUp(host.files, old(host.files), TemporaryName(binary, pid, serial))
    ensures res.Failed? && !host.faulted && IsPackage(old(host.files), binary) && !InsertAllowed(old(host.files), binary, image) ==>
              host.files == old(host.files) && res.reason == (
                if ManifestIn(old(host.files), binary).slotCount >= 8 then PackageFull
                else if image !in old(host.files) then ImageMissing else SelfInsert) &&
              (res.reason == SelfInsert ==> image == binary)
    ensures res.Failed? && !host.faulted && InsertAllowed(old(host.files), binary, image) ==>
              InsertPlan(old(host.files), binary, image, mountPoint, plan) &&
              !CanAssemble(old(host.files), plan.bootstrap, plan.slots, TemporaryName(binary, pid, serial), plan.options)
    ensures old(host.faulted) ==> host.faulted
  {
    hide TF.ReadImage, CanAssemble, Assembled, Gathered, TemporaryName;
    var m;
    res, m := RequireManifest(host, lib, binary);
    plan, move := Plan(WholeFile(binary), [], OptionsOf(m)), NOT_TRIED;
    if res.Failed? {
      return;
    }
    if m.slotCount >= TF.MAX_SLOTS {
      return Failed(PackageFull), plan, move;
    }
    if image !in host.files {
      return Failed(ImageMissing), plan, move;
    }
    if image == binary {
      return Failed(SelfInsert), plan, move;
    }
    var slots := SlotSources(binary, m) + [InsertedSource(host.files, image, mountPoint, m)];
    plan := Plan(BootstrapSource(binary, m), slots, OptionsOf(m));
    res, move := RewriteInPlace(host, lib, binary, BootstrapSource(binary, m), slots, OptionsOf(m), pid, serial);
  }

  /** On a package whose slots are in bounds, the result is the package with the image added. */
  lemma InsertMeans(files: Files, binary: string, image: string, mountPoint: string, plan: Plan)
    requires binary in files && InBounds(files[binary]) && InsertPlan(files, binary, image, mountPoint, plan)
    ensures Readable(files, plan.bootstrap, plan.slots)
    ensures var s := InsertedSource(files, image, mountPoint, ManifestIn(files, binary));
            Gathered(files, plan.bootstrap, plan.slots, plan.options)
            == Inserted(PackageOf(files[binary]), SlotPart(files[image], s.formatId, 0, s.mountPoint))
  {
    hide TF.ReadImage, InBounds, PackageOf;
    OwnParts(files, binary);
    var m := ManifestIn(files, binary);
    var own, s := SlotSources(binary, m), InsertedSource(files, image, mountPoint, m);
    GatheredAppend(files, plan.bootstrap, own, s, plan.options);
    assert files[image][0..0 + |files[image]|] == files[image];
  }

  lemma GatheredAppend(files: Files, bootstrap: PartSource, own: seq<SlotSource>, s: SlotSource, options: Options)
    requires Readable(files, bootstrap, own) && PartReadable(files, s.source)
    ensures Readable(files, bootstrap, own + [s])
    ensures Gathered(files, bootstrap, own + [s], options)
         == Inserted(Gathered(files, bootstrap, own, options), SlotPartOf(files, s))
  {
    hide PartReadable, PartBytes;
    assert Gathered(files, bootstrap, own + [s], options).slots
        == Gathered(files, bootstrap, own, options).slots + [SlotPartOf(files, s)];
  }

  // ---- remove-image -----------------------------------------------------------------------

  ghost predicate RemoveAllowed(files: Files, binary: string, k: nat) {
    && IsPackage(files, binary)
    && k < ManifestIn(files, binary).slotCount
    && ManifestIn(files, binary).slotCount != 1
  }

  ghost predicate RemovePlan(files: Files, binary: string, k: nat, plan: Plan) {
    && RemoveAllowed(files, binary, k)
    && var m := ManifestIn(files, binary);
       m.slotCount <= TF.MAX_SLOTS &&
       plan == Plan(BootstrapSource(binary, m),
                    SlotSources(binary, m)[..k] + SlotSources(binary, m)[k + 1..],
                    OptionsOf(m))
  }

  /** package_remove_image. */
  method RemoveImage(host: Host, lib: Tpkg.Library, binary: string, k: u32, pid: nat, serial: nat)
    returns (res: Outcome, ghost plan: Plan, ghost move: Replacement)
    requires host.Valid()
    modifies host, lib
    ensures host.Valid()
    ensures res.Done? ==> RemovePlan(old(host.files), binary, k, plan)
    ensures res.Done? ==> Edited(host.files, old(host.files), binary, TemporaryName(binary, pid, serial), plan)
    ensures res.Failed? ==>
              FailedCleanly(host.files, old(host.files), binary, TemporaryName(binary, pid, serial), res.reason, move)
    ensures res.Failed? ==> host.faulted || CleanedUp(host.files, old(host.files), TemporaryName(binary, pid, serial))
    ensures res.Failed? && !host.faulted && IsPackage(old(host.files), binary) && !RemoveAllowed(old(host.files), binary, k) ==>
              host.files == old(host.files) && res.reason == (
                if k >= ManifestIn(old(host.files), binary).slotCount then NoSuchSlot else LastSlot) &&
              (res.reason == LastSlot ==> ManifestIn(old(host.files), binary).slotCount == 1)
    ensures res.Failed? && !host.faulted && RemoveAllowed(old(host.files), binary, k) ==>
              RemovePlan(old(host.files), binary, k, plan) &&
              !CanAssemble(old(host.files), plan.bootstrap, plan.slots, TemporaryName(binary, pid, serial), plan.options)
    ensures old(host.faulted) ==> host.faulted
  {
    hide TF.ReadImage, CanAssemble, Assembled, Gathered, TemporaryName;
    var m;
    res, m := RequireManifest(host, lib, binary);
    plan, move := Plan(WholeFile(binary), [], OptionsOf(m)), NOT_TRIED;
    if res.Failed? {
      return;
    }
    if k >= m.slotCount {
      return Failed(NoSuchSlot), plan, move;
    }
    if m.slotCount == 1 {
      return Failed(LastSlot), plan, move;
    }
    var all := SlotSources(binary, m);
    var slots := all[..k] + all[k + 1..];
    plan := Plan(BootstrapSource(binary, m), slots, OptionsOf(m));
    res, move := RewriteInPlace(host, lib, binary, BootstrapSource(binary, m), slots, OptionsOf(m), pid, serial);
  }

  lemma RemoveMeans(files: Files, binary: string, k: nat, plan: Plan)
    requires binary in files && InBounds(files[binary]) && RemovePlan(files, binary, k, plan)
    ensures k < |PackageOf(files[binary]).slots|
    ensures Readable(files, plan.bootstrap, plan.slots)
    ensures Gathered(files, plan.bootstrap, plan.slots, plan.options) == Removed(PackageOf(files[binary]), k)
  {
    hide TF.ReadImage, InBounds, PackageOf;
    OwnParts(files, binary);
    GatheredWithout(files, plan.bootstrap, SlotSources(binary, ManifestIn(files, binary)), k, plan.options);
  }

  lemma GatheredWithout(files: Files, bootstrap: PartSource, own: seq<SlotSource>, k: nat, options: Options)
    requires Readable(files, bootstrap, own) && k < |own|
    ensures Readable(files, bootstrap, own[..k] + own[k + 1..])
    ensures Gathered(files, bootstrap, own[..k] + own[k + 1..], options)
         == Removed(Gathered(files, bootstrap, own, options), k)
  {
    hide PartReadable, PartBytes;
    assert Gathered(files, bootstrap, own[..k] + own[k + 1..], options).slots
        == Removed(Gathered(files, bootstrap, own, options), k).slots;
  }

  // ---- set-runtime ------------------------------------------------------------------------

  ghost predicate SetRuntimeAllowed(files: Files, binary: string, runtime: string) {
    IsPackage(files, binary) && runtime in files && runtime != binary
  }

  ghost predicate SetRuntimePlan(files: Files, binary: string, runtime: string, plan: Plan) {
    && SetRuntimeAllowed(files, binary, runtime)
    && var m := ManifestIn(files, binary);
       m.slotCount <= TF.MAX_SLOTS && plan == Plan(WholeFile(runtime), SlotSources(binary, m), OptionsOf(m))
  }

  /** package_set_runtime. */
  method SetRuntime(host: Host, lib: Tpkg.Library, binary: string, runtime: string, pid: nat, serial: nat)
    returns (res: Outcome, ghost plan: Plan, ghost move: Replacement)
    requires host.Valid()
    modifies host, lib
    ensures host.Valid()
    ensures res.Done? ==> SetRuntimePlan(old(host.files), binary, runtime, plan)
    ensures res.Done? ==> Edited(host.files, old(host.files), binary, TemporaryName(binary, pid, serial), plan)
    ensures res.Failed? ==>
              FailedCleanly(host.files, old(host.files), binary, TemporaryName(binary, pid, serial), res.reason, move)
    ensures res.Failed? ==> host.faulted || CleanedUp(host.files, old(host.files), TemporaryName(binary, pid, serial))
    ensures res.Failed? && !host.faulted && IsPackage(old(host.files), binary) && !SetRuntimeAllowed(old(host.files), binary, runtime) ==>
              host.files == old(host.files) && res.reason == (
                if runtime !in old(host.files) then RuntimeMissing else OwnRuntime) &&
              (res.reason == OwnRuntime ==> runtime == binary)
    ensures res.Failed? && !host.faulted && SetRuntimeAllowed(old(host.files), binary, runtime) ==>
              SetRuntimePlan(old(host.files), binary, runtime, plan) &&
              !CanAssemble(old(host.files), plan.bootstrap, plan.slots, TemporaryName(binary, pid, serial), plan.options)
    ensures old(host.faulted) ==> host.faulted
  {
    hide TF.ReadImage, CanAssemble, Assembled, Gathered, TemporaryName;
    var m;
    res, m := RequireManifest(host, lib, binary);
    plan, move := Plan(WholeFile(binary), [], OptionsOf(m)), NOT_TRIED;
    if res.Failed? {
      return;
    }
    if runtime !in host.files {
      return Failed(RuntimeMissing), plan, move;
    }
    if runtime == binary {
      return Failed(OwnRuntime), plan, move;
    }
    plan := Plan(WholeFile(runtime), SlotSources(binary, m), OptionsOf(m));
    res, move := RewriteInPlace(host, lib, binary, WholeFile(runtime), SlotSources(binary, m), OptionsOf(m), pid, serial);
  }

  lemma SetRuntimeMeans(files: Files, binary: string, runtime: string, plan: Plan)
    requires binary in files && InBounds(files[binary]) && SetRuntimePlan(files, binary, runtime, plan)
    ensures Readable(files, plan.bootstrap, plan.slots)
    ensures Gathered(files, plan.bootstrap, plan.slots, plan.options)
         == Rebased(PackageOf(files[binary]), files[runtime])
  {
    hide TF.ReadImage, InBounds, PackageOf;
    OwnParts(files, binary);
    assert files[runtime][0..0 + |files[runtime]|] == files[runtime];
  }

  /** Sources whose package fits the format pass the checks, unless the output is one of them. */
  lemma FittingPlanPasses(files: Files, plan: Plan, output: string)
    requires Readable(files, plan.bootstrap, plan.slots)
    requires Assemblable(Gathered(files, plan.bootstrap, plan.slots, plan.options))
    requires plan.bootstrap.path != output && forall i :: 0 <= i < |plan.slots| ==> plan.slots[i].source.path != output
    ensures Precheck(plan.bootstrap, plan.slots, output, plan.options) == None
  {
    hide PartReadable, PartBytes, Payload;
    var p := Gathered(files, plan.bootstrap, plan.slots, plan.options);
    forall i | 0 <= i < |plan.slots| ensures |plan.slots[i].mountPoint| < TF.MOUNT_POINT_LEN {
      assert p.slots[i].mountPoint == plan.slots[i].mountPoint;
    }
  }

  // ---- edits that undo each other -----------------------------------------------------------

  /**
   * insert-image takes the disk from f0 to f1, remove-image of the last slot from f1 to f2:
   * a gap-free package is back, byte for byte.
   */
  lemma InsertThenRemoveLast(
    f0: Files, f1: Files, f2: Files, binary: string, image: string, mountPoint: string, tmp: string, tmp2: string,
    plan: Plan, plan2: Plan)
    requires binary in f0 && GapFree(f0[binary]) && NoNul(RawBytes(mountPoint))
    requires InsertPlan(f0, binary, image, mountPoint, plan) && Edited(f1, f0, binary, tmp, plan)
    requires RemovePlan(f1, binary, |PackageOf(f0[binary]).slots|, plan2) && Edited(f2, f1, binary, tmp2, plan2)
    ensures binary in f2 && f2[binary] == f0[binary]
  {
    hide TF.ReadImage, Assembled, Assemblable, GapFree, PackageOf, InBounds;
    hide RemoveAllowed, Gathered, SameExceptTwo, Precheck, Readable, SlotSources;
    var part := InsertedPart(f0, f1, binary, image, mountPoint, tmp, plan);
    var p := PackageOf(f0[binary]);
    InsertKeepsEverything(f0[binary], p, part, f1[binary]);
    GapFreeInBounds(f1[binary]);
    RemoveMeans(f1, binary, |p.slots|, plan2);
    InsertThenRemove(f0[binary], p, part, f1[binary], PackageOf(f1[binary]), f2[binary]);
  }

  /** The part insert-image adds, and that the result holds the package with it. */
  lemma InsertedPart(
    f0: Files, f1: Files, binary: string, image: string, mountPoint: string, tmp: string, plan: Plan)
    returns (part: SlotPart)
    requires binary in f0 && GapFree(f0[binary]) && NoNul(RawBytes(mountPoint))
    requires InsertPlan(f0, binary, image, mountPoint, plan) && Edited(f1, f0, binary, tmp, plan)
    ensures InBounds(f0[binary]) && Holds(f0[binary], PackageOf(f0[binary])) && NoNul(part.mountPoint)
    ensures binary in f1 && IsAssembled(f1[binary], Inserted(PackageOf(f0[binary]), part))
  {
    hide TF.ReadImage, Assembled, Assemblable, GapFree, PackageOf, InBounds, Gathered, SameExceptTwo, Precheck, Readable;
    GapFreeInBounds(f0[binary]);
    SlotCountIs(f0, binary);
    InsertMeans(f0, binary, image, mountPoint, plan);
    DefaultMountPlain(ManifestIn(f0, binary).slotCount);
    var s := InsertedSource(f0, image, mountPoint, ManifestIn(f0, binary));
    part := SlotPart(f0[image], s.formatId, 0, s.mountPoint);
  }

  /** After the insert, nothing but the host can stop that removal. */
  lemma InsertedCanBeRemoved(
    f0: Files, f1: Files, binary: string, image: string, mountPoint: string, tmp: string, plan: Plan, plan2: Plan,
    pid: nat, serial: nat)
    requires binary in f0 && GapFree(f0[binary]) && NoNul(RawBytes(mountPoint))
    requires InsertPlan(f0, binary, image, mountPoint, plan) && Edited(f1, f0, binary, tmp, plan)
    ensures var k := |PackageOf(f0[binary]).slots|;
      && RemoveAllowed(f1, binary, k)
      && (RemovePlan(f1, binary, k, plan2) ==>
            CanAssemble(f1, plan2.bootstrap, plan2.slots, TemporaryName(binary, pid, serial), plan2.options))
  {
    hide TF.ReadImage, Assembled, Assemblable, GapFree, PackageOf, InBounds, TemporaryName, CanAssemble;
    hide RemoveAllowed, RemovePlan, Gathered, SameExceptTwo, Precheck, Readable, SlotSources;
    var part := InsertedPart(f0, f1, binary, image, mountPoint, tmp, plan);
    var p := PackageOf(f0[binary]);
    InsertKeepsEverything(f0[binary], p, part, f1[binary]);
    SlotCountIs(f0, binary);
    RemovableAgain(f1, binary, Inserted(p, part), |p.slots|, plan2, pid, serial);
  }

  lemma SlotCountIs(files: Files, binary: string)
    requires binary in files && InBounds(files[binary])
    ensures IsPackage(files, binary)
    ensures 1 <= |PackageOf(files[binary]).slots| == ManifestIn(files, binary).slotCount <= TF.MAX_SLOTS
  {
    hide TF.ReadImage, TableOffset;
    TableInImage(files[binary]);
    PartFacts(files[binary], 0);
  }

  lemma RemovePlanPaths(files: Files, binary: string, k: nat, plan: Plan)
    requires RemovePlan(files, binary, k, plan)
    ensures plan.bootstrap.path == binary && forall i :: 0 <= i < |plan.slots| ==> plan.slots[i].source.path == binary
  {
    hide TF.ReadImage;
  }

  /** Removing a slot that is not the only one never produces a package that does not fit. */
  lemma RemovableAgain(files: Files, binary: string, p: Package, k: nat, plan: Plan, pid: nat, serial: nat)
    requires binary in files && Holds(files[binary], p) && 0 < k < |p.slots|
    ensures RemoveAllowed(files, binary, k)
    ensures RemovePlan(files, binary, k, plan) ==>
              CanAssemble(files, plan.bootstrap, plan.slots, TemporaryName(binary, pid, serial), plan.options)
  {
    hide TF.ReadImage, Assemblable, PackageOf, Readable, Gathered, Precheck, TemporaryName, GapFree, InBounds;
    hide SlotSources, RemovePlan, Removed, IsPackage;
    GapFreeInBounds(files[binary]);
    SlotCountIs(files, binary);
    if RemovePlan(files, binary, k, plan) {
      RemoveMeans(files, binary, k, plan);
      RemoveKeepsOthers(files[binary], p, k);
      RemovePlanPaths(files, binary, k, plan);
      FittingPlanPasses(files, plan, TemporaryName(binary, pid, serial));
    }
  }

  lemma GapFreeInBounds(image: bytes)
    requires GapFree(image)
    ensures InBounds(image)
  {
  }

  lemma DefaultMountPlain(i: nat)
    ensures NoNul(RawBytes(DefaultMount(i)))
  {
    var d := Decimal(i);
    forall j | 0 <= j < |d| ensures d[j] as int % 0x100 != 0 {
      assert IsDigit(d[j]);
    }
  }

  /**
   * set-runtime takes the disk from f0 to f1, set-runtime to a file with the old bootstrap from f1
   * to f2: a gap-free package is back, byte for byte.
   */
  lemma SetRuntimeThenBack(
    f0: Files, f1: Files, f2: Files, binary: string, runtime: string, original: string, tmp: string, tmp2: string,
    plan: Plan, plan2: Plan)
    requires binary in f0 && GapFree(f0[binary])
    requires original in f0 && f0[original] == PackageOf(f0[binary]).bootstrap && original != tmp
    requires SetRuntimePlan(f0, binary, runtime, plan) && Edited(f1, f0, binary, tmp, plan)
    requires SetRuntimePlan(f1, binary, original, plan2) && Edited(f2, f1, binary, tmp2, plan2)
    ensures binary in f2 && f2[binary] == f0[binary]
  {
    hide TF.ReadImage, Assembled, Assemblable, GapFree, PackageOf, InBounds, Gathered, Precheck, Readable, SlotSources;
    RebasedHolds(f0, f1, binary, runtime, tmp, plan);
    SetRuntimeMeans(f1, binary, original, plan2);
    SetRuntimeAndBack(f0[binary], PackageOf(f0[binary]), f0[runtime], f1[binary], PackageOf(f1[binary]), f2[binary]);
  }

  /** What set-runtime leaves is the package with the new bootstrap. */
  lemma RebasedHolds(f0: Files, f1: Files, binary: string, runtime: string, tmp: string, plan: Plan)
    requires binary in f0 && GapFree(f0[binary])
    requires SetRuntimePlan(f0, binary, runtime, plan) && Edited(f1, f0, binary, tmp, plan)
    ensures InBounds(f0[binary]) && Holds(f0[binary], PackageOf(f0[binary])) && Assemblable(PackageOf(f0[binary]))
    ensures runtime in f0 && binary in f1 && InBounds(f1[binary])
    ensures IsAssembled(f1[binary], Rebased(PackageOf(f0[binary]), f0[runtime]))
    ensures Holds(f1[binary], Rebased(PackageOf(f0[binary]), f0[runtime]))
  {
    hide TF.ReadImage, Assembled, Assemblable, GapFree, PackageOf, InBounds, Gathered, SameExceptTwo, Precheck, Readable;
    GapFreeInBounds(f0[binary]);
    SetRuntimeMeans(f0, binary, runtime, plan);
    HoldsIffAssembled(f0[binary], PackageOf(f0[binary]));
    HoldsIffAssembled(f1[binary], Rebased(PackageOf(f0[binary]), f0[runtime]));
    GapFreeInBounds(f1[binary]);
  }

  /** After the first, nothing but the host can stop the second. */
  lemma RuntimeCanBeSetBack(
    f0: Files, f1: Files, binary: string, runtime: string, original: string, tmp: string, plan: Plan, plan2: Plan,
    pid: nat, serial: nat)
    requires binary in f0 && GapFree(f0[binary])
    requires original in f0 && f0[original] == PackageOf(f0[binary]).bootstrap
    requires original != binary && original != tmp && original != TemporaryName(binary, pid, serial)
    requires SetRuntimePlan(f0, binary, runtime, plan) && Edited(f1, f0, binary, tmp, plan)
    ensures SetRuntimeAllowed(f1, binary, original)
    ensures SetRuntimePlan(f1, binary, original, plan2) ==>
              CanAssemble(f1, plan2.bootstrap, plan2.slots, TemporaryName(binary, pid, serial), plan2.options)
  {
    hide TF.ReadImage, Assembled, Assemblable, GapFree, PackageOf, InBounds, Gathered, Precheck, Readable, TemporaryName;
    hide SlotSources, SetRuntimeAllowed, CanAssemble;
    RebasedHolds(f0, f1, binary, runtime, tmp, plan);
    OriginalFitsAgain(f1, binary, original, PackageOf(f0[binary]), f0[runtime], plan2, pid, serial);
  }

  /** Putting back the bootstrap a package was assembled with always fits. */
  lemma OriginalFitsAgain(
    files: Files, binary: string, original: string, p: Package, bootstrap: bytes, plan: Plan, pid: nat, serial: nat)
    requires binary in files && Holds(files[binary], Rebased(p, bootstrap)) && Assemblable(p)
    requires original in files && files[original] == p.bootstrap
    requires original != binary && original != TemporaryName(binary, pid, serial)
    ensures SetRuntimeAllowed(files, binary, original)
    ensures SetRuntimePlan(files, binary, original, plan) ==>
              CanAssemble(files, plan.bootstrap, plan.slots, TemporaryName(binary, pid, serial), plan.options)
  {
    hide TF.ReadImage, Assemblable, PackageOf, Readable, Gathered, Precheck, TemporaryName;
    GapFreeInBounds(files[binary]);
    OwnParts(files, binary);
    if SetRuntimePlan(files, binary, original, plan) {
      SetRuntimeMeans(files, binary, original, plan);
      assert Rebased(Rebased(p, bootstrap), p.bootstrap) == p;
      FittingPlanPasses(files, plan, TemporaryName(binary, pid, serial));
    }
  }
}
