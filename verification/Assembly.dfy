/** assemble of package.cpp: streaming the parts of a package into a file and appending its trailer. */
module Assembly {
  import opened Bytes
  import opened Words
  import opened Crc
  import opened HostIo
  import opened HostFiles
  import TF = TpkgFormat
  import Tpkg
  import opened PackageFormat
  import opened JsonFormat
  import opened PackagePlan

  /** kCopyBufferSize: 1 MiB. */
  const COPY_BUFFER_SIZE := 0x10_0000

  /**
   * stream_part: append a byte range to the output in buffers of at most 1 MiB, and
   * compute its CRC on the way.
   */
  method StreamPart(host: Host, src: PartSource, output: string) returns (ok: bool, written: nat, crc: Word)
    requires host.Valid() && output in host.files
    requires src.path != output || host.files[output] == []
    modifies host
    ensures host.Valid() && output in host.files && SameExcept(host.files, old(host.files), output)
    ensures ok ==> PartReadable(old(host.files), src)
    ensures ok ==> written == |PartBytes(old(host.files), src)| && crc == Crc32(PartBytes(old(host.files), src))
    ensures ok ==> host.files[output] == old(host.files)[output] + PartBytes(old(host.files), src)
    ensures ok ==> host.faulted == old(host.faulted)
    ensures !ok ==> host.faulted || !PartReadable(old(host.files), src)
                    || |old(host.files)[output]| + |PartBytes(old(host.files), src)| > OFF_MAX
    ensures old(host.faulted) ==> host.faulted
  {
    hide Crc32;
    written, crc := 0, ONES;
    var size;
    ok, size := host.OpenForRead(src.path);
    if !ok {
      return;
    }
    if src.offset > size {
      return false, 0, crc;
    }
    var available := size - src.offset;
    var n := if src.length == U64_MAX then available else if src.length < available then src.length else available;
    assert PartBytes(host.files, src) == host.files[src.path][src.offset..src.offset + n];
    ok, crc := CopyRange(host, src.path, src.offset, n, output);
    written := n;
  }

  /** The copy loop of stream_part. */
  method CopyRange(host: Host, from: string, offset: nat, n: nat, output: string) returns (ok: bool, crc: Word)
    requires host.Valid() && output in host.files && from in host.files && offset + n <= |host.files[from]|
    requires from == output ==> n == 0
    modifies host
    ensures host.Valid() && output in host.files && SameExcept(host.files, old(host.files), output)
    ensures ok ==> var part := old(host.files)[from][offset..offset + n];
                   crc == Crc32(part) && host.files[output] == old(host.files)[output] + part
    ensures ok ==> host.faulted == old(host.faulted)
    ensures !ok ==> host.faulted || |old(host.files)[output]| + n > OFF_MAX
    ensures old(host.faulted) ==> host.faulted
  {
    hide Feed, Xor, SameExcept, IsTable, CopiedSoFar, Crc32, Host.Valid;
    ghost var was := host.files[output];
    ghost var part := host.files[from][offset..offset + n];
    var table := CrcTable();
    ok, crc := CopyLoop(host, from, offset, n, output, table, part);
    if ok {
      CopyEnd(host.files[output], crc, was, part);
      crc := Xor(crc, ONES);
    }
  }

  /** That loop, between setting up the CRC register and reading it out. */
  method CopyLoop(
    host: Host, from: string, offset: nat, n: nat, output: string, table: array<Word>, ghost part: bytes)
    returns (ok: bool, state: Word)
    requires host.Valid() && output in host.files && from in host.files && offset + n <= |host.files[from]|
    requires (from == output ==> n == 0) && part == host.files[from][offset..offset + n] && Filled(table)
    modifies host
    ensures host.Valid() && output in host.files && SameExcept(host.files, old(host.files), output)
    ensures ok ==> CopiedSoFar(host.files[output], state, old(host.files)[output], part, n)
    ensures ok ==> host.faulted == old(host.faulted)
    ensures !ok ==> host.faulted || |old(host.files)[output]| + n > OFF_MAX
    ensures old(host.faulted) ==> host.faulted
  {
    ghost var files := host.files;
    CopyStart(files, from, offset, part, output);
    SameSelf(files, output);
    assert COPY_BUFFER_SIZE > 0;
    hide *;
    ok, state := true, ONES;
    var remaining := n;
    while remaining > 0
      invariant 0 <= remaining <= n == |part| && host.Valid()
      invariant Copying(host.files, files, from, offset, part, output, state, n - remaining)
      invariant host.faulted == old(host.faulted)
    {
      var size := if remaining < COPY_BUFFER_SIZE then remaining else COPY_BUFFER_SIZE;
      assert 0 < size <= remaining;
      ok, state := CopyChunk(host, from, offset, n - remaining, size, output, table, state, files, part);
      if !ok {
        return;
      }
      remaining := remaining - size;
    }
    assert n - remaining == n;
    CopyingMeans(host.files, files, from, offset, part, output, state, n - remaining);
  }

  ghost predicate Filled(table: array<Word>)
    reads table
  {
    IsTable(table[..])
  }

  /** In the middle of the loop: the part is still there, `at` bytes of it are in the output, nothing else changed. */
  ghost predicate Copying(
    now: Files, files: Files, from: string, offset: nat, part: bytes, output: string, state: Word, at: nat)
  {
    && output in now && output in files && from in now && SameExcept(now, files, output)
    && offset + |part| <= |now[from]| && part == now[from][offset..offset + |part|]
    && at <= |part| && CopiedSoFar(now[output], state, files[output], part, at)
  }

  lemma CopyingMeans(
    now: Files, files: Files, from: string, offset: nat, part: bytes, output: string, state: Word, at: nat)
    requires Copying(now, files, from, offset, part, output, state, at)
    ensures output in now && output in files && SameExcept(now, files, output)
    ensures at <= |part| && CopiedSoFar(now[output], state, files[output], part, at)
  {
  }

  /** After `at` bytes: the output has grown by them and the register has read them. */
  ghost predicate CopiedSoFar(out: bytes, state: Word, was: bytes, part: bytes, at: nat)
    requires at <= |part|
  {
    out == was + part[..at] && state == Feed(ONES, part[..at])
  }

  lemma CopyStart(files: Files, from: string, offset: nat, part: bytes, output: string)
    requires output in files && from in files
    requires offset + |part| <= |files[from]| && part == files[from][offset..offset + |part|]
    ensures Copying(files, files, from, offset, part, output, ONES, 0)
  {
    assert part[..0] == [];
  }

  lemma CopyEnd(out: bytes, state: Word, was: bytes, part: bytes)
    requires CopiedSoFar(out, state, was, part, |part|)
    ensures out == was + part && Xor(state, ONES) == Crc32(part)
  {
    assert part[..|part|] == part;
  }

  lemma CopyStep(out: bytes, state: Word, was: bytes, part: bytes, at: nat, chunk: bytes)
    requires at + |chunk| <= |part| && chunk == part[at..at + |chunk|] && CopiedSoFar(out, state, was, part, at)
    ensures CopiedSoFar(out + chunk, Feed(state, chunk), was, part, at + |chunk|)
  {
    hide Feed;
    FeedConcat(ONES, part[..at], chunk);
    assert part[..at + |chunk|] == part[..at] + chunk;
  }

  lemma SliceOfPart(data: bytes, offset: nat, part: bytes, at: nat, n: nat)
    requires offset + |part| <= |data| && part == data[offset..offset + |part|] && at + n <= |part|
    ensures data[offset + at..offset + at + n] == part[at..at + n]
  {
    var slice := data[offset + at..offset + at + n];
    forall i | 0 <= i < n ensures slice[i] == part[at..at + n][i] {
      assert part[at + i] == data[offset + (at + i)];
    }
  }

  /** One turn of that loop: read a buffer, write it, update the CRC. */
  method CopyChunk(
    host: Host, from: string, offset: nat, at: nat, n: nat, output: string, table: array<Word>, state: Word,
    ghost files: Files, ghost part: bytes)
    returns (ok: bool, next: Word)
    requires host.Valid() && from != output && at + n <= |part| && Filled(table)
    requires Copying(host.files, files, from, offset, part, output, state, at)
    modifies host
    ensures host.Valid() && output in host.files && output in files && SameExcept(host.files, files, output)
    ensures ok ==> Copying(host.files, files, from, offset, part, output, next, at + n)
    ensures ok ==> host.faulted == old(host.faulted)
    ensures !ok ==> host.faulted || |files[output]| + at + n > OFF_MAX
    ensures old(host.faulted) ==> host.faulted
  {
    hide IsTable, Feed;
    next := state;
    var chunk;
    ok, chunk := host.Read(from, offset + at, n);
    if !ok {
      return;
    }
    SliceOfPart(host.files[from], offset, part, at, n);
    CopyStep(host.files[output], state, files[output], part, at, chunk);
    ghost var before := host.files;
    ok := host.Append(output, chunk);
    SameElsewhere(host.files, before, output, from);
    SameExceptTwice(host.files, before, files, output);
    if ok {
      next := CrcUpdate(table, state, chunk);
    }
  }

  /** The checks at the start of assemble, in the order of the code. */
  method CheckParts(bootstrap: PartSource, slots: seq<SlotSource>, output: string, options: Options)
    returns (bad: Option<Reason>)
    ensures bad == Precheck(bootstrap, slots, output, options)
  {
    if |slots| == 0 || |slots| > TF.MAX_SLOTS {
      return Some(SlotCountOutOfRange);
    }
    if |options.runtimeRef| >= TF.RUNTIME_REF_LEN {
      return Some(RuntimeRefTooLong);
    }
    for i := 0 to |slots|
      invariant forall j :: 0 <= j < i ==> |slots[j].mountPoint| < TF.MOUNT_POINT_LEN
    {
      if |slots[i].mountPoint| >= TF.MOUNT_POINT_LEN {
        return Some(MountPointTooLong);
      }
    }
    if bootstrap.path == output {
      return Some(OutputClash);
    }
    for i := 0 to |slots|
      invariant forall j :: 0 <= j < i ==> slots[j].source.path == bootstrap.path || slots[j].source.path != output
    {
      if slots[i].source.path != bootstrap.path && slots[i].source.path == output {
        return Some(OutputClash);
      }
    }
    return None;
  }

  /** strncpy of at most width - 1 bytes into a zeroed field of that width. */
  method CopyText(s: bytes, width: nat) returns (field: bytes)
    requires |s| < width
    ensures field == Field(s, width)
  {
    var n := Tpkg.StrNLen(s);
    field := s[..n] + seq(width - n, _ => 0);
  }

  /** Part sources elsewhere are not affected by what is written to output. */
  lemma PartElsewhere(f: Files, g: Files, s: PartSource, output: string)
    requires SameExcept(f, g, output) && s.path != output
    ensures PartReadable(f, s) == PartReadable(g, s)
    ensures PartReadable(f, s) ==> PartBytes(f, s) == PartBytes(g, s)
  {
    SameElsewhere(f, g, output, s.path);
  }

  /** The data of the first i slots, as far as they have been streamed. */
  ghost function StreamedData(files: Files, slots: seq<SlotSource>, i: nat): bytes
    requires i <= |slots| && forall j :: 0 <= j < i ==> PartReadable(files, slots[j].source)
  {
    if i == 0 then [] else StreamedData(files, slots, i - 1) + PartBytes(files, slots[i - 1].source)
  }

  lemma {:induction false} StreamedIsGathered(
    files: Files, bootstrap: PartSource, slots: seq<SlotSource>, options: Options, i: nat)
    requires Readable(files, bootstrap, slots) && i <= |slots|
    ensures StreamedData(files, slots, i) == SlotData(Gathered(files, bootstrap, slots, options).slots[..i])
  {
    var p := Gathered(files, bootstrap, slots, options);
    if i > 0 {
      StreamedIsGathered(files, bootstrap, slots, options, i - 1);
      assert p.slots[..i][..i - 1] == p.slots[..i - 1];
    } else {
      assert p.slots[..0] == [];
    }
  }

  /** The record that assemble fills in for a slot whose image starts at offset. */
  ghost predicate SlotFilled(slot: TF.Slot, files: Files, s: SlotSource, offset: nat)
    requires PartReadable(files, s.source)
  {
    && slot.offset == offset
    && slot.size == |PartBytes(files, s.source)|
    && slot.formatId == s.formatId && slot.flags == s.flags
    && |s.mountPoint| < TF.MOUNT_POINT_LEN
    && slot.mountPoint == Field(s.mountPoint, TF.MOUNT_POINT_LEN)
  }

  /** The manifest after the first i slots have been streamed. */
  ghost predicate FilledIn(m: TF.Manifest, files: Files, slots: seq<SlotSource>, base: nat, i: nat)
    requires i <= |slots| <= TF.MAX_SLOTS && forall j :: 0 <= j < i ==> PartReadable(files, slots[j].source)
  {
    && (forall j :: 0 <= j < i ==> SlotFilled(m.slots[j], files, slots[j], base + |StreamedData(files, slots, j)|))
    && (forall j :: i <= j < TF.MAX_SLOTS ==> m.slots[j] == TF.ZERO_SLOT)
  }

  lemma FilledInIsManifest(
    m: TF.Manifest, files: Files, bootstrap: PartSource, slots: seq<SlotSource>, options: Options)
    requires Readable(files, bootstrap, slots) && 1 <= |slots| <= TF.MAX_SLOTS
    requires var p := Gathered(files, bootstrap, slots, options); TextsFit(p) && |Payload(p)| < U64_LIMIT
    requires FilledIn(m, files, slots, |PartBytes(files, bootstrap)|, |slots|)
    requires m.version == TF.VERSION && m.slotCount == |slots|
    requires m.packageFlags == options.packageFlags && m.launcherAbi == options.launcherAbi
    requires m.runtimeRef == Field(options.runtimeRef, TF.RUNTIME_REF_LEN)
    ensures m == ManifestOf(Gathered(files, bootstrap, slots, options))
  {
    hide Field, PartBytes;
    var p := Gathered(files, bootstrap, slots, options);
    var n := ManifestOf(p);
    forall j | 0 <= j < TF.MAX_SLOTS
      ensures m.slots[j] == n.slots[j]
    {
      if j < |slots| {
        StreamedIsGathered(files, bootstrap, slots, options, j);
        assert n.slots[j] == SlotRecord(p, j);
      }
    }
    assert m.slots == n.slots;
  }

  /** What assemble has streamed when all parts are in, against the package they describe. */
  lemma StreamedPayload(files: Files, bootstrap: PartSource, slots: seq<SlotSource>, options: Options)
    requires Readable(files, bootstrap, slots)
    ensures PartBytes(files, bootstrap) + StreamedData(files, slots, |slots|)
         == Payload(Gathered(files, bootstrap, slots, options))
  {
    var p := Gathered(files, bootstrap, slots, options);
    StreamedIsGathered(files, bootstrap, slots, options, |slots|);
    assert p.slots[..|slots|] == p.slots;
  }

  /** The parts, up to some slot, are more than a file can hold. */
  ghost predicate TooLong(files: Files, bootstrap: PartSource, slots: seq<SlotSource>)
    requires Readable(files, bootstrap, slots)
  {
    exists i: nat :: i <= |slots| && |PartBytes(files, bootstrap)| + |StreamedData(files, slots, i)| > OFF_MAX
  }

  lemma TooLongAfter(files: Files, bootstrap: PartSource, slots: seq<SlotSource>, i: nat)
    requires i < |slots|
    ensures Readable(files, bootstrap, slots) &&
            |PartBytes(files, bootstrap)| + |StreamedData(files, slots, i)| + |PartBytes(files, slots[i].source)| > OFF_MAX
            ==> TooLong(files, bootstrap, slots)
  {
    if Readable(files, bootstrap, slots) {
      assert |StreamedData(files, slots, i + 1)| == |StreamedData(files, slots, i)| + |PartBytes(files, slots[i].source)|;
    }
  }

  lemma TooLongAtOnce(files: Files, bootstrap: PartSource, slots: seq<SlotSource>)
    ensures Readable(files, bootstrap, slots) && |PartBytes(files, bootstrap)| > OFF_MAX ==> TooLong(files, bootstrap, slots)
  {
    if Readable(files, bootstrap, slots) {
      assert |StreamedData(files, slots, 0)| == 0;
    }
  }

  lemma StreamedTooLong(files: Files, bootstrap: PartSource, slots: seq<SlotSource>, options: Options, i: nat)
    requires Readable(files, bootstrap, slots) && i <= |slots|
    requires |PartBytes(files, bootstrap)| + |StreamedData(files, slots, i)| > OFF_MAX
    ensures !Assemblable(Gathered(files, bootstrap, slots, options))
  {
    var p := Gathered(files, bootstrap, slots, options);
    StreamedIsGathered(files, bootstrap, slots, options, i);
    SlotDataConcat(p.slots[..i], p.slots[i..]);
    assert p.slots == p.slots[..i] + p.slots[i..];
  }

  /** The streaming in assemble: bootstrap and images into the output, offsets and sizes into the manifest. */
  method StreamAll(host: Host, bootstrap: PartSource, slots: seq<SlotSource>, output: string, start: TF.Manifest)
    returns (ok: bool, m: TF.Manifest)
    requires host.Valid() && output in host.files && host.files[output] == []
    requires 1 <= |slots| <= TF.MAX_SLOTS && bootstrap.path != output
    requires forall i :: 0 <= i < |slots| ==> slots[i].source.path != output
    requires forall i :: 0 <= i < |slots| ==> |slots[i].mountPoint| < TF.MOUNT_POINT_LEN
    requires forall i :: 0 <= i < TF.MAX_SLOTS ==> start.slots[i] == TF.ZERO_SLOT
    modifies host
    ensures host.Valid() && output in host.files && SameExcept(host.files, old(host.files), output)
    ensures old(host.faulted) ==> host.faulted
    ensures ok ==> StreamState(host.files[output], m, start, old(host.files), bootstrap, slots, |slots|)
    ensures ok ==> host.faulted == old(host.faulted)
    ensures !ok ==> host.faulted || !Readable(old(host.files), bootstrap, slots)
                    || TooLong(old(host.files), bootstrap, slots)
  {
    hide PartReadable, PartBytes, TooLong, StreamState, SameExcept, Host.Valid;
    ghost var files := host.files;
    var written, crc;
    ok, written, crc := StreamPart(host, bootstrap, output);
    if !ok {
      TooLongAtOnce(files, bootstrap, slots);
      return false, start;
    }
    StreamStart(host.files[output], start, files, bootstrap, slots);
    ok, m := StreamSlots(host, bootstrap, slots, output, start, written, files);
  }

  /** The loop over the images. */
  method StreamSlots(
    host: Host, ghost bootstrap: PartSource, slots: seq<SlotSource>, output: string, start: TF.Manifest, size: nat,
    ghost files: Files)
    returns (ok: bool, m: TF.Manifest)
    requires host.Valid() && output in host.files && size == |host.files[output]|
    requires SameExcept(host.files, files, output) && |slots| <= TF.MAX_SLOTS
    requires forall i :: 0 <= i < |slots| ==> slots[i].source.path != output
    requires forall i :: 0 <= i < |slots| ==> |slots[i].mountPoint| < TF.MOUNT_POINT_LEN
    requires StreamState(host.files[output], start, start, files, bootstrap, slots, 0)
    modifies host
    ensures host.Valid() && output in host.files && SameExcept(host.files, files, output)
    ensures old(host.faulted) ==> host.faulted
    ensures ok ==> StreamState(host.files[output], m, start, files, bootstrap, slots, |slots|)
    ensures ok ==> host.faulted == old(host.faulted)
    ensures !ok ==> host.faulted || !Readable(files, bootstrap, slots) || TooLong(files, bootstrap, slots)
  {
    hide PartReadable, PartBytes, TooLong, StreamState, SameExcept, Host.Valid;
    ok, m := true, start;
    var total := size;
    for i := 0 to |slots|
      invariant host.Valid() && output in host.files && SameExcept(host.files, files, output)
      invariant ok && host.faulted == old(host.faulted)
      invariant total == |host.files[output]|
      invariant StreamState(host.files[output], m, start, files, bootstrap, slots, i)
    {
      StreamSize(host.files[output], m, start, files, bootstrap, slots, i);
      ghost var out := host.files[output];
      var slot;
      ok, slot, total := StreamSlot(host, slots[i], output, total, files);
      if !ok {
        TooLongAfter(files, bootstrap, slots, i);
        return;
      }
      StreamNext(out, m, start, files, bootstrap, slots, i, slot);
      m := m.(slots := m.slots[i := slot]);
    }
  }

  /** After i images: what the output holds, and which slots of the manifest are filled in. */
  ghost predicate StreamState(
    out: bytes, m: TF.Manifest, start: TF.Manifest, files: Files, bootstrap: PartSource, slots: seq<SlotSource>, i: nat)
    requires i <= |slots| <= TF.MAX_SLOTS
  {
    && PartReadable(files, bootstrap)
    && (forall j :: 0 <= j < i ==> PartReadable(files, slots[j].source))
    && out == PartBytes(files, bootstrap) + StreamedData(files, slots, i)
    && m == start.(slots := m.slots)
    && FilledIn(m, files, slots, |PartBytes(files, bootstrap)|, i)
  }

  lemma StreamStart(out: bytes, start: TF.Manifest, files: Files, bootstrap: PartSource, slots: seq<SlotSource>)
    requires |slots| <= TF.MAX_SLOTS && PartReadable(files, bootstrap)
    requires out == [] + PartBytes(files, bootstrap)
    requires forall i :: 0 <= i < TF.MAX_SLOTS ==> start.slots[i] == TF.ZERO_SLOT
    ensures StreamState(out, start, start, files, bootstrap, slots, 0)
  {
    hide PartReadable, PartBytes;
  }

  lemma StreamSize(
    out: bytes, m: TF.Manifest, start: TF.Manifest, files: Files, bootstrap: PartSource, slots: seq<SlotSource>, i: nat)
    requires i <= |slots| <= TF.MAX_SLOTS && StreamState(out, m, start, files, bootstrap, slots, i)
    ensures PartReadable(files, bootstrap) && forall j :: 0 <= j < i ==> PartReadable(files, slots[j].source)
    ensures |out| == |PartBytes(files, bootstrap)| + |StreamedData(files, slots, i)|
  {
  }

  lemma StreamNext(
    out: bytes, m: TF.Manifest, start: TF.Manifest, files: Files, bootstrap: PartSource, slots: seq<SlotSource>, i: nat,
    slot: TF.Slot)
    requires i < |slots| <= TF.MAX_SLOTS && StreamState(out, m, start, files, bootstrap, slots, i)
    requires PartReadable(files, slots[i].source) && SlotFilled(slot, files, slots[i], |out|)
    ensures StreamState(out + PartBytes(files, slots[i].source), m.(slots := m.slots[i := slot]), start,
                        files, bootstrap, slots, i + 1)
  {
    hide PartReadable, PartBytes, SlotFilled, StreamedData;
    StreamedStep(files, slots, i);
    Associate(PartBytes(files, bootstrap), StreamedData(files, slots, i), PartBytes(files, slots[i].source));
  }

  /** Once all is streamed, the output is the payload of the package and m is its manifest. */
  lemma StreamedManifest(
    out: bytes, m: TF.Manifest, start: TF.Manifest, files: Files, bootstrap: PartSource, slots: seq<SlotSource>,
    options: Options)
    requires 1 <= |slots| <= TF.MAX_SLOTS && StreamState(out, m, start, files, bootstrap, slots, |slots|)
    requires |out| < U64_LIMIT && |options.runtimeRef| < TF.RUNTIME_REF_LEN
    requires start.version == TF.VERSION && start.slotCount == |slots|
    requires start.packageFlags == options.packageFlags && start.launcherAbi == options.launcherAbi
    requires start.runtimeRef == Field(options.runtimeRef, TF.RUNTIME_REF_LEN)
    ensures Readable(files, bootstrap, slots)
    ensures var p := Gathered(files, bootstrap, slots, options);
            TextsFit(p) && out == Payload(p) && m == ManifestOf(p)
  {
    hide PartReadable, PartBytes, Field;
    StreamedPayload(files, bootstrap, slots, options);
    var p := Gathered(files, bootstrap, slots, options);
    forall i | 0 <= i < |slots| ensures |p.slots[i].mountPoint| < TF.MOUNT_POINT_LEN {
      assert SlotFilled(m.slots[i], files, slots[i], |PartBytes(files, bootstrap)| + |StreamedData(files, slots, i)|);
    }
    FilledInIsManifest(m, files, bootstrap, slots, options);
  }

  lemma StreamedStep(files: Files, slots: seq<SlotSource>, i: nat)
    requires i < |slots| && forall j :: 0 <= j < i ==> PartReadable(files, slots[j].source)
    ensures PartReadable(files, slots[i].source) ==>
              StreamedData(files, slots, i + 1) == StreamedData(files, slots, i) + PartBytes(files, slots[i].source)
  {
  }

  lemma Associate(a: bytes, b: bytes, c: bytes)
    ensures (a + b) + c == a + (b + c)
  {
  }

  /** One turn of that loop: stream the image and make its slot record. */
  method StreamSlot(host: Host, s: SlotSource, output: string, offset: nat, ghost files: Files)
    returns (ok: bool, slot: TF.Slot, total: nat)
    requires host.Valid() && output in host.files && offset == |host.files[output]|
    requires SameExcept(host.files, files, output) && s.source.path != output
    requires |s.mountPoint| < TF.MOUNT_POINT_LEN
    modifies host
    ensures host.Valid() && output in host.files && SameExcept(host.files, files, output)
    ensures old(host.faulted) ==> host.faulted
    ensures ok ==> PartReadable(files, s.source) && SlotFilled(slot, files, s, offset)
    ensures ok ==> host.files[output] == old(host.files)[output] + PartBytes(files, s.source)
    ensures ok ==> total == offset + |PartBytes(files, s.source)|
    ensures ok ==> host.faulted == old(host.faulted)
    ensures !ok ==> host.faulted || !PartReadable(files, s.source) || offset + |PartBytes(files, s.source)| > OFF_MAX
  {
    hide PartReadable, PartBytes, Field;
    PartElsewhere(host.files, files, s.source, output);
    slot, total := TF.ZERO_SLOT, offset;
    var written, crc;
    ok, written, crc := StreamPart(host, s.source, output);
    if !ok {
      return;
    }
    assert offset <= OFF_MAX && written <= OFF_MAX;
    var mountPoint := CopyText(s.mountPoint, TF.MOUNT_POINT_LEN);
    slot := TF.Slot(offset, written, s.formatId, s.flags, mountPoint);
    total := offset + written;
  }

  /** assemble: check, stream the parts, append the trailer; on any failure the output is removed. */
  method Assemble(
    host: Host, lib: Tpkg.Library, bootstrap: PartSource, slots: seq<SlotSource>, output: string, options: Options)
    returns (res: Outcome)
    requires host.Valid()
    modifies host, lib
    ensures host.Valid() && SameExcept(host.files, old(host.files), output)
    ensures old(host.faulted) ==> host.faulted
    ensures Precheck(bootstrap, slots, output, options).Some? ==>
              res == Failed(Precheck(bootstrap, slots, output, options).value) && host.files == old(host.files)
    ensures res.Done? ==> CanAssemble(old(host.files), bootstrap, slots, output, options)
    ensures res.Done? ==>
              output in host.files &&
              host.files[output] == Assembled(Gathered(old(host.files), bootstrap, slots, options))
    ensures res.Failed? ==> host.faulted || !CanAssemble(old(host.files), bootstrap, slots, output, options)
    ensures res.Failed? ==> res.reason != CannotReplace
    ensures res.Failed? && Precheck(bootstrap, slots, output, options) == None ==> host.faulted || output !in host.files
  {
    ghost var files := host.files;
    var bad := CheckParts(bootstrap, slots, output, options);
    if bad.Some? {
      return Failed(bad.value);
    }
    var runtimeRef := CopyText(options.runtimeRef, TF.RUNTIME_REF_LEN);
    var start := TF.Manifest(TF.VERSION, options.packageFlags, |slots|, options.launcherAbi, runtimeRef,
                             seq(TF.MAX_SLOTS, _ => TF.ZERO_SLOT));
    var ok := host.Create(output);
    if !ok {
      return Failed(CannotCreate);
    }
    SourcesElsewhere(host.files, files, bootstrap, slots, output, options);
    ghost var created := host.files;
    var m;
    ok, m := StreamAll(host, bootstrap, slots, output, start);
    if !ok {
      StreamFailed(created, bootstrap, slots, options);
      var _ := host.Remove(output);
      return Failed(PartFailed);
    }
    StreamedManifest(host.files[output], m, start, created, bootstrap, slots, options);
    res := WriteTrailer(host, lib, Gathered(created, bootstrap, slots, options), m, output);
  }

  lemma SourcesElsewhere(
    f: Files, g: Files, bootstrap: PartSource, slots: seq<SlotSource>, output: string, options: Options)
    requires SameExcept(f, g, output) && Precheck(bootstrap, slots, output, options) == None
    ensures Readable(f, bootstrap, slots) == Readable(g, bootstrap, slots)
    ensures Readable(f, bootstrap, slots) ==>
              Gathered(f, bootstrap, slots, options) == Gathered(g, bootstrap, slots, options)
  {
    hide PartReadable, PartBytes, SameExcept;
    PartElsewhere(f, g, bootstrap, output);
    forall i | 0 <= i < |slots|
      ensures PartReadable(f, slots[i].source) == PartReadable(g, slots[i].source)
      ensures PartReadable(f, slots[i].source) ==> SlotPartOf(f, slots[i]) == SlotPartOf(g, slots[i])
    {
      PartElsewhere(f, g, slots[i].source, output);
    }
    if Readable(f, bootstrap, slots) {
      assert Gathered(f, bootstrap, slots, options).slots == Gathered(g, bootstrap, slots, options).slots;
    }
  }

  lemma StreamFailed(files: Files, bootstrap: PartSource, slots: seq<SlotSource>, options: Options)
    ensures Readable(files, bootstrap, slots) && TooLong(files, bootstrap, slots) ==>
              !Assemblable(Gathered(files, bootstrap, slots, options))
  {
    if Readable(files, bootstrap, slots) {
      forall i: nat | i <= |slots| && |PartBytes(files, bootstrap)| + |StreamedData(files, slots, i)| > OFF_MAX
        ensures !Assemblable(Gathered(files, bootstrap, slots, options))
      {
        StreamedTooLong(files, bootstrap, slots, options, i);
      }
    }
  }

  /** The last step of assemble: tpkg_write_fd on the streamed file. */
  method WriteTrailer(host: Host, lib: Tpkg.Library, ghost p: Package, m: TF.Manifest, output: string)
    returns (res: Outcome)
    requires host.Valid() && output in host.files
    requires 1 <= |p.slots| <= TF.MAX_SLOTS && TextsFit(p) && |Payload(p)| < U64_LIMIT
    requires host.files[output] == Payload(p) && m == ManifestOf(p)
    modifies host, lib
    ensures host.Valid() && SameExcept(host.files, old(host.files), output)
    ensures old(host.faulted) ==> host.faulted
    ensures res.Done? ==> Assemblable(p) && output in host.files && host.files[output] == Assembled(p)
    ensures res.Failed? ==> host.faulted || (!Assemblable(p) && output !in host.files)
    ensures res.Failed? ==> res.reason != CannotReplace
  {
    hide TF.Trailer;
    var f := host.OpenFd(output);
    if f == null {
      var _ := host.Remove(output);
      return Failed(CannotReopen);
    }
    FormatsFromValid(p);
    var rc := lib.WriteFd(f, m);
    var code := lib.lastErr;
    host.CloseFd(output, f);
    if rc != 0 {
      var _ := host.Remove(output);
      return Failed(TrailerFailed(code));
    }
    return Done;
  }

  lemma FormatsFromValid(p: Package)
    requires 1 <= |p.slots| <= TF.MAX_SLOTS && TextsFit(p) && |Payload(p)| < U64_LIMIT
    ensures |Payload(p)| + TF.TrailerSize(|p.slots|) <= OFF_MAX ==> (Assemblable(p) <==> TF.Valid(ManifestOf(p)))
  {
    if TF.Valid(ManifestOf(p)) {
      forall i | 0 <= i < |p.slots| ensures p.slots[i].formatId <= TF.FORMAT_RUNTIME {
        assert TF.SlotValid(ManifestOf(p).slots[i]);
      }
    }
    if Assemblable(p) {
      ManifestOfValid(p);
    }
  }
}
