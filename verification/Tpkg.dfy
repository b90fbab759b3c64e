/** The routines of tpkg.h: validate, read from a descriptor or memory, append to a descriptor. */
module Tpkg {
  import opened Bytes
  import opened Words
  import opened Crc
  import opened HostIo
  import opened TpkgFormat

  /** Where the reader core takes its bytes from. */
  datatype Source = Memory(image: bytes) | Descriptor(file: File)
  {
    ghost function Content(): bytes
      reads if Descriptor? then {file} else {}
    {
      if Descriptor? then file.data else image
    }

    ghost function Files(): set<object> {
      if Descriptor? then {file} else {}
    }

    ghost predicate Faulted()
      reads Files()
    {
      Descriptor? && file.faulted
    }
  }

  function Status(code: ErrCode): int {
    if code == Ok then 0 else -1
  }

  method StrNLen(s: bytes) returns (n: nat)
    ensures n == StrLen(s)
  {
    n := 0;
    while n < |s| && s[n] != 0
      invariant n <= |s| && forall i :: 0 <= i < n ==> s[i] != 0
    {
      n := n + 1;
    }
    StrLenUnique(s, n);
  }

  /** tpkg__put_str: copy up to the NUL, zero the rest of the field. */
  method PutString(p: array<byte>, at: nat, s: bytes)
    requires at + |s| <= p.Length
    modifies p
    ensures p[..] == Patched(old(p[..]), at, PutStr(s))
  {
    var len := StrNLen(s);
    forall k | 0 <= k < len {
      p[at + k] := s[k];
    }
    forall k | len <= k < |s| {
      p[at + k] := 0;
    }
    assert p[at..at + |s|] == PutStr(s);
  }

  method PutWord(p: array<byte>, at: nat, w: Word)
    requires at + 4 <= p.Length
    modifies p
    ensures p[..] == Patched(old(p[..]), at, WordBytes(w))
  {
    hide LowByte, Down8;
    p[at] := LowByte(w);
    p[at + 1] := LowByte(Down8(w));
    p[at + 2] := LowByte(Down8(Down8(w)));
    p[at + 3] := LowByte(Down8(Down8(Down8(w))));
  }

  method PutRecord(p: array<byte>, at: nat, s: Slot)
    requires at + SLOT_SIZE <= p.Length
    modifies p
    ensures p[..] == Patched(old(p[..]), at, Record(s))
  {
    hide PutStr;
    var a, b, c, d := LeBytes(s.offset, 8), LeBytes(s.size, 8), LeBytes(s.formatId, 4), LeBytes(s.flags, 4);
    ghost var was := p[..];
    Put64(p, at, s.offset);
    Put64(p, at + REC_SIZE, s.size);
    PatchedTwice(was, at, a, b);
    Put32(p, at + REC_FORMAT, s.formatId);
    PatchedTwice(was, at, a + b, c);
    Put32(p, at + REC_FLAGS, s.flags);
    PatchedTwice(was, at, a + b + c, d);
    PutString(p, at + REC_MOUNT, s.mountPoint);
    PatchedTwice(was, at, a + b + c + d, PutStr(s.mountPoint));
  }

  method PutHeader(p: array<byte>, at: nat, m: Manifest, end: u64)
    requires at + HEADER_SIZE <= p.Length
    modifies p
    ensures p[..] == Patched(old(p[..]), at, Header(m, end))
  {
    hide PutStr, Crc32, WordBytes;
    ghost var was := p[..];
    forall k | 0 <= k < |MAGIC| {
      p[at + k] := MAGIC[k];
    }
    assert p[..] == Patched(was, at, MAGIC);
    ghost var done := MAGIC;
    Put32(p, at + OFF_VERSION, m.version);
    PatchedTwice(was, at, done, LeBytes(m.version, 4));
    done := done + LeBytes(m.version, 4);
    Put32(p, at + OFF_PACKAGE_FLAGS, m.packageFlags);
    PatchedTwice(was, at, done, LeBytes(m.packageFlags, 4));
    done := done + LeBytes(m.packageFlags, 4);
    Put32(p, at + OFF_SLOT_COUNT, m.slotCount);
    PatchedTwice(was, at, done, LeBytes(m.slotCount, 4));
    done := done + LeBytes(m.slotCount, 4);
    Put64(p, at + OFF_TABLE, end);
    PatchedTwice(was, at, done, LeBytes(end, 8));
    done := done + LeBytes(end, 8);
    PutString(p, at + OFF_RUNTIME_REF, m.runtimeRef);
    PatchedTwice(was, at, done, PutStr(m.runtimeRef));
    done := done + PutStr(m.runtimeRef);
    Put32(p, at + OFF_LAUNCHER_ABI, m.launcherAbi);
    PatchedTwice(was, at, done, LeBytes(m.launcherAbi, 4));
    done := done + LeBytes(m.launcherAbi, 4);
    assert done == HeaderBody(m, end);
    assert p[at..at + OFF_CRC] == done;
    var crc := TpkgCrc32(p, at, OFF_CRC);
    PutWord(p, at + OFF_CRC, crc);
    PatchedTwice(was, at, done, WordBytes(crc));
  }

  /** Reads exactly n bytes at offset off; the caller has checked that they exist. */
  method ReadAt(src: Source, off: nat, buf: array<byte>, n: nat) returns (rc: int)
    requires off + n <= |src.Content()| && n <= buf.Length
    modifies buf, src.Files()
    ensures src.Content() == old(src.Content())
    ensures rc == 0 || rc == -1
    ensures rc == 0 ==> buf[..n] == src.Content()[off..off + n] && src.Faulted() == old(src.Faulted())
    ensures rc == -1 ==> src.Faulted()
  {
    match src
    case Memory(image) =>
      forall k | 0 <= k < n {
        buf[k] := image[off + k];
      }
      return 0;
    case Descriptor(f) =>
      var at := f.SeekSet(off);
      if at == -1 {
        return -1;
      }
      rc := ReadFull(f, buf, n);
      assert n == 0 ==> buf[..n] == [];
  }

  /** The error cell of the library (tpkg__last_err) and the routines that set it. */
  class Library {
    var lastErr: ErrCode

    constructor ()
      ensures lastErr == Ok
    {
      lastErr := Ok;
    }

    method Fail(code: ErrCode) returns (rc: int)
      modifies this
      ensures lastErr == code && rc == -1
    {
      lastErr := code;
      return -1;
    }

    /** tpkg_validate: accepts exactly the valid manifests. */
    method Validate(m: Manifest) returns (rc: int)
      modifies this
      ensures lastErr == ValidationCode(m) && rc == Status(lastErr)
      ensures rc == 0 <==> Valid(m)
    {
      lastErr := Ok;
      if m.version != VERSION {
        rc := Fail(Version);
        return;
      }
      if m.slotCount == 0 || m.slotCount > MAX_SLOTS {
        rc := Fail(SlotCount);
        return;
      }
      var len := StrNLen(m.runtimeRef);
      if len == RUNTIME_REF_LEN {
        rc := Fail(Invalid);
        return;
      }
      for i := 0 to m.slotCount
        invariant lastErr == Ok
        invariant forall j :: 0 <= j < i ==> SlotValid(m.slots[j])
      {
        var s := m.slots[i];
        if s.size > U64_MAX - s.offset {
          rc := Fail(Invalid);
          assert !SlotValid(m.slots[i]);
          return;
        }
        if s.formatId > FORMAT_RUNTIME {
          rc := Fail(Invalid);
          assert !SlotValid(m.slots[i]);
          return;
        }
        len := StrNLen(s.mountPoint);
        if len == MOUNT_POINT_LEN {
          rc := Fail(Invalid);
          assert !SlotValid(m.slots[i]);
          return;
        }
      }
      return 0;
    }

    /** The header checks of tpkg__read_core, on the bytes in hdr. */
    method CheckHeader(hdr: array<byte>) returns (code: ErrCode)
      requires hdr.Length == HEADER_SIZE
      ensures code == HeaderCode(hdr[..])
    {
      hide Crc32, Word4;
      if hdr[..4] != MAGIC_PREFIX {
        return NoTrailer;
      }
      if hdr[..OFF_VERSION] != MAGIC {
        return BadMagic;
      }
      var crc := TpkgCrc32(hdr, 0, OFF_CRC);
      assert hdr[..][..OFF_CRC] == hdr[0..0 + OFF_CRC] && hdr[..][OFF_CRC..] == hdr[OFF_CRC..];
      if crc != Word4(hdr[OFF_CRC..]) {
        return BadCrc;
      }
      var version := Get32(hdr, OFF_VERSION);
      if version != VERSION {
        return Version;
      }
      var slotCount := Get32(hdr, OFF_SLOT_COUNT);
      if slotCount == 0 || slotCount > MAX_SLOTS {
        return SlotCount;
      }
      return Ok;
    }

    method ParseSlot(table: array<byte>, at: nat) returns (s: Slot)
      requires at + SLOT_SIZE <= table.Length
      ensures s == ParseRecord(table[at..at + SLOT_SIZE])
    {
      var offset := Get64(table, at);
      var size := Get64(table, at + REC_SIZE);
      var formatId := Get32(table, at + REC_FORMAT);
      var flags := Get32(table, at + REC_FLAGS);
      ghost var rec := table[at..at + SLOT_SIZE];
      assert table[..][at..at + 8] == rec[0..8] && table[..][at + 8..at + 16] == rec[8..16];
      assert table[..][at + 16..at + 20] == rec[16..20] && table[..][at + 20..at + 24] == rec[20..24];
      assert table[at + REC_MOUNT..at + SLOT_SIZE] == rec[REC_MOUNT..];
      s := Slot(offset, size, formatId, flags, table[at + REC_MOUNT..at + SLOT_SIZE]);
    }

    method ParseTable(table: array<byte>, slotCount: nat) returns (slots: seq<Slot>)
      requires SLOT_SIZE * slotCount <= table.Length
      ensures slots == ParseSlots(table[..SLOT_SIZE * slotCount], slotCount)
    {
      hide ParseRecord;
      ghost var t := table[..SLOT_SIZE * slotCount];
      slots := [];
      for i := 0 to slotCount
        invariant |slots| == i && forall j :: 0 <= j < i ==> slots[j] == ParseSlots(t, slotCount)[j]
      {
        var s := ParseSlot(table, SLOT_SIZE * i);
        assert RecordAt(t, i) == table[SLOT_SIZE * i..SLOT_SIZE * i + SLOT_SIZE];
        slots := slots + [s];
      }
    }

    method ParseOut(hdr: array<byte>, table: array<byte>, slotCount: nat) returns (out: Manifest)
      requires hdr.Length == HEADER_SIZE && slotCount == U32At(hdr[..], OFF_SLOT_COUNT) <= MAX_SLOTS
      requires SLOT_SIZE * slotCount <= table.Length
      ensures out == ParseManifest(hdr[..], table[..SLOT_SIZE * slotCount])
    {
      hide ParseSlots;
      var version := Get32(hdr, OFF_VERSION);
      var packageFlags := Get32(hdr, OFF_PACKAGE_FLAGS);
      var launcherAbi := Get32(hdr, OFF_LAUNCHER_ABI);
      var slots := ParseTable(table, slotCount);
      assert hdr[..][OFF_RUNTIME_REF..OFF_LAUNCHER_ABI] == hdr[OFF_RUNTIME_REF..OFF_LAUNCHER_ABI];
      out := Manifest(version, packageFlags, slotCount, launcherAbi, hdr[OFF_RUNTIME_REF..OFF_LAUNCHER_ABI],
                      slots + seq(MAX_SLOTS - slotCount, _ => ZERO_SLOT));
    }

    /** The second half of tpkg__read_core: the slot table, once the header has passed. */
    method ReadTable(src: Source, size: u64, hdr: array<byte>, was: Manifest) returns (rc: int, out: Manifest)
      requires hdr.Length == HEADER_SIZE <= size == |src.Content()|
      requires hdr !in src.Files()
      requires hdr[..] == HeaderOf(src.Content()) && HeaderCode(hdr[..]) == Ok
      modifies this, src.Files()
      ensures src.Content() == old(src.Content())
      ensures rc == 0 || rc == -1
      ensures rc == 0 ==> lastErr == Ok && ReadImage(src.Content()) == Success(out)
      ensures rc == -1 ==> (lastErr == Io && src.Faulted()) || ReadImage(src.Content()) == Failure(lastErr)
    {
      hide HeaderCode, ParseManifest;
      out := was;
      var slotCount := Get32(hdr, OFF_SLOT_COUNT);
      HeaderCountInRange(hdr[..]);
      var tableOff: u64 := Get64(hdr, OFF_TABLE);
      var avail: u64 := size - HEADER_SIZE;
      TableBound(tableOff, avail, slotCount);
      if tableOff > avail || slotCount > (avail - tableOff) / SLOT_SIZE {
        rc := Fail(Bounds);
        return;
      }
      var table := new byte[MAX_SLOTS * SLOT_SIZE];
      rc := ReadAt(src, tableOff, table, slotCount * SLOT_SIZE);
      if rc != 0 {
        rc := Fail(Io);
        return;
      }
      out := ParseOut(hdr, table, slotCount);
      CheckedManifest(hdr[..], table[..SLOT_SIZE * slotCount]);
      rc := Validate(out);
    }

    /**
     * tpkg__read_core. Until it has something to report, `out` keeps what it was.
     * Every ReadAt is in bounds by its precondition, no step leaves
     * 64 bits, and without an i/o fault the outcome is that of ReadImage.
     */
    method ReadCore(src: Source, size: u64, was: Manifest) returns (rc: int, out: Manifest)
      requires size == |src.Content()|
      modifies this, src.Files()
      ensures src.Content() == old(src.Content())
      ensures rc == 0 || rc == -1
      ensures rc == 0 ==> lastErr == Ok && ReadImage(src.Content()) == Success(out)
      ensures rc == -1 ==> (lastErr == Io && src.Faulted()) || ReadImage(src.Content()) == Failure(lastErr)
    {
      hide HeaderCode, ParseManifest;
      out := was;
      if size < HEADER_SIZE {
        rc := Fail(NoTrailer);
        return;
      }
      var hdr := new byte[HEADER_SIZE];
      rc := ReadAt(src, size - HEADER_SIZE, hdr, HEADER_SIZE);
      if rc != 0 {
        rc := Fail(Io);
        return;
      }
      assert hdr[..] == hdr[..HEADER_SIZE] == HeaderOf(src.Content());
      var code := CheckHeader(hdr);
      if code != Ok {
        rc := Fail(code);
        return;
      }
      hide ReadImage;
      rc, out := ReadTable(src, size, hdr, was);
    }

    /** The division test cannot overflow and says exactly that the table fits. */
    lemma TableBound(tableOff: u64, avail: u64, slotCount: nat)
      ensures tableOff > avail || slotCount > (avail - tableOff) / SLOT_SIZE
         <==> tableOff + SLOT_SIZE * slotCount > avail
    {
    }

    lemma HeaderCountInRange(hdr: bytes)
      requires |hdr| == HEADER_SIZE && HeaderCode(hdr) == Ok
      ensures 1 <= U32At(hdr, OFF_SLOT_COUNT) <= MAX_SLOTS
    {
    }

    /** After the header checks only the structural checks of tpkg_validate can still fail. */
    lemma CheckedManifest(hdr: bytes, table: bytes)
      requires |hdr| == HEADER_SIZE && HeaderCode(hdr) == Ok
      requires |table| == SLOT_SIZE * U32At(hdr, OFF_SLOT_COUNT)
      ensures U32At(hdr, OFF_SLOT_COUNT) <= MAX_SLOTS
      ensures ValidationCode(ParseManifest(hdr, table)) in {Ok, Invalid}
    {
    }

    /** tpkg_read_mem. */
    method ReadMem(image: bytes, was: Manifest) returns (rc: int, out: Manifest)
      requires |image| < U64_LIMIT
      modifies this
      ensures rc == 0 <==> ReadImage(image).Success?
      ensures rc == 0 ==> lastErr == Ok && ReadImage(image) == Success(out)
      ensures rc != 0 ==> rc == -1 && ReadImage(image) == Failure(lastErr)
    {
      lastErr := Ok;
      rc, out := ReadCore(Memory(image), |image|, was);
    }

    /** tpkg_read_fd: a null file stands for a bad descriptor. */
    method ReadFd(f: File?, was: Manifest) returns (rc: int, out: Manifest)
      requires f != null ==> f.Valid()
      modifies this, f
      ensures rc == 0 || rc == -1
      ensures f == null ==> rc == -1 && lastErr == Arg
      ensures f != null ==> f.data == old(f.data)
      ensures f != null && rc == 0 ==> lastErr == Ok && ReadImage(f.data) == Success(out)
      ensures f != null && rc == -1 ==> (lastErr == Io && f.faulted) || ReadImage(f.data) == Failure(lastErr)
    {
      lastErr, out := Ok, was;
      if f == null {
        rc := Fail(Arg);
        return;
      }
      var end := f.SeekEnd();
      if end == -1 {
        rc := Fail(Io);
        return;
      }
      rc, out := ReadCore(Descriptor(f), end, was);
    }

    /** The slot table and header, laid out in one buffer. */
    method TrailerBuffer(m: Manifest, end: u64) returns (buf: array<byte>, p: nat)
      requires m.slotCount <= MAX_SLOTS
      ensures fresh(buf) && p <= buf.Length && buf[..p] == Trailer(m, end)
    {
      hide Record, Header;
      buf := new byte[MAX_SLOTS * SLOT_SIZE + HEADER_SIZE];
      p := 0;
      for i := 0 to m.slotCount
        invariant p == SLOT_SIZE * i
        invariant buf[..p] == Table(m.slots[..i])
      {
        assert m.slots[..i + 1][..i] == m.slots[..i];
        ghost var before := buf[..];
        PutRecord(buf, p, m.slots[i]);
        assert buf[..p + SLOT_SIZE] == before[..p] + Record(m.slots[i]);
        p := p + SLOT_SIZE;
      }
      ghost var before := buf[..];
      PutHeader(buf, p, m, end);
      p := p + HEADER_SIZE;
      assert buf[..p] == before[..p - HEADER_SIZE] + Header(m, end);
    }

    /**
     * tpkg_write_fd: appends the trailer of a valid manifest; a rejected manifest
     * appends nothing; a failing disk leaves at most a prefix of the trailer.
     */
    method WriteFd(f: File?, m: Manifest) returns (rc: int)
      requires f != null ==> f.Valid()
      modifies this, f
      ensures rc == Status(lastErr)
      ensures f == null ==> lastErr == Arg
      ensures f != null ==> f.Valid()
      ensures f != null && !Valid(m) ==> lastErr == ValidationCode(m) && f.data == old(f.data)
      ensures f != null && Valid(m) ==> lastErr == Ok || lastErr == Io
      ensures f != null && lastErr == Ok ==>
                f.data == old(f.data) + Trailer(m, |old(f.data)|) && f.faulted == old(f.faulted)
      ensures f != null && lastErr == Io ==>
                && (f.faulted || |old(f.data)| + TrailerSize(m.slotCount) > OFF_MAX)
                && exists k: nat :: k <= TrailerSize(m.slotCount) &&
                      f.data == old(f.data) + Trailer(m, |old(f.data)|)[..k]
    {
      hide Trailer;
      lastErr := Ok;
      if f == null {
        rc := Fail(Arg);
        return;
      }
      rc := Validate(m);
      if rc != 0 {
        return -1;
      }
      var end := f.SeekEnd();
      if end == -1 {
        rc := Fail(Io);
        assert Trailer(m, |f.data|)[..0] == [] && f.data == f.data + [];
        return;
      }
      var buf, p := TrailerBuffer(m, end);
      rc := WriteFull(f, buf, p);
      if rc != 0 {
        rc := Fail(Io);
        ghost var k: nat :| k <= p && f.data == old(f.data) + buf[..k];
        assert buf[..k] == buf[..p][..k];
      }
    }
  }
}
