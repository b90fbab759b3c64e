/**
 * File handles of the ZIP and DwarFS backends
 * (src/backends/zip_backend.cpp, src/backends/dwarfs_backend.cpp).
 *
 * libzip only reads forward: seek closes the stream, reopens it and skips.
 * The handle is proved to answer every run of operations as a handle with a
 * native seek would, short reads included, as long as libzip does not fail.
 */
module ZipHandles {
  import opened Bytes
  import opened FileHandles
  import opened ForeignCalls

  const SKIP_BUFFER := 8192

  /** A libzip stream over one entry: forward only, with short reads. */
  class ZipStream {
    const lib: Foreign
    const content: bytes
    var at: nat

    constructor (lib: Foreign, content: bytes)
      ensures this.lib == lib && this.content == content && at == 0
    {
      this.lib, this.content, at := lib, content, 0;
    }

    /** zip_fread: -1 on a failure, which consumes nothing, 0 at the end, otherwise at least one byte. */
    method Fread(count: nat) returns (n: int, data: bytes)
      requires at <= |content|
      modifies this`at, lib`calls
      ensures lib.calls == old(lib.calls) + 1
      ensures n == -1 <==> lib.fails(old(lib.calls))
      ensures n == -1 ==> at == old(at)
      ensures n != -1 ==> n == |data| == Clamped(Handle(content, old(at)), count, lib.grants(old(lib.calls)))
      ensures n != -1 ==> at == old(at) + n && at <= |content| && data == content[old(at)..at]
    {
      var ok, grant := lib.Call();
      if !ok {
        return -1, [];
      }
      n := Clamped(Handle(content, at), count, grant);
      data := content[at..at + n];
      at := at + n;
    }
  }

  /** One archive entry: its content, and the size libzip reports if it reports one. */
  datatype Entry = Entry(content: bytes, statSize: Option<nat>)

  /** The size a handle works with: 0 when libzip reports none. */
  function Reported(e: Entry): nat {
    if e.statSize == None then 0 else e.statSize.value
  }

  predicate Sized(e: Entry) {
    Reported(e) == |e.content|
  }

  /** Enough is reported for reads to reach the end. */
  predicate Readable(e: Entry) {
    |e.content| <= Max(1, Reported(e))
  }

  /** zip_fopen_index: a new stream at the start of the entry, or null on a failure. */
  method OpenStream(lib: Foreign, e: Entry) returns (s: ZipStream?)
    modifies lib`calls
    ensures lib.calls == old(lib.calls) + 1
    ensures s == null <==> lib.fails(old(lib.calls))
    ensures s != null ==> fresh(s) && s.lib == lib && s.content == e.content && s.at == 0
  {
    var ok, _ := lib.Call();
    if !ok { return null; }
    s := new ZipStream(lib, e.content);
  }

  /** Moves a new stream forward to an offset, one buffer at a time. */
  method Skip(s: ZipStream, offset: nat) returns (ok: bool)
    requires s.at == 0
    modifies s`at, s.lib`calls
    ensures s.lib.calls >= old(s.lib.calls)
    ensures ok ==> s.at == offset <= |s.content|
    ensures !ok ==> offset > |s.content| || FailedIn(s.lib, old(s.lib.calls), s.lib.calls)
  {
    var remaining := offset;
    while remaining > 0
      invariant remaining >= 0 && s.at + remaining == offset && s.at <= |s.content|
      invariant s.lib.calls >= old(s.lib.calls)
    {
      var n, _ := s.Fread(Min(remaining, SKIP_BUFFER));
      if n <= 0 { return false; }
      remaining := remaining - n;
    }
    ok := true;
  }

  /** Reads until the range asked for, or the content, is complete. */
  method Fill(s: ZipStream, toRead: nat) returns (n: int, data: bytes)
    requires s.at <= |s.content|
    modifies s`at, s.lib`calls
    ensures s.lib.calls >= old(s.lib.calls)
    ensures n == -1 ==> FailedIn(s.lib, old(s.lib.calls), s.lib.calls)
    ensures n != -1 ==> n == |data| && data == s.content[old(s.at)..Min(old(s.at) + toRead, |s.content|)]
  {
    ghost var start := s.at;
    data := [];
    while |data| < toRead
      invariant |data| <= toRead && s.at == start + |data| <= |s.content| && s.lib.calls >= old(s.lib.calls)
      invariant data == s.content[start..s.at]
      decreases toRead - |data|
    {
      var m, chunk := s.Fread(toRead - |data|);
      if m < 0 { return -1, []; }
      if m == 0 { break; }
      data := data + chunk;
    }
    n := |data|;
  }

  lemma VisibleRange(content: bytes, size: nat, count: nat, offset: nat)
    requires count > 0 && offset < size && offset <= |content|
    ensures PreadBytes(content[..Min(size, |content|)], count, offset)
         == Some(content[offset..Min(offset + Min(count, size - offset), |content|)])
  {
    var visible := content[..Min(size, |content|)];
    if offset < |visible| {
      assert visible[offset..offset + Min(count, |visible| - offset)] == content[offset..offset + Min(count, |visible| - offset)];
    }
  }

  class ZipFileHandle {
    const lib: Foreign
    const entry: Entry
    var file: ZipStream?
    const size: nat
    var currentPos: nat
    var eof: bool

    constructor (e: Entry, s: ZipStream)
      requires s.content == e.content && s.at == 0
      ensures lib == s.lib && entry == e && file == s && currentPos == 0 && !eof
      ensures InSync() && Coherent() && View() == Handle(e.content, 0)
      ensures Sized(e) ==> Valid()
    {
      lib := s.lib;
      entry := e;
      size := Reported(e);
      file := s;
      currentPos := 0;
      eof := false;
    }

    /** The stream stands where the handle says it does. */
    ghost predicate InSync()
      reads this, file
    {
      && currentPos <= |entry.content|
      && size == Reported(entry)
      && (file != null ==> file.lib == lib && file.content == entry.content && file.at == currentPos)
    }

    /** In step, and end of file is only claimed at the end. */
    ghost predicate Coherent()
      reads this, file
    {
      InSync() && (eof ==> currentPos == |entry.content|)
    }

    ghost predicate Valid()
      reads this, file
    {
      && Coherent()
      && Sized(entry)
      && (currentPos == size && size > 0 ==> eof)
    }

    function View(): Handle
      reads this
    {
      Handle(entry.content, currentPos)
    }

    /** Fails exactly on a closed handle or with zip_fread; what it reads is the content from the position on. */
    method Read(count: nat) returns (n: int, data: bytes)
      requires InSync()
      modifies this`currentPos, this`eof, file, lib`calls
      ensures InSync() && file == old(file)
      ensures lib.calls == old(lib.calls) + (if old(file != null && !eof) && count > 0 then 1 else 0)
      ensures n == -1 <==> old(file) == null || (old(!eof) && count > 0 && lib.fails(old(lib.calls)))
      ensures n == -1 ==> View() == old(View()) && eof == old(eof)
      ensures n != -1 ==> n == |data| && currentPos == old(currentPos) + n
      ensures n != -1 ==> data == entry.content[old(currentPos)..currentPos]
      ensures n != -1 && (old(eof) || count == 0) ==> n == 0 && eof == old(eof)
      ensures n != -1 && old(!eof) && count > 0 ==>
        n == Clamped(old(View()), count, lib.grants(old(lib.calls))) && eof == (n == 0 || currentPos >= size)
      ensures old(Coherent()) && Readable(entry) ==> Coherent()
      ensures old(Coherent()) && n != -1 ==> Answers(old(View()), FileHandles.Read(count), Data(data))
      ensures old(Valid()) ==> Valid()
    {
      if file == null { return -1, []; }
      if eof { return 0, []; }
      if count == 0 { return 0, []; }
      n, data := file.Fread(count);
      if n < 0 { return -1, []; }
      currentPos := currentPos + n;
      if n == 0 || currentPos >= size {
        eof := true;
      }
    }

    /** The part of the content that preads and seeks go by: as much as libzip reports. */
    function Visible(): bytes
      reads this
    {
      entry.content[..Min(size, |entry.content|)]
    }

    /**
     * An independent stream is opened, skipped and read; the handle is not touched. Where more is
     * reported than there is, an offset behind the content is an error.
     */
    method Pread(count: nat, offset: int) returns (n: int, data: bytes)
      requires InSync()
      modifies lib`calls
      ensures lib.calls >= old(lib.calls)
      ensures file == null || offset < 0 || (count > 0 && |entry.content| < offset < size) ==> n == -1
      ensures n == -1 ==>
        || file == null || offset < 0 || (count > 0 && |entry.content| < offset < size)
        || FailedIn(lib, old(lib.calls), lib.calls)
      ensures n != -1 ==> n == |data| && PreadBytes(Visible(), count, offset) == Some(data)
      ensures Sized(entry) ==> Visible() == entry.content
    {
      if file == null { return -1, []; }
      if offset < 0 { return -1, []; }
      if count == 0 || offset >= size { return 0, []; }
      hide FailedIn;
      var toRead := Min(count, size - offset);
      var tmp := OpenStream(lib, entry);
      if tmp == null {
        OneFailed(lib, old(lib.calls));
        return -1, [];
      }
      ghost var atStart := lib.calls;
      var skipped := Skip(tmp, offset);
      FailedLater(lib, old(lib.calls), atStart, lib.calls);
      if !skipped { return -1, []; }
      ghost var atOffset := lib.calls;
      n, data := Fill(tmp, toRead);
      FailedLater(lib, old(lib.calls), atOffset, lib.calls);
      VisibleRange(entry.content, size, count, offset);
    }

    /**
     * Close, reopen, skip. It lands where the reported size says it should,
     * unless libzip fails or the content ends before that. A refused seek and a
     * seek to the current position touch nothing; after a failure the handle is
     * either dead, its position kept, or still in step with its stream, short
     * of the target.
     */
    method Seek(offset: int, whence: Whence) returns (r: int)
      requires InSync()
      modifies this, file, lib`calls
      ensures InSync() && lib.calls >= old(lib.calls)
      ensures old(Valid()) ==> Valid()
      ensures var t := TargetIn(size, old(currentPos), offset, whence);
        && (r != -1 ==> r == t == currentPos && file != null)
        && (r == -1 ==> old(file) == null || t == -1 || t > |entry.content| || FailedIn(lib, old(lib.calls), lib.calls))
        && (old(file) == null || t == -1 || t > |entry.content| ==> r == -1)
        && (old(file) == null || t == -1 || t == old(currentPos) ==>
              file == old(file) && View() == old(View()) && eof == old(eof) && lib.calls == old(lib.calls))
        && (r == -1 && old(file) != null && t != -1 ==>
              if file == null then currentPos == old(currentPos) else currentPos < t)
      ensures r != -1 ==> LeadsTo(size, old(currentPos), offset, whence, r)
      ensures file != null ==> fresh(file) || file == old(file)
    {
      TargetLeads(size, currentPos, offset, whence);
      if file == null { return -1; }
      var target := 0;
      match whence {
        case Set => target := offset;
        case Cur => target := currentPos + offset;
        case End => target := size + offset;
        case Other => return -1;
      }
      if target < 0 || target > size { return -1; }
      if target == currentPos { return currentPos; }
      hide FailedIn;
      file := null;
      file := OpenStream(lib, entry);
      if file == null {
        OneFailed(lib, old(lib.calls));
        return -1;
      }
      currentPos := 0;
      eof := false;
      if target > 0 {
        ghost var atStart := lib.calls;
        var skipped := Advance(target);
        FailedLater(lib, old(lib.calls), atStart, lib.calls);
        if !skipped { return -1; }
      }
      return currentPos;
    }

    /** The skip loop of a seek: reads forward from the start to the target. */
    method Advance(target: nat) returns (ok: bool)
      requires InSync() && file != null && currentPos == 0 && !eof && target <= size
      modifies this`currentPos, this`eof, file, lib`calls
      ensures InSync() && file == old(file) && lib.calls >= old(lib.calls)
      ensures old(Valid()) ==> Valid()
      ensures ok ==> currentPos == target
      ensures !ok ==> currentPos < target && (target > |entry.content| || FailedIn(lib, old(lib.calls), lib.calls))
    {
      var remaining := target;
      while remaining > 0
        invariant InSync() && file == old(file) && lib.calls >= old(lib.calls)
        invariant old(Valid()) ==> Valid()
        invariant remaining >= 0 && currentPos + remaining == target && (remaining > 0 ==> !eof)
      {
        var n, _ := Read(Min(remaining, SKIP_BUFFER));
        if n <= 0 { return false; }
        remaining := remaining - n;
      }
      ok := true;
    }

    method Close()
      requires Valid()
      modifies this`file
      ensures Valid() && file == null
    {
      file := null;
    }

    /** One operation: its answer; it stays without one only if libzip fails. */
    method Perform(op: Op) returns (ok: bool, a: Answer)
      requires Valid() && file != null
      modifies this, file, lib`calls
      ensures Valid() && (file != null ==> fresh(file) || file == old(file)) && lib.calls >= old(lib.calls)
      ensures ok ==> file != null && Answers(old(View()), op, a) && View() == After(old(View()), op, a)
      ensures !ok ==> FailedIn(lib, old(lib.calls), lib.calls)
    {
      match op {
        case Read(count) =>
          var n, data := Read(count);
          return n != -1, Data(data);
        case Pread(length, at) =>
          var n, data := Pread(length, at);
          if at < 0 { return true, Refused; }
          return n != -1, Data(data);
        case Seek(offset, whence) =>
          var target := Target(View(), offset, whence);
          var r := Seek(offset, whence);
          if target == -1 { return true, Refused; }
          return r != -1, Position(r);
        case Tell =>
          return true, Position(currentPos);
      }
    }

    /** Any run of operations is a legal run of a handle with a native seek, to its end unless libzip fails. */
    method Replay(ops: seq<Op>) returns (answers: seq<Answer>)
      requires Valid() && file != null
      modifies this, file, lib`calls
      ensures Valid() && lib.calls >= old(lib.calls)
      ensures |answers| <= |ops|
      ensures LegalTrace(old(View()), ops[..|answers|], answers)
      ensures |answers| == |ops| || FailedIn(lib, old(lib.calls), lib.calls)
      ensures |answers| == |ops| ==> LegalTrace(old(View()), ops, answers)
      ensures |answers| == |ops| ==> View() == Final(old(View()), ops, answers)
    {
      answers := [];
      ghost var start := View();
      while |answers| < |ops|
        invariant Valid() && file != null && (fresh(file) || file == old(file)) && lib.calls >= old(lib.calls)
        invariant |answers| <= |ops| && start == old(View())
        invariant LegalTrace(start, ops[..|answers|], answers)
        invariant View() == Final(start, ops[..|answers|], answers)
        decreases |ops| - |answers|
      {
        var op := ops[|answers|];
        ghost var before := lib.calls;
        var ok, a := Perform(op);
        if !ok {
          FailedLater(lib, old(lib.calls), before, lib.calls);
          return;
        }
        TraceSnoc(start, ops[..|answers|], answers, op, a);
        assert ops[..|answers| + 1] == ops[..|answers|] + [op];
        answers := answers + [a];
      }
      assert ops[..|answers|] == ops;
    }
  }

  /** Seeks go where those of a native handle go exactly if libzip reports the true size. */
  lemma NativeIffSized(e: Entry)
    ensures Sized(e) <==>
      forall pos: nat, offset, whence :: pos <= |e.content| ==>
        TargetIn(Reported(e), pos, offset, whence) == Target(Handle(e.content, pos), offset, whence)
    ensures Sized(e) <==>
      forall pos: nat, offset, whence, t :: pos <= |e.content| ==>
        (LeadsTo(Reported(e), pos, offset, whence, t) <==> LeadsTo(|e.content|, pos, offset, whence, t))
  {
    assert LeadsTo(Reported(e), 0, 0, End, Reported(e)) && LeadsTo(|e.content|, 0, 0, End, |e.content|);
    if forall pos: nat, offset, whence :: pos <= |e.content| ==>
        TargetIn(Reported(e), pos, offset, whence) == Target(Handle(e.content, pos), offset, whence)
    {
      assert TargetIn(Reported(e), 0, 0, End) == Target(Handle(e.content, 0), 0, End);
    }
  }

  // ---- how much reads deliver -----------------------------------------------------

  /**
   * What reads of `count` bytes deliver until one delivers nothing, when no call
   * fails: the handle stops at its end-of-file flag, which goes by the reported size.
   */
  function Drained(content: bytes, size: nat, pos: nat, eof: bool, grants: nat -> nat, call: nat, count: nat): bytes
    requires pos <= |content| && count > 0
    decreases |content| - pos
  {
    if eof || pos == |content| then []
    else
      var n := Clamped(Handle(content, pos), count, grants(call));
      content[pos..pos + n] + Drained(content, size, pos + n, pos + n >= size, grants, call + 1, count)
  }

  lemma DrainedStep(content: bytes, size: nat, pos: nat, eof: bool, grants: nat -> nat, call: nat, count: nat)
    requires pos <= |content| && count > 0
    ensures eof || pos == |content| ==> Drained(content, size, pos, eof, grants, call, count) == []
    ensures !eof && pos < |content| ==>
      var n := Clamped(Handle(content, pos), count, grants(call));
      Drained(content, size, pos, eof, grants, call, count)
        == content[pos..pos + n] + Drained(content, size, pos + n, pos + n >= size, grants, call + 1, count)
  {
  }

  lemma Regrouped(a: bytes, b: bytes, c: bytes)
    ensures a + (b + c) == (a + b) + c
  {
  }

  /** Read until nothing comes. */
  method ReadUntilNothing(h: ZipFileHandle, count: nat) returns (ok: bool, data: bytes)
    requires h.InSync() && h.file != null && h.currentPos == 0 && !h.eof && count > 0
    modifies h, h.file, h.lib`calls
    ensures h.lib.calls >= old(h.lib.calls)
    ensures ok ==> data == Drained(h.entry.content, h.size, 0, false, h.lib.grants, old(h.lib.calls), count)
    ensures !ok ==> FailedIn(h.lib, old(h.lib.calls), h.lib.calls)
  {
    hide Drained;
    data := [];
    ghost var content, size, grants := h.entry.content, h.size, h.lib.grants;
    ghost var whole := Drained(content, size, 0, false, grants, h.lib.calls, count);
    assert [] + whole == whole;
    while true
      invariant h.InSync() && h.file == old(h.file) && h.size == size && h.lib.calls >= old(h.lib.calls)
      invariant whole == data + Drained(content, size, h.currentPos, h.eof, grants, h.lib.calls, count)
      decreases |h.entry.content| - h.currentPos
    {
      DrainedStep(content, size, h.currentPos, h.eof, grants, h.lib.calls, count);
      var n, chunk := h.Read(count);
      if n < 0 { return false, []; }
      if n == 0 { break; }
      Regrouped(data, chunk, Drained(content, size, h.currentPos, h.eof, grants, h.lib.calls, count));
      data := data + chunk;
    }
    assert data + [] == data;
    ok := true;
  }

  lemma {:induction false} DrainsAll(
    content: bytes, size: nat, pos: nat, eof: bool, grants: nat -> nat, call: nat, count: nat)
    requires pos <= |content| <= Max(1, size) && count > 0 && (eof ==> pos == |content|)
    ensures Drained(content, size, pos, eof, grants, call, count) == content[pos..]
    decreases |content| - pos
  {
    if !eof && pos < |content| {
      var n := Clamped(Handle(content, pos), count, grants(call));
      DrainsAll(content, size, pos + n, pos + n >= size, grants, call + 1, count);
    }
  }

  /** One byte at a time, reading stops right where the reported size ends, and not before the first byte. */
  lemma {:induction false} DrainsReported(content: bytes, size: nat, pos: nat, call: nat, count: nat)
    requires pos < Max(1, size) <= |content| && count > 0
    ensures Drained(content, size, pos, false, _ => 1, call, count) == content[pos..Max(1, size)]
    decreases |content| - pos
  {
    var ones: nat -> nat := _ => 1;
    assert Clamped(Handle(content, pos), count, ones(call)) == 1;
    if pos + 1 < Max(1, size) {
      DrainsReported(content, size, pos + 1, call + 1, count);
    }
  }

  /** Reads deliver the whole content under every schedule of short reads exactly if enough size is reported. */
  lemma WholeIffReported(content: bytes, size: nat, count: nat)
    requires count > 0
    ensures (forall grants: nat -> nat, call: nat :: Drained(content, size, 0, false, grants, call, count) == content)
       <==> |content| <= Max(1, size)
  {
    if |content| <= Max(1, size) {
      forall grants: nat -> nat, call: nat ensures Drained(content, size, 0, false, grants, call, count) == content {
        DrainsAll(content, size, 0, false, grants, call, count);
      }
    } else {
      DrainsReported(content, size, 0, 0, count);
      assert |content[..Max(1, size)]| < |content|;
    }
  }

  /** An entry of two bytes and no reported size: with a short first read the second byte is lost. */
  lemma UnreportedLosesBytes(count: nat)
    requires count > 0
    ensures var e := Entry([1, 2], None);
      Drained(e.content, Reported(e), 0, false, _ => 1, 0, count) == [1]
  {
    DrainsReported([1, 2], 0, 0, 0, count);
  }

  // ---- the native reference -----------------------------------------------------

  class DwarfsFileHandle {
    const lib: Foreign
    const content: bytes
    const size: nat
    var currentPos: nat
    var eof: bool
    var closed: bool

    constructor (lib: Foreign, content: bytes)
      ensures Valid() && !closed && View() == Handle(content, 0) && this.lib == lib && this.content == content
    {
      this.lib, this.content := lib, content;
      size := |content|;
      currentPos, eof, closed := 0, false, false;
    }

    ghost predicate Valid()
      reads this
    {
      && size == |content|
      && currentPos <= size
      && (eof ==> currentPos == size)
      && (currentPos == size && size > 0 ==> eof)
    }

    ghost function View(): Handle
      reads this
    {
      Handle(content, currentPos)
    }

    /** dwarfs_c_pread: the range cut off at the end of the file, or -1 on a failure. */
    method PreadPrimitive(count: nat, offset: nat) returns (n: int, data: bytes)
      requires Valid() && offset < size
      modifies lib`calls
      ensures lib.calls == old(lib.calls) + 1
      ensures n == -1 <==> lib.fails(old(lib.calls))
      ensures n != -1 ==> n == |data| && data == content[offset..offset + Min(count, size - offset)]
    {
      var ok, _ := lib.Call();
      if !ok { return -1, []; }
      data := content[offset..offset + Min(count, size - offset)];
      n := |data|;
    }

    method Read(count: nat) returns (n: int, data: bytes)
      requires Valid()
      modifies this`currentPos, this`eof, lib`calls
      ensures Valid() && lib.calls >= old(lib.calls)
      ensures closed ==> n == -1
      ensures n == -1 ==> closed || FailedIn(lib, old(lib.calls), lib.calls)
      ensures n == -1 ==> View() == old(View())
      ensures n != -1 ==> n == |data| && Data(data) == NativeAnswer(old(View()), FileHandles.Read(count))
      ensures n != -1 ==> View() == After(old(View()), FileHandles.Read(count), Data(data))
    {
      if closed || eof || currentPos >= size {
        if !closed {
          eof := true;
        }
        return if closed then -1 else 0, [];
      }
      if count == 0 { return 0, []; }
      n, data := PreadPrimitive(count, currentPos);
      if n < 0 { return -1, []; }
      if n == 0 { return 0, []; }
      currentPos := currentPos + n;
      if currentPos >= size {
        eof := true;
      }
    }

    method Pread(count: nat, offset: int) returns (n: int, data: bytes)
      requires Valid()
      modifies lib`calls
      ensures lib.calls >= old(lib.calls)
      ensures closed || offset < 0 ==> n == -1
      ensures n == -1 ==> closed || offset < 0 || FailedIn(lib, old(lib.calls), lib.calls)
      ensures n != -1 ==> n == |data| && PreadBytes(content, count, offset) == Some(data)
    {
      if closed || offset < 0 { return -1, []; }
      if count == 0 || offset >= size { return 0, []; }
      n, data := PreadPrimitive(count, offset);
      if n < 0 { return -1, []; }
    }

    /** Unlike the ZIP handle's, this seek also works on a closed handle. */
    method Seek(offset: int, whence: Whence) returns (r: int)
      requires Valid()
      modifies this`currentPos, this`eof
      ensures Valid()
      ensures r == Target(old(View()), offset, whence)
      ensures r >= 0 ==> LeadsTo(|content|, old(currentPos), offset, whence, r)
      ensures r < 0 ==> r == -1 && forall t :: !LeadsTo(|content|, old(currentPos), offset, whence, t)
      ensures if r >= 0 then currentPos == r else unchanged(this)
    {
      var target := 0;
      match whence {
        case Set => target := offset;
        case Cur => target := currentPos + offset;
        case End => target := size + offset;
        case Other => return -1;
      }
      if target < 0 || target > size { return -1; }
      currentPos := target;
      eof := currentPos >= size;
      return currentPos;
    }
  }

  /** On equal content at equal positions of a non-empty file, the two handles agree on end of file too. */
  lemma EofAgrees(z: ZipFileHandle, d: DwarfsFileHandle)
    requires z.Valid() && d.Valid() && z.View() == d.View() && z.View().content != []
    ensures z.eof == d.eof
  {
  }
}
