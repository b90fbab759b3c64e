/** Byte files reached through a descriptor, with short transfers and faults. */
module HostIo {
  import opened Bytes

  /** Largest file offset (off_t). */
  const OFF_MAX := 0x7FFF_FFFF_FFFF_FFFF

  /** data with chunk written over it at position `at`. */
  function Overwritten(data: bytes, at: nat, chunk: bytes): bytes
    requires at <= |data|
  {
    data[..at] + chunk + (if at + |chunk| <= |data| then data[at + |chunk|..] else [])
  }

  /**
   * An open file. A read or write transfers any positive part of what was asked
   * for; it may also fail, which leaves a mark in `faulted`.
   */
  class File {
    var data: bytes
    var pos: nat
    ghost var faulted: bool

    constructor (content: bytes)
      ensures data == content && pos == 0 && !faulted
    {
      data, pos, faulted := content, 0, false;
    }

    ghost predicate Valid()
      reads this
    {
      |data| <= OFF_MAX
    }

    /** lseek to an absolute offset; -1 on a fault. */
    method SeekSet(off: nat) returns (r: int)
      modifies this`pos, this`faulted
      ensures r == off || r == -1
      ensures r == -1 ==> faulted
      ensures r != -1 ==> pos == off && faulted == old(faulted)
    {
      if * {
        faulted := true;
        return -1;
      }
      pos := off;
      return off;
    }

    /** lseek to the end; the result is the file size, or -1 on a fault. */
    method SeekEnd() returns (r: int)
      modifies this`pos, this`faulted
      ensures r == |data| || r == -1
      ensures r == -1 ==> faulted
      ensures r != -1 ==> pos == |data| && faulted == old(faulted)
    {
      if * {
        faulted := true;
        return -1;
      }
      pos := |data|;
      return pos;
    }

    /** read(2): up to n bytes into buf from index `at` on. */
    method Read(buf: array<byte>, at: nat, n: nat) returns (r: int)
      requires 0 < n && at + n <= buf.Length
      modifies this`pos, this`faulted, buf
      ensures -1 <= r <= n
      ensures r < 0 ==> faulted
      ensures r >= 0 ==> faulted == old(faulted)
      ensures r == 0 ==> old(pos) >= |data|
      ensures r > 0 ==> old(pos) + r <= |data| && pos == old(pos) + r
      ensures r > 0 ==> buf[at..at + r] == data[old(pos)..pos]
      ensures forall k :: 0 <= k < buf.Length && !(at <= k < at + r) ==> buf[k] == old(buf[k])
    {
      if * {
        faulted := true;
        return -1;
      }
      if pos >= |data| {
        return 0;
      }
      var most := if n <= |data| - pos then n else |data| - pos;
      r := *;
      if r < 1 || r > most {
        r := most;
      }
      forall k | 0 <= k < r {
        buf[at + k] := data[pos + k];
      }
      pos := pos + r;
    }

    /** write(2): up to n bytes of buf from index `at` on; a file never grows past OFF_MAX. */
    method Write(buf: array<byte>, at: nat, n: nat) returns (r: int)
      requires Valid() && 0 < n && at + n <= buf.Length && pos <= |data|
      modifies this
      ensures Valid() && pos <= |data|
      ensures r <= n && r != 0
      ensures r < 0 ==> data == old(data) && (faulted || old(pos) + n > OFF_MAX)
      ensures r > 0 ==> pos == old(pos) + r && data == Overwritten(old(data), old(pos), buf[at..at + r])
      ensures r > 0 ==> faulted == old(faulted)
    {
      if * {
        faulted := true;
        return -1;
      }
      r := *;
      if r < 1 || r > n {
        r := n;
      }
      if pos + r > OFF_MAX {
        return -1;
      }
      data := Overwritten(data, pos, buf[at..at + r]);
      pos := pos + r;
    }
  }

  /** tpkg__read_full: loop until n bytes have arrived. */
  method ReadFull(f: File, buf: array<byte>, n: nat) returns (rc: int)
    requires n <= buf.Length
    modifies f`pos, f`faulted, buf
    ensures rc == 0 || rc == -1
    ensures rc == 0 ==> old(f.pos) + n <= |f.data| || n == 0
    ensures rc == 0 && n > 0 ==> buf[..n] == f.data[old(f.pos)..old(f.pos) + n]
    ensures rc == 0 ==> f.pos == old(f.pos) + n && f.faulted == old(f.faulted)
    ensures rc == -1 ==> f.faulted || old(f.pos) + n > |f.data|
    ensures forall k :: n <= k < buf.Length ==> buf[k] == old(buf[k])
  {
    var p: nat, left: nat := 0, n;
    while left > 0
      invariant p + left == n && f.pos == old(f.pos) + p
      invariant p > 0 ==> f.pos <= |f.data| && buf[..p] == f.data[old(f.pos)..f.pos]
      invariant f.faulted == old(f.faulted)
      invariant forall k :: n <= k < buf.Length ==> buf[k] == old(buf[k])
    {
      label Before:
      var r := f.Read(buf, p, left);
      if r <= 0 {
        return -1;
      }
      assert buf[..p] == old@Before(buf[..p]);
      assert buf[..p + r] == buf[..p] + buf[p..p + r];
      ghost var start := old(f.pos);
      assert f.data[start..f.pos] == f.data[start..start + p] + f.data[start + p..f.pos];
      p, left := p + r, left - r;
    }
    return 0;
  }

  /** tpkg__write_full: loop until n bytes are written; a failure leaves a prefix behind. */
  method WriteFull(f: File, buf: array<byte>, n: nat) returns (rc: int)
    requires f.Valid() && n <= buf.Length && f.pos == |f.data|
    modifies f
    ensures f.Valid()
    ensures rc == 0 || rc == -1
    ensures rc == 0 ==> f.data == old(f.data) + buf[..n] && f.faulted == old(f.faulted)
    ensures rc == -1 ==> f.faulted || |old(f.data)| + n > OFF_MAX
    ensures rc == -1 ==> exists k: nat :: k <= n && f.data == old(f.data) + buf[..k]
  {
    var p: nat, left: nat := 0, n;
    assert buf[..0] == [];
    while left > 0
      invariant p + left == n && f.Valid() && f.pos == |f.data|
      invariant f.data == old(f.data) + buf[..p]
      invariant f.faulted == old(f.faulted)
    {
      var r := f.Write(buf, p, left);
      if r <= 0 {
        return -1;
      }
      assert buf[..p + r] == buf[..p] + buf[p..p + r];
      ghost var start := old(f.pos);
      assert f.data[start..f.pos] == f.data[start..start + p] + f.data[start + p..f.pos];
      p, left := p + r, left - r;
    }
    return 0;
  }
}
