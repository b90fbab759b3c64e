/** The host file system as package.cpp uses it: named byte files, with faults and a size limit. */
module HostFiles {
  import opened Bytes
  import opened HostIo

  type Files = map<string, bytes>

  /** f and g agree on every path but p. */
  ghost predicate SameExcept(f: Files, g: Files, p: string) {
    forall q {:trigger q in f} {:trigger q in g} ::
      q != p ==> (q in f <==> q in g) && (q in f ==> f[q] == g[q])
  }

  /** f and g agree on every path but p and q. */
  ghost predicate SameExceptTwo(f: Files, g: Files, p: string, q: string) {
    forall r {:trigger r in f} {:trigger r in g} ::
      r != p && r != q ==> (r in f <==> r in g) && (r in f ==> f[r] == g[r])
  }

  lemma SameElsewhere(f: Files, g: Files, p: string, q: string)
    requires SameExcept(f, g, p) && q != p
    ensures (q in f <==> q in g) && (q in f ==> f[q] == g[q])
  {
  }

  lemma SameSelf(f: Files, p: string)
    ensures SameExcept(f, f, p)
  {
  }

  lemma SameExceptIsUpdate(f: Files, g: Files, p: string)
    requires SameExcept(f, g, p) && p in f
    ensures f == g[p := f[p]]
  {
  }

  lemma SameExceptIsRemoval(f: Files, g: Files, p: string)
    requires SameExcept(f, g, p) && p !in f
    ensures f == g - {p}
  {
  }

  lemma SameExceptTwice(f: Files, g: Files, h: Files, p: string)
    requires SameExcept(f, g, p) && SameExcept(g, h, p)
    ensures SameExcept(f, h, p)
  {
  }

  /**
   * Paths are canonical: two names are the same file exactly when they are equal.
   * Any operation may fail, which leaves a mark in `faulted`.
   */
  class Host {
    var files: Files
    ghost var faulted: bool

    ghost predicate Valid()
      reads this
    {
      forall p :: p in files ==> |files[p]| <= OFF_MAX
    }

    constructor (files: Files)
      requires forall p :: p in files ==> |files[p]| <= OFF_MAX
      ensures Valid() && this.files == files && !faulted
    {
      this.files, faulted := files, false;
    }

    method IsRegularFile(p: string) returns (b: bool)
      ensures b == (p in files)
    {
      b := p in files;
    }

    /** Open an existing file for reading and find its size. */
    method OpenForRead(p: string) returns (ok: bool, size: nat)
      modifies this`faulted
      ensures ok ==> p in files && size == |files[p]| && faulted == old(faulted)
      ensures !ok ==> p !in files || faulted
      ensures old(faulted) ==> faulted
    {
      size := 0;
      if * {
        faulted := true;
        return false, 0;
      }
      ok := p in files;
      if ok {
        size := |files[p]|;
      }
    }

    /** ofstream with trunc: an empty file, new or replacing an old one. */
    method Create(p: string) returns (ok: bool)
      requires Valid()
      modifies this
      ensures Valid()
      ensures ok ==> files == old(files)[p := []] && faulted == old(faulted)
      ensures !ok ==> files == old(files) && faulted
    {
      if * {
        faulted := true;
        return false;
      }
      files := files[p := []];
      ok := true;
    }

    /** create_directories: only its failure shows. */
    method MakeDirectory(dir: string) returns (ok: bool)
      modifies this`faulted
      ensures ok ==> faulted == old(faulted)
      ensures !ok ==> faulted
    {
      if * {
        faulted := true;
        return false;
      }
      return true;
    }

    method Read(p: string, at: nat, n: nat) returns (ok: bool, chunk: bytes)
      requires p in files && at + n <= |files[p]|
      modifies this`faulted
      ensures ok ==> chunk == files[p][at..at + n] && faulted == old(faulted)
      ensures !ok ==> faulted
    {
      if * {
        faulted := true;
        return false, [];
      }
      return true, files[p][at..at + n];
    }

    /** Write at the end of p; a failed write leaves part of the chunk behind. */
    method Append(p: string, chunk: bytes) returns (ok: bool)
      requires Valid() && p in files
      modifies this
      ensures Valid() && p in files && SameExcept(files, old(files), p)
      ensures ok ==> files == old(files)[p := old(files)[p] + chunk] && faulted == old(faulted)
      ensures !ok ==> faulted || |old(files)[p]| + |chunk| > OFF_MAX
      ensures old(faulted) ==> faulted
    {
      var n: int := *;
      if |files[p]| + |chunk| > OFF_MAX {
        if 0 <= n <= |chunk| && |files[p]| + n <= OFF_MAX {
          files := files[p := files[p] + chunk[..n]];
        }
        return false;
      }
      if 0 <= n < |chunk| {
        faulted := true;
        files := files[p := files[p] + chunk[..n]];
        return false;
      }
      files := files[p := files[p] + chunk];
      ok := true;
    }

    /** remove(2): ok when the file is gone, or was not there. */
    method Remove(p: string) returns (ok: bool)
      requires Valid()
      modifies this
      ensures Valid()
      ensures ok ==> files == old(files) - {p} && faulted == old(faulted)
      ensures !ok ==> files == old(files) && faulted
    {
      if * {
        faulted := true;
        return false;
      }
      files := files - {p};
      ok := true;
    }

    method Rename(from: string, to: string) returns (ok: bool)
      requires Valid() && from in files && from != to
      modifies this
      ensures Valid()
      ensures ok ==> files == (old(files) - {from})[to := old(files)[from]] && faulted == old(faulted)
      ensures !ok ==> files == old(files) && faulted
    {
      if * {
        faulted := true;
        return false;
      }
      files := (files - {from})[to := files[from]];
      ok := true;
    }

    /** open(2): the descriptor works on the content until CloseFd puts it back. */
    method OpenFd(p: string) returns (f: File?)
      requires Valid()
      modifies this`faulted
      ensures f == null ==> p !in files || faulted
      ensures f != null ==> fresh(f) && p in files && f.data == files[p] && !f.faulted && f.Valid()
      ensures f != null ==> faulted == old(faulted)
      ensures old(faulted) ==> faulted
    {
      if * {
        faulted := true;
        return null;
      }
      if p !in files {
        return null;
      }
      f := new File(files[p]);
    }

    /** close(2) on a descriptor that was only read. */
    method CloseRead(f: File)
      modifies this`faulted
      ensures faulted == (old(faulted) || f.faulted)
    {
      faulted := faulted || f.faulted;
    }

    method CloseFd(p: string, f: File)
      requires Valid() && p in files && f.Valid()
      modifies this
      ensures Valid() && files == old(files)[p := f.data]
      ensures faulted == (old(faulted) || f.faulted)
    {
      files := files[p := f.data];
      faulted := faulted || f.faulted;
    }
  }
}
