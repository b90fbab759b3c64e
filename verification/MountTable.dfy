/** The mount table of FsContext and its dispatch by longest prefix (src/c_api/fs_context.cpp). */
module MountTable {
  import opened Bytes
  import opened Paths

  datatype Errno =
    | OK | EINVAL | ENODEV | ENOENT | EEXIST | EIO | EBADF | EROFS | ENOTSUP
    | EISDIR | ENOTDIR | OtherErrno(code: int)

  datatype Outcome<+T> = Got(value: T) | Refused(errno: Errno)

  datatype DirEntry = DirEntry(name: string, isDirectory: bool)

  /** A mounted read-only archive: what it opens and what it lists, under full paths. */
  datatype Backend = Backend(open: string -> Outcome<bytes>, list: string -> Outcome<seq<DirEntry>>)

  datatype Mount = Mount(handle: int, mountPoint: string, fs: Backend)

  type Mounts = map<int, Mount>

  /** path_is_in_mount. */
  predicate PathIsInMount(path: string, mount: string) {
    if mount == "" then false
    else if |path| < |mount| then false
    else if path[..|mount|] != mount then false
    else if |path| == |mount| then true
    else if mount[|mount| - 1] == '/' then true
    else path[|mount|] == '/'
  }

  /** On normalised absolute paths the text test is exactly a component prefix test. */
  lemma InMountIsComponentPrefix(path: string, mount: string)
    requires IsNormal(path) && IsNormal(mount) && IsAbsolute(path) && IsAbsolute(mount)
    ensures PathIsInMount(path, mount) <==> Components(mount) <= Components(path)
  {
    hide Normal, Scan, Resolve, Joined, Render;
    NormalIsRendered(path);
    NormalIsRendered(mount);
    RelativeToDrops(path, mount);
    var p, m := Components(path), Components(mount);
    if m <= p && m != p {
      SuffixIsCanonical(p, |m|, true);
      RenderAbsolute(false, p[|m|..]);
      assert RelativeTo(path, mount) != "";
    } else if path != mount {
      assert RelativeTo(path, mount) == "";
      if PathIsInMount(path, mount) {
        TailIsNotEmpty(path, mount);
      }
    }
  }

  lemma TailIsNotEmpty(path: string, mount: string)
    requires IsNormal(path) && IsNormal(mount) && IsAbsolute(path) && IsAbsolute(mount)
    requires PathIsInMount(path, mount) && path != mount
    ensures Components(mount) < Components(path)
  {
    hide Normal, Scan, Resolve, Joined;
    assert path == mount + path[|mount|..];
    NormalIsRendered(path);
    NormalIsRendered(mount);
    JoinedStart(Components(mount));
    if mount[|mount| - 1] != '/' {
      assert path == mount + "/" + path[|mount| + 1..];
      TextPrefix(path, mount, path[|mount| + 1..]);
    } else {
      RootIsSlash(mount);
      assert Components(path) != [];
    }
  }

  lemma RootIsSlash(mount: string)
    requires IsNormal(mount) && IsAbsolute(mount) && mount[|mount| - 1] == '/'
    ensures Components(mount) == []
  {
    NormalIsRendered(mount);
    JoinedStart(Components(mount));
  }

  /** Mount points are pairwise distinct. */
  ghost predicate Distinct(mounts: Mounts) {
    forall g, h :: g in mounts && h in mounts && mounts[g].mountPoint == mounts[h].mountPoint ==> g == h
  }

  ghost predicate Matches(mounts: Mounts, path: string, h: int) {
    h in mounts && PathIsInMount(path, mounts[h].mountPoint)
  }

  /** h is a mount with the longest matching mount point. */
  ghost predicate Best(mounts: Mounts, path: string, h: int) {
    && Matches(mounts, path, h)
    && (forall g :: Matches(mounts, path, g) ==> |mounts[g].mountPoint| <= |mounts[h].mountPoint|)
  }

  /** The owner of a path, -1 if there is none. */
  ghost function Owner(mounts: Mounts, path: string): int {
    if h :| Best(mounts, path, h) then h else -1
  }

  lemma BestIsUnique(mounts: Mounts, path: string, g: int, h: int)
    requires Distinct(mounts) && Best(mounts, path, g) && Best(mounts, path, h)
    ensures g == h
  {
    assert mounts[g].mountPoint == path[..|mounts[g].mountPoint|];
    assert mounts[h].mountPoint == path[..|mounts[h].mountPoint|];
  }

  lemma {:induction false} BestExists(mounts: Mounts, path: string, h: int)
    requires Matches(mounts, path, h)
    ensures exists g :: Best(mounts, path, g)
    decreases |mounts|
  {
    if !Best(mounts, path, h) {
      var g :| Matches(mounts, path, g) && |mounts[g].mountPoint| > |mounts[h].mountPoint|;
      var rest := mounts - {h};
      assert Matches(rest, path, g);
      assert rest.Keys == mounts.Keys - {h};
      BestExists(rest, path, g);
      var b :| Best(rest, path, b);
      assert Matches(rest, path, b);
      forall k | Matches(mounts, path, k) ensures |mounts[k].mountPoint| <= |mounts[b].mountPoint| {
        if k != h {
          assert Matches(rest, path, k);
        }
      }
      assert Best(mounts, path, b);
    }
  }

  ghost predicate KeysAreHandles(mounts: Mounts) {
    forall h :: h in mounts ==> 0 <= h
  }

  /** Dispatch is determined: the owner is the one best mount, and there is one unless nothing matches. */
  lemma OwnerIsBest(mounts: Mounts, path: string)
    requires Distinct(mounts) && KeysAreHandles(mounts)
    ensures forall h :: Best(mounts, path, h) ==> Owner(mounts, path) == h
    ensures Owner(mounts, path) == -1 <==> forall h :: !Matches(mounts, path, h)
    ensures Owner(mounts, path) != -1 ==> Best(mounts, path, Owner(mounts, path))
  {
    forall h | Best(mounts, path, h) ensures Owner(mounts, path) == h {
      BestIsUnique(mounts, path, h, Owner(mounts, path));
    }
    if h :| Matches(mounts, path, h) {
      BestExists(mounts, path, h);
    }
  }

  /** g is the longest match once h is set aside. */
  ghost predicate NextBest(mounts: Mounts, path: string, h: int, g: int) {
    && g != h
    && Matches(mounts, path, g)
    && (forall k :: k != h && Matches(mounts, path, k) ==> |mounts[k].mountPoint| <= |mounts[g].mountPoint|)
  }

  /** Unmounting h moves only the paths h owned, and those go to the next longest match. */
  lemma DispatchAfterUnmount(mounts: Mounts, path: string, h: int)
    requires Distinct(mounts) && KeysAreHandles(mounts)
    ensures Owner(mounts, path) != h ==> Owner(mounts - {h}, path) == Owner(mounts, path)
    ensures forall g :: NextBest(mounts, path, h, g) ==> Owner(mounts - {h}, path) == g
    ensures (forall g :: g != h ==> !Matches(mounts, path, g)) ==> Owner(mounts - {h}, path) == -1
  {
    hide Owner, PathIsInMount;
    var rest := mounts - {h};
    OwnerIsBest(mounts, path);
    OwnerIsBest(rest, path);
    assert forall g :: Matches(rest, path, g) <==> g != h && Matches(mounts, path, g);
    var o := Owner(mounts, path);
    if o != h && o != -1 {
      assert Best(rest, path, o);
    }
    forall g | NextBest(mounts, path, h, g) ensures Owner(rest, path) == g
    {
      assert Best(rest, path, g);
    }
  }

  /** A new mount takes over exactly the paths for which it is the longer match. */
  lemma DispatchAfterMount(mounts: Mounts, path: string, h: int, m: Mount)
    requires Distinct(mounts) && KeysAreHandles(mounts) && h >= 0 && h !in mounts
    requires forall g :: g in mounts ==> mounts[g].mountPoint != m.mountPoint
    ensures var o := Owner(mounts, path);
      Owner(mounts[h := m], path) ==
        if PathIsInMount(path, m.mountPoint) && (o == -1 || |mounts[o].mountPoint| < |m.mountPoint|) then h else o
  {
    hide Owner, PathIsInMount;
    var more := mounts[h := m];
    OwnerIsBest(mounts, path);
    OwnerIsBest(more, path);
    assert forall g :: g in mounts ==> more[g] == mounts[g];
    assert forall g :: g != h ==> (Matches(more, path, g) <==> Matches(mounts, path, g));
    var o := Owner(mounts, path);
    if PathIsInMount(path, m.mountPoint) {
      assert Matches(more, path, h);
      if o != -1 && |mounts[o].mountPoint| == |m.mountPoint| {
        SameLength(path, mounts[o].mountPoint, m.mountPoint);
      }
      if o == -1 || |mounts[o].mountPoint| < |m.mountPoint| {
        assert Best(more, path, h);
      } else {
        assert Best(more, path, o);
      }
    } else if o != -1 {
      assert Best(more, path, o);
    }
  }

  lemma SameLength(path: string, a: string, b: string)
    requires PathIsInMount(path, a) && PathIsInMount(path, b) && |a| == |b|
    ensures a == b
  {
  }
}
