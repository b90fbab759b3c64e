/**
 * Which archives the walk of extract_all (src/c_api/fs_context.cpp) can follow:
 * the exact condition on the list of entry names the ZIP backend
 * (src/backends/zip_backend.cpp) serves.
 */
module ZipWalks {
  import opened MountTable
  import opened ZipNames
  import Paths

  // ---------------------------------------------------------------------
  // The condition
  // ---------------------------------------------------------------------

  /** The directory above, and the last segment. */
  function Up(dir: string): string
    requires IsDirectoryName(dir)
  {
    dir[..Paths.LastIndexOf(dir[..|dir| - 1], '/') + 1]
  }

  function Last(dir: string): string
    requires IsDirectoryName(dir)
  {
    dir[Paths.LastIndexOf(dir[..|dir| - 1], '/') + 1..|dir| - 1]
  }

  /** A directory name whose last segment is empty: "/", or one that ends in two slashes. */
  predicate Nameless(dir: string) {
    IsDirectoryName(dir) && (|dir| == 1 || dir[|dir| - 2] == '/')
  }

  lemma UpAndLast(dir: string)
    requires IsDirectoryName(dir)
    ensures dir == Up(dir) + Last(dir) + "/" && '/' !in Last(dir)
    ensures Up(dir) == "" || IsDirectoryName(Up(dir))
    ensures Nameless(dir) <==> Last(dir) == ""
  {
  }

  lemma UpOfChild(dir: string, name: string)
    requires (dir == "" || IsDirectoryName(dir)) && '/' !in name
    ensures var child := dir + name + "/";
      IsDirectoryName(child) && Up(child) == dir && Last(child) == name
  {
    var child := dir + name + "/";
    assert child[..|child| - 1] == dir + name;
    if dir == "" {
      assert child[..|child| - 1] == name;
    } else {
      Paths.LastIndexIs(dir + name, '/', |dir| - 1);
    }
  }

  /**
   * The directories the walk comes to. A child of an ordinary directory is found under its own
   * name. From a directory with a nameless child the walk also looks one slash further on.
   */
  ghost predicate Visited(names: seq<string>, dir: string)
    decreases |dir|, 0
  {
    || dir == ""
    || (&& IsDirectoryName(dir)
        && var up, name := Up(dir), Last(dir);
           if name == "" || !Nameless(up) then
             Visited(names, up) && DirEntry(name, true) in Listing(names, up)
           else
             var q := up[..|up| - 1];
             dir in names && Doubled(names, q) && DirEntry(name, true) in Listing(names, q))
  }

  /** The directories it lists a second time, under a path with one slash too many. */
  ghost predicate Doubled(names: seq<string>, dir: string)
    decreases |dir|, 1
  {
    Visited(names, dir) && (Nameless(dir) || DirEntry("", true) in Listing(names, dir))
  }

  /** Whatever it is told there is also an entry one slash further on. */
  ghost predicate FoundDoubled(names: seq<string>) {
    forall dir, e :: Doubled(names, dir) && e in Listing(names, dir) && e.name != "" ==> FullName(dir + "/", e) in names
  }

  // ---------------------------------------------------------------------
  // Paths of the walk
  // ---------------------------------------------------------------------

  /** Under this path the walk lists dir; `doubled` if the path has one slash more than dir. */
  ghost predicate At(mountPoint: string, path: string, dir: string, doubled: bool) {
    && |mountPoint| <= |path| && path[..|mountPoint|] == mountPoint
    && var raw := path[|mountPoint|..];
       if raw == "" then dir == "" && !doubled
       else && raw[0] == '/'
            && dir == WithoutSlash(WithTrailing(raw[1..]))
            && (doubled <==> IsDirectoryName(raw[1..]))
  }

  lemma AtRoot(mountPoint: string)
    ensures At(mountPoint, RootOf(mountPoint), "", false)
  {
  }

  lemma AtListed(names: seq<string>, mountPoint: string, path: string, dir: string, doubled: bool)
    requires At(mountPoint, path, dir, doubled)
    ensures EntriesAt(names, mountPoint, path) == Listing(names, dir)
    ensures Listable(names, mountPoint, path) <==> dir == "" || dir in names
    ensures dir == "" || IsDirectoryName(dir)
    ensures !doubled ==> !Nameless(dir)
  {
    hide Listing;
    var relative := Strip(mountPoint, path);
    if relative != "" && relative != "/" {
      assert relative == path[|mountPoint|..][1..];
      var slashed := WithTrailing(relative);
      assert slashed[|slashed| - 1] == '/' && dir[|dir| - 1] == '/';
    }
  }

  lemma ChildPath(mountPoint: string, path: string, name: string)
    requires |mountPoint| <= |path| && path[..|mountPoint|] == mountPoint
    ensures var child := path + "/" + name;
      && |mountPoint| <= |child| && child[..|mountPoint|] == mountPoint
      && child[|mountPoint|..] == path[|mountPoint|..] + ("/" + name)
      && child[|mountPoint|..][0] == if path == mountPoint then '/' else path[|mountPoint|]
  {
  }

  /** The path after the mount point and one slash. */
  function After(mountPoint: string, path: string): string
    requires |mountPoint| <= |path|
  {
    if |path| == |mountPoint| then "" else path[|mountPoint| + 1..]
  }

  lemma AfterFacts(mountPoint: string, path: string, dir: string, doubled: bool)
    requires At(mountPoint, path, dir, doubled)
    ensures |mountPoint| <= |path| && path[..|mountPoint|] == mountPoint
    ensures var r := After(mountPoint, path); dir == WithoutSlash(WithTrailing(r)) && doubled == IsDirectoryName(r)
    ensures path == mountPoint || path == mountPoint + ("/" + After(mountPoint, path))
  {
    assert WithoutSlash(WithTrailing("")) == "" && !IsDirectoryName("");
    hide WithoutSlash, WithTrailing, IsDirectoryName;
    var raw := path[|mountPoint|..];
    assert path == path[..|mountPoint|] + raw;
    if raw != "" {
      assert raw[1..] == After(mountPoint, path) && raw == "/" + raw[1..];
    }
  }

  /** A named child is looked for right after the directory, or one slash further on. */
  lemma AtNamed(names: seq<string>, mountPoint: string, path: string, dir: string, doubled: bool, name: string)
    requires At(mountPoint, path, dir, doubled) && name != "" && '/' !in name
    ensures var full := (if doubled then dir + "/" else dir) + name;
      && At(mountPoint, path + "/" + name, full + "/", false)
      && (Openable(names, mountPoint, path + "/" + name) <==> full in names)
  {
    hide At, Openable, WithTrailing, WithoutSlash;
    AfterFacts(mountPoint, path, dir, doubled);
    var r := After(mountPoint, path);
    var below := if path == mountPoint then name else r + "/" + name;
    NamedBelow(r, dir, doubled, name);
    assert path + "/" + name == mountPoint + ("/" + below);
    BelowRoot(names, mountPoint, path + "/" + name, below, (if doubled then dir + "/" else dir) + name);
  }

  lemma BelowRoot(names: seq<string>, mountPoint: string, child: string, below: string, full: string)
    requires |mountPoint| <= |child| && child[..|mountPoint|] == mountPoint && child[|mountPoint|..] == "/" + below
    requires below != "" && WithoutSlash(below) == full && full != "" && full[|full| - 1] != '/'
    ensures At(mountPoint, child, full + "/", false)
    ensures Openable(names, mountPoint, child) <==> full in names
  {
    assert ("/" + below)[1..] == below;
    assert below[|below| - 1] == full[|full| - 1];
    assert WithTrailing(below) == below + "/";
    assert WithoutSlash(below + "/") == full + "/";
  }

  lemma NamedBelow(r: string, dir: string, doubled: bool, name: string)
    requires dir == WithoutSlash(WithTrailing(r)) && doubled == IsDirectoryName(r)
    requires name != "" && '/' !in name
    ensures WithoutSlash(r + "/" + name) == (if doubled then dir + "/" else dir) + name
    ensures r == "" ==> WithoutSlash(name) == dir + name
    ensures (dir + name)[|dir + name| - 1] != '/'
  {
  }

  /** A nameless child is the same directory with a doubled slash, or the one after it. */
  lemma AtNameless(names: seq<string>, mountPoint: string, path: string, dir: string, doubled: bool)
    requires At(mountPoint, path, dir, doubled)
    ensures var child := path + "/" + "";
      && (doubled ==> At(mountPoint, child, dir + "/", true))
      && (!doubled && dir != "" ==> At(mountPoint, child, dir, true))
      && (!doubled && dir == "" ==> At(mountPoint, child, "", path != mountPoint))
      && (!doubled && dir == "" && "" in names ==> Openable(names, mountPoint, child))
  {
    var child := path + "/" + "";
    var raw := path[|mountPoint|..];
    ChildPath(mountPoint, path, "");
    if raw != "" {
      assert child[|mountPoint|..][1..] == raw[1..] + "/";
    }
  }

  // ---------------------------------------------------------------------
  // The condition is exact
  // ---------------------------------------------------------------------

  lemma ListedChild(names: seq<string>, dir: string, e: DirEntry)
    requires e in Listing(names, dir)
    ensures '/' !in e.name && FullName(dir, e) in names
    ensures e.name == "" && !e.isDirectory ==> dir == "" && "" in names
  {
    ListingNames(names, dir);
    var i :| 0 <= i < |names| && ChildOf(names[i], dir) == Child(e);
    ChildIs(names[i], dir, e);
  }

  lemma VisitedIsListed(names: seq<string>, dir: string)
    requires Visited(names, dir) && dir != ""
    ensures dir in names && IsDirectoryName(dir)
  {
    UpAndLast(dir);
    hide Listing, Doubled, Up, Last;
    var child := DirEntry(Last(dir), true);
    if Last(dir) == "" || !Nameless(Up(dir)) {
      ListedChild(names, Up(dir), child);
      assert FullName(Up(dir), child) == dir;
    }
  }

  lemma VisitedChild(names: seq<string>, dir: string, name: string)
    requires Visited(names, dir) && (dir == "" || IsDirectoryName(dir))
    requires DirEntry(name, true) in Listing(names, dir) && '/' !in name && (name == "" || !Nameless(dir))
    ensures Visited(names, dir + name + "/")
  {
    UpOfChild(dir, name);
  }

  lemma DoubledChild(names: seq<string>, dir: string, name: string)
    requires Doubled(names, dir) && (dir == "" || IsDirectoryName(dir))
    requires DirEntry(name, true) in Listing(names, dir) && '/' !in name && name != "" && dir + "/" + name + "/" in names
    ensures Visited(names, dir + "/" + name + "/")
  {
    UpOfChild(dir + "/", name);
    assert (dir + "/")[..|dir + "/"| - 1] == dir;
  }

  lemma DoubledAgain(names: seq<string>, dir: string)
    requires Visited(names, dir) && (dir == "" || IsDirectoryName(dir)) && DirEntry("", true) in Listing(names, dir)
    ensures Doubled(names, dir) && Visited(names, dir + "/") && Doubled(names, dir + "/")
  {
    hide Listing, Visited;
    VisitedChild(names, dir, "");
    assert dir + "" + "/" == dir + "/" && (dir != "" ==> dir[|dir| - 1] == '/');
  }

  /** Where the listing has a nameless directory it has no nameless file. */
  lemma NamelessIsDirectory(names: seq<string>, dir: string, e: DirEntry)
    requires Doubled(names, dir) && e in Listing(names, dir) && e.name == ""
    ensures e.isDirectory
  {
    hide Listing;
    ListedChild(names, dir, e);
    if dir == "" {
      ListingNames(names, "");
      var nameless := DirEntry("", true);
      var i :| 0 <= i < |Listing(names, "")| && Listing(names, "")[i] == nameless;
      var j :| 0 <= j < |Listing(names, "")| && Listing(names, "")[j] == e;
      assert i == j;
    }
  }

  /** Under the condition the walk goes through from everywhere it comes to. */
  lemma {:induction false} FoundReaches(names: seq<string>, mountPoint: string, path: string, dir: string, doubled: bool)
    requires FoundDoubled(names) && At(mountPoint, path, dir, doubled)
    requires Visited(names, dir) && (doubled ==> Doubled(names, dir))
    ensures Reaches(names, mountPoint, path)
    decreases LongestPath(names, mountPoint) - |path|
  {
    hide At, Listing, Reaches, Listable, EntriesAt, Openable, LongestPath, FoundDoubled, Visited, Doubled;
    AtListed(names, mountPoint, path, dir, doubled);
    if dir != "" {
      VisitedIsListed(names, dir);
    }
    ListablePathsAreShort(names, mountPoint, path);
    forall e | e in EntriesAt(names, mountPoint, path) ensures Followed(names, mountPoint, path, e) {
      var child := path + "/" + e.name;
      ListedChild(names, dir, e);
      if e.name == "" {
        AtNameless(names, mountPoint, path, dir, doubled);
        NamelessStep(names, mountPoint, path, dir, doubled, e);
        if e.isDirectory {
          if doubled {
            FoundReaches(names, mountPoint, child, dir + "/", true);
          } else {
            FoundReaches(names, mountPoint, child, dir, dir != "" || path != mountPoint);
          }
        }
      } else {
        AtNamed(names, mountPoint, path, dir, doubled, e.name);
        NamedStep(names, dir, doubled, e);
        if e.isDirectory {
          FoundReaches(names, mountPoint, child, (if doubled then dir + "/" else dir) + e.name + "/", false);
        }
      }
    }
    ReachesIsFollowed(names, mountPoint, path);
  }

  lemma NamelessStep(names: seq<string>, mountPoint: string, path: string, dir: string, doubled: bool, e: DirEntry)
    requires At(mountPoint, path, dir, doubled) && Visited(names, dir) && (doubled ==> Doubled(names, dir))
    requires e in Listing(names, dir) && e.name == ""
    ensures e.isDirectory ==> Doubled(names, dir) && Visited(names, dir + "/") && Doubled(names, dir + "/")
    ensures !e.isDirectory ==> dir == "" && "" in names && !doubled
  {
    hide At, Listing;
    AtListed(names, mountPoint, path, dir, doubled);
    ListedChild(names, dir, e);
    assert e == DirEntry("", e.isDirectory);
    if doubled {
      NamelessIsDirectory(names, dir, e);
    }
    if e.isDirectory {
      DoubledAgain(names, dir);
    }
  }

  lemma NamedStep(names: seq<string>, dir: string, doubled: bool, e: DirEntry)
    requires FoundDoubled(names) && Visited(names, dir) && (doubled ==> Doubled(names, dir)) && (!doubled ==> !Nameless(dir))
    requires (dir == "" || IsDirectoryName(dir)) && e in Listing(names, dir) && e.name != ""
    ensures var full := (if doubled then dir + "/" else dir) + e.name;
      if e.isDirectory then Visited(names, full + "/") else full in names
  {
    hide Listing, Visited, Doubled;
    ListedChild(names, dir, e);
    assert e == DirEntry(e.name, e.isDirectory);
    assert FullName(dir, e) == dir + e.name + (if e.isDirectory then "/" else "");
    if doubled {
      assert FullName(dir + "/", e) in names;
      assert FullName(dir + "/", e) == dir + "/" + e.name + (if e.isDirectory then "/" else "");
      if e.isDirectory {
        DoubledChild(names, dir, e.name);
      } else {
        assert dir + "/" + e.name + "" == dir + "/" + e.name;
      }
    } else if e.isDirectory {
      VisitedChild(names, dir, e.name);
    } else {
      assert dir + e.name + "" == dir + e.name;
    }
  }

  /** If the walk goes through, it comes to every visited directory. */
  lemma {:induction false} ReachedAt(names: seq<string>, mountPoint: string, dir: string) returns (path: string)
    requires Reaches(names, mountPoint, RootOf(mountPoint)) && Visited(names, dir)
    ensures At(mountPoint, path, dir, Nameless(dir)) && Reaches(names, mountPoint, path)
    decreases |dir|, 0
  {
    hide At, Listing, Reaches, Up, Last, Listable, EntriesAt;
    if dir == "" {
      AtRoot(mountPoint);
      return RootOf(mountPoint);
    }
    UpAndLast(dir);
    var up, name := Up(dir), Last(dir);
    var from, doubled, above := "", false, up;
    if name == "" {
      assert dir == up + "/";
      DoubledAgain(names, up);
      doubled := true;
      from := DoubledAt(names, mountPoint, up);
    } else if Nameless(up) {
      above := up[..|up| - 1];
      assert up == above + "/";
      doubled := true;
      from := DoubledAt(names, mountPoint, above);
    } else {
      from := ReachedAt(names, mountPoint, up);
    }
    path := from + "/" + name;
    AtListed(names, mountPoint, from, above, doubled);
    ReachesIsFollowed(names, mountPoint, from);
    assert Followed(names, mountPoint, from, DirEntry(name, true));
    if name == "" {
      AtNameless(names, mountPoint, from, above, doubled);
    } else {
      AtNamed(names, mountPoint, from, above, doubled, name);
    }
  }

  lemma {:induction false} DoubledAt(names: seq<string>, mountPoint: string, dir: string) returns (path: string)
    requires Reaches(names, mountPoint, RootOf(mountPoint)) && Doubled(names, dir)
    ensures At(mountPoint, path, dir, true) && Reaches(names, mountPoint, path)
    decreases |dir|, 1
  {
    hide At, Listing, Reaches, Listable, EntriesAt;
    path := ReachedAt(names, mountPoint, dir);
    if !Nameless(dir) {
      path := NamelessBelow(names, mountPoint, path, dir);
      if dir == "" && !At(mountPoint, path, dir, true) {
        path := NamelessBelow(names, mountPoint, path, dir);
      }
    }
  }

  lemma NamelessBelow(names: seq<string>, mountPoint: string, path: string, dir: string) returns (child: string)
    requires At(mountPoint, path, dir, false) && Reaches(names, mountPoint, path)
    requires DirEntry("", true) in Listing(names, dir)
    ensures Reaches(names, mountPoint, child) && child != mountPoint
    ensures At(mountPoint, child, dir, dir != "" || path != mountPoint)
  {
    hide At, Listing, Reaches, Listable, EntriesAt;
    AtListed(names, mountPoint, path, dir, false);
    ReachesIsFollowed(names, mountPoint, path);
    assert Followed(names, mountPoint, path, DirEntry("", true));
    AtNameless(names, mountPoint, path, dir, false);
    child := path + "/" + "";
    AfterFacts(mountPoint, path, dir, false);
  }

  /**
   * Any archive, any mount point: the walk goes through exactly if all it is told of in a doubled
   * directory is also found one slash further on.
   */
  lemma ReachesIff(names: seq<string>, mountPoint: string)
    ensures Reaches(names, mountPoint, RootOf(mountPoint)) <==> FoundDoubled(names)
  {
    hide At, Listing, Reaches, Visited, Doubled, RootOf, Openable, Listable;
    AtRoot(mountPoint);
    if FoundDoubled(names) {
      RootVisited(names);
      FoundReaches(names, mountPoint, RootOf(mountPoint), "", false);
    }
    if Reaches(names, mountPoint, RootOf(mountPoint)) {
      forall dir, e | Doubled(names, dir) && e in Listing(names, dir) && e.name != ""
        ensures FullName(dir + "/", e) in names
      {
        FoundOneFurther(names, mountPoint, dir, e);
      }
    }
  }

  lemma RootVisited(names: seq<string>)
    ensures Visited(names, "")
  {
  }

  lemma FoundOneFurther(names: seq<string>, mountPoint: string, dir: string, e: DirEntry)
    requires Reaches(names, mountPoint, RootOf(mountPoint))
    requires Doubled(names, dir) && e in Listing(names, dir) && e.name != ""
    ensures FullName(dir + "/", e) in names
  {
    hide At, Listing, Reaches, Visited, Doubled, RootOf, Openable, Listable, EntriesAt;
    var path := DoubledAt(names, mountPoint, dir);
    AtListed(names, mountPoint, path, dir, true);
    ReachesIsFollowed(names, mountPoint, path);
    assert Followed(names, mountPoint, path, e);
    ListedChild(names, dir, e);
    AtNamed(names, mountPoint, path, dir, true, e.name);
    var full := dir + "/" + e.name;
    assert FullName(dir + "/", e) == full + (if e.isDirectory then "/" else "");
    if e.isDirectory {
      ReachesIsFollowed(names, mountPoint, path + "/" + e.name);
      AtListed(names, mountPoint, path + "/" + e.name, full + "/", false);
    } else {
      assert full + "" == full;
    }
  }

  // ---------------------------------------------------------------------
  // Archives in which every entry has its directories
  // ---------------------------------------------------------------------

  /** Every directory on the way to an entry is an entry, and no name is both file and directory. */
  ghost predicate Rooted(names: seq<string>) {
    && (forall n, k :: n in names && 0 <= k < |n| && n[k] == '/' ==> n[..k + 1] in names)
    && (forall n :: n in names && !IsDirectoryName(n) ==> n + "/" !in names)
  }

  predicate OnlySlashes(text: string) {
    forall k :: 0 <= k < |text| ==> text[k] == '/'
  }

  /** Where a nameless directory is, nothing with a name begins like it. */
  ghost predicate NamelessAlone(names: seq<string>) {
    forall n, m :: n in names && Nameless(n) && m in names && n[..|n| - 1] <= m ==> OnlySlashes(m[|n| - 1..])
  }

  lemma RootedListing(names: seq<string>, dir: string, e: DirEntry)
    requires Rooted(names) && '/' !in e.name && FullName(dir, e) in names && FullName(dir, e) != dir
    ensures e in Listing(names, dir)
  {
    var listing, full := Listing(names, dir), FullName(dir, e);
    ListingNames(names, dir);
    var i :| 0 <= i < |names| && names[i] == full;
    ChildIs(names[i], dir, e);
    var k :| 0 <= k < |listing| && listing[k].name == e.name;
    var other := listing[k];
    assert other in listing;
    ListedChild(names, dir, other);
    var file := dir + e.name;
    assert file + "" == file;
    assert IsDirectoryName(file) ==> e.name == "";
    if e.isDirectory != other.isDirectory {
      assert false;
    }
  }

  predicate NamelessTo(text: string, k: nat)
    requires k < |text|
  {
    Nameless(text[..k + 1])
  }

  /** Up to the first nameless directory, the walk comes to every directory. */
  lemma {:induction false} NamedVisited(names: seq<string>, dir: string)
    requires Rooted(names) && (dir == "" || (dir in names && IsDirectoryName(dir)))
    requires forall k :: 0 <= k < |dir| ==> !NamelessTo(dir, k)
    ensures Visited(names, dir)
    decreases |dir|
  {
    hide Rooted, Listing, Visited;
    if dir == "" {
      RootVisited(names);
    } else {
      UpAndLast(dir);
      var up, name := Up(dir), Last(dir);
      assert !NamelessTo(dir, |dir| - 1) && dir[..|dir| - 1 + 1] == dir;
      forall k | 0 <= k < |up| ensures !NamelessTo(up, k) {
        assert !NamelessTo(dir, k) && up[..k + 1] == dir[..k + 1];
      }
      assert up == "" || (!NamelessTo(up, |up| - 1) && up[..|up| - 1 + 1] == up);
      SlashPrefix(names, dir, up);
      NamedVisited(names, up);
      RootedListing(names, up, DirEntry(name, true));
      VisitedChild(names, up, name);
    }
  }

  lemma SlashPrefix(names: seq<string>, n: string, up: string)
    requires Rooted(names) && n in names && up <= n && (up == "" || IsDirectoryName(up))
    ensures up == "" || up in names
  {
    if up != "" {
      assert n[|up| - 1] == '/' && n[..|up| - 1 + 1] == up;
    }
  }

  /** The first nameless directory on the way to one. */
  lemma {:induction false} FirstNameless(n: string, k: nat) returns (first: string)
    requires k < |n| && NamelessTo(n, k)
    ensures Nameless(first) && first <= n[..k + 1]
    ensures forall i :: 0 <= i < |first| - 1 ==> !NamelessTo(first, i)
    decreases k
  {
    if i :| 0 <= i < k && NamelessTo(n, i) {
      first := FirstNameless(n, i);
      assert n[..i + 1] <= n[..k + 1];
    } else {
      first := n[..k + 1];
      forall i | 0 <= i < |first| - 1 ensures !NamelessTo(first, i) {
        assert !NamelessTo(n, i) && first[..i + 1] == n[..i + 1];
      }
    }
  }

  /** One name below a nameless directory, and the walk asks for ever longer ones. */
  lemma {:induction false} Endless(names: seq<string>, dir: string, e: DirEntry)
    requires Rooted(names) && FoundDoubled(names) && (dir == "" || IsDirectoryName(dir))
    requires Doubled(names, dir) && e in Listing(names, dir) && e.name != ""
    ensures false
    decreases Longest(names) - |dir|
  {
    hide Rooted, Listing, Doubled, Visited, Longest;
    var next := dir + "/";
    ListedChild(names, dir, e);
    LongestBounds(names, FullName(dir, e));
    assert FullName(next, e) in names && next <= FullName(next, e);
    SlashPrefix(names, FullName(next, e), next);
    assert FullName(dir, DirEntry("", true)) == next;
    RootedListing(names, dir, DirEntry("", true));
    DoubledIsVisited(names, dir);
    DoubledAgain(names, dir);
    RootedListing(names, next, e);
    Endless(names, next, e);
  }

  lemma DoubledIsVisited(names: seq<string>, dir: string)
    requires Doubled(names, dir)
    ensures Visited(names, dir)
  {
  }

  /** From a doubled directory down to the first name in m. */
  lemma {:induction false} NameBelow(names: seq<string>, dir: string, m: string)
    requires Rooted(names) && FoundDoubled(names) && (dir == "" || IsDirectoryName(dir))
    requires Doubled(names, dir) && m in names && dir <= m && !OnlySlashes(m[|dir|..])
    ensures false
    decreases |m| - |dir|
  {
    hide Rooted, Doubled, Visited, Listing, FoundDoubled;
    var e := Via(dir, m);
    ViaIsPrefix(dir, m);
    if e.isDirectory {
      SlashPrefix(names, m, dir + e.name + "/");
    } else {
      assert dir + e.name + "" == m;
    }
    RootedListing(names, dir, e);
    if e.name == "" {
      var next := dir + "/";
      assert e.isDirectory && dir + e.name + "/" == next && m[|next|..] == m[|dir|..][1..];
      DoubledIsVisited(names, dir);
      DoubledAgain(names, dir);
      NameBelow(names, next, m);
    } else {
      Endless(names, dir, e);
    }
  }

  /**
   * In such an archive, whatever the mount point: the walk goes through exactly if
   * nothing is named beside a nameless directory.
   */
  lemma RootedReachesIff(names: seq<string>, mountPoint: string)
    requires Rooted(names)
    ensures Reaches(names, mountPoint, RootOf(mountPoint)) <==> NamelessAlone(names)
  {
    hide Rooted, Doubled, Visited, Listing, Reaches;
    ReachesIff(names, mountPoint);
    if FoundDoubled(names) {
      forall n, m | n in names && Nameless(n) && m in names && n[..|n| - 1] <= m
        ensures OnlySlashes(m[|n| - 1..])
      {
        if !OnlySlashes(m[|n| - 1..]) {
          NamedBesideNameless(names, n, m);
        }
      }
    }
    if NamelessAlone(names) {
      forall dir, e | Doubled(names, dir) && e in Listing(names, dir) ensures e.name == "" {
        NothingBeside(names, dir, e);
      }
    }
  }

  lemma NamedBesideNameless(names: seq<string>, n: string, m: string)
    requires Rooted(names) && FoundDoubled(names)
    requires n in names && Nameless(n) && m in names && n[..|n| - 1] <= m && !OnlySlashes(m[|n| - 1..])
    ensures false
  {
    hide Rooted, Doubled, Visited, Listing, FoundDoubled;
    assert n[..|n| - 1 + 1] == n && NamelessTo(n, |n| - 1);
    var first := FirstNameless(n, |n| - 1);
    var dir := first[..|first| - 1];
    assert first == dir + "" + "/" && first <= n && dir <= n[..|n| - 1];
    assert dir == "" || dir[|dir| - 1] == '/';
    SlashPrefix(names, n, first);
    SlashPrefix(names, n, dir);
    forall k | 0 <= k < |dir| ensures !NamelessTo(dir, k) {
      assert !NamelessTo(first, k) && dir[..k + 1] == first[..k + 1];
    }
    NamedVisited(names, dir);
    RootedListing(names, dir, DirEntry("", true));
    DoubledAgain(names, dir);
    assert m[|n| - 1..] == m[|dir|..][|n| - 1 - |dir|..];
    NameBelow(names, dir, m);
  }

  lemma NothingBeside(names: seq<string>, dir: string, e: DirEntry)
    requires NamelessAlone(names) && Doubled(names, dir) && e in Listing(names, dir)
    ensures e.name == ""
  {
    hide Listing, Doubled, FullName, NamelessAlone;
    ListedChild(names, dir, e);
    DoubledNameless(names, dir);
    if dir != "" && Nameless(dir) {
      assert dir == dir[..|dir| - 1] + "/";
      BesideNameless(names, dir, dir[..|dir| - 1], "/", e);
    } else {
      assert dir == dir + "";
      BesideNameless(names, dir + "/", dir, "", e);
    }
  }

  lemma DoubledNameless(names: seq<string>, dir: string)
    requires Doubled(names, dir)
    ensures if dir != "" && Nameless(dir) then dir in names else dir + "/" in names && Nameless(dir + "/")
  {
    hide Listing, Visited;
    if dir != "" {
      VisitedIsListed(names, dir);
    }
    if !Nameless(dir) {
      ListedChild(names, dir, DirEntry("", true));
      assert FullName(dir, DirEntry("", true)) == dir + "/";
    }
  }

  lemma BesideNameless(names: seq<string>, n: string, front: string, between: string, e: DirEntry)
    requires NamelessAlone(names) && n in names && Nameless(n) && n == front + "/"
    requires FullName(front + between, e) in names && '/' !in e.name
    ensures e.name == ""
  {
    hide NamelessAlone, OnlySlashes, Nameless;
    var end := if e.isDirectory then "/" else "";
    assert FullName(front + between, e) == front + (between + e.name + end);
    AloneAt(names, n, front, between + e.name + end);
    if e.name != "" {
      NamedIsNoSlash(between, e.name, end);
    }
  }

  lemma AloneAt(names: seq<string>, n: string, front: string, rest: string)
    requires NamelessAlone(names) && n in names && Nameless(n) && n == front + "/" && front + rest in names
    ensures OnlySlashes(rest)
  {
    assert n[..|n| - 1] == front && (front + rest)[|front|..] == rest;
  }

  lemma NamedIsNoSlash(before: string, name: string, after: string)
    requires name != "" && '/' !in name
    ensures !OnlySlashes(before + name + after)
  {
    assert (before + name + after)[|before|] == name[0];
  }

  /** An archive the walk cannot follow, and one with the same two names that it can. */
  lemma NamelessExamples(mountPoint: string)
    ensures !Reaches(["a/", "a//", "a/f"], mountPoint, RootOf(mountPoint))
    ensures Reaches(["a//", "a/f"], mountPoint, RootOf(mountPoint))
  {
    hide Reaches, Listing, Listable, EntriesAt, RootOf, NamelessAlone, Rooted, At;
    ExampleRooted();
    ExampleBeside(["a/", "a//", "a/f"]);
    RootedReachesIff(["a/", "a//", "a/f"], mountPoint);
    ExampleUnlisted();
    AtRoot(mountPoint);
    AtListed(["a//", "a/f"], mountPoint, RootOf(mountPoint), "", false);
    ReachesIsFollowed(["a//", "a/f"], mountPoint, RootOf(mountPoint));
  }

  lemma ExampleBeside(names: seq<string>)
    requires "a//" in names && "a/f" in names
    ensures !NamelessAlone(names)
  {
    hide NamelessAlone;
    if NamelessAlone(names) {
      assert "a//" == "a/" + "/" && "a/" + "f" == "a/f";
      NamedIsNoSlash("", "f", "");
      assert "" + "f" + "" == "f";
      AloneAt(names, "a//", "a/", "f");
    }
  }

  lemma ExampleRooted()
    ensures Rooted(["a/", "a//", "a/f"])
  {
    assert "a/"[..2] == "a/" && "a//"[..2] == "a/" && "a//"[..3] == "a//" && "a/f"[..2] == "a/";
    assert "a/f" + "/" == "a/f/";
  }

  lemma ExampleUnlisted()
    ensures Listing(["a//", "a/f"], "") == []
  {
    assert FirstSlash("a//") == 1 && FirstSlash("a/f") == 1;
    assert ["a//", "a/f"][..1] == ["a//"] && ["a//"][..0] == [];
  }
}
