/**
 * The directory tree a ZIP backend reads out of a flat list of entry names
 * (src/backends/zip_backend.cpp).
 */
module ZipNames {
  import opened MountTable
  import Paths

  // ---------------------------------------------------------------------
  // Looking names up
  // ---------------------------------------------------------------------

  function FirstSlash(text: string): (at: int)
    ensures -1 <= at < |text|
    ensures at >= 0 ==> text[at] == '/' && '/' !in text[..at]
    ensures at == -1 ==> '/' !in text
  {
    if text == "" then -1
    else if text[0] == '/' then 0
    else
      var rest := FirstSlash(text[1..]);
      assert text == [text[0]] + text[1..];
      assert rest >= 0 ==> text[..rest + 1] == [text[0]] + text[1..][..rest];
      if rest == -1 then -1 else rest + 1
  }

  predicate IsDirectoryName(name: string) {
    name != "" && name[|name| - 1] == '/'
  }

  predicate IsFileName(name: string) {
    name != "" && name[|name| - 1] != '/'
  }

  /** strip_mount_point: no component boundary is checked here, the caller has dispatched already. */
  function Strip(mountPoint: string, path: string): string {
    if |path| < |mountPoint| || path[..|mountPoint|] != mountPoint then path
    else WithoutSlash(path[|mountPoint|..])
  }

  /** normalize_path: at most one leading slash goes. */
  function WithoutSlash(path: string): string {
    if path != "" && path[0] == '/' then path[1..] else path
  }

  /** The first entry of that exact name, as zip_name_locate finds it; -1 if there is none. */
  function IndexOf(names: seq<string>, name: string): (at: int)
    ensures -1 <= at < |names|
    ensures at >= 0 ==> names[at] == name
    ensures at == -1 <==> name !in names
  {
    if names == [] then -1
    else if names[0] == name then 0
    else
      var rest := IndexOf(names[1..], name);
      if rest == -1 then -1 else rest + 1
  }

  /** locate_entry: the exact name, or the name as a directory. */
  function Locate(names: seq<string>, path: string): (at: int)
    ensures -1 <= at < |names|
  {
    var normalized := WithoutSlash(path);
    var index := IndexOf(names, normalized);
    if index >= 0 then index
    else if normalized != "" && normalized[|normalized| - 1] != '/' then IndexOf(names, normalized + "/")
    else -1
  }

  // ---------------------------------------------------------------------
  // Listing one directory
  // ---------------------------------------------------------------------

  datatype Child = NoChild | Child(entry: DirEntry)

  function Immediate(relative: string): Child {
    var slash := FirstSlash(relative);
    if slash == -1 then Child(DirEntry(relative, false))
    else if slash == |relative| - 1 then Child(DirEntry(relative[..slash], true))
    else NoChild
  }

  /** What one entry contributes to the listing of dir ("" for the root, otherwise ending in a slash). */
  function ChildOf(full: string, dir: string): Child {
    if dir == "" then Immediate(full)
    else if |full| <= |dir| || full[..|dir|] != dir then NoChild
    else Immediate(full[|dir|..])
  }

  predicate HasName(entries: seq<DirEntry>, name: string) {
    exists i :: 0 <= i < |entries| && entries[i].name == name
  }

  /** add_entry: a name already listed is dropped. */
  function Added(entries: seq<DirEntry>, e: DirEntry): seq<DirEntry> {
    if HasName(entries, e.name) then entries else entries + [e]
  }

  function Listing(names: seq<string>, dir: string): seq<DirEntry> {
    if names == [] then []
    else
      var before := Listing(names[..|names| - 1], dir);
      match ChildOf(names[|names| - 1], dir)
      case NoChild => before
      case Child(e) => Added(before, e)
  }

  function FullName(dir: string, e: DirEntry): string {
    dir + e.name + (if e.isDirectory then "/" else "")
  }

  /** An entry is a child exactly when its name is the directory's, one segment, and a slash for a directory. */
  lemma ChildIs(full: string, dir: string, e: DirEntry)
    ensures ChildOf(full, dir) == Child(e) <==>
      '/' !in e.name && full == FullName(dir, e) && (dir != "" ==> full != dir)
  {
    ImmediateIs(full, e);
    if dir != "" {
      if |full| > |dir| && full[..|dir|] == dir {
        ImmediateIs(full[|dir|..], e);
        assert full == dir + full[|dir|..];
        assert FullName(dir, e) == dir + (e.name + (if e.isDirectory then "/" else ""));
        assert FullName(dir, e)[|dir|..] == e.name + (if e.isDirectory then "/" else "");
      } else if full == FullName(dir, e) {
        assert full[..|dir|] == dir;
      }
    } else {
      assert FullName("", e) == e.name + (if e.isDirectory then "/" else "");
    }
  }

  lemma ImmediateIs(relative: string, e: DirEntry)
    ensures Immediate(relative) == Child(e) <==>
      '/' !in e.name && relative == e.name + (if e.isDirectory then "/" else "")
  {
    var slash := FirstSlash(relative);
    if slash == |relative| - 1 && slash >= 0 {
      assert relative == relative[..slash] + "/";
    }
    if '/' !in e.name && relative == e.name + (if e.isDirectory then "/" else "") {
      if e.isDirectory {
        assert relative[|relative| - 1] == '/' && relative[..|e.name|] == e.name;
        assert forall k :: 0 <= k < |e.name| ==> relative[k] == e.name[k];
      } else {
        assert relative == e.name;
      }
    }
  }

  ghost predicate DistinctNames(entries: seq<DirEntry>) {
    forall i, j :: 0 <= i < j < |entries| ==> entries[i].name != entries[j].name
  }

  /** Whatever the archive: no name is listed twice, and every child's name is listed. */
  lemma {:induction false} ListingNames(names: seq<string>, dir: string)
    ensures DistinctNames(Listing(names, dir))
    ensures forall e :: e in Listing(names, dir) ==> exists i :: 0 <= i < |names| && ChildOf(names[i], dir) == Child(e)
    ensures forall i :: 0 <= i < |names| && ChildOf(names[i], dir).Child? ==>
      HasName(Listing(names, dir), ChildOf(names[i], dir).entry.name)
    decreases |names|
  {
    if names != [] {
      var front := names[..|names| - 1];
      ListingNames(front, dir);
      var before, after := Listing(front, dir), Listing(names, dir);
      assert before <= after;
      forall i | 0 <= i < |names| && ChildOf(names[i], dir).Child?
        ensures HasName(after, ChildOf(names[i], dir).entry.name)
      {
        var name := ChildOf(names[i], dir).entry.name;
        if i < |front| {
          assert names[i] == front[i];
          var k :| 0 <= k < |before| && before[k].name == name;
          assert after[k].name == name;
        } else if !HasName(before, name) {
          assert after[|before|].name == name;
        }
      }
      forall e | e in after ensures exists i :: 0 <= i < |names| && ChildOf(names[i], dir) == Child(e) {
        if e in before {
          var i :| 0 <= i < |front| && ChildOf(front[i], dir) == Child(e);
          assert names[i] == front[i];
        } else {
          assert ChildOf(names[|names| - 1], dir) == Child(e);
        }
      }
    }
  }

  // ---------------------------------------------------------------------
  // Well-formed archives
  // ---------------------------------------------------------------------

  /** A name without the slash that marks a directory. */
  function Bare(name: string): string {
    if IsDirectoryName(name) then name[..|name| - 1] else name
  }

  /** A relative path whose segments are not empty, not "." and not "..". */
  predicate Proper(name: string) {
    var segments := Paths.Components(Bare(name));
    && segments != []
    && Paths.Joined(segments) == Bare(name)
    && (forall i :: 0 <= i < |segments| ==> segments[i] != "..")
  }

  predicate DoubleSlashAt(name: string, k: nat) {
    k + 1 < |name| && name[k] == '/' && name[k + 1] == '/'
  }

  lemma {:induction false} NoDoubleSlash(segments: seq<string>, k: nat)
    requires Paths.AllPlain(segments)
    ensures !DoubleSlashAt(Paths.Joined(segments), k)
    decreases |segments|
  {
    var n := |segments|;
    if n > 0 {
      assert Paths.Plain(segments[n - 1]);
    }
    if n > 1 {
      var front, last := Paths.Joined(segments[..n - 1]), segments[n - 1];
      var text := front + "/" + last;
      assert Paths.Joined(segments) == text;
      NoDoubleSlash(segments[..n - 1], k);
      Paths.JoinedStart(segments[..n - 1]);
      if |front| < k + 1 < |text| {
        assert text[k + 1] == last[k - |front|];
      }
    }
  }

  lemma ProperName(name: string)
    requires Proper(name)
    ensures name != "" && name[0] != '/'
    ensures Bare(name) != "" && Bare(name)[|Bare(name)| - 1] != '/'
  {
    hide Paths.Scan, Paths.Joined;
    Paths.ScanIsPlain("", Bare(name));
    Paths.JoinedStart(Paths.Components(Bare(name)));
  }

  lemma ProperAt(name: string, k: nat)
    requires Proper(name)
    ensures !DoubleSlashAt(name, k)
  {
    hide Paths.Scan, Paths.Joined;
    ProperName(name);
    Paths.ScanIsPlain("", Bare(name));
    NoDoubleSlash(Paths.Components(Bare(name)), k);
  }

  ghost predicate WellFormed(names: seq<string>) {
    && (forall i, j :: 0 <= i < j < |names| ==> names[i] != names[j])
    && (forall n :: n in names ==> Proper(n))
    && (forall n, k :: n in names && 0 <= k < |n| && n[k] == '/' ==> n[..k + 1] in names)
    && (forall n :: n in names && IsFileName(n) ==> n + "/" !in names)
  }

  ghost predicate IsDir(names: seq<string>, dir: string) {
    dir == "" || (dir in names && IsDirectoryName(dir))
  }

  /** In a well-formed archive the listing is exactly the set of immediate children. */
  lemma ListingIsChildren(names: seq<string>, dir: string, e: DirEntry)
    requires WellFormed(names) && IsDir(names, dir)
    ensures e in Listing(names, dir) <==> e.name != "" && '/' !in e.name && FullName(dir, e) in names
    ensures DistinctNames(Listing(names, dir))
  {
    ListingNames(names, dir);
    var listing := Listing(names, dir);
    if e in listing {
      var i :| 0 <= i < |names| && ChildOf(names[i], dir) == Child(e);
      ChildIs(names[i], dir, e);
      ChildNotEmpty(names, dir, e);
    }
    if e.name != "" && '/' !in e.name && FullName(dir, e) in names {
      var i :| 0 <= i < |names| && names[i] == FullName(dir, e);
      ChildIs(names[i], dir, e);
      var k :| 0 <= k < |listing| && listing[k].name == e.name;
      var other := listing[k];
      assert other in listing;
      var j :| 0 <= j < |names| && ChildOf(names[j], dir) == Child(other);
      ChildIs(names[j], dir, other);
      OneKind(names, dir, e, other);
    }
  }

  lemma ChildNotEmpty(names: seq<string>, dir: string, e: DirEntry)
    requires WellFormed(names) && IsDir(names, dir) && FullName(dir, e) in names && (dir != "" ==> FullName(dir, e) != dir)
    ensures e.name != ""
  {
    hide Proper;
    var full := FullName(dir, e);
    ProperName(full);
    if dir != "" {
      ProperAt(full, |dir| - 1);
    }
  }

  lemma OneKind(names: seq<string>, dir: string, a: DirEntry, b: DirEntry)
    requires WellFormed(names) && a.name == b.name && a.name != "" && '/' !in a.name
    requires FullName(dir, a) in names && FullName(dir, b) in names
    ensures a == b
  {
    hide Proper;
    var file := dir + a.name;
    assert file[|file| - 1] == a.name[|a.name| - 1];
    assert IsFileName(file);
    assert dir + a.name + "" == file;
  }

  // ---------------------------------------------------------------------
  // The entries below a directory
  // ---------------------------------------------------------------------

  ghost function Below(names: seq<string>, dir: string): set<string> {
    set n | n in names && dir <= n && n != dir
  }

  /** What a listed child stands for: itself, and for a directory everything below it. */
  ghost function Part(names: seq<string>, dir: string, e: DirEntry): set<string> {
    {FullName(dir, e)} + (if e.isDirectory then Below(names, FullName(dir, e)) else {})
  }

  ghost function Parts(names: seq<string>, dir: string, entries: seq<DirEntry>): set<string> {
    if entries == [] then {}
    else Parts(names, dir, entries[..|entries| - 1]) + Part(names, dir, entries[|entries| - 1])
  }

  lemma {:induction false} PartsHold(names: seq<string>, dir: string, entries: seq<DirEntry>, f: string)
    ensures f in Parts(names, dir, entries) <==> exists e :: e in entries && f in Part(names, dir, e)
    decreases |entries|
  {
    if entries != [] {
      var front, last := entries[..|entries| - 1], entries[|entries| - 1];
      PartsHold(names, dir, front, f);
      assert forall e :: e in entries <==> e in front || e == last;
    }
  }

  /** The first segment of what follows the directory. */
  function Head(dir: string, full: string): string
    requires dir <= full
  {
    var relative := full[|dir|..];
    var slash := FirstSlash(relative);
    if slash == -1 then relative else relative[..slash]
  }

  lemma HeadOfPart(names: seq<string>, dir: string, e: DirEntry, f: string)
    requires '/' !in e.name && f in Part(names, dir, e)
    ensures dir <= f && Head(dir, f) == e.name
  {
    var relative := f[|dir|..];
    if e.isDirectory {
      assert FullName(dir, e) == dir + (e.name + "/");
      assert f[..|dir| + |e.name| + 1] == FullName(dir, e);
      assert relative[..|e.name| + 1] == e.name + "/";
      assert relative[|e.name|] == '/' && relative[..|e.name|] == e.name;
      assert forall k :: 0 <= k < |e.name| ==> relative[k] == e.name[k];
      var slash := FirstSlash(relative);
      assert slash >= 0;
      assert slash == |e.name|;
    } else {
      assert relative == e.name;
    }
  }

  /** Different children stand for different entries. */
  lemma PartsAreDisjoint(names: seq<string>, dir: string, entries: seq<DirEntry>, e: DirEntry)
    requires '/' !in e.name && !HasName(entries, e.name)
    requires forall o :: o in entries ==> '/' !in o.name
    ensures Parts(names, dir, entries) !! Part(names, dir, e)
  {
    forall f | f in Parts(names, dir, entries) ensures f !in Part(names, dir, e) {
      PartsHold(names, dir, entries, f);
      var o :| o in entries && f in Part(names, dir, o);
      HeadOfPart(names, dir, o, f);
      if f in Part(names, dir, e) {
        HeadOfPart(names, dir, e, f);
      }
    }
  }

  lemma AncestorListed(names: seq<string>, dir: string, f: string, name: string)
    requires WellFormed(names) && IsDir(names, dir) && f in names
    requires dir + name + "/" <= f
    ensures name != "" && dir + name + "/" in names
  {
    hide Proper;
    var up := dir + name + "/";
    assert f[|up| - 1] == up[|up| - 1] == '/';
    assert f[..|up| - 1 + 1] == up;
    ProperName(f);
    assert up[0] == f[0];
    if dir != "" {
      ProperAt(f, |dir| - 1);
      assert f[|dir| - 1] == up[|dir| - 1] == '/' && f[|dir|] == up[|dir|];
    }
  }

  /** The child of dir through which f is reached. */
  function Via(dir: string, f: string): DirEntry
    requires dir <= f
  {
    DirEntry(Head(dir, f), FirstSlash(f[|dir|..]) >= 0)
  }

  lemma ViaIsPrefix(dir: string, f: string)
    requires dir <= f
    ensures '/' !in Via(dir, f).name
    ensures Via(dir, f).isDirectory ==> dir + Via(dir, f).name + "/" <= f
    ensures !Via(dir, f).isDirectory ==> f == dir + Via(dir, f).name
  {
    var relative := f[|dir|..];
    assert f == dir + relative;
    var slash := FirstSlash(relative);
    if slash >= 0 {
      assert relative == relative[..slash] + "/" + relative[slash + 1..];
      assert f == dir + relative[..slash] + "/" + relative[slash + 1..];
    }
  }

  lemma ChildOwns(names: seq<string>, dir: string, f: string)
    requires WellFormed(names) && IsDir(names, dir) && f in Below(names, dir)
    ensures Via(dir, f) in Listing(names, dir) && f in Part(names, dir, Via(dir, f))
  {
    ViaIsPrefix(dir, f);
    hide WellFormed, IsDir, FirstSlash, Head, Via, Listing;
    var e := Via(dir, f);
    if e.isDirectory {
      AncestorListed(names, dir, f, e.name);
    } else {
      assert FullName(dir, e) == f;
    }
    ListingIsChildren(names, dir, e);
  }

  /** The children of a directory stand for exactly the entries below it. */
  lemma PartsOfListing(names: seq<string>, dir: string)
    requires WellFormed(names) && IsDir(names, dir)
    ensures Parts(names, dir, Listing(names, dir)) == Below(names, dir)
  {
    hide Listing, Parts, WellFormed, IsDir;
    var all := Parts(names, dir, Listing(names, dir));
    forall f | f in all ensures f in Below(names, dir) {
      PartsHold(names, dir, Listing(names, dir), f);
      var e :| e in Listing(names, dir) && f in Part(names, dir, e);
      ListingIsChildren(names, dir, e);
      HeadOfPart(names, dir, e, f);
      assert |FullName(dir, e)| > |dir|;
    }
    forall f | f in Below(names, dir) ensures f in all {
      hide Part, Below, Via;
      ChildOwns(names, dir, f);
      PartsHold(names, dir, Listing(names, dir), f);
    }
  }

  // ---------------------------------------------------------------------
  // Paths of the walk
  // ---------------------------------------------------------------------

  function RootOf(mountPoint: string): string {
    if mountPoint == "" then "/" else mountPoint
  }

  /** The full path under which the walk reaches an entry; dir without its final slash. */
  function PathOf(base: string, dir: string): string {
    if IsDirectoryName(dir) then base + "/" + dir[..|dir| - 1]
    else if dir == "" then base
    else base + "/" + dir
  }

  lemma PathOfName(base: string, name: string, isDirectory: bool)
    requires name != "" && name[|name| - 1] != '/'
    ensures PathOf(base, name + (if isDirectory then "/" else "")) == base + "/" + name
  {
    var full := name + (if isDirectory then "/" else "");
    if isDirectory {
      assert full[..|full| - 1] == name;
    } else {
      assert full == name;
    }
  }

  lemma PathOfChild(base: string, dir: string, e: DirEntry)
    requires dir == "" || IsDirectoryName(dir)
    requires e.name != "" && '/' !in e.name
    ensures PathOf(base, dir) + "/" + e.name == PathOf(base, FullName(dir, e))
  {
    var name := dir + e.name;
    assert name[|name| - 1] == e.name[|e.name| - 1];
    PathOfName(base, name, e.isDirectory);
    if dir == "" {
      assert name == e.name;
    } else {
      Paths.RegroupedTexts(base, dir[..|dir| - 1], e.name);
      assert dir == dir[..|dir| - 1] + "/";
    }
  }

  /** Stripping the mount point off a walked path gives the entry's relative name back. */
  lemma StripWalked(mountPoint: string, relative: string)
    requires relative != "" && relative[0] != '/'
    ensures WithoutSlash(Strip(mountPoint, RootOf(mountPoint) + "/" + relative)) == relative
    ensures Strip(mountPoint, RootOf(mountPoint) + "/" + relative) != ""
    ensures Strip(mountPoint, RootOf(mountPoint) + "/" + relative) != "/"
  {
    var path := RootOf(mountPoint) + "/" + relative;
    if mountPoint == "" {
      assert path == "/" + ("/" + relative);
      assert path[..0] == "" && path[0..] == path;
      assert path[1..] == "/" + relative && path[1..][1..] == relative;
    } else {
      assert path == mountPoint + ("/" + relative);
      assert path[..|mountPoint|] == mountPoint && path[|mountPoint|..] == "/" + relative;
      assert path[|mountPoint|..][1..] == relative;
    }
  }

  lemma StripRoot(mountPoint: string)
    ensures Strip(mountPoint, RootOf(mountPoint)) == ""
  {
  }

  // ---------------------------------------------------------------------
  // The walk over any archive
  // ---------------------------------------------------------------------

  function WithTrailing(path: string): string {
    if path != "" && path[|path| - 1] == '/' then path else path + "/"
  }

  function Longest(names: seq<string>): nat {
    if names == [] then 0
    else if |names[0]| >= Longest(names[1..]) then |names[0]|
    else Longest(names[1..])
  }

  lemma {:induction false} LongestBounds(names: seq<string>, n: string)
    requires n in names
    ensures |n| <= Longest(names)
    decreases |names|
  {
    if names[0] != n {
      LongestBounds(names[1..], n);
    }
  }

  /** Whether list_directory accepts a path. */
  predicate Listable(names: seq<string>, mountPoint: string, path: string) {
    var relative := Strip(mountPoint, path);
    relative == "" || relative == "/" || Locate(names, WithTrailing(relative)) >= 0
  }

  /** What it lists. */
  function EntriesAt(names: seq<string>, mountPoint: string, path: string): seq<DirEntry> {
    var relative := Strip(mountPoint, path);
    if relative == "" || relative == "/" then Listing(names, "")
    else Listing(names, WithoutSlash(WithTrailing(relative)))
  }

  predicate Openable(names: seq<string>, mountPoint: string, path: string) {
    var at := Locate(names, Strip(mountPoint, path));
    at >= 0 && !IsDirectoryName(names[at])
  }

  /** No path that can be listed is longer than this. */
  function LongestPath(names: seq<string>, mountPoint: string): nat {
    |mountPoint| + Longest(names) + 2
  }

  /** In any archive at all: what can be listed is bounded in length, so the walk ends. */
  lemma ListablePathsAreShort(names: seq<string>, mountPoint: string, path: string)
    requires Listable(names, mountPoint, path)
    ensures |path| <= LongestPath(names, mountPoint)
  {
    var relative := Strip(mountPoint, path);
    if relative != "" && relative != "/" {
      var dir := WithTrailing(relative);
      var at := Locate(names, dir);
      LongestBounds(names, names[at]);
    }
  }

  /** The walk from this path finds every directory and file it is told of. */
  ghost predicate Reaches(names: seq<string>, mountPoint: string, path: string)
    decreases LongestPath(names, mountPoint) - |path|
  {
    && Listable(names, mountPoint, path)
    && (ListablePathsAreShort(names, mountPoint, path);
        forall e :: e in EntriesAt(names, mountPoint, path) ==>
          if e.isDirectory then Reaches(names, mountPoint, path + "/" + e.name)
          else Openable(names, mountPoint, path + "/" + e.name))
  }

  /** One entry of a listing is followed successfully. */
  ghost predicate Followed(names: seq<string>, mountPoint: string, path: string, e: DirEntry) {
    if e.isDirectory then Reaches(names, mountPoint, path + "/" + e.name)
    else Openable(names, mountPoint, path + "/" + e.name)
  }

  lemma ReachesIsFollowed(names: seq<string>, mountPoint: string, path: string)
    ensures Reaches(names, mountPoint, path) <==>
      && Listable(names, mountPoint, path)
      && forall e :: e in EntriesAt(names, mountPoint, path) ==> Followed(names, mountPoint, path, e)
  {
    hide Listable, EntriesAt, Openable;
  }

  lemma DirectoryPath(names: seq<string>, base: string, dir: string)
    requires WellFormed(names) && dir in names && IsDirectoryName(dir)
    ensures dir == Bare(dir) + "/" && PathOf(base, dir) == base + "/" + Bare(dir)
    ensures Bare(dir) != "" && Bare(dir)[0] != '/' && Bare(dir)[|Bare(dir)| - 1] != '/'
  {
    hide Proper;
    ProperName(dir);
  }

  lemma SlashesAround(relative: string, x: string)
    requires WithoutSlash(relative) == x && x != "" && x[0] != '/' && x[|x| - 1] != '/'
    ensures WithTrailing(relative) == relative + "/"
    ensures WithoutSlash(WithTrailing(relative)) == x + "/"
  {
    assert relative == x || relative == "/" + x;
    assert relative[|relative| - 1] == x[|x| - 1];
    if relative == "/" + x {
      assert (relative + "/")[1..] == x + "/";
    }
  }

  lemma LocateNamed(names: seq<string>, path: string, name: string)
    requires WithoutSlash(path) == name && name in names
    ensures Locate(names, path) == IndexOf(names, name) >= 0
  {
  }

  lemma ListedAt(names: seq<string>, mountPoint: string, path: string, dir: string)
    requires Strip(mountPoint, path) != "" && Strip(mountPoint, path) != "/"
    requires WithoutSlash(WithTrailing(Strip(mountPoint, path))) == dir && dir in names
    ensures Listable(names, mountPoint, path) && EntriesAt(names, mountPoint, path) == Listing(names, dir)
  {
    hide Listing, Strip, Locate, WithTrailing, WithoutSlash;
    LocateNamed(names, WithTrailing(Strip(mountPoint, path)), dir);
  }

  lemma RootListed(names: seq<string>, mountPoint: string)
    ensures Listable(names, mountPoint, PathOf(RootOf(mountPoint), ""))
    ensures EntriesAt(names, mountPoint, PathOf(RootOf(mountPoint), "")) == Listing(names, "")
  {
    hide Listing, Locate, Strip;
    StripRoot(mountPoint);
  }

  /** A directory of a well-formed archive is listed under the path the walk gives it. */
  lemma ListingFound(names: seq<string>, mountPoint: string, dir: string)
    requires WellFormed(names) && IsDir(names, dir)
    ensures Listable(names, mountPoint, PathOf(RootOf(mountPoint), dir))
    ensures EntriesAt(names, mountPoint, PathOf(RootOf(mountPoint), dir)) == Listing(names, dir)
  {
    if dir == "" {
      RootListed(names, mountPoint);
    } else {
      DirectoryPath(names, RootOf(mountPoint), dir);
      hide WellFormed, Strip, RootOf, Listable, EntriesAt, Listing, WithTrailing, WithoutSlash, PathOf, Bare, Locate;
      StripWalked(mountPoint, Bare(dir));
      SlashesAround(Strip(mountPoint, RootOf(mountPoint) + "/" + Bare(dir)), Bare(dir));
      ListedAt(names, mountPoint, RootOf(mountPoint) + "/" + Bare(dir), dir);
    }
  }

  lemma FileFound(names: seq<string>, mountPoint: string, f: string)
    requires WellFormed(names) && f in names && IsFileName(f)
    ensures Openable(names, mountPoint, PathOf(RootOf(mountPoint), f))
    ensures Locate(names, Strip(mountPoint, PathOf(RootOf(mountPoint), f))) == IndexOf(names, f)
  {
    hide Proper;
    ProperName(f);
    StripWalked(mountPoint, f);
  }

  lemma EntryFacts(names: seq<string>, mountPoint: string, dir: string, e: DirEntry, dest: string)
    requires WellFormed(names) && IsDir(names, dir) && e in Listing(names, dir)
    ensures var full := FullName(dir, e);
      && PathOf(RootOf(mountPoint), dir) + "/" + e.name == PathOf(RootOf(mountPoint), full)
      && PathOf(dest, dir) + "/" + e.name == PathOf(dest, full)
      && full in names
      && |dir| < |full| <= Longest(names)
      && (if e.isDirectory then IsDir(names, full) && IsDirectoryName(full) else IsFileName(full))
  {
    hide WellFormed, Listing, PathOf, RootOf, Longest;
    var full := FullName(dir, e);
    ListingIsChildren(names, dir, e);
    PathOfChild(RootOf(mountPoint), dir, e);
    PathOfChild(dest, dir, e);
    LongestBounds(names, full);
    assert full[|full| - 1] == if e.isDirectory then '/' else e.name[|e.name| - 1];
  }

  /** In a well-formed archive the walk finds everything. */
  lemma {:induction false} WellFormedReaches(names: seq<string>, mountPoint: string, dir: string)
    requires WellFormed(names) && IsDir(names, dir)
    ensures Reaches(names, mountPoint, PathOf(RootOf(mountPoint), dir))
    decreases Longest(names) - |dir|
  {
    hide WellFormed, Listing, PathOf, RootOf, Longest, Listable, EntriesAt, Openable, Reaches, IsDir;
    var path := PathOf(RootOf(mountPoint), dir);
    ListingFound(names, mountPoint, dir);
    forall e | e in EntriesAt(names, mountPoint, path) ensures Followed(names, mountPoint, path, e) {
      EntryFacts(names, mountPoint, dir, e, "");
      if e.isDirectory {
        WellFormedReaches(names, mountPoint, FullName(dir, e));
      } else {
        FileFound(names, mountPoint, FullName(dir, e));
      }
    }
    ReachesIsFollowed(names, mountPoint, path);
  }
}
