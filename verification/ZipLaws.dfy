/**
 * What the ZIP backend of src/backends/zip_backend.cpp finds in a list of entry names, said of
 * the names: which entry a path leads to, what is opened, and what a directory lists.
 */
module ZipLaws {
  import opened MountTable
  import opened ZipNames

  // ---- from a path to an entry ------------------------------------------------------

  /** The mount point and one slash behind it come off; other paths stay as they are. */
  lemma StripIs(mountPoint: string, rest: string)
    ensures Strip(mountPoint, mountPoint + "/" + rest) == rest
    ensures Strip(mountPoint, mountPoint) == ""
    ensures !(mountPoint <= rest) ==> Strip(mountPoint, rest) == rest
    ensures rest != "" && rest[0] != '/' ==> Strip(mountPoint, mountPoint + rest) == rest
  {
    assert mountPoint + "/" + rest == mountPoint + ("/" + rest);
    assert (mountPoint + ("/" + rest))[|mountPoint|..] == "/" + rest && ("/" + rest)[1..] == rest;
    assert (mountPoint + rest)[|mountPoint|..] == rest;
  }

  /** Entry `at` is the first of that name. */
  ghost predicate First(names: seq<string>, name: string, at: int) {
    0 <= at < |names| && names[at] == name && forall k :: 0 <= k < at ==> names[k] != name
  }

  lemma {:induction false} IndexIsFirst(names: seq<string>, name: string)
    requires name in names
    ensures First(names, name, IndexOf(names, name))
  {
    if names[0] != name {
      IndexIsFirst(names[1..], name);
      var at := IndexOf(names[1..], name);
      assert IndexOf(names, name) == at + 1;
      forall k | 0 <= k < at + 1 ensures names[k] != name {
        assert k > 0 ==> names[k] == names[1..][k - 1];
      }
    }
  }

  /** The text ends in a slash. */
  predicate Slashed(text: string) {
    text != "" && text[|text| - 1] == '/'
  }

  /** The entry of exactly that name comes first, then that of the directory; a leading slash does not matter. */
  lemma LocateIs(names: seq<string>, p: string)
    requires p == "" || p[0] != '/'
    ensures Locate(names, "/" + p) == Locate(names, p)
    ensures p in names ==> First(names, p, Locate(names, p))
    ensures p !in names && p != "" && !Slashed(p) && p + "/" in names ==> First(names, p + "/", Locate(names, p))
    ensures p !in names && (p == "" || Slashed(p) || p + "/" !in names) ==> Locate(names, p) == -1
  {
    assert ("/" + p)[1..] == p;
    if p in names {
      IndexIsFirst(names, p);
    } else if p + "/" in names {
      IndexIsFirst(names, p + "/");
    }
  }

  /** A file is opened exactly if there is an entry of that name that is no directory: the first one. */
  lemma OpenIff(names: seq<string>, mountPoint: string, p: string)
    requires p == "" || p[0] != '/'
    ensures var path := mountPoint + "/" + p;
      && (Openable(names, mountPoint, path) <==> p in names && !Slashed(p))
      && (Openable(names, mountPoint, path) ==> First(names, p, Locate(names, Strip(mountPoint, path))))
  {
    StripIs(mountPoint, p);
    LocateIs(names, p);
    assert Slashed(p + "/");
  }

  /** A directory is listed exactly if it has an entry of its own; the root needs none. */
  lemma ListIff(names: seq<string>, mountPoint: string, p: string)
    requires p == "" || (p[0] != '/' && !Slashed(p))
    ensures Listable(names, mountPoint, mountPoint + "/" + p) <==> p == "" || p + "/" in names
    ensures Listable(names, mountPoint, mountPoint)
    ensures EntriesAt(names, mountPoint, mountPoint + "/" + p) == Listing(names, if p == "" then "" else p + "/")
    ensures EntriesAt(names, mountPoint, mountPoint) == Listing(names, "")
  {
    hide Listing, Locate;
    StripIs(mountPoint, p);
    if p != "" {
      assert WithTrailing(p) == p + "/" && (p + "/")[0] == p[0];
      LocateIs(names, p + "/");
      assert Slashed(p + "/");
    }
  }

  // ---- what a directory lists -------------------------------------------------------------

  /** The name is the directory's, one segment, and a slash if that is a directory itself. */
  ghost predicate Gives(full: string, dir: string, e: DirEntry) {
    && '/' !in e.name
    && full == dir + e.name + (if e.isDirectory then "/" else "")
    && (dir != "" ==> full != dir)
  }

  /** Entry i gives e, and none before it gives that name. */
  ghost predicate GivenFirst(names: seq<string>, dir: string, e: DirEntry, i: int) {
    && 0 <= i < |names| && Gives(names[i], dir, e)
    && forall j, f :: 0 <= j < i && Gives(names[j], dir, f) ==> f.name != e.name
  }

  lemma GivesIff(full: string, dir: string, e: DirEntry)
    ensures ChildOf(full, dir) == Child(e) <==> Gives(full, dir, e)
  {
    ChildIs(full, dir, e);
  }

  /** In any archive: of the entries that give one name the first is listed, and nothing else. */
  lemma {:induction false} ListedIff(names: seq<string>, dir: string, e: DirEntry)
    ensures e in Listing(names, dir) <==> exists i :: GivenFirst(names, dir, e, i)
    decreases |names|
  {
    hide ChildOf, Gives;
    if names != [] {
      var n := |names| - 1;
      var front, before := names[..n], Listing(names[..n], dir);
      ListedIff(front, dir, e);
      LastGives(names, dir, e);
      assert forall i :: 0 <= i < n ==> names[i] == front[i];
      assert forall i :: 0 <= i < n ==> (GivenFirst(front, dir, e, i) <==> GivenFirst(names, dir, e, i));
    }
  }

  /** What the last entry adds to a listing. */
  lemma LastGives(names: seq<string>, dir: string, e: DirEntry)
    requires names != []
    ensures var n := |names| - 1;
      e in Listing(names, dir) <==> e in Listing(names[..n], dir) || GivenFirst(names, dir, e, n)
  {
    hide ChildOf, Gives;
    var n := |names| - 1;
    var front, before := names[..n], Listing(names[..n], dir);
    ListingNames(front, dir);
    GivesIff(names[n], dir, e);
    forall j, f | 0 <= j < n && Gives(names[j], dir, f) ensures HasName(before, f.name) {
      GivesIff(front[j], dir, f);
    }
    if k :| 0 <= k < |before| && before[k].name == e.name {
      assert before[k] in before;
      var j :| 0 <= j < |front| && ChildOf(front[j], dir) == Child(before[k]);
      GivesIff(names[j], dir, before[k]);
    }
  }
}
