/**
 * What the path routines of src/core/path.cpp make of a text, said of the text: what a
 * normalisation may drop from it, what it leaves alone, and where parents, names and
 * mount points end.
 */
module PathLaws {
  import opened Paths
  import MountTable

  // ---- what normalisation drops ---------------------------------------------------

  lemma SameNormal(a: string, b: string)
    requires IsAbsolute(a) == IsAbsolute(b) && Components(a) == Components(b)
    ensures Normal(a) == Normal(b)
  {
  }

  /** Doubled slashes and "." segments count for nothing, wherever they stand. */
  lemma DropsNothing(a: string, b: string)
    ensures Normal(a + "//" + b) == Normal(a + "/" + b)
    ensures Normal(a + "/./" + b) == Normal(a + "/" + b)
    ensures !IsAbsolute(b) ==> Normal("./" + b) == Normal(b)
    ensures a != "" ==> Normal(a + "/") == Normal(a) && Normal(a + "/.") == Normal(a)
  {
    hide Scan, Normal;
    CollapseKeepsComponents(a, b);
    SameNormal(a + "//" + b, a + "/" + b);
    DotKeepsComponents(a, b);
    SameNormal(a + "/./" + b, a + "/" + b);
    assert ("./" + b)[2..] == b;
    LeadingDot("./" + b);
    if !IsAbsolute(b) {
      SameNormal("./" + b, b);
    }
    if a != "" {
      ComponentsOfJoin(a, "");
      ComponentsOfPlain("");
      assert a + "/" + "" == a + "/" && Components(a) + [] == Components(a);
      SameNormal(a + "/", a);
      assert (a + "/.")[..|a|] == a && (a + "/.")[|a|..] == "/.";
      TrailingDot(a + "/.");
      SameNormal(a + "/.", a);
    }
  }

  /** A name may stand in a path as one of its segments. */
  predicate Name(x: string) {
    x != "" && x != "." && x != ".." && '/' !in x
  }

  /** ".." takes the segment before it away, and nothing at the root. */
  lemma ParentDropsName(a: string, x: string, b: string)
    requires Name(x)
    ensures Normal(a + "/" + x + "/../" + b) == Normal(a + "/" + b)
    ensures a != "" ==> Normal(a + "/" + x + "/..") == Normal(a)
    ensures Normal("/../" + b) == Normal("/" + b)
    ensures !IsAbsolute(b) ==> Normal(x + "/../" + b) == Normal(b)
  {
    hide Scan, Render;
    ComponentsOfPlain(x);
    ComponentsOfPlain("..");
    var up := x + "/../" + b;
    assert up == x + "/" + (".." + "/" + b);
    ComponentsOfJoin(x, ".." + "/" + b);
    ComponentsOfJoin("..", b);
    assert Components(up) == [x, ".."] + Components(b);
    assert a + "/" + x + "/../" + b == a + "/" + up;
    ComponentsOfJoin(a, up);
    ComponentsOfJoin(a, b);
    var absolute := IsAbsolute(a + "/" + b);
    UpAndDown(Components(a), x, Components(b), absolute);
    assert Components(a) + ([x, ".."] + Components(b)) == Components(a) + [x, ".."] + Components(b);
    UpAndDown([], x, Components(b), false);
    assert [] + [x, ".."] + Components(b) == [x, ".."] + Components(b) && [] + Components(b) == Components(b);
    if a != "" {
      UpFromName(a, x);
    }
    UpFromRoot(b);
  }

  lemma UpAndDown(before: seq<string>, x: string, after: seq<string>, absolute: bool)
    requires Name(x)
    ensures Resolve([], before + [x, ".."] + after, absolute) == Resolve([], before + after, absolute)
  {
    ResolveInTwo([], before, after, absolute);
    ResolveInTwo([], before + [x, ".."], after, absolute);
    ResolveInTwo([], before, [x, ".."], absolute);
    var stack := Resolve([], before, absolute);
    assert [x, ".."] == [x] + [".."];
    ResolveInTwo(stack, [x], [".."], absolute);
    ResolveOne(stack, x, absolute);
    ResolveOne(stack + [x], "..", absolute);
    assert (stack + [x])[..|stack|] == stack;
  }

  lemma UpFromName(a: string, x: string)
    requires a != "" && Name(x)
    ensures Normal(a + "/" + x + "/..") == Normal(a)
  {
    hide Scan, Render;
    ComponentsOfPlain(x);
    ComponentsOfPlain("..");
    assert a + "/" + x + "/.." == (a + "/" + x) + "/" + "..";
    ComponentsOfJoin(a + "/" + x, "..");
    ComponentsOfJoin(a, x);
    UpAndDown(Components(a), x, [], IsAbsolute(a));
    assert Components(a) + [x] + [".."] == Components(a) + [x, ".."] + [] && Components(a) + [] == Components(a);
  }

  lemma UpFromRoot(b: string)
    ensures Normal("/../" + b) == Normal("/" + b)
  {
    hide Scan, Render;
    ComponentsOfPlain("..");
    assert "/../" + b == "/" + (".." + "/" + b);
    LeadingSlash(".." + "/" + b);
    LeadingSlash(b);
    ComponentsOfJoin("..", b);
    ResolveInTwo([], [".."], Components(b), true);
    ResolveOne([], "..", true);
  }

  // ---- what normalisation leaves alone ------------------------------------------------

  /** The names with slashes between them. */
  function Slashed(names: seq<string>): string {
    if names == [] then "" else if |names| == 1 then names[0] else names[0] + "/" + Slashed(names[1..])
  }

  lemma {:induction false} SlashedIsJoined(names: seq<string>)
    ensures Slashed(names) == Joined(names)
    decreases |names|
  {
    if |names| > 1 {
      SlashedIsJoined(names[1..]);
      assert names == [names[0]] + names[1..];
      JoinedOfConcat([names[0]], names[1..]);
    }
  }

  /** The normal paths: names with single slashes between them, behind a slash or behind as many ".." as there are. */
  ghost predicate Reduced(text: string) {
    || (exists names :: AllNames(names) && text == "/" + Slashed(names))
    || (exists ups, names :: AllNames(names) && (forall i :: 0 <= i < |ups| ==> ups[i] == "..") && text == Slashed(ups + names))
  }

  ghost predicate AllNames(names: seq<string>) {
    forall i :: 0 <= i < |names| ==> Name(names[i])
  }

  lemma NormalIsReduced(text: string)
    requires IsNormal(text)
    ensures Reduced(text)
  {
    hide Scan, Resolve, Joined, Slashed, Normal;
    NormalIsRendered(text);
    var cs := Components(text);
    SlashedIsJoined(cs);
    if IsAbsolute(text) {
      assert AllNames(cs);
    } else {
      var n := Climb(cs);
      assert cs == cs[..n] + cs[n..];
      assert "" + Joined(cs) == Joined(cs);
      NamesAfterClimb(cs, n);
    }
  }

  lemma NamesAfterClimb(cs: seq<string>, n: nat)
    requires Canonical(cs, false) && n == Climb(cs)
    ensures AllNames(cs[n..])
  {
    assert forall i :: n <= i < |cs| && cs[i] == ".." ==> cs[n] == "..";
  }

  lemma AbsoluteIsNormal(names: seq<string>)
    requires AllNames(names)
    ensures IsNormal("/" + Slashed(names))
  {
    hide Normal, Joined, Slashed;
    SlashedIsJoined(names);
    RenderIsNormal(true, names);
  }

  lemma RelativeIsNormal(ups: seq<string>, names: seq<string>)
    requires AllNames(names) && forall i :: 0 <= i < |ups| ==> ups[i] == ".."
    ensures IsNormal(Slashed(ups + names))
  {
    hide Normal, Joined, Slashed;
    SlashedIsJoined(ups + names);
    assert "" + Joined(ups + names) == Joined(ups + names);
    RenderIsNormal(false, ups + names);
  }

  /** Exactly those paths are left as they are. */
  lemma NormalIff(text: string)
    ensures Normal(text) == text <==> Reduced(text)
  {
    hide Normal, Slashed, AllNames;
    if IsNormal(text) {
      NormalIsReduced(text);
    }
    if names :| AllNames(names) && text == "/" + Slashed(names) {
      AbsoluteIsNormal(names);
    }
    if ups, names :| AllNames(names) && (forall i :: 0 <= i < |ups| ==> ups[i] == "..") && text == Slashed(ups + names) {
      RelativeIsNormal(ups, names);
    }
  }

  // ---- parents, names, joins ----------------------------------------------------------------

  /** join puts a slash between its two texts and normalises; a second path that starts at the root is no exception. */
  lemma JoinIs(base: string, other: string)
    ensures Join(base, "") == base && Join("", other) == other
    ensures base != "" && other != "" ==> Join(base, other) == Normal(base + "/" + other)
  {
    hide Normal;
    if base != "" && other != "" && IsAbsolute(other) {
      DropsNothing(base, other[1..]);
      assert base + "/" + other == base + "//" + other[1..];
    }
  }

  /** The filename is what follows the last slash, the parent the normalised text before it. */
  lemma LastSlash(head: string, last: string)
    requires last != "" && '/' !in last
    ensures Filename(head + "/" + last) == last
    ensures Parent(head + "/" + last) == if head == "" then "/" else Normal(head)
    ensures Filename(last) == last && Parent(last) == ""
  {
    hide Filename, Parent;
    AtSlash(head + "/" + last, head, last);
    NoSlash(last);
    assert Normal("/") == "/" by {
      assert Slashed([]) == "" && AllNames([]) && "/" == "/" + Slashed([]);
      NormalIff("/");
    }
  }

  /** relative_to takes the base and a slash off the front of a normal path, whatever is behind it. */
  lemma RelativeIs(base: string, rest: string)
    requires base != "" && base[|base| - 1] != '/' && rest != ""
    ensures RelativeTo(base + "/" + rest, base) == Normal(rest)
    ensures RelativeTo("/" + rest, "/") == Normal(rest)
    ensures RelativeTo(base, base) == ""
  {
    hide Normal;
    TakenOff(base + "/" + rest, base, rest);
    TakenOff("/" + rest, "/", rest);
  }

  /** A mount point holds itself and what continues it behind a slash; the root holds every absolute path. */
  lemma InMountIs(path: string, mount: string)
    ensures mount != "" && mount[|mount| - 1] != '/' ==>
      (MountTable.PathIsInMount(path, mount) <==> path == mount || mount + "/" <= path)
    ensures mount != "" && mount[|mount| - 1] == '/' ==> (MountTable.PathIsInMount(path, mount) <==> mount <= path)
    ensures !MountTable.PathIsInMount(path, "")
  {
  }
}
