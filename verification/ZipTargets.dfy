/**
 * Where on the host an extraction writes: the target paths of extract_all
 * (src/c_api/fs_context.cpp) read as paths, with the path algebra of
 * src/core/path.cpp.
 */
module ZipTargets {
  import opened Paths
  import opened ZipNames

  // ---------------------------------------------------------------------
  // Where a name leads
  // ---------------------------------------------------------------------

  /** A name resolved by itself: how many levels it climbs, then the names it goes down. */
  function Route(name: string): seq<string> {
    Resolve([], Components(name), false)
  }

  /** Where a route ends when it starts in a normalised directory. */
  function Landing(from: seq<string>, route: seq<string>, absolute: bool): seq<string> {
    var climb, room := Climb(route), |from| - Climb(from);
    if climb <= room then from[..|from| - climb] + route[climb..]
    else if absolute then route[climb..]
    else from[..|from| - room] + route[room..]
  }

  lemma RouteIsCanonical(name: string)
    ensures Canonical(Route(name), false)
  {
    hide Scan, Resolve;
    ScanIsPlain("", name);
    ResolveIsCanonical([], Components(name), false);
  }

  lemma NamesAfterUps(components: seq<string>)
    requires Canonical(components, false)
    ensures Canonical(components[Climb(components)..], true)
    ensures components == components[..Climb(components)] + components[Climb(components)..]
  {
    DropFromCanonical(components);
  }

  lemma AbsoluteNeverClimbs(components: seq<string>)
    requires Canonical(components, true)
    ensures Climb(components) == 0
  {
  }

  /** Resolving a route over a directory is landing there. */
  lemma ResolveIsLanding(from: seq<string>, route: seq<string>, absolute: bool)
    requires Canonical(from, absolute) && Canonical(route, false)
    ensures Resolve(from, route, absolute) == Landing(from, route, absolute)
  {
    hide Resolve, Canonical, Climb, Landing;
    var low := Climb(from);
    var a, b := from[..low], from[low..];
    assert from == a + b;
    LowHalf(from, absolute);
    LandingInParts(a, b, route, absolute);
    if Climb(route) <= |b| {
      ClimbWithin(a, b, route, absolute);
    } else {
      ClimbBeyond(a, b, route, absolute);
    }
  }

  /** Landing, with the directory taken apart into what it climbs and its names. */
  lemma LandingInParts(a: seq<string>, b: seq<string>, route: seq<string>, absolute: bool)
    requires Climb(a + b) == |a| && (absolute ==> a == [])
    ensures var climb := Climb(route);
      Landing(a + b, route, absolute) ==
      if climb <= |b| then a + (b[..|b| - climb] + route[climb..])
      else if absolute then route[climb..]
      else a + route[|b|..]
  {
    hide Climb;
    var climb := Climb(route);
    if climb <= |b| {
      assert (a + b)[..|a + b| - climb] == a + b[..|b| - climb];
      Regrouped(a, b[..|b| - climb], route[climb..]);
    } else {
      assert (a + b)[..|a|] == a;
    }
  }

  lemma LowHalf(from: seq<string>, absolute: bool)
    requires Canonical(from, absolute)
    ensures var low := Climb(from);
      && Canonical(from[..low], absolute) && Canonical(from[low..], true) && (absolute ==> low == 0)
      && forall i :: 0 <= i < low ==> from[i] == ".."
  {
    if absolute {
      AbsoluteNeverClimbs(from);
      assert from[0..] == from;
    } else {
      DropFromCanonical(from);
    }
  }

  lemma ClimbBeyond(a: seq<string>, b: seq<string>, route: seq<string>, absolute: bool)
    requires Canonical(a, absolute) && Canonical(b, true) && Canonical(route, false) && Climb(route) > |b|
    requires (forall i :: 0 <= i < |a| ==> a[i] == "..") && (absolute ==> a == [])
    ensures Resolve(a + b, route, absolute) == if absolute then route[Climb(route)..] else a + route[|b|..]
  {
    hide Resolve, Canonical;
    var ups, rest := route[..|b|], route[|b|..];
    assert route == ups + rest;
    SuffixIsCanonical(route, |b|, false);
    ClimbOfRest(route, |b|);
    FrontOfNames(b, 0);
    ResolveInTwo(a + b, ups, rest, absolute);
    ClimbInside(a, b, ups, absolute);
    assert a + b[..0] == a;
    if absolute {
      ClimbFromRoot(rest);
    } else {
      UpsAreCanonical(a, rest);
      ResolveOfCanonical(a, rest, false);
    }
  }

  lemma UpsAreCanonical(a: seq<string>, rest: seq<string>)
    requires Canonical(a, false) && Canonical(rest, false) && forall i :: 0 <= i < |a| ==> a[i] == ".."
    ensures Canonical(a + rest, false)
  {
  }

  lemma NoComponents()
    ensures Components("") == []
  {
  }

  lemma TargetText(dest: string, name: string)
    requires dest != ""
    ensures Components(PathOf(dest, name)) == Components(dest) + Components(name)
    ensures IsAbsolute(PathOf(dest, name)) == IsAbsolute(dest)
  {
    hide Scan;
    NoComponents();
    if IsDirectoryName(name) {
      var bare := name[..|name| - 1];
      ComponentsOfJoin(dest, bare);
      assert name == bare + "/" + "";
      ComponentsOfJoin(bare, "");
    } else if name != "" {
      ComponentsOfJoin(dest, name);
    }
  }

  /** Every name, every destination: where on the host the entry is written. */
  lemma TargetIs(dest: string, name: string)
    requires dest != ""
    ensures Components(Normal(PathOf(dest, name))) == Landing(Components(Normal(dest)), Route(name), IsAbsolute(dest))
    ensures IsAbsolute(Normal(PathOf(dest, name))) == IsAbsolute(dest)
  {
    hide Scan, Resolve, Normal, PathOf, Landing, Components;
    var absolute, x := IsAbsolute(dest), Components(Normal(dest));
    TargetText(dest, name);
    NormalForm(PathOf(dest, name));
    NormalForm(dest);
    PlainComponents(name);
    ResolveInTwo([], Components(dest), Components(name), absolute);
    ResolveOfResolved(x, Components(name), absolute);
    RouteIsCanonical(name);
    ResolveIsLanding(x, Route(name), absolute);
  }

  lemma PlainComponents(name: string)
    ensures AllPlain(Components(name))
  {
    ScanIsPlain("", name);
  }

  // ---------------------------------------------------------------------
  // Inside the destination
  // ---------------------------------------------------------------------

  /** A place below another: its components go on, and not upwards. */
  ghost predicate IsBelow(place: seq<string>, from: seq<string>) {
    from < place && place[|from|] != ".."
  }

  ghost predicate Inside(dest: string, name: string) {
    IsBelow(Components(Normal(PathOf(dest, name))), Components(Normal(dest)))
  }

  /** What a name climbs out of it must come down into again, and further. */
  ghost predicate ComesBack(from: seq<string>, route: seq<string>, absolute: bool) {
    var climb, room := Climb(route), |from| - Climb(from);
    if climb <= room then from[|from| - climb..] < route[climb..]
    else absolute && from < route[climb..]
  }

  /** An entry is written inside the destination exactly if its name comes back into it. */
  lemma InsideIff(dest: string, name: string)
    requires dest != ""
    ensures Inside(dest, name) <==> ComesBack(Components(Normal(dest)), Route(name), IsAbsolute(dest))
  {
    hide Components, Normal, Route, PathOf, Landing, ComesBack, IsBelow;
    TargetIs(dest, name);
    RouteIsCanonical(name);
    NormalForm(dest);
    BelowIffComesBack(Components(Normal(dest)), Route(name), IsAbsolute(dest));
  }

  lemma BelowIffComesBack(from: seq<string>, route: seq<string>, absolute: bool)
    requires Canonical(from, absolute) && Canonical(route, false)
    ensures IsBelow(Landing(from, route, absolute), from) <==> ComesBack(from, route, absolute)
  {
    var climb, room := Climb(route), |from| - Climb(from);
    NamesAfterUps(route);
    if climb <= room {
      assert from == from[..|from| - climb] + from[|from| - climb..];
      hide Climb, Canonical;
      PrefixOfBoth(from[..|from| - climb], from[|from| - climb..], route[climb..]);
    } else if !absolute {
      hide Canonical;
      var ups := from[..|from| - room];
      assert (ups + route[room..])[|ups|] == "..";
    }
  }

  lemma PrefixOfBoth(kept: seq<string>, lost: seq<string>, down: seq<string>)
    ensures kept + lost < kept + down <==> lost < down
  {
    assert (kept + lost)[|kept|..] == lost && (kept + down)[|kept|..] == down;
    if kept + lost < kept + down {
      assert (kept + down)[..|kept + lost|][|kept|..] == down[..|lost|];
    }
  }

  lemma PlaceOf(cs: seq<string>) returns (dest: string)
    requires Canonical(cs, true)
    ensures IsAbsolute(dest) && Components(Normal(dest)) == cs
  {
    dest := Render(true, cs);
    RenderIsNormal(true, cs);
  }

  /** Names that stay inside every destination are those that never climb and lead somewhere. */
  lemma InsideEverywhere(name: string)
    ensures (forall dest :: IsAbsolute(dest) ==> Inside(dest, name)) <==> Route(name) != [] && Climb(Route(name)) == 0
    ensures (forall dest :: dest != "" ==> Inside(dest, name)) <==> Route(name) != [] && Climb(Route(name)) == 0
  {
    hide Components, Normal, Route, Inside, ComesBack, IsAbsolute;
    if Route(name) != [] && Climb(Route(name)) == 0 {
      forall dest | dest != "" ensures Inside(dest, name) {
        InsideIff(dest, name);
        AlwaysComesBack(Components(Normal(dest)), Route(name), IsAbsolute(dest));
      }
      AbsoluteIsText();
    } else {
      var u := PlaceOf(["u"]);
      var v := PlaceOf(["v"]);
      InsideIff(u, name);
      InsideIff(v, name);
      NotBothWays(Route(name));
      AbsoluteIsText();
    }
  }

  lemma AbsoluteIsText()
    ensures forall dest :: IsAbsolute(dest) ==> dest != ""
  {
  }

  lemma AlwaysComesBack(from: seq<string>, route: seq<string>, absolute: bool)
    requires route != [] && Climb(route) == 0
    ensures ComesBack(from, route, absolute)
  {
    assert from[|from| - 0..] == [] && route[0..] == route;
  }

  /** A route that climbs, or leads nowhere, comes back into at most one of two directories. */
  lemma NotBothWays(route: seq<string>)
    requires route == [] || Climb(route) > 0
    ensures !ComesBack(["u"], route, true) || !ComesBack(["v"], route, true)
  {
    var down := route[Climb(route)..];
    assert Climb(["u"]) == 0 && Climb(["v"]) == 0;
    assert ["u"][0..] == ["u"] && ["v"][0..] == ["v"];
    if ["u"] < down {
      assert down[0] == "u";
    }
  }

  // ---------------------------------------------------------------------
  // Two entries, one host file
  // ---------------------------------------------------------------------

  ghost predicate SameTarget(dest: string, a: string, b: string) {
    Normal(PathOf(dest, a)) == Normal(PathOf(dest, b))
  }

  lemma SameTargetIff(dest: string, a: string, b: string)
    requires dest != ""
    ensures SameTarget(dest, a, b) <==>
      var x, absolute := Components(Normal(dest)), IsAbsolute(dest);
      Landing(x, Route(a), absolute) == Landing(x, Route(b), absolute)
  {
    hide Components, Normal, Route, PathOf, Landing, IsAbsolute;
    TargetIs(dest, a);
    TargetIs(dest, b);
    NormalForm(PathOf(dest, a));
    NormalForm(PathOf(dest, b));
    EqualByComponents(Normal(PathOf(dest, a)), Normal(PathOf(dest, b)));
  }

  /** Names that do not climb share a target exactly if they lead the same way, whatever the destination. */
  lemma SameTargetBelow(dest: string, a: string, b: string)
    requires dest != "" && Climb(Route(a)) == 0 && Climb(Route(b)) == 0
    ensures SameTarget(dest, a, b) <==> Route(a) == Route(b)
  {
    hide Components, Normal, Route, IsAbsolute;
    SameTargetIff(dest, a, b);
    var x := Components(Normal(dest));
    assert x[..|x| - 0] == x && Route(a)[0..] == Route(a) && Route(b)[0..] == Route(b);
    assert (x + Route(a))[|x|..] == Route(a) && (x + Route(b))[|x|..] == Route(b);
  }

  /** Any two names share their target under every destination exactly if they lead the same way. */
  lemma SameTargetEverywhere(a: string, b: string)
    ensures (forall dest :: IsAbsolute(dest) ==> SameTarget(dest, a, b)) <==> Route(a) == Route(b)
  {
    hide Components, Normal, Route, SameTarget, Landing, IsAbsolute, Climb;
    AbsoluteIsText();
    if Route(a) == Route(b) {
      forall dest | IsAbsolute(dest) ensures SameTarget(dest, a, b) {
        SameTargetIff(dest, a, b);
      }
    } else {
      RouteIsCanonical(a);
      RouteIsCanonical(b);
      var n := if Climb(Route(a)) > Climb(Route(b)) then Climb(Route(a)) else Climb(Route(b));
      var us, vs := seq(n, _ => "u"), seq(n, _ => "v");
      var u := PlaceOf(us);
      var v := PlaceOf(vs);
      SameTargetIff(u, a, b);
      SameTargetIff(v, a, b);
      LandsApart(us, vs, Route(a), Route(b), n);
    }
  }

  /** Different routes end in different places from one of two deep enough directories. */
  lemma LandsApart(us: seq<string>, vs: seq<string>, a: seq<string>, b: seq<string>, n: nat)
    requires us == seq(n, _ => "u") && vs == seq(n, _ => "v")
    requires Canonical(a, false) && Canonical(b, false) && a != b && Climb(a) <= n && Climb(b) <= n
    ensures Landing(us, a, true) != Landing(us, b, true) || Landing(vs, a, true) != Landing(vs, b, true)
  {
    hide Climb, Landing, Canonical;
    LandsAt(us, a);
    LandsAt(vs, a);
    LandsAt(us, b);
    LandsAt(vs, b);
    var i, j, da, db := n - Climb(a), n - Climb(b), a[Climb(a)..], b[Climb(b)..];
    if i < j {
      DepthsApart(us, vs, i, j, da, db);
    } else if j < i {
      DepthsApart(us, vs, j, i, db, da);
    } else {
      TailsDiffer(a, b);
      OneFront(us[..i], da, db);
    }
  }

  lemma LandsAt(from: seq<string>, route: seq<string>)
    requires (forall i :: 0 <= i < |from| ==> from[i] != "..") && Climb(route) <= |from|
    ensures Landing(from, route, true) == from[..|from| - Climb(route)] + route[Climb(route)..]
  {
    NoUps(from);
  }

  lemma DepthsApart(us: seq<string>, vs: seq<string>, i: nat, j: nat, da: seq<string>, db: seq<string>)
    requires i < j <= |us| == |vs| && us[i] != vs[i]
    ensures us[..i] + da != us[..j] + db || vs[..i] + da != vs[..j] + db
  {
    assert (us[..j] + db)[i] == us[i] && (vs[..j] + db)[i] == vs[i];
    if da != [] {
      assert (us[..i] + da)[i] == da[0] && (vs[..i] + da)[i] == da[0];
    } else {
      assert |us[..i] + da| == i;
    }
  }

  lemma TailsDiffer(a: seq<string>, b: seq<string>)
    requires Climb(a) == Climb(b) && a != b
    ensures a[Climb(a)..] != b[Climb(b)..]
  {
    hide Climb;
    assert a[..Climb(a)] == b[..Climb(b)];
    assert a == a[..Climb(a)] + a[Climb(a)..] && b == b[..Climb(b)] + b[Climb(b)..];
  }

  lemma OneFront(front: seq<string>, da: seq<string>, db: seq<string>)
    requires da != db
    ensures front + da != front + db
  {
    assert (front + da)[|front|..] == da && (front + db)[|front|..] == db;
  }

  lemma NoUps(components: seq<string>)
    requires forall i :: 0 <= i < |components| ==> components[i] != ".."
    ensures Climb(components) == 0
  {
  }

  // ---------------------------------------------------------------------
  // Well-formed archives
  // ---------------------------------------------------------------------

  lemma ProperRoute(name: string)
    requires Proper(name)
    ensures Route(name) == Components(Bare(name)) != [] && Climb(Route(name)) == 0
    ensures Joined(Route(name)) == Bare(name)
  {
    hide Scan, Joined, Resolve;
    var bare := Bare(name);
    ScanIsPlain("", bare);
    NoUps(Components(bare));
    assert [] + Components(bare) == Components(bare);
    ResolveOfCanonical([], Components(bare), false);
    BareComponents(name);
  }

  lemma BareComponents(name: string)
    ensures Components(Bare(name)) == Components(name)
  {
    hide Scan;
    if IsDirectoryName(name) {
      NoComponents();
      assert name == Bare(name) + "/" + "";
      ComponentsOfJoin(Bare(name), "");
      assert Components(Bare(name)) + [] == Components(Bare(name));
    }
  }

  /** No entry of a well-formed archive is written outside the destination. */
  lemma TargetsStayInside(names: seq<string>, dest: string, name: string)
    requires WellFormed(names) && name in names && dest != ""
    ensures Inside(dest, name)
    ensures Components(Normal(dest)) < Components(Normal(PathOf(dest, name)))
  {
    hide Normal, Components, Proper, PathOf, Route;
    ProperRoute(name);
    InsideEverywhere(name);
  }

  /** Different entries of a well-formed archive have different places on the host. */
  lemma TargetsAreApart(names: seq<string>, dest: string, a: string, b: string)
    requires WellFormed(names) && a in names && b in names && dest != ""
    requires Normal(PathOf(dest, a)) == Normal(PathOf(dest, b))
    ensures a == b
  {
    hide Normal, Components, Proper, Joined, PathOf, Route;
    ProperRoute(a);
    ProperRoute(b);
    SameTargetBelow(dest, a, b);
    SameBare(names, a, b);
  }

  lemma SameBare(names: seq<string>, a: string, b: string)
    requires WellFormed(names) && a in names && b in names && Bare(a) == Bare(b)
    ensures a == b
  {
    hide Proper;
    ProperName(a);
    ProperName(b);
    assert IsDirectoryName(a) ==> a == Bare(a) + "/";
    assert IsDirectoryName(b) ==> b == Bare(b) + "/";
  }

  // ---------------------------------------------------------------------
  // Names that fail
  // ---------------------------------------------------------------------

  lemma DotComponents()
    ensures Components("d") == ["d"]
    ensures Components("d/x") == ["d"] + ["x"]
    ensures Components("d/../x") == ["d"] + ([".."] + ["x"])
    ensures Components("d/a/../x") == ["d"] + (["a"] + ([".."] + ["x"]))
  {
    hide Scan, Normal;
    OneComponent("d");
    OneComponent("x");
    OneComponent("a");
    OneComponent("..");
    ComponentsOfJoin("d", "x");
    ComponentsOfJoin("..", "x");
    ComponentsOfJoin("d", "../x");
    ComponentsOfJoin("a", "../x");
    ComponentsOfJoin("d", "a/../x");
    assert ".." + "/" + "x" == "../x" && "a" + "/" + "../x" == "a/../x";
    assert "d" + "/" + "../x" == "d/../x" && "d" + "/" + "x" == "d/x" && "d" + "/" + "a/../x" == "d/a/../x";
  }

  lemma DotPaths()
    ensures PathOf("d", "../x") == "d/../x" && PathOf("d", "x") == "d/x" && PathOf("d", "a/../x") == "d/a/../x"
  {
  }

  /** Under "d", the name "../x" leads out, and "a/../x" stays inside but is the file of "x". */
  lemma DotsEscape()
    ensures Normal(PathOf("d", "../x")) == "x" && Components(Normal("d")) == ["d"] && !Inside("d", "../x")
    ensures Normal(PathOf("d", "x")) == Normal(PathOf("d", "a/../x")) == "d/x" && SameTarget("d", "x", "a/../x")
    ensures Inside("d", "a/../x")
  {
    hide Components, Joined, Resolve, PathOf;
    DotPaths();
    DotComponents();
    ResolveDots();
    OneComponent("d");
    OneComponent("x");
    ComponentsOfJoin("d", "x");
    assert "d" + "/" + "x" == "d/x" && ["d"] + ["x"] == ["d", "x"] && ["d"] < ["d", "x"];
    TwoJoined();
    RenderOne("x");
  }

  lemma ResolveDots()
    ensures Resolve([], ["d"] + (["x"]), false) == ["d", "x"]
    ensures Resolve([], ["d"] + ([".."] + ["x"]), false) == ["x"]
    ensures Resolve([], ["d"] + (["a"] + ([".."] + ["x"])), false) == ["d", "x"]
  {
    hide Resolve;
    ResolveInTwo([], ["d"], ["x"], false);
    ResolveInTwo([], ["d"], [".."] + ["x"], false);
    ResolveInTwo(["d"], [".."], ["x"], false);
    ResolveInTwo([], ["d"], ["a"] + ([".."] + ["x"]), false);
    ResolveInTwo(["d"], ["a"], [".."] + ["x"], false);
    ResolveInTwo(["d", "a"], [".."], ["x"], false);
    ResolveOne([], "d", false);
    ResolveOne(["d"], "x", false);
    ResolveOne(["d"], "..", false);
    ResolveOne([], "x", false);
    ResolveOne(["d"], "a", false);
    ResolveOne(["d", "a"], "..", false);
    assert [] + ["d"] == ["d"] && ["d"] + ["x"] == ["d", "x"] && ["d"] + ["a"] == ["d", "a"] && [] + ["x"] == ["x"];
    assert ["d"][..0] == [] && ["d", "a"][..1] == ["d"];
  }

  lemma TwoJoined()
    ensures Joined(["d", "x"]) == "d/x"
  {
    assert ["d", "x"][..1] == ["d"];
  }
}
