/**
 * Lexical paths (src/core/path.cpp).
 *
 * Path::normalize rewrites its text four times in place and then splits it.
 * The reference is a single fold over the components of the text: empty and
 * "." components vanish, ".." removes the component before it. Every
 * rewriting pass keeps the components, so the method computes the fold; what
 * the path operations promise is then proved on components.
 */
module Paths {

  // ---------------------------------------------------------------------
  // The reference: components and their resolution
  // ---------------------------------------------------------------------

  predicate IsAbsolute(text: string) {
    text != "" && text[0] == '/'
  }

  function Keep(segment: string): seq<string> {
    if segment == "" || segment == "." then [] else [segment]
  }

  // The components still to come: `segment` has been read, `rest` has not.
  function Scan(segment: string, rest: string): seq<string>
    decreases |rest|
  {
    if rest == "" then Keep(segment)
    else if rest[0] == '/' then Keep(segment) + Scan("", rest[1..])
    else Scan(segment + [rest[0]], rest[1..])
  }

  function Components(text: string): seq<string> {
    Scan("", text)
  }

  function Pushed(stack: seq<string>, component: string, absolute: bool): seq<string> {
    if component != ".." then stack + [component]
    else if stack != [] && stack[|stack| - 1] != ".." then stack[..|stack| - 1]
    else if absolute then stack
    else stack + [component]
  }

  function Resolve(stack: seq<string>, components: seq<string>, absolute: bool): seq<string>
    decreases |components|
  {
    if components == [] then stack
    else Resolve(Pushed(stack, components[0], absolute), components[1..], absolute)
  }

  function Joined(components: seq<string>): string {
    if |components| == 0 then ""
    else if |components| == 1 then components[0]
    else Joined(components[..|components| - 1]) + "/" + components[|components| - 1]
  }

  function Render(absolute: bool, components: seq<string>): string {
    (if absolute then "/" else "") + Joined(components)
  }

  function Normal(text: string): string {
    Render(IsAbsolute(text), Resolve([], Components(text), IsAbsolute(text)))
  }

  predicate Plain(component: string) {
    component != "" && component != "." && '/' !in component
  }

  predicate AllPlain(components: seq<string>) {
    forall i :: 0 <= i < |components| ==> Plain(components[i])
  }

  /** The component lists of normalised paths: ".." only as a leading run, and only in relative ones. */
  ghost predicate Canonical(components: seq<string>, absolute: bool) {
    && AllPlain(components)
    && (absolute ==> forall i :: 0 <= i < |components| ==> components[i] != "..")
    && (forall i, j :: 0 <= i < j < |components| && components[j] == ".." ==> components[i] == "..")
  }

  // ---------------------------------------------------------------------
  // Components of a concatenation
  // ---------------------------------------------------------------------

  lemma {:induction false} ScanOfJoin(segment: string, a: string, b: string)
    ensures Scan(segment, a + "/" + b) == Scan(segment, a) + Components(b)
    decreases |a|
  {
    var whole := a + "/" + b;
    if a == "" {
      assert whole[1..] == b;
    } else {
      assert whole[1..] == a[1..] + "/" + b;
      ScanOfJoin(if a[0] == '/' then "" else segment + [a[0]], a[1..], b);
    }
  }

  lemma ComponentsOfJoin(a: string, b: string)
    ensures Components(a + "/" + b) == Components(a) + Components(b)
  {
    ScanOfJoin("", a, b);
  }

  lemma LeadingSlash(b: string)
    ensures Components("/" + b) == Components(b)
  {
    ComponentsOfJoin("", b);
    assert "" + "/" + b == "/" + b;
  }

  lemma {:induction false} ScanOfPlain(segment: string, rest: string)
    requires '/' !in rest
    ensures Scan(segment, rest) == Keep(segment + rest)
    decreases |rest|
  {
    if rest == "" {
      assert segment + rest == segment;
    } else {
      ScanOfPlain(segment + [rest[0]], rest[1..]);
      assert segment + [rest[0]] + rest[1..] == segment + rest;
    }
  }

  lemma ComponentsOfPlain(component: string)
    requires '/' !in component
    ensures Components(component) == Keep(component)
  {
    ScanOfPlain("", component);
    assert "" + component == component;
  }

  lemma {:induction false} ScanIsPlain(segment: string, rest: string)
    requires '/' !in segment
    ensures AllPlain(Scan(segment, rest))
    decreases |rest|
  {
    if rest == "" {
    } else if rest[0] == '/' {
      ScanIsPlain("", rest[1..]);
    } else {
      ScanIsPlain(segment + [rest[0]], rest[1..]);
    }
  }

  lemma {:induction false} ComponentsOfJoined(components: seq<string>)
    requires AllPlain(components)
    ensures Components(Joined(components)) == components
  {
    var n := |components|;
    if n == 0 {
    } else if n == 1 {
      ComponentsOfPlain(components[0]);
    } else {
      var front, last := components[..n - 1], components[n - 1];
      ComponentsOfJoined(front);
      ComponentsOfPlain(last);
      ComponentsOfJoin(Joined(front), last);
    }
  }

  // ---------------------------------------------------------------------
  // Normal form
  // ---------------------------------------------------------------------

  lemma PushedIsCanonical(stack: seq<string>, component: string, absolute: bool)
    requires Canonical(stack, absolute) && Plain(component)
    ensures Canonical(Pushed(stack, component, absolute), absolute)
  {
  }

  lemma {:induction false} ResolveIsCanonical(stack: seq<string>, components: seq<string>, absolute: bool)
    requires Canonical(stack, absolute)
    requires AllPlain(components)
    ensures Canonical(Resolve(stack, components, absolute), absolute)
    decreases |components|
  {
    if components != [] {
      PushedIsCanonical(stack, components[0], absolute);
      ResolveIsCanonical(Pushed(stack, components[0], absolute), components[1..], absolute);
    }
  }

  lemma {:induction false} ResolveOfCanonical(stack: seq<string>, components: seq<string>, absolute: bool)
    requires Canonical(stack + components, absolute)
    ensures Resolve(stack, components, absolute) == stack + components
    decreases |components|
  {
    if components == [] {
      assert stack + components == stack;
    } else {
      var whole, first := stack + components, components[0];
      assert whole[|stack|] == first;
      if first == ".." {
        assert first in whole;
        if stack != [] {
          assert whole[|stack| - 1] == stack[|stack| - 1];
        }
      }
      assert stack + [first] + components[1..] == whole;
      ResolveOfCanonical(stack + [first], components[1..], absolute);
    }
  }

  lemma RenderAbsolute(absolute: bool, components: seq<string>)
    requires AllPlain(components)
    ensures IsAbsolute(Render(absolute, components)) == absolute
    ensures Render(absolute, components) == "" <==> !absolute && components == []
  {
    JoinedStart(components);
  }

  lemma {:induction false} JoinedStart(components: seq<string>)
    requires AllPlain(components)
    ensures components != [] ==>
      var text := Joined(components);
      text != "" && text[0] != '/' && text[|text| - 1] != '/'
  {
    var n := |components|;
    if n > 0 {
      assert Plain(components[0]) && Plain(components[n - 1]);
      if n > 1 {
        JoinedStart(components[..n - 1]);
      }
    }
  }

  /** A rendered canonical list is a fixed point, and its components are the list. */
  lemma RenderIsNormal(absolute: bool, components: seq<string>)
    requires Canonical(components, absolute)
    ensures Normal(Render(absolute, components)) == Render(absolute, components)
    ensures Components(Render(absolute, components)) == components
    ensures IsAbsolute(Render(absolute, components)) == absolute
  {
    RenderAbsolute(absolute, components);
    ComponentsOfJoined(components);
    if absolute {
      LeadingSlash(Joined(components));
    } else {
      assert Render(false, components) == Joined(components);
    }
    assert [] + components == components;
    ResolveOfCanonical([], components, absolute);
  }

  lemma ComponentsAreCanonical(text: string)
    ensures Canonical(Resolve([], Components(text), IsAbsolute(text)), IsAbsolute(text))
  {
    ScanIsPlain("", text);
    ResolveIsCanonical([], Components(text), IsAbsolute(text));
  }

  /** What normalisation guarantees of any text at all. */
  lemma NormalForm(text: string)
    ensures Normal(Normal(text)) == Normal(text)
    ensures IsAbsolute(Normal(text)) == IsAbsolute(text)
    ensures Canonical(Components(Normal(text)), IsAbsolute(text))
    ensures Components(Normal(text)) == Resolve([], Components(text), IsAbsolute(text))
  {
    ComponentsAreCanonical(text);
    RenderIsNormal(IsAbsolute(text), Resolve([], Components(text), IsAbsolute(text)));
  }

  predicate IsNormal(text: string) {
    Normal(text) == text
  }

  /** A normalised path is its components and one bit, and nothing else. */
  lemma NormalIsRendered(text: string)
    requires IsNormal(text)
    ensures Canonical(Components(text), IsAbsolute(text))
    ensures text == Render(IsAbsolute(text), Components(text))
  {
    NormalForm(text);
  }

  // ---------------------------------------------------------------------
  // Path::normalize
  // ---------------------------------------------------------------------

  predicate OccursAt(text: string, pattern: string, at: nat) {
    at + |pattern| <= |text| && text[at..at + |pattern|] == pattern
  }

  /** std::string::find: the first occurrence at or after `from`, or -1 for npos. */
  method Find(text: string, pattern: string, from: nat) returns (at: int)
    ensures at == -1 || (from <= at && OccursAt(text, pattern, at))
    ensures forall k: nat :: from <= k && (at == -1 || k < at) ==> !OccursAt(text, pattern, k)
  {
    at := from;
    while at + |pattern| <= |text|
      invariant from <= at
      invariant forall k: nat :: from <= k < at ==> !OccursAt(text, pattern, k)
    {
      if text[at..at + |pattern|] == pattern { return; }
      at := at + 1;
    }
    at := -1;
  }

  lemma CutAt(text: string, pattern: string, at: nat)
    requires OccursAt(text, pattern, at)
    ensures text == text[..at] + pattern + text[at + |pattern|..]
  {
    assert text == text[..at] + text[at..at + |pattern|] + text[at + |pattern|..];
  }

  lemma CollapseKeepsComponents(before: string, after: string)
    ensures Components(before + "//" + after) == Components(before + "/" + after)
  {
    assert before + "//" + after == before + "/" + ("/" + after);
    ComponentsOfJoin(before, "/" + after);
    LeadingSlash(after);
    ComponentsOfJoin(before, after);
  }

  lemma DotKeepsComponents(before: string, after: string)
    ensures Components(before + "/./" + after) == Components(before + "/" + after)
  {
    assert before + "/./" + after == before + "/" + ("." + "/" + after);
    ComponentsOfJoin(before, "." + "/" + after);
    ComponentsOfJoin(".", after);
    ComponentsOfPlain(".");
    ComponentsOfJoin(before, after);
  }

  lemma SlashesStay(before: string, after: string, k: nat)
    requires k < |before| && OccursAt(before + "/" + after, "//", k)
    ensures OccursAt(before + "//" + after, "//", k)
  {
    var shorter := before + "/" + after;
    assert shorter[k] == shorter[k..k + 2][0] && shorter[k + 1] == shorter[k..k + 2][1];
  }

  /** One in-place pass: every `pattern` from the start on becomes a single slash. */
  method ReplaceAll(text: string, pattern: string) returns (result: string)
    requires pattern == "//" || pattern == "/./"
    ensures Components(result) == Components(text)
    ensures |result| <= |text|
    ensures text != "" ==> result != ""
    ensures pattern == "//" ==> forall k: nat :: !OccursAt(result, pattern, k)
  {
    result := text;
    var pos := 0;
    while true
      invariant 0 <= pos
      invariant Components(result) == Components(text)
      invariant |result| <= |text|
      invariant text != "" ==> result != ""
      invariant pattern == "//" ==> forall k: nat :: k < pos ==> !OccursAt(result, pattern, k)
      decreases |result|
    {
      var found := Find(result, pattern, pos);
      if found == -1 { break; }
      pos := found;
      CutAt(result, pattern, pos);
      var before, after := result[..pos], result[pos + |pattern|..];
      if pattern == "//" {
        CollapseKeepsComponents(before, after);
      } else {
        DotKeepsComponents(before, after);
      }
      ghost var was := result;
      result := before + "/" + after;
      if pattern == "//" {
        forall k: nat | k < pos && OccursAt(result, pattern, k) ensures OccursAt(was, pattern, k) {
          SlashesStay(before, after, k);
        }
      }
    }
  }

  lemma ScanStep(segment: string, rest: string)
    requires rest != ""
    ensures rest[0] == '/' ==> Scan(segment, rest) == Keep(segment) + Scan("", rest[1..])
    ensures rest[0] != '/' ==> Scan(segment, rest) == Scan(segment + [rest[0]], rest[1..])
  {
  }

  lemma ResolveStep(stack: seq<string>, segment: string, rest: seq<string>, absolute: bool)
    ensures Resolve(stack, Keep(segment) + rest, absolute)
         == Resolve(if Keep(segment) == [] then stack else Pushed(stack, segment, absolute), rest, absolute)
  {
    if Keep(segment) == [] {
      assert Keep(segment) + rest == rest;
    } else {
      assert (Keep(segment) + rest)[1..] == rest;
    }
  }

  /** The body of both copies of the segment handling. */
  method PushSegment(components: seq<string>, segment: string, absolute: bool) returns (result: seq<string>)
    ensures result == if Keep(segment) == [] then components else Pushed(components, segment, absolute)
  {
    result := components;
    if segment != "" {
      if segment == ".." {
        if components != [] && components[|components| - 1] != ".." {
          result := components[..|components| - 1];
        } else if !absolute {
          result := components + [".."];
        }
      } else if segment != "." {
        result := components + [segment];
      }
    }
  }

  method SplitAndResolve(text: string, absolute: bool) returns (components: seq<string>)
    ensures components == Resolve([], Components(text), absolute)
  {
    components := [];
    var segment := "";
    for i := 0 to |text|
      invariant Resolve(components, Scan(segment, text[i..]), absolute) == Resolve([], Components(text), absolute)
    {
      var rest := text[i..];
      assert rest[0] == text[i] && rest[1..] == text[i + 1..];
      ScanStep(segment, rest);
      if text[i] == '/' {
        ResolveStep(components, segment, Scan("", text[i + 1..]), absolute);
        components := PushSegment(components, segment, absolute);
        segment := "";
      } else {
        segment := segment + [text[i]];
      }
    }
    assert text[|text|..] == "";
    ResolveStep(components, segment, [], absolute);
    assert Keep(segment) + [] == Keep(segment);
    components := PushSegment(components, segment, absolute);
  }

  lemma RenderMore(absolute: bool, components: seq<string>, i: nat)
    requires i < |components|
    ensures Render(absolute, components[..i + 1]) ==
      (if i > 0 then Render(absolute, components[..i]) + "/" else if absolute then "/" else "") + components[i]
  {
    assert components[..i + 1][..i] == components[..i];
  }

  method Reconstruct(components: seq<string>, absolute: bool) returns (text: string)
    ensures text == Render(absolute, components)
  {
    text := "";
    for i := 0 to |components|
      invariant text == if i == 0 then "" else Render(absolute, components[..i])
    {
      RenderMore(absolute, components, i);
      if i > 0 {
        text := text + "/";
      } else if absolute {
        text := text + "/";
      }
      text := text + components[i];
    }
    assert components[..|components|] == components;
    if absolute && |components| == 0 {
      text := "/";
    }
  }

  lemma LeadingDot(text: string)
    requires |text| >= 2 && text[0] == '.' && text[1] == '/'
    ensures Components(text[2..]) == Components(text)
  {
    ComponentsOfJoin(".", text[2..]);
    ComponentsOfPlain(".");
    assert text == "." + "/" + text[2..];
  }

  lemma TrailingDot(text: string)
    requires |text| >= 2 && text[|text| - 2..] == "/."
    ensures Components(text[..|text| - 2]) == Components(text)
  {
    var front := text[..|text| - 2];
    ComponentsOfJoin(front, ".");
    ComponentsOfPlain(".");
    assert text == front + text[|text| - 2..];
    assert text == front + "/" + ".";
  }

  /** Path::normalize computes the one-pass fold, on every text. */
  method Normalize(text: string) returns (normalized: string)
    ensures normalized == Normal(text)
  {
    if text == "" { return ""; }
    hide Scan, Resolve, Render;
    var absolute := text[0] == '/';
    var result := ReplaceAll(text, "//");
    result := ReplaceAll(result, "/./");
    if |result| >= 2 && result[0] == '.' && result[1] == '/' {
      LeadingDot(result);
      result := result[2..];
    }
    if |result| >= 2 && result[|result| - 2..] == "/." {
      TrailingDot(result);
      result := result[..|result| - 2];
    }
    var components := SplitAndResolve(result, absolute);
    normalized := Reconstruct(components, absolute);
  }

  // ---------------------------------------------------------------------
  // Taking a path apart
  // ---------------------------------------------------------------------

  /** std::string::rfind of one character, -1 for npos. */
  function LastIndexOf(text: string, c: char): (at: int)
    ensures -1 <= at < |text|
    ensures at >= 0 ==> text[at] == c
    ensures forall k :: at < k < |text| ==> text[k] != c
  {
    if text == "" then -1
    else if text[|text| - 1] == c then |text| - 1
    else
      LastIndexOf(text[..|text| - 1], c)
  }

  function Parent(path: string): string {
    if path == "" || path == "/" then ""
    else
      var slash := LastIndexOf(path, '/');
      if slash == -1 then "" else if slash == 0 then Normal("/") else Normal(path[..slash])
  }

  function Filename(path: string): string {
    if path == "" || path == "/" then "" else path[LastIndexOf(path, '/') + 1..]
  }

  function Extension(path: string): string {
    var name := Filename(path);
    if name == "" || name[0] == '.' then ""
    else
      var dot := LastIndexOf(name, '.');
      if dot <= 0 then "" else name[dot..]
  }

  function Stem(path: string): string {
    var name := Filename(path);
    if name == "" || name[0] == '.' then name
    else
      var dot := LastIndexOf(name, '.');
      if dot <= 0 then name else name[..dot]
  }

  lemma LastIndexIs(text: string, c: char, at: nat)
    requires at < |text| && text[at] == c && forall k :: at < k < |text| ==> text[k] != c
    ensures LastIndexOf(text, c) == at
  {
    assert text[LastIndexOf(text, c)] == c;
  }

  /** The last slash of a normalised path separates its last component from the others. */
  lemma SplitAtLastSlash(path: string)
    requires IsNormal(path) && path != "" && path != "/"
    ensures var cs := Components(path);
      && cs != []
      && Filename(path) == cs[|cs| - 1]
      && Parent(path) == Render(IsAbsolute(path), cs[..|cs| - 1])
  {
    hide Scan, Resolve, LastIndexOf, Parent, Filename;
    NormalIsRendered(path);
    var absolute, cs := IsAbsolute(path), Components(path);
    var n := |cs|;
    assert n > 0;
    var front, last := cs[..n - 1], cs[n - 1];
    assert Plain(last);
    FrontIsCanonical(cs, absolute);
    RenderIsNormal(absolute, front);
    RenderAbsolute(absolute, front);
    if n == 1 && !absolute {
      assert path == last;
      NoSlash(path);
    } else {
      var head := if n == 1 then "" else Render(absolute, front);
      if n == 1 {
        assert front == [] && Render(true, []) == "/";
      }
      assert path == head + "/" + last;
      AtSlash(path, head, last);
    }
  }

  lemma NoSlash(path: string)
    requires path != "" && '/' !in path
    ensures Parent(path) == "" && Filename(path) == path
  {
  }

  lemma AtSlash(path: string, head: string, last: string)
    requires path == head + "/" + last && last != "" && '/' !in last
    ensures Filename(path) == last
    ensures Parent(path) == if head == "" then Normal("/") else Normal(head)
  {
    hide LastIndexOf, Normal;
    assert path[|head| + 1..] == last && path[..|head|] == head;
    LastIndexIs(path, '/', |head|);
  }

  lemma FrontIsCanonical(components: seq<string>, absolute: bool)
    requires Canonical(components, absolute) && components != []
    ensures Canonical(components[..|components| - 1], absolute)
  {
  }

  /** Name and extension split the file name without loss, at its last interior dot. */
  lemma StemAndExtension(path: string)
    ensures Stem(path) + Extension(path) == Filename(path)
    ensures Extension(path) != "" ==>
      && Extension(path)[0] == '.'
      && '.' !in Extension(path)[1..]
      && Stem(path) != ""
      && Stem(path)[0] != '.'
    ensures Extension(path) == "" ==>
      var name := Filename(path);
      name == "" || name[0] == '.' || '.' !in name
  {
    hide Filename, LastIndexOf;
    var name := Filename(path);
    if name != "" && name[0] != '.' {
      var dot := LastIndexOf(name, '.');
      if dot > 0 {
        assert name == name[..dot] + name[dot..];
      }
    }
  }

  // ---------------------------------------------------------------------
  // Joining and relating paths
  // ---------------------------------------------------------------------

  function Join(base: string, other: string): string {
    if other == "" then base
    else if base == "" then other
    else if IsAbsolute(other) then Normal(base + "/" + other[1..])
    else Normal(base + "/" + other)
  }

  function RelativeTo(path: string, base: string): string {
    if path == "" || base == "" then ""
    else if IsAbsolute(path) != IsAbsolute(base) then ""
    else if |base| > |path| then ""
    else if path[..|base|] != base then ""
    else if |path| == |base| then ""
    else if base[|base| - 1] != '/' then
      if path[|base|] != '/' then "" else Normal(path[|base| + 1..])
    else Normal(path[|base|..])
  }

  /** Joining continues the fold of the base with the components of the other path. */
  lemma JoinResolves(base: string, other: string)
    requires IsNormal(base) && IsNormal(other) && base != ""
    ensures Join(base, other) == Render(IsAbsolute(base), Resolve(Components(base), Components(other), IsAbsolute(base)))
    ensures Canonical(Resolve(Components(base), Components(other), IsAbsolute(base)), IsAbsolute(base))
    ensures IsNormal(Join(base, other))
  {
    NormalIsRendered(base);
    NormalIsRendered(other);
    var absolute, b, c := IsAbsolute(base), Components(base), Components(other);
    ResolveIsCanonical(b, c, absolute);
    RenderIsNormal(absolute, Resolve(b, c, absolute));
    if other != "" {
      var tail := if IsAbsolute(other) then other[1..] else other;
      if IsAbsolute(other) {
        assert other == "/" + tail;
        LeadingSlash(tail);
      }
      ComponentsOfJoin(base, tail);
      assert Components(base + "/" + tail) == b + c;
      assert (base + "/" + tail)[0] == base[0];
      ResolveInTwo([], b, c, absolute);
      assert [] + b == b;
      ResolveOfCanonical([], b, absolute);
    }
  }

  lemma {:induction false} ResolveInTwo(stack: seq<string>, a: seq<string>, b: seq<string>, absolute: bool)
    ensures Resolve(stack, a + b, absolute) == Resolve(Resolve(stack, a, absolute), b, absolute)
    decreases |a|
  {
    if a == [] {
      assert a + b == b;
    } else {
      assert (a + b)[1..] == a[1..] + b;
      ResolveInTwo(Pushed(stack, a[0], absolute), a[1..], b, absolute);
    }
  }

  lemma RenderOne(component: string)
    ensures Render(false, [component]) == component
  {
  }

  /** parent and filename lose nothing: joining them gives the path back. */
  lemma JoinParentFilename(path: string)
    requires IsNormal(path) && path != "" && path != "/"
    ensures IsNormal(Parent(path)) && IsNormal(Filename(path))
    ensures Join(Parent(path), Filename(path)) == path
  {
    hide Scan, Resolve, Parent, Filename, Join, Joined;
    NormalIsRendered(path);
    SplitAtLastSlash(path);
    var absolute, cs := IsAbsolute(path), Components(path);
    var front, last := cs[..|cs| - 1], cs[|cs| - 1];
    assert Plain(last) && front + [last] == cs;
    FrontIsCanonical(cs, absolute);
    RenderIsNormal(absolute, front);
    RenderAbsolute(absolute, front);
    RenderIsNormal(false, [last]);
    RenderOne(last);
    if Parent(path) == "" {
      assert front == [] && cs == [last];
      JoinUnit("", "", last);
    } else {
      JoinResolves(Parent(path), last);
      ResolveOfCanonical(front, [last], absolute);
    }
  }

  /** Where the base is a proper component prefix, what is left over; otherwise nothing. */
  lemma RelativeToDrops(path: string, base: string)
    requires IsNormal(path) && IsNormal(base)
    ensures RelativeTo(path, base) ==
      if path != "" && base != "" && IsAbsolute(path) == IsAbsolute(base) && Components(base) < Components(path)
      then Render(false, Components(path)[|Components(base)|..])
      else ""
  {
    NormalIsRendered(path);
    NormalIsRendered(base);
    var absolute, p, b := IsAbsolute(base), Components(path), Components(base);
    if path == "" || base == "" || IsAbsolute(path) != absolute {
    } else if b < p {
      var r := p[|b|..];
      assert p == b + r;
      RelativeToOfPrefix(path, base, r);
    } else if |base| < |path| && path[..|base|] == base {
      JoinedStart(b);
      if base[|base| - 1] != '/' && path[|base|] == '/' {
        assert path == base + "/" + path[|base| + 1..];
        TextPrefix(path, base, path[|base| + 1..]);
      }
    }
  }

  lemma TextPrefix(path: string, base: string, tail: string)
    requires IsNormal(path) && IsNormal(base) && base != "" && path == base + "/" + tail
    ensures Components(base) < Components(path)
  {
    hide Scan, Resolve, Joined;
    assert path[0] == base[0];
    ComponentsOfJoin(base, tail);
    NormalIsRendered(path);
    NormalIsRendered(base);
    assert Components(base) + [] == Components(base);
  }

  lemma {:induction false} JoinedOfConcat(a: seq<string>, b: seq<string>)
    requires a != [] && b != []
    ensures Joined(a + b) == Joined(a) + "/" + Joined(b)
    decreases |b|
  {
    var whole, n := a + b, |b|;
    assert whole[|whole| - 1] == b[n - 1];
    assert whole[..|whole| - 1] == a + b[..n - 1];
    if n == 1 {
      assert a + b[..0] == a;
    } else {
      JoinedOfConcat(a, b[..n - 1]);
      RegroupedTexts(Joined(a), Joined(b[..n - 1]), b[n - 1]);
    }
  }

  lemma RegroupedTexts(a: string, b: string, c: string)
    ensures a + "/" + b + "/" + c == a + "/" + (b + "/" + c)
  {
  }

  lemma SuffixIsCanonical(components: seq<string>, k: nat, absolute: bool)
    requires Canonical(components, absolute) && k <= |components|
    ensures Canonical(components[k..], false)
  {
  }

  lemma RelativeToOfPrefix(path: string, base: string, rest: seq<string>)
    requires IsNormal(path) && IsNormal(base) && base != "" && IsAbsolute(path) == IsAbsolute(base)
    requires rest != [] && Components(path) == Components(base) + rest
    ensures RelativeTo(path, base) == Render(false, rest)
  {
    hide Scan, Resolve, RelativeTo;
    NormalIsRendered(path);
    NormalIsRendered(base);
    var absolute, p, b := IsAbsolute(base), Components(path), Components(base);
    SuffixIsCanonical(p, |b|, absolute);
    assert p[|b|..] == rest;
    RenderIsNormal(false, rest);
    RenderAbsolute(false, rest);
    assert Render(false, rest) == Joined(rest);
    JoinedStart(b);
    if b == [] {
      assert base == "/" && p == rest;
      assert path == base + Joined(rest);
      TakenOff(path, base, Joined(rest));
    } else {
      JoinedOfConcat(b, rest);
      assert path == base + "/" + Joined(rest);
      assert base[|base| - 1] == Joined(b)[|Joined(b)| - 1];
      TakenOff(path, base, Joined(rest));
    }
  }

  lemma TakenOff(path: string, base: string, rest: string)
    requires base != "" && rest != "" && IsAbsolute(path) == IsAbsolute(base)
    requires path == if base[|base| - 1] == '/' then base + rest else base + "/" + rest
    ensures RelativeTo(path, base) == Normal(rest)
  {
    hide Normal;
    assert path[..|base|] == base;
    if base[|base| - 1] == '/' {
      assert path[|base|..] == rest;
    } else {
      assert path[|base| + 1..] == rest;
    }
  }

  /** Whatever relative_to finds, joining it to the base gives the path back. */
  lemma JoinRelativeTo(path: string, base: string)
    requires IsNormal(path) && IsNormal(base)
    ensures IsNormal(RelativeTo(path, base))
    ensures RelativeTo(path, base) != "" ==> Join(base, RelativeTo(path, base)) == path
  {
    NormalIsRendered(path);
    RelativeToDrops(path, base);
    var p, b := Components(path), Components(base);
    if RelativeTo(path, base) != "" {
      var r := p[|b|..];
      SuffixIsCanonical(p, |b|, IsAbsolute(path));
      RenderIsNormal(false, r);
      JoinResolves(base, RelativeTo(path, base));
      assert p == b + r;
      ResolveOfCanonical(b, r, IsAbsolute(path));
    }
  }

  /** Where relative_to undoes join. */
  ghost predicate Undone(base: string, other: string) {
    || other == ""
    || (&& base != ""
        && !IsAbsolute(other)
        && (|| Components(other) == []
            || Components(other)[0] != ".."
            || (Components(base) != [] && Components(base)[|Components(base)| - 1] == "..")))
  }

  lemma {:induction false} ResolveLength(stack: seq<string>, components: seq<string>, absolute: bool)
    ensures |Resolve(stack, components, absolute)| <= |stack| + |components|
    decreases |components|
  {
    if components != [] {
      ResolveLength(Pushed(stack, components[0], absolute), components[1..], absolute);
    }
  }

  lemma ConcatIsCanonical(a: seq<string>, b: seq<string>, absolute: bool)
    requires Canonical(a, absolute) && Canonical(b, false) && b != []
    requires b[0] != ".." || (a != [] && a[|a| - 1] == "..")
    ensures Canonical(a + b, absolute)
  {
    var whole := a + b;
    if b[0] != ".." {
      forall j | 0 <= j < |b| ensures b[j] != ".." {
      }
    }
  }

  /**
   * relative_to undoes join exactly when the joined path does not climb out of
   * the base; an absolute second path, whose slash join drops, never comes back.
   */
  lemma RelativeToJoin(base: string, other: string)
    requires IsNormal(base) && IsNormal(other)
    ensures RelativeTo(Join(base, other), base) == other <==> Undone(base, other)
  {
    hide Scan, Resolve, RelativeTo, Join, Normal, Joined;
    if other == "" {
      JoinUnit(base, "", "");
      RelativeToSelf(base);
    } else if base == "" {
      RelativeToSelf(base);
      JoinUnit("", "", other);
      NothingIsRelativeTo(other);
    } else {
      NormalIsRendered(other);
      NormalIsRendered(base);
      var absolute, b, r := IsAbsolute(base), Components(base), Components(other);
      var c := Resolve(b, r, absolute);
      RenderAbsolute(IsAbsolute(other), r);
      RenderAbsolute(absolute, b);
      JoinResolves(base, other);
      RenderIsNormal(absolute, c);
      RenderAbsolute(absolute, c);
      RelativeToDrops(Join(base, other), base);
      var back := RelativeTo(Join(base, other), base);
      if !IsAbsolute(other) && Undone(base, other) {
        ConcatIsCanonical(b, r, absolute);
        ResolveOfCanonical(b, r, absolute);
        assert (b + r)[|b|..] == r;
      } else if back != "" {
        SuffixIsCanonical(c, |b|, absolute);
        RenderIsNormal(false, c[|b|..]);
        if !IsAbsolute(other) {
          ClimbIsLost(b, r, absolute);
          assert |c[|b|..]| < |r|;
        }
      }
    }
  }

  lemma RelativeToSelf(path: string)
    ensures RelativeTo(path, path) == ""
    ensures Join(path, "") == path
  {
  }

  lemma NothingIsRelativeTo(path: string)
    ensures RelativeTo(path, "") == ""
  {
  }

  lemma ClimbIsLost(base: seq<string>, other: seq<string>, absolute: bool)
    requires other != [] && other[0] == ".."
    requires base == [] ==> absolute
    requires base != [] ==> base[|base| - 1] != ".."
    ensures |Resolve(base, other, absolute)| < |base| + |other|
  {
    ResolveLength(Pushed(base, other[0], absolute), other[1..], absolute);
  }

  /** Resolving an already resolved relative path adds nothing new. */
  lemma {:induction false} ResolveOfResolved(stack: seq<string>, components: seq<string>, absolute: bool)
    requires Canonical(stack, absolute)
    requires AllPlain(components)
    ensures Resolve(stack, Resolve([], components, false), absolute) == Resolve(stack, components, absolute)
    decreases |components|
  {
    var n := |components|;
    if n > 0 {
      var front, last := components[..n - 1], components[n - 1];
      assert components == front + [last];
      ResolveOfResolved(stack, front, absolute);
      ResolveInTwo([], front, [last], false);
      ResolveInTwo(stack, front, [last], absolute);
      var inner := Resolve([], front, false);
      ResolveIsCanonical([], front, false);
      OneMore(stack, inner, last, absolute);
    }
  }

  lemma ResolveOne(stack: seq<string>, component: string, absolute: bool)
    ensures Resolve(stack, [component], absolute) == Pushed(stack, component, absolute)
  {
    assert [component][1..] == [];
  }

  lemma OneMore(stack: seq<string>, inner: seq<string>, last: string, absolute: bool)
    requires Canonical(stack, absolute) && Canonical(inner, false) && Plain(last)
    ensures Resolve(stack, Resolve(inner, [last], false), absolute)
         == Resolve(Resolve(stack, inner, absolute), [last], absolute)
  {
    ResolveOne(inner, last, false);
    ResolveInTwo(stack, inner, [last], absolute);
    if Pushed(inner, last, false) != inner + [last] {
      var n := |inner|;
      var front, top := inner[..n - 1], inner[n - 1];
      assert inner == front + [top];
      ResolveInTwo(stack, front, [top], absolute);
      var below := Resolve(stack, front, absolute);
      ResolveOne(below, top, absolute);
      ResolveOne(below + [top], last, absolute);
      assert (below + [top])[..|below|] == below;
    }
  }

  // ---------------------------------------------------------------------
  // Where join is associative
  // ---------------------------------------------------------------------

  /** How many ".." a component list starts with. */
  function Climb(components: seq<string>): (n: nat)
    ensures n <= |components|
    ensures forall i :: 0 <= i < n ==> components[i] == ".."
    ensures n < |components| ==> components[n] != ".."
  {
    if components == [] || components[0] != ".." then 0 else 1 + Climb(components[1..])
  }

  /**
   * Three paths join alike in either order: with a relative middle, unless an absolute last path
   * meets nothing to be joined to; with an absolute middle, unless the last path climbs out of it.
   */
  predicate Associates(a: string, b: string, c: string) {
    || a == "" || b == "" || c == ""
    || (!IsAbsolute(b) && (!IsAbsolute(c) || Join(a, b) != ""))
    || (IsAbsolute(b) && (a == "/" || Climb(Components(c)) <= |Components(b)|))
  }

  function Names(components: seq<string>): nat {
    if components == [] then 0
    else Names(components[..|components| - 1]) + (if components[|components| - 1] == ".." then 0 else 1)
  }

  lemma {:induction false} NamesOfConcat(a: seq<string>, b: seq<string>)
    ensures Names(a + b) == Names(a) + Names(b)
    decreases |b|
  {
    if b == [] {
      assert a + b == a;
    } else {
      assert (a + b)[..|a + b| - 1] == a + b[..|b| - 1];
      NamesOfConcat(a, b[..|b| - 1]);
    }
  }

  lemma {:induction false} NoNames(components: seq<string>)
    ensures Names(components) == 0 ==> forall i :: 0 <= i < |components| ==> components[i] == ".."
  {
    if components != [] {
      NoNames(components[..|components| - 1]);
    }
  }

  lemma {:induction false} ResolveAddsNames(stack: seq<string>, components: seq<string>, absolute: bool)
    ensures Names(Resolve(stack, components, absolute)) <= Names(stack) + Names(components)
    decreases |components|
  {
    if components != [] {
      var first, rest := [components[0]], components[1..];
      assert components == first + rest;
      NamesOfConcat(first, rest);
      NamesOfConcat(stack, first);
      assert first[..0] == [];
      ResolveAddsNames(Pushed(stack, components[0], absolute), rest, absolute);
    }
  }

  /** Climbing within a stack of names only shortens it. */
  lemma {:induction false} ClimbInside(below: seq<string>, names: seq<string>, ups: seq<string>, absolute: bool)
    requires |ups| <= |names|
    requires forall i :: 0 <= i < |names| ==> names[i] != ".."
    requires forall i :: 0 <= i < |ups| ==> ups[i] == ".."
    ensures Resolve(below + names, ups, absolute) == below + names[..|names| - |ups|]
    decreases |ups|
  {
    if ups == [] {
      assert names[..|names|] == names;
    } else {
      var stack, n := below + names, |names|;
      assert stack[..|stack| - 1] == below + names[..n - 1] && stack[|stack| - 1] == names[n - 1];
      ClimbInside(below, names[..n - 1], ups[1..], absolute);
      assert names[..n - 1][..n - 1 - |ups[1..]|] == names[..n - |ups|];
    }
  }

  /** Climbing out of the root leads nowhere. */
  lemma {:induction false} ClimbFromRoot(components: seq<string>)
    requires Canonical(components, false)
    ensures Resolve([], components, true) == components[Climb(components)..]
    decreases |components|
  {
    if components != [] && components[0] == ".." {
      SuffixIsCanonical(components, 1, false);
      ClimbFromRoot(components[1..]);
    } else {
      NoClimbNoUps(components);
      assert [] + components == components;
      ResolveOfCanonical([], components, true);
    }
  }

  lemma NoClimbNoUps(components: seq<string>)
    requires Canonical(components, false) && Climb(components) == 0
    ensures Canonical(components, true)
  {
  }

  lemma DropFromCanonical(components: seq<string>)
    requires Canonical(components, false)
    ensures Canonical(components[Climb(components)..], true)
  {
    var d := components[Climb(components)..];
    SuffixIsCanonical(components, Climb(components), false);
    forall i | 0 <= i < |d| ensures d[i] != ".." {
      assert d[0] != "..";
    }
  }

  lemma EmptyIsCanonical()
    ensures Canonical([], true)
  {
  }

  lemma AppendIsCanonical(a: seq<string>, b: seq<string>, absolute: bool)
    requires Canonical(a, absolute) && Canonical(b, true)
    ensures Canonical(a + b, absolute)
  {
  }

  /** A last path that does not climb out of b finds the same place whatever lies before b. */
  lemma ClimbWithin(a: seq<string>, b: seq<string>, c: seq<string>, absolute: bool)
    requires Canonical(a, absolute) && Canonical(b, true) && Canonical(c, false) && Climb(c) <= |b|
    ensures Resolve(a + b, c, absolute) == a + (b[..|b| - Climb(c)] + c[Climb(c)..])
    ensures Canonical(b[..|b| - Climb(c)] + c[Climb(c)..], true)
  {
    hide Resolve, Canonical, Climb;
    var k := Climb(c);
    var ups, d, kept := c[..k], c[k..], b[..|b| - k];
    DropFromCanonical(c);
    FrontOfNames(b, |b| - k);
    AppendIsCanonical(kept, d, true);
    AppendIsCanonical(a, kept + d, absolute);
    ClimbInside(a, b, ups, absolute);
    ResolveInTwo(a + b, ups, d, absolute);
    Regrouped(a, kept, d);
    ResolveOfCanonical(a + kept, d, absolute);
    assert c == ups + d;
  }

  lemma FrontOfNames(b: seq<string>, n: nat)
    requires Canonical(b, true) && n <= |b|
    ensures Canonical(b[..n], true)
    ensures forall i :: 0 <= i < |b| ==> b[i] != ".."
  {
  }

  lemma Regrouped(a: seq<string>, b: seq<string>, c: seq<string>)
    ensures a + (b + c) == (a + b) + c
  {
  }

  /** A last path that climbs further is lost in an absolute middle but not in the whole. */
  lemma ClimbOut(a: seq<string>, b: seq<string>, c: seq<string>, absolute: bool)
    requires Canonical(a, absolute) && Canonical(b, true) && Canonical(c, false) && Climb(c) > |b|
    ensures Resolve(b, c, true) == c[Climb(c)..] && Canonical(c[Climb(c)..], true)
    ensures Resolve(a + b, c, absolute) == a + c[Climb(c)..] <==> absolute && a == []
  {
    hide Resolve;
    var u := |b|;
    var ups, rest, d := c[..u], c[u..], c[Climb(c)..];
    assert c == ups + rest;
    DropFromCanonical(c);
    SuffixIsCanonical(c, u, false);
    ClimbOfRest(c, u);
    ResolveInTwo(a + b, ups, rest, absolute);
    ClimbInside(a, b, ups, absolute);
    assert a + b[..0] == a;
    ResolveInTwo(b, ups, rest, true);
    assert [] + b == b && [] + b[..0] == [];
    ClimbInside([], b, ups, true);
    ClimbFromRoot(rest);
    if a == [] && absolute {
      assert [] + d == d;
    } else {
      ClimbIsSeen(a, rest, absolute);
    }
  }

  lemma {:induction false} ClimbOfRest(components: seq<string>, u: nat)
    requires u < Climb(components)
    ensures Climb(components[u..]) == Climb(components) - u
    ensures components[u..][Climb(components[u..])..] == components[Climb(components)..]
    decreases u
  {
    if u > 0 {
      ClimbOfRest(components[1..], u - 1);
      assert components[1..][u - 1..] == components[u..];
      assert components[1..][Climb(components[1..])..] == components[Climb(components)..];
    } else {
      assert components[0..] == components;
    }
  }

  /** Climbing from a place that is not the root always shows. */
  lemma ClimbIsSeen(a: seq<string>, rest: seq<string>, absolute: bool)
    requires Canonical(a, absolute) && Canonical(rest, false) && Climb(rest) > 0
    requires a == [] ==> !absolute
    ensures Resolve(a, rest, absolute) != a + rest[Climb(rest)..]
  {
    var d := rest[Climb(rest)..];
    if Names(a) == 0 {
      NoNames(a);
      var whole := a + rest;
      assert Canonical(whole, false);
      ResolveOfCanonical(a, rest, absolute);
    } else {
      NamesPositive(a, absolute);
      var popped := Pushed(a, "..", absolute);
      assert rest[0] == "..";
      ResolveAddsNames(popped, rest[1..], absolute);
      NamesAfterClimb(rest);
      NamesOfConcat(a, d);
    }
  }

  lemma NamesPositive(a: seq<string>, absolute: bool)
    requires Canonical(a, absolute) && Names(a) > 0
    ensures Names(Pushed(a, "..", absolute)) == Names(a) - 1
  {
    if a[|a| - 1] == ".." {
      OnlyUps(a);
    }
  }

  lemma {:induction false} OnlyUps(a: seq<string>)
    requires forall i :: 0 <= i < |a| ==> a[i] == ".."
    ensures Names(a) == 0
  {
    if a != [] {
      OnlyUps(a[..|a| - 1]);
    }
  }

  lemma NamesAfterClimb(rest: seq<string>)
    requires Climb(rest) > 0
    ensures Names(rest[1..]) == Names(rest[Climb(rest)..])
  {
    var k := Climb(rest);
    assert rest[1..] == rest[1..k] + rest[k..];
    NamesOfConcat(rest[1..k], rest[k..]);
    OnlyUps(rest[1..k]);
  }

  lemma JoinUnit(a: string, b: string, c: string)
    requires a == "" || b == "" || c == ""
    ensures Join(Join(a, b), c) == Join(a, Join(b, c))
    ensures Join("", c) == c
  {
    hide Normal;
  }

  lemma AssociativeComponents(x: seq<string>, y: seq<string>, z: seq<string>, absolute: bool)
    requires Canonical(x, absolute) && Canonical(y, false) && Canonical(z, false)
    ensures Resolve(Resolve(x, y, absolute), z, absolute) == Resolve(x, Resolve(y, z, false), absolute)
  {
    hide Resolve;
    ResolveInTwo(x, y, z, absolute);
    assert [] + y == y;
    ResolveOfCanonical([], y, false);
    ResolveInTwo([], y, z, false);
    ResolveOfResolved(x, y + z, absolute);
  }

  /** Two normalised paths are equal exactly when their components and their absoluteness are. */
  lemma EqualByComponents(p: string, q: string)
    requires IsNormal(p) && IsNormal(q)
    ensures p == q <==> IsAbsolute(p) == IsAbsolute(q) && Components(p) == Components(q)
  {
    hide Scan, Resolve, Joined;
    NormalIsRendered(p);
    NormalIsRendered(q);
  }

  /** A join as its parts: what it is made of and how it begins. */
  lemma JoinParts(base: string, other: string)
    requires IsNormal(base) && IsNormal(other) && base != ""
    ensures var j := Join(base, other);
      && IsNormal(j)
      && IsAbsolute(j) == IsAbsolute(base)
      && Components(j) == Resolve(Components(base), Components(other), IsAbsolute(base))
      && Canonical(Components(j), IsAbsolute(base))
      && (j == "" <==> !IsAbsolute(base) && Components(j) == [])
  {
    hide Scan, Resolve, Join, Normal, Joined;
    JoinResolves(base, other);
    var cs := Resolve(Components(base), Components(other), IsAbsolute(base));
    RenderIsNormal(IsAbsolute(base), cs);
    RenderAbsolute(IsAbsolute(base), cs);
  }

  lemma RelativeMiddle(a: string, b: string, c: string)
    requires IsNormal(a) && IsNormal(b) && IsNormal(c) && a != "" && b != "" && c != "" && !IsAbsolute(b)
    ensures Join(Join(a, b), c) == Join(a, Join(b, c)) <==> !IsAbsolute(c) || Join(a, b) != ""
  {
    hide Scan, Resolve, Join, Normal, Joined, Render;
    NormalIsRendered(a);
    NormalIsRendered(b);
    NormalIsRendered(c);
    var absolute, x, y, z := IsAbsolute(a), Components(a), Components(b), Components(c);
    JoinParts(a, b);
    JoinParts(b, c);
    JoinParts(a, Join(b, c));
    AssociativeRelative(x, y, z, absolute, IsAbsolute(c));
    if Join(a, b) == "" {
      JoinUnit("", "", c);
      EqualByComponents(c, Join(a, Join(b, c)));
      if !IsAbsolute(c) {
        assert [] + z == z;
        ResolveOfCanonical([], z, false);
      }
    } else {
      JoinParts(Join(a, b), c);
      EqualByComponents(Join(Join(a, b), c), Join(a, Join(b, c)));
    }
  }

  lemma AssociativeRelative(x: seq<string>, y: seq<string>, z: seq<string>, absolute: bool, last: bool)
    requires Canonical(x, absolute) && Canonical(y, false) && Canonical(z, last)
    ensures Resolve(Resolve(x, y, absolute), z, absolute) == Resolve(x, Resolve(y, z, false), absolute)
  {
    SuffixIsCanonical(z, 0, last);
    assert z[0..] == z;
    AssociativeComponents(x, y, z, absolute);
  }

  lemma AbsoluteMiddle(a: string, b: string, c: string)
    requires IsNormal(a) && IsNormal(b) && IsNormal(c) && a != "" && b != "" && c != "" && IsAbsolute(b)
    ensures Join(Join(a, b), c) == Join(a, Join(b, c)) <==> a == "/" || Climb(Components(c)) <= |Components(b)|
  {
    hide Scan, Resolve, Join, Normal, Joined, Render;
    NormalIsRendered(a);
    NormalIsRendered(b);
    NormalIsRendered(c);
    var absolute, x, y, z := IsAbsolute(a), Components(a), Components(b), Components(c);
    SuffixIsCanonical(z, 0, IsAbsolute(c));
    assert z[0..] == z;
    JoinParts(a, b);
    AppendIsCanonical(x, y, absolute);
    ResolveOfCanonical(x, y, absolute);
    NotEmptied(a, x, y);
    JoinParts(b, c);
    JoinParts(a, Join(b, c));
    JoinParts(Join(a, b), c);
    EqualByComponents(Join(Join(a, b), c), Join(a, Join(b, c)));
    IsRoot(a);
    if Climb(z) <= |y| {
      ClimbWithin(x, y, z, absolute);
      EmptyIsCanonical();
      ClimbWithin([], y, z, true);
      assert [] + y == y && [] + (y[..|y| - Climb(z)] + z[Climb(z)..]) == y[..|y| - Climb(z)] + z[Climb(z)..];
      AppendIsCanonical(x, y[..|y| - Climb(z)] + z[Climb(z)..], absolute);
      ResolveOfCanonical(x, y[..|y| - Climb(z)] + z[Climb(z)..], absolute);
    } else {
      ClimbOut(x, y, z, absolute);
      AppendIsCanonical(x, z[Climb(z)..], absolute);
      ResolveOfCanonical(x, z[Climb(z)..], absolute);
    }
  }

  lemma NotEmptied(a: string, x: seq<string>, y: seq<string>)
    requires IsNormal(a) && a != "" && x == Components(a)
    ensures !IsAbsolute(a) ==> x + y != []
  {
    NormalIsRendered(a);
    RenderAbsolute(IsAbsolute(a), x);
  }

  lemma IsRoot(a: string)
    requires IsNormal(a)
    ensures a == "/" <==> IsAbsolute(a) && Components(a) == []
  {
    NormalIsRendered(a);
  }

  /** Exactly where joining is associative. */
  lemma JoinAssociative(a: string, b: string, c: string)
    requires IsNormal(a) && IsNormal(b) && IsNormal(c)
    ensures Join(Join(a, b), c) == Join(a, Join(b, c)) <==> Associates(a, b, c)
  {
    hide Scan, Resolve, Join, Normal, Climb;
    if a == "" || b == "" || c == "" {
      JoinUnit(a, b, c);
    } else if IsAbsolute(b) {
      AbsoluteMiddle(a, b, c);
    } else {
      RelativeMiddle(a, b, c);
    }
  }

  lemma OneComponent(text: string)
    requires Plain(text)
    ensures Components(text) == [text] && IsNormal(text) && !IsAbsolute(text)
    ensures Components("/" + text) == [text] && IsAbsolute("/" + text)
    ensures text != ".." ==> IsNormal("/" + text)
  {
    ComponentsOfPlain(text);
    LeadingSlash(text);
    ResolveOne([], text, false);
    ResolveOne([], text, true);
    RenderOne(text);
    assert Render(true, [text]) == "/" + text;
  }

  lemma RootIsNormal()
    ensures IsNormal("/") && IsAbsolute("/") && Components("/") == []
  {
    RenderIsNormal(true, []);
    assert Render(true, []) == "/";
  }

  /** Two ways to lose associativity: an absolute path joined to nothing, and climbing out of an absolute path. */
  lemma JoinNotAssociative()
    ensures IsNormal("x") && IsNormal("..") && IsNormal("/y") && IsNormal("/")
    ensures Join(Join("x", ".."), "/y") != Join("x", Join("..", "/y"))
    ensures Join(Join("x", "/"), "..") != Join("x", Join("/", ".."))
  {
    hide Scan, Normal, Joined;
    OneComponent("x");
    OneComponent("..");
    OneComponent("y");
    assert "/" + "y" == "/y";
    RootIsNormal();
    JoinParts("x", "..");
    ResolveOne(["x"], "..", false);
    hide Resolve, Join;
    JoinAssociative("x", "..", "/y");
    JoinAssociative("x", "/", "..");
    assert Climb([".."]) == 1;
  }
}
