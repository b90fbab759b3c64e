/**
 * What a pattern of the tebakofs command matches, said of the pattern's text: how it is
 * spelt in elements, and which names each element stands for (src/cli/tebakofs.cpp).
 */
module GlobLaws {
  import opened Bytes
  import opened Glob

  // ---------------------------------------------------------------------
  // Spelling
  // ---------------------------------------------------------------------

  datatype Member = Single(c: byte) | Span(lo: byte, hi: byte)

  function MemberText(m: Member): (text: bytes)
    ensures text != []
  {
    match m
    case Single(c) => [c]
    case Span(lo, hi) => [lo, DASH, hi]
  }

  function MembersText(ms: seq<Member>): (text: bytes)
    ensures text == [] <==> ms == []
  {
    if ms == [] then [] else MemberText(ms[0]) + MembersText(ms[1..])
  }

  /** A dash behind a single member makes a span of it unless it is the last character. */
  predicate Greedy(ms: seq<Member>) {
    ms != [] ==> Greedy(ms[1..]) && (ms[0].Single? ==> Loose(MembersText(ms[1..])))
  }

  predicate Loose(text: bytes) {
    text == [] || text[0] != DASH || |text| == 1
  }

  datatype Element =
    | Run | OneOf | Quoted(c: byte) | Plain(c: byte) | Dangling
    | Brackets(negate: bool, closing: bool, members: seq<Member>)

  function ElementText(e: Element): (text: bytes)
    ensures text != []
  {
    match e
    case Run => [STAR]
    case OneOf => [QUESTION]
    case Quoted(c) => [BACKSLASH, c]
    case Plain(c) => [c]
    case Dangling => [BACKSLASH]
    case Brackets(negate, closing, ms) => Opening(negate, closing) + MembersText(ms) + [CLOSE]
  }

  function Opening(negate: bool, closing: bool): bytes {
    [OPEN] + (if negate then [BANG] else []) + if closing then [CLOSE] else []
  }

  function PatternText(elements: seq<Element>): bytes {
    if elements == [] then [] else ElementText(elements[0]) + PatternText(elements[1..])
  }

  /** Nothing behind an opening bracket closes it: neither a '!' nor a first ']' counts. */
  predicate Unclosed(rest: bytes) {
    var text := if rest != [] && rest[0] == BANG then rest[1..] else rest;
    CLOSE !in if text != [] && text[0] == CLOSE then text[1..] else text
  }

  /** The element may stand in front of the text `rest`. */
  predicate Placed(e: Element, rest: bytes) {
    match e
    case Plain(c) => c !in {STAR, QUESTION, BACKSLASH} && (c == OPEN ==> Unclosed(rest))
    case Dangling => rest == []
    case Brackets(negate, closing, ms) =>
      && Greedy(ms)
      && CLOSE !in MembersText(ms)
      && (closing || (ms != [] && (negate || MembersText(ms)[0] != BANG)))
    case _ => true
  }

  predicate Laid(elements: seq<Element>) {
    elements != [] ==> Placed(elements[0], PatternText(elements[1..])) && Laid(elements[1..])
  }

  // ---------------------------------------------------------------------
  // Meaning
  // ---------------------------------------------------------------------

  /** In the order of signed characters: 0x80 to 0xFF, then 0 to 0x7F. */
  predicate Between(lo: byte, c: byte, hi: byte) {
    (lo + 128) % 256 <= (c + 128) % 256 <= (hi + 128) % 256
  }

  /** A span holds its first character even where it runs backwards. */
  predicate Holds(m: Member, c: byte) {
    match m
    case Single(d) => c == d
    case Span(lo, hi) => c == lo || Between(lo, c, hi)
  }

  predicate HeldBy(ms: seq<Member>, c: byte) {
    exists i :: 0 <= i < |ms| && Holds(ms[i], c)
  }

  predicate Fits(e: Element, part: bytes) {
    match e
    case Run => true
    case OneOf => |part| == 1
    case Quoted(c) => part == [c]
    case Plain(c) => part == [c]
    case Dangling => false
    case Brackets(negate, closing, ms) =>
      |part| == 1 && (if negate then !Listed(closing, ms, part[0]) else Listed(closing, ms, part[0]))
  }

  predicate Listed(closing: bool, ms: seq<Member>, c: byte) {
    (closing && c == CLOSE) || HeldBy(ms, c)
  }

  /** The name is cut into one part for each element. */
  predicate Means(elements: seq<Element>, name: bytes)
    decreases |elements|
  {
    if elements == [] then name == []
    else exists k :: 0 <= k <= |name| && Fits(elements[0], name[..k]) && Means(elements[1..], name[k..])
  }

  // ---------------------------------------------------------------------
  // Members
  // ---------------------------------------------------------------------

  lemma HeldByStep(ms: seq<Member>, c: byte)
    requires ms != []
    ensures HeldBy(ms, c) <==> Holds(ms[0], c) || HeldBy(ms[1..], c)
  {
    if i :| 0 <= i < |ms| && Holds(ms[i], c) {
      assert i > 0 ==> Holds(ms[1..][i - 1], c);
    }
    if i :| 0 <= i < |ms[1..]| && Holds(ms[1..][i], c) {
      assert Holds(ms[i + 1], c);
    }
  }

  lemma NothingHeld(c: byte)
    ensures !HeldBy([], c)
  {
  }

  lemma OneCovers(d: byte, c: byte)
    ensures Covers(One(d), c) <==> c == d
  {
  }

  lemma BetweenIsCovered(lo: byte, c: byte, hi: byte)
    ensures Between(lo, c, hi) <==> Covers(Range(lo, hi), c)
  {
  }

  lemma {:induction false} MembersHeld(ms: seq<Member>, low: Pending, c: byte)
    requires Greedy(ms) && (low.Low? ==> Loose(MembersText(ms)))
    ensures InClass(Members(MembersText(ms), low), c) <==> HeldBy(ms, c)
    decreases |ms|
  {
    hide InClass, Members, HeldBy, Covers;
    if ms == [] {
      NoMembers(low, c);
      NothingHeld(c);
    } else {
      var text, rest := MembersText(ms), MembersText(ms[1..]);
      HeldByStep(ms, c);
      MembersStep(text, low, c);
      OneCovers(text[0], c);
      match ms[0] {
        case Single(d) =>
          assert text[1..] == rest;
          MembersHeld(ms[1..], Low(d), c);
        case Span(lo, hi) =>
          assert text[1..] == [DASH, hi] + rest && text[1..][2..] == rest;
          MembersStep(text[1..], Low(lo), c);
          BetweenIsCovered(lo, c, hi);
          MembersHeld(ms[1..], NoLow, c);
      }
    }
  }

  /** How a body without a closing bracket is spelt in members. */
  function MembersOf(body: bytes): (ms: seq<Member>)
    ensures MembersText(ms) == body && Greedy(ms)
    decreases |body|
  {
    if body == [] then []
    else if |body| >= 3 && body[1] == DASH then
      var rest := MembersOf(body[3..]);
      assert body == [body[0], DASH, body[2]] + body[3..];
      assert ([Span(body[0], body[2])] + rest)[1..] == rest;
      [Span(body[0], body[2])] + rest
    else
      var rest := MembersOf(body[1..]);
      assert ([Single(body[0])] + rest)[1..] == rest;
      [Single(body[0])] + rest
  }

  // ---------------------------------------------------------------------
  // Elements
  // ---------------------------------------------------------------------

  /** The token an element is read as. */
  function TokenOf(e: Element): Token {
    match e
    case Run => Star
    case OneOf => Any
    case Quoted(c) => Literal(c)
    case Plain(c) => Literal(c)
    case Dangling => Never
    case Brackets(_, _, _) => ClassToken(ElementText(e))
  }

  /** Where the parts of a bracket expression lie in the text that starts with it. */
  lemma BracketsText(e: Element, rest: bytes)
    requires e.Brackets? && Placed(e, rest)
    ensures var p, text, at := ElementText(e) + rest, MembersText(e.members), |Opening(e.negate, e.closing)|;
      && |ElementText(e)| == at + |text| + 1
      && BodyAt(p) == at && (MembersAt(p) == 2 <==> e.negate) && (ClosesFirst(p) <==> e.closing)
      && p[at..at + |text|] == text && p[at + |text|] == CLOSE
  {
    hide Greedy, MembersText;
    var text := MembersText(e.members);
    var p := ElementText(e) + rest;
    var opening := Opening(e.negate, e.closing);
    Segments(opening, text, rest);
    assert p == opening + text + [CLOSE] + rest;
    assert forall k :: 0 <= k < |opening| ==> p[k] == opening[k];
    assert text != [] ==> p[|opening|] == text[0] && text[0] in text;
  }

  lemma Segments(opening: bytes, text: bytes, rest: bytes)
    ensures var p, at := opening + text + [CLOSE] + rest, |opening|;
      p[at..at + |text|] == text && p[at + |text|] == CLOSE
  {
  }

  lemma BracketsRead(e: Element, rest: bytes)
    requires e.Brackets? && Placed(e, rest)
    ensures var p := ElementText(e) + rest;
      && ClassEnd(p) == |ElementText(e)| - 1
      && ClassToken(p) == Class(e.negate, (if e.closing then [One(CLOSE)] else []) + Members(MembersText(e.members), NoLow))
  {
    BracketsText(e, rest);
    var text, at := MembersText(e.members), |Opening(e.negate, e.closing)|;
    hide Members, Greedy, MembersText, Opening, ElementText, BodyAt, MembersAt, ClosesFirst;
    var p := ElementText(e) + rest;
    forall k | at <= k < at + |text| ensures p[k] != CLOSE {
      assert p[k] == p[at..at + |text|][k - at];
    }
  }

  lemma UnclosedRead(rest: bytes)
    ensures Unclosed(rest) <==> ClassEnd([OPEN] + rest) == 1 + |rest|
  {
    var p := [OPEN] + rest;
    var text := p[BodyAt(p)..];
    assert text == (var t := if rest != [] && rest[0] == BANG then rest[1..] else rest;
                    if t != [] && t[0] == CLOSE then t[1..] else t);
    assert ClassEnd(p) < |p| ==> p[ClassEnd(p)] == text[ClassEnd(p) - BodyAt(p)];
    if ClassEnd(p) == |p| {
      forall k | 0 <= k < |text| ensures text[k] != CLOSE {
        assert text[k] == p[BodyAt(p) + k];
      }
    }
  }

  lemma BracketsStart(e: Element)
    requires e.Brackets?
    ensures ElementText(e)[0] == OPEN
  {
    hide MembersText;
  }

  lemma ElementRead(e: Element, rest: bytes)
    requires Placed(e, rest)
    ensures Tokens(ElementText(e) + rest) == [TokenOf(e)] + Tokens(rest)
  {
    var p := ElementText(e) + rest;
    assert p[|ElementText(e)|..] == rest;
    hide Unclosed, MembersText, Opening, ClassEnd, ClassToken;
    match e {
      case Brackets(_, _, _) =>
        BracketsStart(e);
        BracketsRead(e, rest);
        BracketsRead(e, []);
        assert ElementText(e) + [] == ElementText(e);
        FirstToken(p, ClassToken(p), |ElementText(e)|);
      case Plain(c) =>
        if c == OPEN { UnclosedRead(rest); }
        FirstToken(p, Literal(c), 1);
      case _ =>
    }
  }

  lemma TokenFits(e: Element, rest: bytes, part: bytes)
    requires Placed(e, rest) && e != Run
    ensures Fits(e, part) <==> |part| == 1 && Accepts(TokenOf(e), part[0])
  {
    hide InClass, HeldBy, Members, ClassToken;
    if e.Brackets? && |part| == 1 {
      BracketsRead(e, []);
      assert ElementText(e) + [] == ElementText(e);
      MembersHeld(e.members, NoLow, part[0]);
      var first := if e.closing then [One(CLOSE)] else [];
      PrefixMember(first, part[0]);
      InClassConcat(first, Members(MembersText(e.members), NoLow), part[0]);
    }
  }

  // ---------------------------------------------------------------------
  // Patterns
  // ---------------------------------------------------------------------

  /** Any spelling of the pattern says what it matches. */
  lemma {:induction false} LaidMeans(elements: seq<Element>, name: bytes)
    requires Laid(elements)
    ensures Matches(PatternText(elements), name) <==> Means(elements, name)
    decreases |elements|
  {
    if elements != [] {
      var e, rest := elements[0], PatternText(elements[1..]);
      ElementRead(e, rest);
      assert ([TokenOf(e)] + Tokens(rest))[1..] == Tokens(rest);
      forall k | 0 <= k <= |name| ensures Denotes(Tokens(rest), name[k..]) <==> Means(elements[1..], name[k..]) {
        LaidMeans(elements[1..], name[k..]);
      }
      assert e == Run ==> TokenOf(e) == Star;
      hide Placed, Accepts, TokenOf;
      if e != Run {
        NotStar(e);
        OneCharacter(TokenOf(e), Tokens(rest), name);
        if name != [] { TokenFits(e, rest, name[..1]); }
        if k :| 0 <= k <= |name| && Fits(e, name[..k]) && Means(elements[1..], name[k..]) {
          TokenFits(e, rest, name[..k]);
        }
      }
    }
  }

  lemma NotStar(e: Element)
    requires e != Run
    ensures !TokenOf(e).Star?
  {
  }

  /** Every pattern is spelt in elements. */
  lemma {:induction false} PatternIsLaid(pattern: bytes) returns (elements: seq<Element>)
    ensures Laid(elements) && PatternText(elements) == pattern
    decreases |pattern|
  {
    if pattern == [] {
      elements := [];
    } else {
      var e := FirstElement(pattern);
      var rest := PatternIsLaid(pattern[|ElementText(e)|..]);
      elements := [e] + rest;
      assert elements[1..] == rest;
    }
  }

  lemma FirstElement(pattern: bytes) returns (e: Element)
    requires pattern != []
    ensures ElementText(e) <= pattern && Placed(e, pattern[|ElementText(e)|..])
  {
    var rest := pattern[1..];
    if pattern[0] == STAR {
      e := Run;
    } else if pattern[0] == QUESTION {
      e := OneOf;
    } else if pattern[0] == BACKSLASH {
      e := if rest == [] then Dangling else Quoted(rest[0]);
    } else if pattern[0] == OPEN && !Unclosed(rest) {
      e := FirstBrackets(rest);
      assert pattern == [OPEN] + rest;
    } else {
      e := Plain(pattern[0]);
    }
  }

  lemma FirstBrackets(rest: bytes) returns (e: Element)
    requires !Unclosed(rest)
    ensures e.Brackets? && ElementText(e) <= [OPEN] + rest && Placed(e, ([OPEN] + rest)[|ElementText(e)|..])
  {
    var negate := rest != [] && rest[0] == BANG;
    var text := if negate then rest[1..] else rest;
    var closing := text != [] && text[0] == CLOSE;
    var body := if closing then text[1..] else text;
    assert [OPEN] + rest == Opening(negate, closing) + body;
    var at := Seek(body, CLOSE, 0);
    assert at < |body| by {
      var k :| 0 <= k < |body| && body[k] == CLOSE;
    }
    var front := body[..at];
    assert CLOSE !in front && (front != [] ==> front[0] == body[0]);
    hide Seek, Unclosed, Greedy;
    e := Brackets(negate, closing, MembersOf(front));
    CutAt(Opening(negate, closing), body, at);
    assert ElementText(e) <= [OPEN] + rest;
  }

  lemma CutAt(opening: bytes, body: bytes, at: nat)
    requires at < |body| && body[at] == CLOSE
    ensures opening + body[..at] + [CLOSE] <= opening + body
  {
    assert body == body[..at] + [CLOSE] + body[at + 1..];
  }

  /** What a pattern matches: the names cut into parts that fit the elements some spelling of it has. */
  lemma PatternIff(pattern: bytes, name: bytes)
    ensures Matches(pattern, name) <==>
      exists elements :: Laid(elements) && PatternText(elements) == pattern && Means(elements, name)
  {
    hide Laid, PatternText, Means, Matches;
    if Matches(pattern, name) {
      var elements := PatternIsLaid(pattern);
      LaidMeans(elements, name);
    }
    if elements :| Laid(elements) && PatternText(elements) == pattern && Means(elements, name) {
      LaidMeans(elements, name);
    }
  }

  // ---------------------------------------------------------------------
  // Single elements
  // ---------------------------------------------------------------------

  lemma OnlyElement(e: Element, name: bytes)
    requires Placed(e, [])
    ensures Matches(ElementText(e), name) <==> Fits(e, name)
  {
    hide Matches, Placed, Fits;
    assert PatternText([e]) == ElementText(e);
    LaidMeans([e], name);
    assert name[..|name|] == name && name[|name|..] == [];
    assert forall k :: 0 <= k <= |name| && name[k..] == [] ==> name[..k] == name;
  }

  /** '?' matches exactly the names of one character, '*' every name, a lone backslash none. */
  lemma SpecialCharacters(name: bytes)
    ensures Matches([QUESTION], name) <==> |name| == 1
    ensures Matches([STAR], name) && !Matches([BACKSLASH], name)
  {
    OnlyElement(OneOf, name);
    OnlyElement(Run, name);
    OnlyElement(Dangling, name);
  }

  lemma ClassText(e: Element, text: bytes)
    requires e.Brackets? && text == (if e.closing then [CLOSE] else []) + MembersText(e.members)
    ensures ElementText(e) == (if e.negate then [OPEN, BANG] else [OPEN]) + text + [CLOSE]
  {
    hide MembersText;
  }

  /** A class of single members: the names of one of these characters. A dash counts as one at either end. */
  lemma LiteralClass(text: bytes, name: bytes)
    requires text != [] && text[0] != BANG && CLOSE !in text
    requires forall i :: 0 < i < |text| - 1 ==> text[i] != DASH
    ensures Matches([OPEN] + text + [CLOSE], name) <==> |name| == 1 && name[0] in text
  {
    SinglesHold(text, text, 0, if |name| == 1 then name[0] else 0);
    hide Matches, HeldBy, Greedy, ElementText, MembersText, Singles;
    var e := Brackets(false, false, Singles(text));
    assert [] + text == text;
    ClassText(e, text);
    OnlyElement(e, name);
  }

  function Singles(text: bytes): (ms: seq<Member>)
    ensures MembersText(ms) == text
  {
    if text == [] then []
    else
      var ms := [Single(text[0])] + Singles(text[1..]);
      assert ms[1..] == Singles(text[1..]);
      ms
  }

  lemma {:induction false} SinglesHold(text: bytes, whole: bytes, at: nat, c: byte)
    requires at <= |whole| && text == whole[at..] && forall i :: 0 < i < |whole| - 1 ==> whole[i] != DASH
    ensures Greedy(Singles(text)) && (HeldBy(Singles(text), c) <==> c in text)
    decreases |text|
  {
    hide HeldBy;
    if text == [] {
      NothingHeld(c);
    } else {
      SinglesHold(text[1..], whole, at + 1, c);
      HeldByStep(Singles(text), c);
      assert Singles(text)[1..] == Singles(text[1..]);
      assert c in text <==> c == text[0] || c in text[1..];
      assert |text| > 1 ==> text[1] == whole[at + 1];
    }
  }

  /** A range: the names of one character from lo to hi, and lo itself even where hi comes before it. */
  lemma RangeClass(lo: byte, hi: byte, name: bytes)
    requires lo !in {BANG, CLOSE} && hi != CLOSE
    ensures Matches([OPEN, lo, DASH, hi, CLOSE], name) <==> |name| == 1 && (name[0] == lo || Between(lo, name[0], hi))
  {
    hide Matches;
    var m := Span(lo, hi);
    var e := Brackets(false, false, [m]);
    assert MembersText([m]) == [lo, DASH, hi];
    assert Greedy([m]);
    assert ElementText(e) == [OPEN, lo, DASH, hi, CLOSE];
    OnlyElement(e, name);
    if |name| == 1 {
      HeldByStep([m], name[0]);
    }
  }

  /** The members of a class, from the text between its brackets. */
  lemma ClassMembers(text: bytes) returns (closing: bool, ms: seq<Member>)
    requires text != [] && text[0] != BANG && CLOSE !in text[1..]
    ensures text == (if closing then [CLOSE] else []) + MembersText(ms)
    ensures forall negate :: Placed(Brackets(negate, closing, ms), [])
  {
    hide Greedy;
    closing := text[0] == CLOSE;
    var body := if closing then text[1..] else text;
    ms := MembersOf(body);
    assert text == (if closing then [CLOSE] else []) + body;
    assert text == [text[0]] + text[1..];
  }

  /** With a '!' a class matches exactly the names of one character that it does not match without. */
  lemma NegatedClass(text: bytes, name: bytes)
    requires text != [] && text[0] != BANG && CLOSE !in text[1..]
    ensures Matches([OPEN, BANG] + text + [CLOSE], name) <==> |name| == 1 && !Matches([OPEN] + text + [CLOSE], name)
  {
    var closing, ms := ClassMembers(text);
    hide Matches, HeldBy, Placed, ElementText, MembersText;
    var e, f := Brackets(false, closing, ms), Brackets(true, closing, ms);
    ClassText(e, text);
    ClassText(f, text);
    OnlyElement(e, name);
    OnlyElement(f, name);
  }

  lemma UnclosedText(rest: bytes)
    requires CLOSE !in rest
    ensures Placed(Plain(OPEN), rest)
  {
  }

  /** A bracket that is never closed stands for itself. */
  lemma UnclosedBracket(rest: bytes, name: bytes)
    requires CLOSE !in rest
    ensures Matches([OPEN] + rest, name) <==> name != [] && name[0] == OPEN && Matches(rest, name[1..])
  {
    var e := Plain(OPEN);
    UnclosedText(rest);
    assert forall part :: Fits(e, part) <==> part == [OPEN];
    hide Matches, Placed, Fits;
    var elements := PatternIsLaid(rest);
    assert ([e] + elements)[1..] == elements && PatternText([e] + elements) == [OPEN] + rest;
    LaidMeans([e] + elements, name);
    if name != [] {
      LaidMeans(elements, name[1..]);
      assert name[..1] == [name[0]];
    }
  }
}
