/**
 * The wildcard matcher of the tebakofs command on systems without fnmatch
 * (src/cli/tebakofs.cpp). Patterns and names are C strings: bytes without NUL.
 *
 * The reference reads the pattern into tokens once and says which names a
 * token list denotes; the matcher interprets pattern text as it goes and
 * backtracks only for '*'.
 */
module Glob {
  import opened Bytes

  const STAR: byte := 42
  const QUESTION: byte := 63
  const OPEN: byte := 91
  const CLOSE: byte := 93
  const BANG: byte := 33
  const DASH: byte := 45
  const BACKSLASH: byte := 92

  // ---------------------------------------------------------------------
  // What a pattern means
  // ---------------------------------------------------------------------

  datatype Item = One(c: byte) | Range(lo: byte, hi: byte)

  datatype Token = Star | Any | Class(negate: bool, items: seq<Item>) | Literal(c: byte) | Never

  /** char is signed where this matcher is used. */
  function Signed(c: byte): int {
    if c < 0x80 then c else c - 0x100
  }

  predicate Covers(item: Item, c: byte) {
    match item
    case One(d) => c == d
    case Range(lo, hi) => Signed(lo) <= Signed(c) <= Signed(hi)
  }

  predicate InClass(items: seq<Item>, c: byte) {
    exists i :: 0 <= i < |items| && Covers(items[i], c)
  }

  /** One token, one character. */
  predicate Accepts(t: Token, c: byte) {
    match t
    case Star => false
    case Any => true
    case Class(negate, items) => InClass(items, c) != negate
    case Literal(d) => c == d
    case Never => false
  }

  /** The names a token list stands for. */
  predicate Denotes(tokens: seq<Token>, name: bytes)
    decreases |tokens|
  {
    if tokens == [] then name == []
    else if tokens[0].Star? then exists k :: 0 <= k <= |name| && Denotes(tokens[1..], name[k..])
    else name != [] && Accepts(tokens[0], name[0]) && Denotes(tokens[1..], name[1..])
  }

  /** The first position of c at or after `from`, |text| if there is none. */
  function Seek(text: bytes, c: byte, from: nat): (at: nat)
    requires from <= |text|
    ensures from <= at <= |text|
    ensures at < |text| ==> text[at] == c
    ensures forall k :: from <= k < at ==> text[k] != c
    decreases |text| - from
  {
    if from == |text| || text[from] == c then from else Seek(text, c, from + 1)
  }

  /** Where the members of the class opening at p[0] begin, and whether a ']' comes first among them. */
  function MembersAt(p: bytes): (at: nat)
    requires p != []
    ensures 1 <= at <= 2 && at <= |p|
  {
    if |p| > 1 && p[1] == BANG then 2 else 1
  }

  predicate ClosesFirst(p: bytes)
    requires p != []
  {
    MembersAt(p) < |p| && p[MembersAt(p)] == CLOSE
  }

  function BodyAt(p: bytes): (at: nat)
    requires p != []
    ensures at <= |p|
  {
    MembersAt(p) + (if ClosesFirst(p) then 1 else 0)
  }

  /** The bracket that ends the class, |p| if it is never closed. */
  function ClassEnd(p: bytes): (at: nat)
    requires p != []
    ensures BodyAt(p) <= at <= |p|
  {
    Seek(p, CLOSE, BodyAt(p))
  }

  datatype Pending = NoLow | Low(c: byte)

  /** The members in a class body; a dash makes a range when a single member stands before and a character after it. */
  function Members(body: bytes, low: Pending): seq<Item>
    decreases |body|
  {
    if body == [] then []
    else if body[0] == DASH && low.Low? && |body| > 1 then [Range(low.c, body[1])] + Members(body[2..], NoLow)
    else [One(body[0])] + Members(body[1..], Low(body[0]))
  }

  function ClassToken(p: bytes): (t: Token)
    requires p != []
    ensures t.Class?
  {
    Class(MembersAt(p) == 2,
          (if ClosesFirst(p) then [One(CLOSE)] else []) + Members(p[BodyAt(p)..ClassEnd(p)], NoLow))
  }

  function Tokens(p: bytes): seq<Token>
    decreases |p|
  {
    if p == [] then []
    else if p[0] == STAR then [Star] + Tokens(p[1..])
    else if p[0] == QUESTION then [Any] + Tokens(p[1..])
    else if p[0] == OPEN && ClassEnd(p) < |p| then [ClassToken(p)] + Tokens(p[ClassEnd(p) + 1..])
    else if p[0] == BACKSLASH then if |p| == 1 then [Never] else [Literal(p[1])] + Tokens(p[2..])
    else [Literal(p[0])] + Tokens(p[1..])
  }

  predicate Matches(pattern: bytes, name: bytes) {
    Denotes(Tokens(pattern), name)
  }

  // ---------------------------------------------------------------------
  // Laws of the meaning
  // ---------------------------------------------------------------------

  /** A concatenation denotes the names that split into a part for each side. */
  lemma {:induction false} DenotesConcat(a: seq<Token>, b: seq<Token>, name: bytes)
    ensures Denotes(a + b, name) <==> exists k :: 0 <= k <= |name| && Denotes(a, name[..k]) && Denotes(b, name[k..])
    decreases |a|
  {
    if a == [] {
      assert a + b == b && name[..0] == [] && name[0..] == name;
      if k :| 0 <= k <= |name| && Denotes(a, name[..k]) && Denotes(b, name[k..]) {
        assert k == 0;
      }
    } else {
      assert (a + b)[1..] == a[1..] + b && (a + b)[0] == a[0];
      if Denotes(a + b, name) {
        SplitsExist(a, b, name);
      }
      if k :| 0 <= k <= |name| && Denotes(a, name[..k]) && Denotes(b, name[k..]) {
        PartsJoin(a, b, name, k);
      }
    }
  }

  lemma {:induction false} SplitsExist(a: seq<Token>, b: seq<Token>, name: bytes)
    requires a != [] && Denotes(a + b, name)
    ensures exists k :: 0 <= k <= |name| && Denotes(a, name[..k]) && Denotes(b, name[k..])
    decreases |a|, 0
  {
    assert (a + b)[1..] == a[1..] + b;
    var i := 1;
    if a[0].Star? {
      i :| 0 <= i <= |name| && Denotes((a + b)[1..], name[i..]);
    }
    var rest := name[i..];
    DenotesConcat(a[1..], b, rest);
    var k :| 0 <= k <= |rest| && Denotes(a[1..], rest[..k]) && Denotes(b, rest[k..]);
    assert rest[k..] == name[i + k..];
    assert name[..i + k][i..] == rest[..k];
    assert Denotes(a, name[..i + k]);
  }

  lemma {:induction false} PartsJoin(a: seq<Token>, b: seq<Token>, name: bytes, k: nat)
    requires a != [] && k <= |name| && Denotes(a, name[..k]) && Denotes(b, name[k..])
    ensures Denotes(a + b, name)
    decreases |a|, 0
  {
    assert (a + b)[1..] == a[1..] + b;
    var front := name[..k];
    var i := 1;
    if a[0].Star? {
      i :| 0 <= i <= |front| && Denotes(a[1..], front[i..]);
    }
    var rest := name[i..];
    assert rest[..k - i] == front[i..] && rest[k - i..] == name[k..];
    DenotesConcat(a[1..], b, rest);
  }

  /** Every character behind a backslash. */
  function Escaped(text: bytes): bytes {
    if text == [] then [] else [BACKSLASH, text[0]] + Escaped(text[1..])
  }

  /** An escaped text matches itself and nothing else, whatever characters it holds. */
  lemma {:induction false} EscapedMatchesItself(text: bytes, name: bytes)
    ensures Matches(Escaped(text), name) <==> name == text
    decreases |text|
  {
    if text != [] {
      var p := Escaped(text);
      assert p[2..] == Escaped(text[1..]);
      assert Tokens(p) == [Literal(text[0])] + Tokens(p[2..]);
      assert Tokens(p)[1..] == Tokens(p[2..]);
      if name != [] {
        EscapedMatchesItself(text[1..], name[1..]);
        assert name == [name[0]] + name[1..] && text == [text[0]] + text[1..];
      }
    }
  }

  /** A star in front of an escaped text matches exactly the names that end in it. */
  lemma StarMatchesSuffix(text: bytes, name: bytes)
    ensures Matches([STAR] + Escaped(text), name) <==> |text| <= |name| && name[|name| - |text|..] == text
  {
    var p := [STAR] + Escaped(text);
    assert p[1..] == Escaped(text);
    assert Tokens(p) == [Star] + Tokens(p[1..]);
    assert Tokens(p)[1..] == Tokens(Escaped(text));
    forall k | 0 <= k <= |name| ensures Denotes(Tokens(Escaped(text)), name[k..]) <==> name[k..] == text {
      EscapedMatchesItself(text, name[k..]);
    }
  }

  lemma StarTakesNothingOrOne(rest: seq<Token>, name: bytes)
    ensures Denotes([Star] + rest, name) <==> Denotes(rest, name) || (name != [] && Denotes([Star] + rest, name[1..]))
  {
    assert ([Star] + rest)[1..] == rest;
    assert name[0..] == name;
    if k :| 1 <= k <= |name| && Denotes(rest, name[k..]) {
      assert name[1..][k - 1..] == name[k..];
    }
    if name != [] {
      if k :| 0 <= k <= |name[1..]| && Denotes(rest, name[1..][k..]) {
        assert name[1..][k..] == name[k + 1..];
      }
    }
  }

  lemma StarStar(rest: seq<Token>, name: bytes)
    ensures Denotes([Star, Star] + rest, name) <==> Denotes([Star] + rest, name)
  {
    assert ([Star, Star] + rest)[1..] == [Star] + rest && ([Star] + rest)[1..] == rest;
    assert name[0..] == name;
    if k :| 0 <= k <= |name| && Denotes([Star] + rest, name[k..]) {
      var j :| 0 <= j <= |name[k..]| && Denotes(rest, name[k..][j..]);
      assert name[k..][j..] == name[k + j..];
    }
  }

  lemma StarAlone(name: bytes)
    ensures Denotes([Star], name)
  {
    assert name[|name|..] == [] && [Star][1..] == [];
  }

  // ---------------------------------------------------------------------
  // wildcard_match
  // ---------------------------------------------------------------------

  /** The class at p[i]: whether c is a member, and the index after its closing bracket. */
  method MatchClass(p: bytes, i: nat, c: byte) returns (matched: bool, negate: bool, next: nat)
    requires i < |p| && p[i] == OPEN && ClassEnd(p[i..]) < |p[i..]|
    ensures next == i + ClassEnd(p[i..]) + 1 <= |p|
    ensures negate == ClassToken(p[i..]).negate
    ensures matched == InClass(ClassToken(p[i..]).items, c)
  {
    hide Members, InClass;
    ghost var q := p[i..];
    ghost var end := i + ClassEnd(q);
    ghost var body := q[BodyAt(q)..ClassEnd(q)];
    var at := i + 1;
    assert p[at] == q[1];
    negate := p[at] == BANG;
    if negate {
      at := at + 1;
    }
    assert at == i + MembersAt(q) && p[at] == q[MembersAt(q)];
    matched := false;
    ghost var prefix := [];
    if p[at] == CLOSE {
      prefix := [One(CLOSE)];
      matched := c == CLOSE;
      at := at + 1;
    }
    PrefixMember(prefix, c);
    assert p[at..end] == body;
    assert forall k :: at <= k < end ==> p[k] == q[k - i];
    matched, next := MatchMembers(p, at, end, c, matched);
    InClassConcat(prefix, Members(body, NoLow), c);
    next := next + 1;
  }

  lemma PrefixMember(prefix: seq<Item>, c: byte)
    requires prefix == [] || prefix == [One(CLOSE)]
    ensures InClass(prefix, c) <==> prefix != [] && c == CLOSE
  {
    if prefix != [] {
      InClassOne(One(CLOSE), c);
    }
  }

  /** The members up to the closing bracket at `end`. */
  method MatchMembers(p: bytes, start: nat, ghost end: nat, c: byte, found: bool) returns (matched: bool, next: nat)
    requires start <= end < |p| && p[end] == CLOSE && forall k :: start <= k < end ==> p[k] != CLOSE
    ensures next == end
    ensures matched <==> found || InClass(Members(p[start..end], NoLow), c)
  {
    hide Members, InClass;
    var at := start;
    matched := found;
    var lo: byte := 0;
    var haveLo := false;
    while p[at] != CLOSE
      invariant start <= at <= end
      invariant matched || InClass(Members(p[at..end], if haveLo then Low(lo) else NoLow), c)
                <==> found || InClass(Members(p[start..end], NoLow), c)
      decreases end - at
    {
      ghost var rest := p[at..end];
      MembersStep(rest, if haveLo then Low(lo) else NoLow, c);
      assert rest[0] == p[at] && rest[1..] == p[at + 1..end];
      if p[at] == DASH && haveLo && p[at + 1] != CLOSE {
        assert rest[1] == p[at + 1] && rest[2..] == p[at + 2..end];
        at := at + 1;
        if Signed(c) >= Signed(lo) && Signed(c) <= Signed(p[at]) {
          matched := true;
        }
        haveLo := false;
      } else {
        if c == p[at] {
          matched := true;
        }
        lo := p[at];
        haveLo := true;
      }
      at := at + 1;
    }
    assert p[at..end] == [];
    NoMembers(if haveLo then Low(lo) else NoLow, c);
    next := at;
  }

  lemma NoMembers(low: Pending, c: byte)
    ensures !InClass(Members([], low), c)
  {
  }

  lemma InClassConcat(a: seq<Item>, b: seq<Item>, c: byte)
    ensures InClass(a + b, c) <==> InClass(a, c) || InClass(b, c)
  {
    if i :| 0 <= i < |a| && Covers(a[i], c) {
      assert Covers((a + b)[i], c);
    }
    if i :| 0 <= i < |b| && Covers(b[i], c) {
      assert Covers((a + b)[|a| + i], c);
    }
  }

  lemma InClassOne(item: Item, c: byte)
    ensures InClass([item], c) <==> Covers(item, c)
  {
    assert [item][0] == item;
  }

  lemma MembersStep(body: bytes, low: Pending, c: byte)
    requires body != []
    ensures InClass(Members(body, low), c) <==>
      if body[0] == DASH && low.Low? && |body| > 1
      then Covers(Range(low.c, body[1]), c) || InClass(Members(body[2..], NoLow), c)
      else Covers(One(body[0]), c) || InClass(Members(body[1..], Low(body[0])), c)
  {
    if body[0] == DASH && low.Low? && |body| > 1 {
      InClassOne(Range(low.c, body[1]), c);
      InClassConcat([Range(low.c, body[1])], Members(body[2..], NoLow), c);
    } else {
      InClassOne(One(body[0]), c);
      InClassConcat([One(body[0])], Members(body[1..], Low(body[0])), c);
    }
  }

  /** The scan for the closing bracket: whether the class at p[i] is terminated. */
  method IsTerminated(p: bytes, i: nat) returns (b: bool)
    requires i < |p| && p[i] == OPEN
    ensures b <==> ClassEnd(p[i..]) < |p[i..]|
  {
    ghost var q := p[i..];
    var scan := i + 1;
    if scan < |p| && p[scan] == BANG {
      scan := scan + 1;
    }
    if scan < |p| && p[scan] == CLOSE {
      scan := scan + 1;
    }
    assert scan == i + BodyAt(q);
    while scan < |p| && p[scan] != CLOSE
      invariant i + BodyAt(q) <= scan <= |p|
      invariant forall k :: BodyAt(q) <= k < scan - i ==> q[k] != CLOSE
    {
      scan := scan + 1;
    }
    return scan < |p|;
  }

  lemma OneCharacter(t: Token, rest: seq<Token>, name: bytes)
    requires !t.Star?
    ensures Denotes([t] + rest, name) <==> name != [] && Accepts(t, name[0]) && Denotes(rest, name[1..])
  {
    assert ([t] + rest)[1..] == rest;
  }

  lemma Drop(s: bytes, i: nat)
    requires i < |s|
    ensures s[i..][0] == s[i] && s[i..][1..] == s[i + 1..]
    ensures forall k :: 0 <= k <= |s| - i ==> s[i..][k..] == s[i + k..]
  {
  }

  /** wildcard_match decides the meaning of the pattern, on every pattern and every name. */
  method WildcardMatch(pattern: bytes, name: bytes) returns (b: bool)
    ensures b <==> Matches(pattern, name)
  {
    b := MatchFrom(pattern, 0, name, 0);
    assert pattern[0..] == pattern && name[0..] == name;
  }

  method MatchFrom(pattern: bytes, from: nat, name: bytes, at: nat) returns (b: bool)
    requires from <= |pattern| && at <= |name|
    ensures b <==> Matches(pattern[from..], name[at..])
    decreases |pattern| - from
  {
    hide Matches, Tokens, Denotes, Accepts, ClassEnd, ClassToken;
    var i, j := from, at;
    while i < |pattern|
      invariant from <= i <= |pattern| && at <= j <= |name|
      invariant Matches(pattern[i..], name[j..]) <==> Matches(pattern[from..], name[at..])
      decreases |pattern| - i
    {
      if pattern[i] == STAR {
        b := MatchStar(pattern, from, i, name, j);
        return;
      }
      var next;
      b, next := MatchOne(pattern, i, name, j);
      if !b { return; }
      i, j := next, j + 1;
    }
    b := j == |name|;
    EndOfPattern(pattern[i..], name[j..]);
  }

  lemma EndOfPattern(pattern: bytes, name: bytes)
    requires pattern == []
    ensures Matches(pattern, name) <==> name == []
  {
  }

  /** Everything but '*': one character of the name against one element of the pattern. */
  method MatchOne(pattern: bytes, i: nat, name: bytes, j: nat) returns (b: bool, next: nat)
    requires i < |pattern| && j <= |name| && pattern[i] != STAR
    ensures b ==> i < next <= |pattern| && j < |name|
    ensures b ==> (Matches(pattern[i..], name[j..]) <==> Matches(pattern[next..], name[j + 1..]))
    ensures !b ==> !Matches(pattern[i..], name[j..])
  {
    hide ClassEnd, Denotes, ClassToken, Tokens, InClass;
    ghost var p, n := pattern[i..], name[j..];
    Drop(pattern, i);
    if j < |name| { Drop(name, j); }
    next := i + 1;
    if pattern[i] == QUESTION {
      FirstToken(p, Any, 1);
      OneCharacter(Any, Tokens(p[1..]), n);
      b := j < |name|;
    } else if pattern[i] == OPEN {
      var terminated := IsTerminated(pattern, i);
      if !terminated {
        FirstToken(p, Literal(OPEN), 1);
        OneCharacter(Literal(OPEN), Tokens(p[1..]), n);
        b := j < |name| && name[j] == OPEN;
      } else {
        FirstToken(p, ClassToken(p), ClassEnd(p) + 1);
        OneCharacter(ClassToken(p), Tokens(p[ClassEnd(p) + 1..]), n);
        if j == |name| { return false, i; }
        b, next := MatchClassOnce(pattern, i, name[j]);
      }
    } else {
      if pattern[i] == BACKSLASH {
        if i + 1 == |pattern| {
          NeverMatches(p, n);
          return false, i;
        }
        next := i + 2;
      }
      FirstToken(p, Literal(pattern[next - 1]), next - i);
      OneCharacter(Literal(pattern[next - 1]), Tokens(p[next - i..]), n);
      b := j < |name| && pattern[next - 1] == name[j];
    }
  }

  method MatchClassOnce(pattern: bytes, i: nat, c: byte) returns (b: bool, next: nat)
    requires i < |pattern| && pattern[i] == OPEN && ClassEnd(pattern[i..]) < |pattern[i..]|
    ensures next == i + ClassEnd(pattern[i..]) + 1 <= |pattern|
    ensures b == Accepts(ClassToken(pattern[i..]), c)
  {
    hide ClassEnd, ClassToken, InClass;
    var matched, negate;
    matched, negate, next := MatchClass(pattern, i, c);
    b := matched != negate;
  }

  /** How the pattern's first token is read, outside '*'. */
  lemma FirstToken(p: bytes, t: Token, n: nat)
    requires p != [] && n <= |p|
    requires (p[0] == QUESTION && t == Any && n == 1)
      || (p[0] == OPEN && ClassEnd(p) < |p| && t == ClassToken(p) && n == ClassEnd(p) + 1)
      || (p[0] == OPEN && ClassEnd(p) == |p| && t == Literal(OPEN) && n == 1)
      || (p[0] == BACKSLASH && |p| > 1 && t == Literal(p[1]) && n == 2)
      || (p[0] !in {STAR, QUESTION, OPEN, BACKSLASH} && t == Literal(p[0]) && n == 1)
    ensures Tokens(p) == [t] + Tokens(p[n..])
  {
    hide ClassEnd, ClassToken;
  }

  lemma NeverMatches(p: bytes, name: bytes)
    requires p == [BACKSLASH]
    ensures !Matches(p, name)
  {
  }

  /** '*': skip the run of stars, then try every rest of the name. */
  method MatchStar(pattern: bytes, ghost from: nat, start: nat, name: bytes, j: nat) returns (b: bool)
    requires from <= start < |pattern| && j <= |name| && pattern[start] == STAR
    ensures b <==> Matches(pattern[start..], name[j..])
    decreases |pattern| - from, 0
  {
    hide Tokens, Denotes;
    var i := start + 1;
    ghost var n := name[j..];
    Drop(pattern, start);
    StarFirst(pattern[start..]);
    while i < |pattern| && pattern[i] == STAR
      invariant start < i <= |pattern|
      invariant Denotes([Star] + Tokens(pattern[i..]), n) <==> Matches(pattern[start..], n)
    {
      Drop(pattern, i);
      StarFirst(pattern[i..]);
      StarStar(Tokens(pattern[i + 1..]), n);
      assert [Star] + ([Star] + Tokens(pattern[i + 1..])) == [Star, Star] + Tokens(pattern[i + 1..]);
      i := i + 1;
    }
    ghost var rest := Tokens(pattern[i..]);
    if i == |pattern| {
      NoTokens(pattern[i..]);
      assert [Star] + rest == [Star];
      StarAlone(n);
      return true;
    }
    var k := j;
    while true
      invariant j <= k <= |name|
      invariant Denotes([Star] + rest, n) <==> Denotes([Star] + rest, name[k..])
      decreases |name| - k
    {
      b := MatchFrom(pattern, i, name, k);
      StarTakesNothingOrOne(rest, name[k..]);
      if b { return true; }
      if k == |name| { return false; }
      Drop(name, k);
      k := k + 1;
    }
  }

  lemma StarFirst(p: bytes)
    requires p != [] && p[0] == STAR
    ensures Tokens(p) == [Star] + Tokens(p[1..])
  {
  }

  lemma NoTokens(p: bytes)
    requires p == []
    ensures Tokens(p) == []
  {
  }
}
