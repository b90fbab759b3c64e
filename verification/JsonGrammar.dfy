/**
 * The language of the JSON parser of src/cli/package.cpp: a text is accepted exactly if
 * it is laid out as a tree of values, and then its value is that of the tree.
 */
module JsonGrammar {
  import opened JsonFormat
  import opened JsonRoundTrip
  import opened JsonLaws

  // ---------------------------------------------------------------------
  // Trees
  // ---------------------------------------------------------------------

  datatype Tree =
    | Word(word: string)
    | Digits(text: string)
    | Literal(pieces: seq<Piece>, value: string)
    | EmptyArray(gap: string)
    | ArrayOf(elements: Elements)
    | EmptyObject(gap: string)
    | ObjectOf(members: Members)

  datatype Elements =
    | LastElement(before: string, tree: Tree, after: string)
    | Element(before: string, tree: Tree, after: string, more: Elements)

  datatype Key = Key(before: string, pieces: seq<Piece>, name: string, after: string)

  datatype Members =
    | LastMember(key: Key, gap: string, tree: Tree, after: string)
    | Member(key: Key, gap: string, tree: Tree, after: string, more: Members)

  ghost predicate Blanks(s: string) {
    forall i :: 0 <= i < |s| ==> s[i] in BLANKS
  }

  ghost predicate NumberText(s: string) {
    && s != "" && (s[0] == '-' || s[0] in DIGITS)
    && forall i :: 0 <= i < |s| ==> s[i] in NUMBER_CHARACTERS
  }

  function TreeText(t: Tree): string {
    match t
    case Word(word) => word
    case Digits(text) => text
    case Literal(pieces, _) => "\"" + PiecesText(pieces) + "\""
    case EmptyArray(gap) => "[" + gap + "]"
    case ArrayOf(es) => "[" + ElementsText(es) + "]"
    case EmptyObject(gap) => "{" + gap + "}"
    case ObjectOf(ms) => "{" + MembersText(ms) + "}"
  }

  function ElementsText(es: Elements): string {
    match es
    case LastElement(before, tree, after) => before + TreeText(tree) + after
    case Element(before, tree, after, more) => before + TreeText(tree) + after + "," + ElementsText(more)
  }

  function KeyText(k: Key): string {
    k.before + "\"" + PiecesText(k.pieces) + "\"" + k.after + ":"
  }

  function MembersText(ms: Members): string {
    match ms
    case LastMember(key, gap, tree, after) => KeyText(key) + gap + TreeText(tree) + after
    case Member(key, gap, tree, after, more) => KeyText(key) + gap + TreeText(tree) + after + "," + MembersText(more)
  }

  function TreeValue(t: Tree): JsonValue {
    match t
    case Word(word) => if word == "true" then Bool(true) else if word == "false" then Bool(false) else Null
    case Digits(text) => Number(text)
    case Literal(_, value) => String(value)
    case EmptyArray(_) => Array([])
    case ArrayOf(es) => Array(ElementValues(es))
    case EmptyObject(_) => Object([])
    case ObjectOf(ms) => Object(MemberValues(ms))
  }

  function ElementValues(es: Elements): seq<JsonValue> {
    match es
    case LastElement(_, tree, _) => [TreeValue(tree)]
    case Element(_, tree, _, more) => [TreeValue(tree)] + ElementValues(more)
  }

  function MemberValues(ms: Members): seq<(string, JsonValue)> {
    match ms
    case LastMember(key, _, tree, _) => [(key.name, TreeValue(tree))]
    case Member(key, _, tree, _, more) => [(key.name, TreeValue(tree))] + MemberValues(more)
  }

  ghost predicate Good(t: Tree) {
    match t
    case Word(word) => word in ["true", "false", "null"]
    case Digits(text) => NumberText(text)
    case Literal(pieces, value) => Spells(pieces, value)
    case EmptyArray(gap) => Blanks(gap)
    case ArrayOf(es) => GoodElements(es)
    case EmptyObject(gap) => Blanks(gap)
    case ObjectOf(ms) => GoodMembers(ms)
  }

  ghost predicate GoodElements(es: Elements) {
    && Blanks(es.before) && Blanks(es.after) && Good(es.tree)
    && (es.Element? ==> GoodElements(es.more))
  }

  ghost predicate GoodKey(k: Key) {
    Blanks(k.before) && Blanks(k.after) && Spells(k.pieces, k.name)
  }

  ghost predicate GoodMembers(ms: Members) {
    && GoodKey(ms.key) && Blanks(ms.gap) && Blanks(ms.after) && Good(ms.tree)
    && (ms.Member? ==> GoodMembers(ms.more))
  }

  /** A number goes on as long as number characters follow. */
  ghost predicate Ends(t: Tree, rest: string) {
    t.Digits? && rest != "" ==> rest[0] !in NUMBER_CHARACTERS
  }

  // ---------------------------------------------------------------------
  // What is laid out is read
  // ---------------------------------------------------------------------

  lemma BlanksAreBlank(s: string)
    ensures Blanks(s) <==> Blank(s)
  {
    forall i | 0 <= i < |s| ensures s[i] in BLANKS <==> IsSpace(s[i]) {
      BlankIff(s[i]);
    }
  }

  lemma SkipBlanks(ws: string, s: string)
    requires Blanks(ws) && (s == "" || s[0] !in BLANKS)
    ensures SkipWs(ws + s) == s
  {
    hide SkipWs, IsSpace;
    BlanksAreBlank(ws);
    if s != "" {
      BlankIff(s[0]);
    }
    SkipBlank(ws, s);
  }

  /** Characters that begin a value are neither blank nor a closing bracket. */
  lemma ValueStart(c: char)
    requires c in "{[\"tfn-" || c in DIGITS
    ensures c !in BLANKS && c !in "]}"
  {
    assert "{[\"tfn-" == ['{', '[', '\"', 't', 'f', 'n', '-'] && "]}" == [']', '}'];
    BlankIff(c);
    DigitIff(c);
  }

  lemma TreeStart(t: Tree)
    requires Good(t)
    ensures TreeText(t) != "" && TreeText(t)[0] !in BLANKS && TreeText(t)[0] !in "]}"
  {
    hide Spells, PiecesText, ElementsText, MembersText;
    assert "{[\"tfn-" == ['{', '[', '\"', 't', 'f', 'n', '-'];
    assert TreeText(t) != "" && (TreeText(t)[0] in "{[\"tfn-" || TreeText(t)[0] in DIGITS);
    ValueStart(TreeText(t)[0]);
  }

  lemma LiteralRead(pieces: seq<Piece>, value: string, rest: string)
    requires Spells(pieces, value)
    ensures ParseString("\"" + PiecesText(pieces) + "\"" + rest) == Yes(value, rest)
  {
    hide Spells, PiecesText, ParseString;
    LiteralIff("\"" + PiecesText(pieces) + "\"" + rest, value, rest);
  }

  lemma {:induction false} TreeRead(t: Tree, rest: string)
    requires Good(t) && Ends(t, rest)
    ensures ParseToken(TreeText(t) + rest) == Yes(TreeValue(t), rest)
    decreases t, 0
  {
    hide ParseToken, SkipWs, Spells, PiecesText, ParseString, ParseItems, ParseMembers;
    var s := TreeText(t) + rest;
    match t {
      case Word(word) =>
        WordRead(word, rest);
      case Digits(text) =>
        NumberTextRead(text, rest);
      case Literal(pieces, value) =>
        LiteralRead(pieces, value, rest);
        StringStep(s);
      case EmptyArray(gap) =>
        EmptyArrayRead(gap, rest);
      case EmptyObject(gap) =>
        EmptyObjectRead(gap, rest);
      case ArrayOf(es) =>
        assert s[1..] == ElementsText(es) + ("]" + rest);
        ElementsRead(es, rest, []);
        ArrayStep(s);
        assert [] + ElementValues(es) == ElementValues(es);
      case ObjectOf(ms) =>
        assert s[1..] == MembersText(ms) + ("}" + rest);
        MembersRead(ms, rest, []);
        ObjectStep(s);
        assert [] + MemberValues(ms) == MemberValues(ms);
    }
  }

  /** One value between blanks. */
  lemma {:induction false} BetweenBlanks(before: string, t: Tree, after: string, tail: string)
    requires Blanks(before) && Blanks(after) && Good(t) && tail != "" && tail[0] in ",]}"
    ensures ParseValue(before + TreeText(t) + after + tail) == Yes(TreeValue(t), after + tail)
    ensures SkipWs(after + tail) == tail
    ensures var s := SkipWs(before + TreeText(t) + after + tail); s != "" && s[0] !in "]}"
    decreases t, 1
  {
    hide ParseToken, SkipWs, TreeText, Good;
    TreeStart(t);
    Punctuation(tail[0]);
    assert before + TreeText(t) + after + tail == before + (TreeText(t) + (after + tail));
    SkipBlanks(before, TreeText(t) + (after + tail));
    SkipBlanks(after, tail);
    NoNumberGoesOn(after, tail);
    TreeRead(t, after + tail);
  }

  lemma Punctuation(c: char)
    requires c in ",]}"
    ensures c !in BLANKS && c !in NUMBER_CHARACTERS
  {
    assert ",]}" == [',', ']', '}'];
    BlankIff(c);
    DigitIff(c);
    assert ".eE+-" == ['.', 'e', 'E', '+', '-'];
  }

  lemma NoNumberGoesOn(after: string, tail: string)
    requires Blanks(after) && tail != "" && tail[0] !in NUMBER_CHARACTERS
    ensures (after + tail)[0] !in NUMBER_CHARACTERS
  {
    if after != "" {
      BlankIff(after[0]);
      DigitIff(after[0]);
      assert ".eE+-" == ['.', 'e', 'E', '+', '-'];
    }
  }

  lemma ElementsSplit(es: Elements, rest: string) returns (tail: string)
    ensures ElementsText(es) + ("]" + rest) == es.before + TreeText(es.tree) + es.after + tail
    ensures tail != "" && tail[0] in ",]}"
    ensures es.LastElement? ==> tail[1..] == rest && tail[0] == ']'
    ensures es.Element? ==> tail[0] == ',' && tail[1..] == ElementsText(es.more) + ("]" + rest)
  {
    hide TreeText;
    assert ",]}" == [',', ']', '}'];
    tail := if es.LastElement? then "]" + rest else "," + (ElementsText(es.more) + ("]" + rest));
    var first := es.before + TreeText(es.tree) + es.after;
    if es.Element? {
      assert ElementsText(es) == first + ("," + ElementsText(es.more));
    }
  }

  lemma ElementValuesStep(es: Elements, acc: seq<JsonValue>)
    ensures var read := acc + [TreeValue(es.tree)];
      acc + ElementValues(es) == if es.Element? then read + ElementValues(es.more) else read
  {
    hide TreeValue;
  }

  lemma {:induction false} ElementsRead(es: Elements, rest: string, acc: seq<JsonValue>)
    requires GoodElements(es)
    ensures var s := ElementsText(es) + ("]" + rest);
      && ParseItems(s, acc) == Yes(Array(acc + ElementValues(es)), rest)
      && ParseItems(SkipWs(s), acc) == Yes(Array(acc + ElementValues(es)), rest)
      && !StartsWith(SkipWs(s), ']')
    decreases es
  {
    var tail := ElementsSplit(es, rest);
    hide ParseItems, ParseValue, SkipWs, TreeText, TreeValue, Good, Blanks, ElementsText, ElementValues;
    var s := ElementsText(es) + ("]" + rest);
    BetweenBlanks(es.before, es.tree, es.after, tail);
    SkipBeforeValue(s);
    ItemsStep(s, acc);
    ItemsStep(SkipWs(s), acc);
    ElementValuesStep(es, acc);
    if es.Element? {
      ElementsRead(es.more, rest, acc + [TreeValue(es.tree)]);
    }
  }

  lemma KeyRead(k: Key, more: string)
    requires GoodKey(k)
    ensures ParseString(SkipWs(KeyText(k) + more)) == Yes(k.name, k.after + (":" + more))
    ensures SkipWs(k.after + (":" + more)) == ":" + more
    ensures StartsWith(SkipWs(KeyText(k) + more), '\"')
  {
    hide ParseString, SkipWs, Spells, PiecesText, Blanks;
    var literal := "\"" + PiecesText(k.pieces) + "\"" + (k.after + (":" + more));
    assert KeyText(k) + more == k.before + literal;
    BlankIff('\"');
    BlankIff(':');
    SkipBlanks(k.before, literal);
    SkipBlanks(k.after, ":" + more);
    LiteralRead(k.pieces, k.name, k.after + (":" + more));
  }

  lemma MemberRead(k: Key, more: string, v: JsonValue, rest: string)
    requires GoodKey(k) && ParseValue(more) == Yes(v, rest)
    ensures ParseMember(KeyText(k) + more) == Yes((k.name, v), rest)
    ensures StartsWith(SkipWs(KeyText(k) + more), '\"')
  {
    hide ParseString, ParseValue, SkipWs, GoodKey, KeyText;
    KeyRead(k, more);
    assert (":" + more)[1..] == more;
  }

  lemma MembersSplit(ms: Members, rest: string) returns (tail: string)
    ensures MembersText(ms) + ("}" + rest) == KeyText(ms.key) + (ms.gap + TreeText(ms.tree) + ms.after + tail)
    ensures tail != "" && tail[0] in ",]}"
    ensures ms.LastMember? ==> tail == "}" + rest && tail[1..] == rest && tail[0] == '}'
    ensures ms.Member? ==> tail[0] == ',' && tail[1..] == MembersText(ms.more) + ("}" + rest)
  {
    hide KeyText, TreeText;
    assert ",]}" == [',', ']', '}'];
    tail := if ms.LastMember? then "}" + rest else "," + (MembersText(ms.more) + ("}" + rest));
    var first := ms.gap + TreeText(ms.tree) + ms.after;
    if ms.LastMember? {
      assert MembersText(ms) + tail == KeyText(ms.key) + (first + tail);
    } else {
      assert MembersText(ms) == KeyText(ms.key) + first + ("," + MembersText(ms.more));
    }
  }

  lemma MemberValuesStep(ms: Members, acc: seq<(string, JsonValue)>)
    ensures var read := acc + [(ms.key.name, TreeValue(ms.tree))];
      acc + MemberValues(ms) == if ms.Member? then read + MemberValues(ms.more) else read
  {
    hide TreeValue;
  }

  lemma {:induction false} MembersRead(ms: Members, rest: string, acc: seq<(string, JsonValue)>)
    requires GoodMembers(ms)
    ensures var s := MembersText(ms) + ("}" + rest);
      && ParseMembers(s, acc) == Yes(Object(acc + MemberValues(ms)), rest)
      && ParseMembers(SkipWs(s), acc) == Yes(Object(acc + MemberValues(ms)), rest)
      && !StartsWith(SkipWs(s), '}')
    decreases ms
  {
    var tail := MembersSplit(ms, rest);
    hide ParseMembers, ParseMember, ParseValue, SkipWs, TreeText, TreeValue, Good, Blanks, KeyText, GoodKey, MembersText;
    var s := MembersText(ms) + ("}" + rest);
    BetweenBlanks(ms.gap, ms.tree, ms.after, tail);
    MemberRead(ms.key, ms.gap + TreeText(ms.tree) + ms.after + tail, TreeValue(ms.tree), ms.after + tail);
    SkipBeforeMember(s);
    MembersStep(s, acc);
    MembersStep(SkipWs(s), acc);
    var m := (ms.key.name, TreeValue(ms.tree));
    MemberValuesStep(ms, acc);
    hide MemberValues;
    if ms.Member? {
      MembersRead(ms.more, rest, acc + [m]);
    }
  }

  // ---------------------------------------------------------------------
  // What is read was laid out
  // ---------------------------------------------------------------------

  lemma SkipStep(s: string)
    ensures SkipWs(s) == if s != "" && IsSpace(s[0]) then SkipWs(s[1..]) else s
  {
  }

  lemma BlankCons(c: char, more: string)
    requires Blank(more) && IsSpace(c)
    ensures Blank([c] + more)
  {
    hide IsSpace;
  }

  lemma Cons(s: string, more: string, rest: string)
    requires s != "" && s[1..] == more + rest
    ensures s == [s[0]] + more + rest
  {
  }

  lemma {:induction false} SplitBlank(s: string) returns (ws: string)
    ensures s == ws + SkipWs(s) && Blank(ws)
    decreases |s|
  {
    hide SkipWs, IsSpace;
    SkipStep(s);
    if s != "" && IsSpace(s[0]) {
      var more := SplitBlank(s[1..]);
      hide Blank;
      ws := [s[0]] + more;
      BlankCons(s[0], more);
      Cons(s, more, SkipWs(s));
    } else {
      ws := "";
    }
  }

  lemma SkipSplit(s: string) returns (ws: string)
    ensures s == ws + SkipWs(s) && Blanks(ws)
    ensures SkipWs(s) != "" ==> SkipWs(s)[0] !in BLANKS
  {
    hide SkipWs, IsSpace, Blank, Blanks;
    ws := SplitBlank(s);
    BlanksAreBlank(ws);
    if SkipWs(s) != "" {
      BlankIff(SkipWs(s)[0]);
    }
  }

  lemma {:induction false} RunIsNumberText(s: string)
    ensures forall i :: 0 <= i < NumberRun(s) ==> s[i] in NUMBER_CHARACTERS
    ensures NumberRun(s) < |s| ==> s[NumberRun(s)] !in NUMBER_CHARACTERS
    decreases |s|
  {
    if s != "" {
      DigitIff(s[0]);
      if IsNumberChar(s[0]) {
        RunIsNumberText(s[1..]);
        forall i | 0 <= i < NumberRun(s) ensures s[i] in NUMBER_CHARACTERS {
          assert i > 0 ==> s[i] == s[1..][i - 1];
        }
      }
    }
  }

  lemma NumberTree(s: string) returns (t: Tree)
    requires s != "" && (s[0] == '-' || IsDigit(s[0]))
    ensures t == Digits(s[..NumberRun(s)]) && Good(t) && Ends(t, s[NumberRun(s)..])
  {
    DigitIff(s[0]);
    assert NUMBER_CHARACTERS == DIGITS + ".eE+-" && ".eE+-"[4] == '-';
    assert IsNumberChar(s[0]);
    RunIsNumberText(s);
    t := Digits(s[..NumberRun(s)]);
  }

  lemma WordTree(s: string) returns (t: Tree)
    requires s != "" && s[0] !in "{[\"-" && !IsDigit(s[0]) && ParseToken(s).Yes?
    ensures t.Word? && Good(t) && TreeValue(t) == ParseToken(s).value && s == TreeText(t) + ParseToken(s).rest
  {
    hide ParseToken;
    WordStep(s);
    var word := if HasPrefix(s, "true") then "true" else if HasPrefix(s, "false") then "false" else "null";
    assert s == s[..|word|] + s[|word|..];
    t := Word(word);
  }

  lemma LiteralTree(s: string) returns (pieces: seq<Piece>)
    requires ParseString(s).Yes?
    ensures Spells(pieces, ParseString(s).value)
    ensures s == "\"" + PiecesText(pieces) + "\"" + ParseString(s).rest
  {
    hide ParseString, Spells, PiecesText;
    LiteralIff(s, ParseString(s).value, ParseString(s).rest);
    pieces :| Spells(pieces, ParseString(s).value) && s == "\"" + PiecesText(pieces) + "\"" + ParseString(s).rest;
  }

  lemma {:induction false} ValueTree(s: string) returns (ws: string, t: Tree)
    requires ParseValue(s).Yes?
    ensures Blanks(ws) && Good(t) && TreeValue(t) == ParseValue(s).value
    ensures s == ws + TreeText(t) + ParseValue(s).rest && Ends(t, ParseValue(s).rest)
    decreases |s|, 1
  {
    hide ParseToken, SkipWs, Good, TreeText, TreeValue, Ends;
    ws := SkipSplit(s);
    t := TokenTree(SkipWs(s));
    Grouped(ws, TreeText(t), ParseValue(s).rest);
  }

  lemma {:induction false} TokenTree(s: string) returns (t: Tree)
    requires ParseToken(s).Yes?
    ensures Good(t) && TreeValue(t) == ParseToken(s).value
    ensures s == TreeText(t) + ParseToken(s).rest && Ends(t, ParseToken(s).rest)
    decreases |s|, 0
  {
    hide SkipWs, ParseString, ParseMembers, ParseItems, NumberRun, HasPrefix, Spells, PiecesText;
    if s[0] == '{' {
      t := ObjectTree(s);
    } else if s[0] == '[' {
      t := ArrayTree(s);
    } else if s[0] == '\"' {
      var pieces := LiteralTree(s);
      t := Literal(pieces, ParseString(s).value);
    } else if s[0] == '-' || IsDigit(s[0]) {
      NumberStep(s);
      t := NumberTree(s);
    } else {
      assert "{[\"-" == ['{', '[', '\"', '-'];
      t := WordTree(s);
    }
  }

  lemma Closed(s: string, left: string, middle: string, right: string, rest: string)
    requires s != "" && left == [s[0]] && s[1..] == middle + (right + rest)
    ensures s == left + middle + right + rest
  {
  }

  lemma ArrayTrees(gap: string, es: Elements)
    ensures Good(EmptyArray(gap)) == Blanks(gap) && TreeText(EmptyArray(gap)) == "[" + gap + "]"
    ensures TreeValue(EmptyArray(gap)) == Array([])
    ensures Good(ArrayOf(es)) == GoodElements(es) && TreeText(ArrayOf(es)) == "[" + ElementsText(es) + "]"
    ensures TreeValue(ArrayOf(es)) == Array(ElementValues(es))
  {
    hide Blanks, GoodElements, ElementsText, ElementValues;
  }

  lemma ObjectTrees(gap: string, ms: Members)
    ensures Good(EmptyObject(gap)) == Blanks(gap) && TreeText(EmptyObject(gap)) == "{" + gap + "}"
    ensures TreeValue(EmptyObject(gap)) == Object([])
    ensures Good(ObjectOf(ms)) == GoodMembers(ms) && TreeText(ObjectOf(ms)) == "{" + MembersText(ms) + "}"
    ensures TreeValue(ObjectOf(ms)) == Object(MemberValues(ms))
  {
    hide Blanks, GoodMembers, MembersText, MemberValues;
  }

  lemma {:induction false} ArrayTree(s: string) returns (t: Tree)
    requires StartsWith(s, '[') && ParseToken(s).Yes?
    ensures Good(t) && TreeValue(t) == ParseToken(s).value && !t.Digits?
    ensures s == TreeText(t) + ParseToken(s).rest
    decreases |s|, 0, 0
  {
    hide ParseToken, SkipWs, ParseItems, ElementsText, ElementValues, GoodElements, Blanks, Good, TreeText, TreeValue;
    ArrayStep(s);
    var u, rest := SkipWs(s[1..]), ParseToken(s).rest;
    if StartsWith(u, ']') {
      var gap := SkipSplit(s[1..]);
      t := EmptyArray(gap);
      ArrayTrees(gap, LastElement("", t, ""));
      assert u == "]" + rest;
      Closed(s, "[", gap, "]", rest);
    } else {
      SkipBeforeItems(s[1..], []);
      var es := ElementsTree(s[1..], []);
      t := ArrayOf(es);
      ArrayTrees("", es);
      assert [] + ElementValues(es) == ElementValues(es);
      Closed(s, "[", ElementsText(es), "]", rest);
    }
  }

  lemma {:induction false} ObjectTree(s: string) returns (t: Tree)
    requires StartsWith(s, '{') && ParseToken(s).Yes?
    ensures Good(t) && TreeValue(t) == ParseToken(s).value && !t.Digits?
    ensures s == TreeText(t) + ParseToken(s).rest
    decreases |s|, 0, 0
  {
    hide ParseToken, SkipWs, ParseMembers, MembersText, MemberValues, GoodMembers, Blanks, Good, TreeText, TreeValue;
    ObjectStep(s);
    var u, rest := SkipWs(s[1..]), ParseToken(s).rest;
    if StartsWith(u, '}') {
      var gap := SkipSplit(s[1..]);
      t := EmptyObject(gap);
      ObjectTrees(gap, LastMember(Key("", [], "", ""), "", t, ""));
      assert u == "}" + rest;
      Closed(s, "{", gap, "}", rest);
    } else {
      SkipBeforeMembers(s[1..], []);
      var ms := MembersTree(s[1..], []);
      t := ObjectOf(ms);
      ObjectTrees("", ms);
      assert [] + MemberValues(ms) == MemberValues(ms);
      Closed(s, "{", MembersText(ms), "}", rest);
    }
  }

  lemma SkipBeforeItems(s: string, acc: seq<JsonValue>)
    ensures ParseItems(SkipWs(s), acc) == ParseItems(s, acc)
  {
    hide ParseItems, ParseValue, SkipWs;
    SkipBeforeValue(s);
    ItemsStep(s, acc);
    ItemsStep(SkipWs(s), acc);
  }

  lemma SkipBeforeMembers(s: string, acc: seq<(string, JsonValue)>)
    ensures ParseMembers(SkipWs(s), acc) == ParseMembers(s, acc)
  {
    hide ParseMembers, ParseMember, SkipWs;
    SkipBeforeMember(s);
    MembersStep(s, acc);
    MembersStep(SkipWs(s), acc);
  }

  lemma ElementsTextIs(es: Elements, close: string)
    ensures var first := es.before + TreeText(es.tree) + es.after;
      ElementsText(es) + close == first + (if es.Element? then "," + (ElementsText(es.more) + close) else close)
  {
    hide TreeText;
    if es.Element? {
      JoinedTail(es.before + TreeText(es.tree) + es.after, ElementsText(es.more), close);
    }
  }

  lemma {:induction false} ElementsTree(s: string, acc: seq<JsonValue>) returns (es: Elements)
    requires ParseItems(s, acc).Yes?
    ensures GoodElements(es) && ParseItems(s, acc).value == Array(acc + ElementValues(es))
    ensures s == ElementsText(es) + ("]" + ParseItems(s, acc).rest)
    decreases |s|, 2
  {
    hide ParseItems, ParseValue, SkipWs, Good, TreeText, TreeValue, Ends, Blanks, ElementsText, ElementValues;
    ItemsStep(s, acc);
    ValueIsShorter(s);
    var before, tree := ValueTree(s);
    var after := SkipSplit(ParseValue(s).rest);
    var u := SkipWs(ParseValue(s).rest);
    assert u == [u[0]] + u[1..];
    if StartsWith(u, ',') {
      var more := ElementsTree(u[1..], acc + [TreeValue(tree)]);
      es := Element(before, tree, after, more);
    } else {
      es := LastElement(before, tree, after);
    }
    ElementValuesStep(es, acc);
    ElementsTextIs(es, "]" + ParseItems(s, acc).rest);
    Grouped(before + TreeText(tree), after, u);
  }

  lemma ValueIsShorter(s: string)
    requires ParseValue(s).Yes?
    ensures |SkipWs(ParseValue(s).rest)| <= |ParseValue(s).rest| < |s|
  {
  }

  lemma JoinedTail(first: string, more: string, close: string)
    ensures first + "," + more + close == first + ("," + (more + close))
  {
  }

  lemma {:induction false} KeyTree(s: string) returns (key: Key, value: string)
    requires ParseMember(s).Yes?
    ensures GoodKey(key) && key.name == ParseMember(s).value.0
    ensures s == KeyText(key) + value && |value| < |s|
    ensures ParseValue(value) == Yes(ParseMember(s).value.1, ParseMember(s).rest)
  {
    hide ParseString, ParseValue, SkipWs, Spells, PiecesText, Blanks;
    var before := SkipSplit(s);
    var u := SkipWs(s);
    var pieces := LiteralTree(u);
    var rest := ParseString(u).rest;
    var after := SkipSplit(rest);
    value := SkipWs(rest)[1..];
    assert SkipWs(rest) == ":" + value;
    key := Key(before, pieces, ParseString(u).value, after);
    assert KeyText(key) + value == before + ("\"" + PiecesText(pieces) + "\"" + (after + (":" + value)));
  }

  lemma {:induction false} MembersTree(s: string, acc: seq<(string, JsonValue)>) returns (ms: Members)
    requires ParseMembers(s, acc).Yes?
    ensures GoodMembers(ms) && ParseMembers(s, acc).value == Object(acc + MemberValues(ms))
    ensures s == MembersText(ms) + ("}" + ParseMembers(s, acc).rest)
    decreases |s|, 2
  {
    hide ParseMembers, ParseMember, ParseValue, SkipWs, Good, TreeText, TreeValue, Ends, Blanks, KeyText, GoodKey;
    hide MembersText, MemberValues;
    MembersStep(s, acc);
    var key, gap, tree, after := MemberTree(s);
    var u := SkipWs(ParseMember(s).rest);
    var m := ParseMember(s).value;
    if StartsWith(u, ',') {
      var more := MembersTree(u[1..], acc + [m]);
      ms := Member(key, gap, tree, after, more);
      MemberValuesStep(ms, acc);
      MembersTextIs(ms, "}" + ParseMembers(s, acc).rest);
    } else {
      ms := LastMember(key, gap, tree, after);
      MemberValuesStep(ms, acc);
      MembersTextIs(ms, "}" + ParseMembers(s, acc).rest);
    }
    assert u == [u[0]] + u[1..];
  }

  /** One member, up to the punctuation after it. */
  lemma {:induction false} MemberTree(s: string) returns (key: Key, gap: string, tree: Tree, after: string)
    requires ParseMember(s).Yes?
    ensures GoodKey(key) && Blanks(gap) && Good(tree) && Blanks(after)
    ensures ParseMember(s).value == (key.name, TreeValue(tree))
    ensures s == KeyText(key) + (gap + TreeText(tree) + after + SkipWs(ParseMember(s).rest))
    ensures |SkipWs(ParseMember(s).rest)| < |s|
    decreases |s|, 1
  {
    hide ParseMember, ParseValue, SkipWs, Good, TreeText, TreeValue, Ends, Blanks, KeyText, GoodKey;
    var value;
    key, value := KeyTree(s);
    gap, tree := ValueTree(value);
    ValueIsShorter(value);
    after := SkipSplit(ParseMember(s).rest);
    Grouped(gap + TreeText(tree), after, SkipWs(ParseMember(s).rest));
  }

  lemma MembersTextIs(ms: Members, close: string)
    ensures var first := ms.gap + TreeText(ms.tree) + ms.after;
      MembersText(ms) + close == KeyText(ms.key) +
        (first + (if ms.Member? then "," + (MembersText(ms.more) + close) else close))
  {
    hide KeyText, TreeText;
    var first := ms.gap + TreeText(ms.tree) + ms.after;
    Sequence(KeyText(ms.key), ms.gap, TreeText(ms.tree), ms.after);
    Grouped(KeyText(ms.key), first, close);
    if ms.Member? {
      JoinedTail(KeyText(ms.key) + first, MembersText(ms.more), close);
      Grouped(KeyText(ms.key), first, "," + (MembersText(ms.more) + close));
    }
  }

  lemma Sequence(a: string, b: string, c: string, d: string)
    ensures a + b + c + d == a + (b + c + d)
  {
  }

  /** A text is a document exactly if it is a tree between blanks, and its value is the tree's. */
  lemma DocumentIff(s: string, v: JsonValue)
    ensures ParseDocument(s) == Yes(v, "") <==>
      exists before, t, after :: Blanks(before) && Blanks(after) && Good(t) && TreeValue(t) == v
        && s == before + TreeText(t) + after
  {
    hide ParseValue, SkipWs, Good, TreeText, TreeValue, Blanks;
    SkipBeforeValue(s);
    if ParseDocument(s) == Yes(v, "") {
      var before, t := ValueTree(s);
      var after := SkipSplit(ParseValue(s).rest);
      assert after + "" == after;
    }
    if before, t, after :|
      Blanks(before) && Blanks(after) && Good(t) && TreeValue(t) == v && s == before + TreeText(t) + after
    {
      TreeDocument(before, t, after);
    }
  }

  lemma TreeDocument(before: string, t: Tree, after: string)
    requires Blanks(before) && Blanks(after) && Good(t)
    ensures ParseValue(before + TreeText(t) + after) == Yes(TreeValue(t), after) && SkipWs(after) == ""
  {
    hide ParseToken, SkipWs, Good, TreeText, TreeValue;
    TreeStart(t);
    assert before + TreeText(t) + after == before + (TreeText(t) + after);
    SkipBlanks(before, TreeText(t) + after);
    SkipBlanks(after, "");
    assert after + "" == after;
    if after != "" {
      BlankIff(after[0]);
      DigitIff(after[0]);
      assert ".eE+-" == ['.', 'e', 'E', '+', '-'];
    }
    TreeRead(t, after);
  }
}
