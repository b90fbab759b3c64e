/** The parser undoes the printer: strings, numbers, and whole documents in any layout. */
module JsonRoundTrip {
  import opened JsonFormat

  // ---- strings ------------------------------------------------------------------

  lemma HexRoundTrip(c: char)
    requires c < ' '
    ensures HexCode(ControlEscape(c)[2..6]) == Some(c as nat) && Utf8(c as nat) == [c]
  {
    var high, low := c as int / 16, c as int % 16;
    var d := ControlEscape(c)[2..6];
    assert d == ['0', '0', HexDigit(high), HexDigit(low)];
    assert HexValue(HexDigit(high)) == Some(high) && HexValue(HexDigit(low)) == Some(low);
    assert d[..3] == ['0', '0', HexDigit(high)] && d[..3][..2] == ['0', '0'] && d[..3][..2][..1] == ['0'];
    assert HexCode(['0']) == Some(0) by { assert ['0'][..0] == ""; }
    assert HexCode(['0', '0']) == Some(0);
    assert HexCode(d[..3]) == Some(high);
    assert HexCode(d) == Some(16 * high + low);
  }

  /** One escaped character is read back as that character. */
  lemma EscapedCharRead(c: char, rest: string, acc: string)
    ensures StringBody(EscapeChar(c) + rest, acc) == StringBody(rest, acc + [c])
  {
    hide HexCode, Utf8;
    var e := EscapeChar(c);
    var s := e + rest;
    assert s[|e|..] == rest;
    if |e| == 6 {
      HexRoundTrip(c);
      assert s[2..6] == e[2..6];
    } else if |e| == 2 {
      assert s[0] == '\\' && s[1] == e[1];
      assert SimpleEscape(e[1]) == Some(c);
    }
  }

  lemma {:induction false} EscapedRead(v: string, rest: string, acc: string)
    ensures StringBody(Escape(v) + rest, acc) == StringBody(rest, acc + v)
    decreases |v|
  {
    hide EscapeChar, StringBody;
    if v == "" {
      assert Escape(v) + rest == rest && acc + v == acc;
    } else {
      assert Escape(v) + rest == EscapeChar(v[0]) + (Escape(v[1..]) + rest);
      EscapedCharRead(v[0], Escape(v[1..]) + rest, acc);
      EscapedRead(v[1..], rest, acc + [v[0]]);
      assert acc + [v[0]] + v[1..] == acc + v;
    }
  }

  function Quoted(v: string): string {
    "\"" + Escape(v) + "\""
  }

  /** Whatever the string, quoting its escaped form and parsing gives it back. */
  lemma StringRoundTrip(v: string, rest: string)
    ensures ParseString(Quoted(v) + rest) == Yes(v, rest)
  {
    hide Escape;
    var s := Quoted(v) + rest;
    assert s[1..] == Escape(v) + ("\"" + rest);
    EscapedRead(v, "\"" + rest, "");
    assert "" + v == v && ("\"" + rest)[1..] == rest;
  }

  // ---- layout ---------------------------------------------------------------------

  lemma {:induction false} SkipBlank(ws: string, s: string)
    requires Blank(ws) && (s == "" || !IsSpace(s[0]))
    ensures SkipWs(ws + s) == s
  {
    if ws == "" {
      assert ws + s == s;
    } else {
      assert (ws + s)[1..] == ws[1..] + s;
      SkipBlank(ws[1..], s);
    }
  }

  lemma {:induction false} RunOfDigits(d: string, rest: string)
    requires AllDigits(d) && (rest == "" || !IsNumberChar(rest[0]))
    ensures NumberRun(d + rest) == |d|
  {
    if d == "" {
      assert d + rest == rest;
    } else {
      assert (d + rest)[1..] == d[1..] + rest;
      RunOfDigits(d[1..], rest);
    }
  }

  /** A JSON text with its white space: what follows each token up to the next one is kept. */
  datatype Doc =
    | Text(v: string)
    | Num(n: nat)
    | Items(items: seq<Item>)
    | Fields(fields: seq<Field>)

  datatype Item = Item(before: string, doc: Doc, after: string)

  datatype Field = Field(before: string, key: string, gap: string, doc: Doc, after: string)

  function Render(d: Doc): string
    decreases d, 1
  {
    match d
    case Text(v) => Quoted(v)
    case Num(n) => Decimal(n)
    case Items(items) => "[" + RenderItems(d, 0) + "]"
    case Fields(fields) => "{" + RenderFields(d, 0) + "}"
  }

  /** The items from number i on, with commas between them. */
  function RenderItems(d: Doc, i: nat): string
    requires d.Items? && i <= |d.items|
    decreases d, 0, |d.items| - i, 1
  {
    if i == |d.items| then ""
    else RenderItem(d, i) + Separator(i, |d.items|) + RenderItems(d, i + 1)
  }

  function RenderItem(d: Doc, i: nat): string
    requires d.Items? && i < |d.items|
    decreases d, 0, |d.items| - i, 0
  {
    d.items[i].before + Render(d.items[i].doc) + d.items[i].after
  }

  function RenderFields(d: Doc, i: nat): string
    requires d.Fields? && i <= |d.fields|
    decreases d, 0, |d.fields| - i, 1
  {
    if i == |d.fields| then ""
    else RenderField(d, i) + Separator(i, |d.fields|) + RenderFields(d, i + 1)
  }

  function RenderField(d: Doc, i: nat): string
    requires d.Fields? && i < |d.fields|
    decreases d, 0, |d.fields| - i, 0
  {
    var f := d.fields[i];
    f.before + Quoted(f.key) + ":" + f.gap + Render(f.doc) + f.after
  }

  function Separator(i: nat, n: nat): string {
    if i + 1 < n then "," else ""
  }

  ghost predicate WellLaid(d: Doc)
    decreases d
  {
    match d
    case Text(v) => true
    case Num(n) => true
    case Items(items) =>
      items != [] && forall i :: 0 <= i < |items| ==> Blank(items[i].before) && Blank(items[i].after) && WellLaid(items[i].doc)
    case Fields(fields) =>
      fields != [] && forall i :: 0 <= i < |fields| ==>
        Blank(fields[i].before) && Blank(fields[i].gap) && Blank(fields[i].after) && WellLaid(fields[i].doc)
  }

  function ValueOf(d: Doc): JsonValue
    decreases d, 1
  {
    match d
    case Text(v) => String(v)
    case Num(n) => Number(Decimal(n))
    case Items(items) => Array(ItemValues(d, |items|))
    case Fields(fields) => Object(FieldValues(d, |fields|))
  }

  /** The values of the first n items. */
  function ItemValues(d: Doc, n: nat): (r: seq<JsonValue>)
    requires d.Items? && n <= |d.items|
    ensures |r| == n
    decreases d, 0, n
  {
    if n == 0 then [] else ItemValues(d, n - 1) + [ValueOf(d.items[n - 1].doc)]
  }

  function FieldValues(d: Doc, n: nat): (r: seq<(string, JsonValue)>)
    requires d.Fields? && n <= |d.fields|
    ensures |r| == n
    decreases d, 0, n
  {
    if n == 0 then [] else FieldValues(d, n - 1) + [(d.fields[n - 1].key, ValueOf(d.fields[n - 1].doc))]
  }

  ghost predicate EndsNumber(rest: string) {
    rest == "" || !IsNumberChar(rest[0])
  }

  lemma BlankEndsNumber(ws: string, s: string)
    requires Blank(ws) && s != "" && !IsNumberChar(s[0])
    ensures EndsNumber(ws + s)
  {
  }

  lemma RenderStart(d: Doc)
    ensures Render(d) != "" && !IsSpace(Render(d)[0])
  {
    if d.Num? {
      assert IsDigit(Decimal(d.n)[0]);
    }
  }

  lemma TextRead(s: string, v: string, rest: string)
    requires SkipWs(s) == Quoted(v) + rest
    ensures ParseValue(s) == Yes(String(v), rest)
  {
    hide ParseToken, ParseString, SkipWs;
    StringRoundTrip(v, rest);
    StringStep(Quoted(v) + rest);
  }

  lemma NumRead(s: string, n: nat, rest: string)
    requires SkipWs(s) == Decimal(n) + rest && EndsNumber(rest)
    ensures ParseValue(s) == Yes(Number(Decimal(n)), rest)
  {
    hide ParseToken, SkipWs, Decimal;
    var t := Decimal(n) + rest;
    RunOfDigits(Decimal(n), rest);
    assert t[0] == Decimal(n)[0];
    NumberStep(t);
    assert t[..|Decimal(n)|] == Decimal(n) && t[|Decimal(n)|..] == rest;
  }

  /** Parsing a rendered document, after any white space and before any other text, gives its value. */
  lemma {:induction false} DocumentRead(ws: string, d: Doc, rest: string)
    requires Blank(ws) && WellLaid(d) && EndsNumber(rest)
    ensures ParseValue(ws + Render(d) + rest) == Yes(ValueOf(d), rest)
    decreases d, 1, 0
  {
    hide Quoted, Decimal, ParseToken, SkipWs, ParseItems, ParseMembers;
    RenderStart(d);
    var s, t := ws + Render(d) + rest, Render(d) + rest;
    assert s == ws + t;
    SkipBlank(ws, t);
    match d {
      case Text(v) =>
        TextRead(s, v, rest);
      case Num(n) =>
        NumRead(s, n, rest);
      case Items(items) =>
        assert t[1..] == RenderItems(d, 0) + ("]" + rest);
        ItemsRead(d, 0, rest);
        ArrayStep(t);
      case Fields(fields) =>
        assert t[1..] == RenderFields(d, 0) + ("}" + rest);
        FieldsRead(d, 0, rest);
        ObjectStep(t);
    }
  }

  lemma SkipTwice(s: string)
    ensures SkipWs(SkipWs(s)) == SkipWs(s)
  {
  }

  /** A white-space skip before a value or a member changes nothing. */
  lemma SkipBeforeValue(s: string)
    ensures ParseValue(SkipWs(s)) == ParseValue(s)
  {
    hide SkipWs, ParseToken;
    SkipTwice(s);
  }

  lemma SkipBeforeMember(s: string)
    ensures ParseMember(SkipWs(s)) == ParseMember(s)
  {
    hide SkipWs, ParseString, ParseValue;
    SkipTwice(s);
  }

  lemma ItemRead(d: Doc, i: nat, more: string)
    requires d.Items? && WellLaid(d) && i < |d.items| && more != "" && !IsNumberChar(more[0]) && !IsSpace(more[0])
    ensures ParseValue(RenderItem(d, i) + more) == Yes(ValueOf(d.items[i].doc), d.items[i].after + more)
    ensures SkipWs(d.items[i].after + more) == more
    ensures !StartsWith(SkipWs(RenderItem(d, i) + more), ']')
    decreases d, 0, |d.items| - i, 0
  {
    hide Render, ParseValue;
    var item := d.items[i];
    assert RenderItem(d, i) + more == item.before + Render(item.doc) + (item.after + more);
    BlankEndsNumber(item.after, more);
    DocumentRead(item.before, item.doc, item.after + more);
    SkipBlank(item.after, more);
    ItemStart(item, item.after + more);
  }

  lemma ItemStart(item: Item, more: string)
    requires Blank(item.before)
    ensures !StartsWith(SkipWs(item.before + Render(item.doc) + more), ']')
  {
    hide Escape, Decimal;
    RenderStart(item.doc);
    assert item.before + Render(item.doc) + more == item.before + (Render(item.doc) + more);
    SkipBlank(item.before, Render(item.doc) + more);
    if item.doc.Num? {
      assert IsDigit(Decimal(item.doc.n)[0]);
    }
  }

  /** What follows element i: a comma and the elements after it, or the closing bracket. */
  lemma AfterElement(sep: string, more: string, close: string, rest: string)
    requires |close| == 1 && (sep == "," || (sep == "" && more == ""))
    ensures var tail := sep + more + (close + rest);
            && tail != ""
            && (sep == "," ==> tail[0] == ',' && tail[1..] == more + (close + rest))
            && (sep == "" ==> tail[0] == close[0] && tail[1..] == rest)
  {
    if sep == "" {
      assert sep + more + (close + rest) == close + rest;
    }
  }

  /** An element of the list, and what follows it. */
  lemma ItemsTail(d: Doc, i: nat, rest: string) returns (tail: string)
    requires d.Items? && i < |d.items|
    ensures RenderItems(d, i) + ("]" + rest) == RenderItem(d, i) + tail && tail != ""
    ensures if i + 1 < |d.items| then tail[0] == ',' && tail[1..] == RenderItems(d, i + 1) + ("]" + rest)
            else tail[0] == ']' && tail[1..] == rest
    ensures ItemValues(d, i + 1) == ItemValues(d, i) + [ValueOf(d.items[i].doc)]
  {
    hide RenderItem, ValueOf;
    var sep, next := Separator(i, |d.items|), RenderItems(d, i + 1);
    tail := sep + next + ("]" + rest);
    AfterElement(sep, next, "]", rest);
    Regroup(RenderItem(d, i), sep, next, "]" + rest);
  }

  lemma Regroup(a: string, b: string, c: string, d: string)
    ensures a + b + c + d == a + (b + c + d)
  {
  }

  lemma {:induction false} ItemsRead(d: Doc, i: nat, rest: string)
    requires d.Items? && WellLaid(d) && i < |d.items|
    ensures var s := RenderItems(d, i) + ("]" + rest);
            && ParseItems(s, ItemValues(d, i)) == Yes(ValueOf(d), rest)
            && ParseItems(SkipWs(s), ItemValues(d, i)) == Yes(ValueOf(d), rest)
            && !StartsWith(SkipWs(s), ']')
    decreases d, 0, |d.items| - i, 1
  {
    hide RenderItem, RenderItems, ItemValues, ParseValue, SkipWs, ParseItems, WellLaid;
    var s := RenderItems(d, i) + ("]" + rest);
    var tail := ItemsTail(d, i, rest);
    ItemRead(d, i, tail);
    SkipBeforeValue(s);
    ItemsStep(s, ItemValues(d, i));
    ItemsStep(SkipWs(s), ItemValues(d, i));
    if i + 1 < |d.items| {
      ItemsRead(d, i + 1, rest);
    }
  }

  lemma FieldRead(d: Doc, i: nat, more: string)
    requires d.Fields? && WellLaid(d) && i < |d.fields| && more != "" && !IsNumberChar(more[0]) && !IsSpace(more[0])
    ensures ParseMember(RenderField(d, i) + more).Yes?
    ensures ParseMember(RenderField(d, i) + more).value == (d.fields[i].key, ValueOf(d.fields[i].doc))
    ensures SkipWs(ParseMember(RenderField(d, i) + more).rest) == more
    ensures StartsWith(SkipWs(RenderField(d, i) + more), '\"')
    decreases d, 0, |d.fields| - i, 0
  {
    hide Render, Escape, StringBody;
    var f, s := d.fields[i], RenderField(d, i) + more;
    var afterKey := ":" + (f.gap + Render(f.doc) + (f.after + more));
    assert s == f.before + (Quoted(f.key) + afterKey);
    SkipBlank(f.before, Quoted(f.key) + afterKey);
    StringRoundTrip(f.key, afterKey);
    SkipBlank("", afterKey);
    assert "" + afterKey == afterKey;
    assert afterKey[1..] == f.gap + Render(f.doc) + (f.after + more);
    BlankEndsNumber(f.after, more);
    DocumentRead(f.gap, f.doc, f.after + more);
    SkipBlank(f.after, more);
  }

  lemma {:induction false} FieldsRead(d: Doc, i: nat, rest: string)
    requires d.Fields? && WellLaid(d) && i < |d.fields|
    ensures var s := RenderFields(d, i) + ("}" + rest);
            && ParseMembers(s, FieldValues(d, i)) == Yes(ValueOf(d), rest)
            && ParseMembers(SkipWs(s), FieldValues(d, i)) == Yes(ValueOf(d), rest)
            && !StartsWith(SkipWs(s), '}')
    decreases d, 0, |d.fields| - i, 1
  {
    hide RenderField, ParseMember, SkipWs, ParseMembers, WellLaid;
    var s := RenderFields(d, i) + ("}" + rest);
    var sep, next := Separator(i, |d.fields|), RenderFields(d, i + 1);
    var tail := sep + next + ("}" + rest);
    assert s == RenderField(d, i) + tail;
    AfterElement(sep, next, "}", rest);
    FieldRead(d, i, tail);
    SkipBeforeMember(s);
    var m := (d.fields[i].key, ValueOf(d.fields[i].doc));
    MembersStep(s, FieldValues(d, i));
    MembersStep(SkipWs(s), FieldValues(d, i));
    assert FieldValues(d, i + 1) == FieldValues(d, i) + [m];
    if i + 1 < |d.fields| {
      FieldsRead(d, i + 1, rest);
    }
  }

  /** A whole file: a rendered document with white space around it. */
  lemma FileRead(before: string, d: Doc, after: string)
    requires Blank(before) && Blank(after) && WellLaid(d)
    ensures ParseDocument(before + Render(d) + after) == Yes(ValueOf(d), "")
  {
    hide Render;
    DocumentRead(before, d, after);
    SkipBeforeValue(before + Render(d) + after);
    SkipBlank(after, "");
    assert after + "" == after;
  }
}
