/**
 * What the parser of src/cli/package.cpp makes of JSON text, said on the text itself:
 * string literals piece by piece, blanks, numbers and words.
 */
module JsonLaws {
  import opened Bytes
  import opened JsonFormat
  import opened JsonRoundTrip

  // ---------------------------------------------------------------------
  // String literals
  // ---------------------------------------------------------------------

  /** v is the value of the hex digit c, in either case. */
  predicate IsHex(c: char, v: nat) {
    v < 16 && (c == "0123456789abcdef"[v] || c == "0123456789ABCDEF"[v])
  }

  /** The bytes of a code point below 0x10000, by the class of the first byte. */
  predicate Encodes(t: string, code: nat) {
    if code < 0x80 then
      |t| == 1 && t[0] as nat == code
    else if code < 0x800 then
      && |t| == 2 && 0xC0 <= t[0] as nat < 0xE0 && 0x80 <= t[1] as nat < 0xC0
      && (t[0] as nat - 0xC0) * 0x40 + (t[1] as nat - 0x80) == code
    else
      && |t| == 3 && 0xE0 <= t[0] as nat < 0xF0 && 0x80 <= t[1] as nat < 0xC0 && 0x80 <= t[2] as nat < 0xC0
      && (t[0] as nat - 0xE0) * 0x1000 + (t[1] as nat - 0x80) * 0x40 + (t[2] as nat - 0x80) == code
  }

  /** A string literal is made of characters, of two-character escapes and of \u escapes. */
  datatype Piece = Raw(c: char) | Short(e: char) | Unicode(a: char, b: char, c: char, d: char)

  function PieceText(p: Piece): string {
    match p
    case Raw(c) => [c]
    case Short(e) => ['\\', e]
    case Unicode(a, b, c, d) => ['\\', 'u', a, b, c, d]
  }

  /** t is what the piece stands for. */
  ghost predicate Means(p: Piece, t: string) {
    match p
    case Raw(c) => c != '\"' && c != '\\' && t == [c]
    case Short(e) => exists i :: 0 <= i < 8 && e == "\"\\/bfnrt"[i] && t == ["\"\\/\U{8}\U{C}\n\r\t"[i]]
    case Unicode(a, b, c, d) =>
      exists w: nat, x: nat, y: nat, z: nat ::
        IsHex(a, w) && IsHex(b, x) && IsHex(c, y) && IsHex(d, z) && Encodes(t, 0x1000 * w + 0x100 * x + 0x10 * y + z)
  }

  function PiecesText(ps: seq<Piece>): string {
    if ps == [] then "" else PieceText(ps[0]) + PiecesText(ps[1..])
  }

  /** v is the concatenation of what the pieces stand for. */
  ghost predicate Spells(ps: seq<Piece>, v: string) {
    if ps == [] then v == ""
    else exists k :: 0 <= k <= |v| && Means(ps[0], v[..k]) && Spells(ps[1..], v[k..])
  }

  lemma HexIff(c: char, v: nat)
    ensures HexValue(c) == Some(v) <==> IsHex(c, v)
  {
  }

  lemma HexFour(a: char, b: char, c: char, d: char, w: nat, x: nat, y: nat, z: nat)
    requires IsHex(a, w) && IsHex(b, x) && IsHex(c, y) && IsHex(d, z)
    ensures HexCode([a, b, c, d]) == Some(0x1000 * w + 0x100 * x + 0x10 * y + z)
  {
    hide HexValue, IsHex;
    HexIff(a, w);
    HexIff(b, x);
    HexIff(c, y);
    HexIff(d, z);
    assert [a][..0] == "" && [a, b][..1] == [a] && [a, b, c][..2] == [a, b] && [a, b, c, d][..3] == [a, b, c];
    assert HexCode([a]) == Some(w);
    assert HexCode([a, b]) == Some(0x10 * w + x);
    assert HexCode([a, b, c]) == Some(0x100 * w + 0x10 * x + y);
  }

  lemma TwoBytes(code: nat, high: nat, low: nat)
    requires 0x80 <= code < 0x800
    ensures high == code / 0x40 && low == code % 0x40 <==> low < 0x40 && high * 0x40 + low == code
    ensures code / 0x40 < 0x20
  {
  }

  lemma ThreeBytes(code: nat, high: nat, middle: nat, low: nat)
    requires 0x800 <= code < 0x1_0000
    ensures high == code / 0x1000 && middle == code / 0x40 % 0x40 && low == code % 0x40 <==>
      middle < 0x40 && low < 0x40 && high * 0x1000 + middle * 0x40 + low == code
    ensures code / 0x1000 < 0x10
  {
    var upper := code / 0x40;
    assert code == 0x40 * upper + code % 0x40 && upper / 0x40 == code / 0x1000;
    if middle < 0x40 && low < 0x40 && high * 0x1000 + middle * 0x40 + low == code {
      assert low == code % 0x40 && high * 0x40 + middle == upper;
    }
  }

  lemma Utf8Encodes(code: nat, t: string)
    requires code < 0x1_0000
    ensures Encodes(t, code) <==> t == Utf8(code)
  {
    if 0x80 <= code < 0x800 {
      TwoBytes(code, code / 0x40, code % 0x40);
      if |t| == 2 && t[0] as nat >= 0xC0 && t[1] as nat >= 0x80 {
        TwoBytes(code, t[0] as nat - 0xC0, t[1] as nat - 0x80);
      }
    } else if code >= 0x800 {
      ThreeBytes(code, code / 0x1000, code / 0x40 % 0x40, code % 0x40);
      if |t| == 3 && t[0] as nat >= 0xE0 && t[1] as nat >= 0x80 && t[2] as nat >= 0x80 {
        ThreeBytes(code, t[0] as nat - 0xE0, t[1] as nat - 0x80, t[2] as nat - 0x80);
      }
    }
  }

  lemma ShortIff(e: char, c: char)
    ensures (exists i :: 0 <= i < 8 && e == "\"\\/bfnrt"[i] && [c] == ["\"\\/\U{8}\U{C}\n\r\t"[i]]) <==> SimpleEscape(e) == Some(c)
  {
    var from, to := "\"\\/bfnrt", "\"\\/\U{8}\U{C}\n\r\t";
    assert from[0] == '\"' && from[1] == '\\' && from[2] == '/' && from[3] == 'b';
    assert from[4] == 'f' && from[5] == 'n' && from[6] == 'r' && from[7] == 't';
    assert to[0] == '\"' && to[1] == '\\' && to[2] == '/' && to[3] == 8 as char;
    assert to[4] == 12 as char && to[5] == '\n' && to[6] == '\r' && to[7] == '\t';
  }

  /** One piece at the front is read as what it stands for. */
  lemma PieceRead(p: Piece, t: string, rest: string, acc: string)
    requires Means(p, t)
    ensures StringBody(PieceText(p) + rest, acc) == StringBody(rest, acc + t)
  {
    hide HexCode, Utf8, SimpleEscape, IsHex, Encodes;
    var s := PieceText(p) + rest;
    assert s[|PieceText(p)|..] == rest;
    match p {
      case Raw(c) =>
        assert s[0] == c;
      case Short(e) =>
        ShortIff(e, t[0]);
        assert s[1] == e;
        assert SimpleEscape('u') == None by { NoShortU(); }
      case Unicode(a, b, c, d) =>
        var w: nat, x: nat, y: nat, z: nat :|
          IsHex(a, w) && IsHex(b, x) && IsHex(c, y) && IsHex(d, z) && Encodes(t, 0x1000 * w + 0x100 * x + 0x10 * y + z);
        HexFour(a, b, c, d, w, x, y, z);
        HexBound(a, w);
        HexBound(b, x);
        HexBound(c, y);
        HexBound(d, z);
        Utf8Encodes(0x1000 * w + 0x100 * x + 0x10 * y + z, t);
        assert s[1] == 'u' && s[2..6] == [a, b, c, d];
    }
  }

  lemma NoShortU()
    ensures SimpleEscape('u') == None
  {
  }

  lemma HexBound(c: char, v: nat)
    requires IsHex(c, v)
    ensures v < 16
  {
  }

  lemma {:induction false} SpelledRead(ps: seq<Piece>, v: string, rest: string, acc: string)
    requires Spells(ps, v)
    ensures StringBody(PiecesText(ps) + rest, acc) == StringBody(rest, acc + v)
    decreases |ps|
  {
    hide Means, StringBody, PieceText;
    if ps == [] {
      assert PiecesText(ps) + rest == rest && acc + v == acc;
    } else {
      var k :| 0 <= k <= |v| && Means(ps[0], v[..k]) && Spells(ps[1..], v[k..]);
      assert PiecesText(ps) + rest == PieceText(ps[0]) + (PiecesText(ps[1..]) + rest);
      PieceRead(ps[0], v[..k], PiecesText(ps[1..]) + rest, acc);
      SpelledRead(ps[1..], v[k..], rest, acc + v[..k]);
      assert acc + v[..k] + v[k..] == acc + v;
    }
  }

  lemma ConsSpells(p: Piece, t: string, ps: seq<Piece>, v: string)
    requires Means(p, t) && Spells(ps, v)
    ensures Spells([p] + ps, t + v)
  {
    hide Means;
    assert ([p] + ps)[1..] == ps && (t + v)[..|t|] == t && (t + v)[|t|..] == v;
  }

  /** The piece the reader takes off the front of a string body. */
  lemma FrontPiece(s: string) returns (p: Piece, t: string, rest: string)
    requires s != "" && s[0] != '\"' && StringBody(s, "").Yes?
    ensures Means(p, t) && s == PieceText(p) + rest
  {
    hide HexCode, Utf8, SimpleEscape, IsHex, Encodes;
    if s[0] != '\\' {
      p, t, rest := Raw(s[0]), [s[0]], s[1..];
    } else if s[1] == 'u' {
      p, rest := Unicode(s[2], s[3], s[4], s[5]), s[6..];
      var code := HexCode(s[2..6]).value;
      assert s[2..6] == [s[2], s[3], s[4], s[5]];
      var w, x, y, z := FourHex(s[2], s[3], s[4], s[5]);
      HexFour(s[2], s[3], s[4], s[5], w, x, y, z);
      assert code == 0x1000 * w + 0x100 * x + 0x10 * y + z;
      assert code < 0x1_0000 by {
        HexBound(s[2], w);
        HexBound(s[3], x);
        HexBound(s[4], y);
        HexBound(s[5], z);
      }
      t := Utf8(code);
      Utf8Encodes(code, t);
    } else {
      var c := SimpleEscape(s[1]).value;
      p, t, rest := Short(s[1]), [c], s[2..];
      ShortIff(s[1], c);
    }
  }

  lemma FourHex(a: char, b: char, c: char, d: char) returns (w: nat, x: nat, y: nat, z: nat)
    requires HexCode([a, b, c, d]).Some?
    ensures IsHex(a, w) && IsHex(b, x) && IsHex(c, y) && IsHex(d, z)
  {
    hide HexValue, IsHex;
    assert [a][..0] == "" && [a, b][..1] == [a] && [a, b, c][..2] == [a, b] && [a, b, c, d][..3] == [a, b, c];
    assert HexCode([a, b, c]).Some? && HexCode([a, b]).Some? && HexCode([a]).Some?;
    w, x, y, z := HexValue(a).value, HexValue(b).value, HexValue(c).value, HexValue(d).value;
    HexIff(a, w);
    HexIff(b, x);
    HexIff(c, y);
    HexIff(d, z);
  }

  /** What has been read before does not decide whether the rest can be read. */
  lemma {:induction false} BodyOnward(s: string, acc: string)
    ensures StringBody(s, acc).Yes? <==> StringBody(s, "").Yes?
    decreases |s|
  {
    hide HexCode, Utf8, SimpleEscape;
    if s != "" && s[0] != '\"' {
      if s[0] != '\\' {
        BodyOnward(s[1..], acc + [s[0]]);
        BodyOnward(s[1..], "" + [s[0]]);
      } else if |s| > 1 {
        if s[1] == 'u' {
          if |s| >= 6 && HexCode(s[2..6]).Some? {
            assert Pow16(2) == 0x100 && Pow16(4) == 0x1_0000;
            var u := Utf8(HexCode(s[2..6]).value);
            BodyOnward(s[6..], acc + u);
            BodyOnward(s[6..], "" + u);
          }
        } else if SimpleEscape(s[1]).Some? {
          BodyOnward(s[2..], acc + [SimpleEscape(s[1]).value]);
          BodyOnward(s[2..], "" + [SimpleEscape(s[1]).value]);
        }
      }
    }
  }

  /** A string body that is read was spelt in pieces, up to the closing quote. */
  lemma {:induction false} ReadIsSpelled(s: string, acc: string) returns (ps: seq<Piece>, v: string)
    requires StringBody(s, acc).Yes?
    ensures Spells(ps, v) && StringBody(s, acc).value == acc + v
    ensures s == PiecesText(ps) + ("\"" + StringBody(s, acc).rest)
    decreases |s|
  {
    hide Means, PieceText;
    if s[0] == '\"' {
      ps, v := [], "";
      assert acc + v == acc && PiecesText(ps) + ("\"" + s[1..]) == s;
    } else {
      hide StringBody, Spells, PiecesText;
      BodyOnward(s, acc);
      var p, t, rest := FrontPiece(s);
      PieceRead(p, t, rest, acc);
      assert |rest| < |s| by { PieceHasText(p); }
      ps, v := ReadIsSpelled(rest, acc + t);
      ConsSpells(p, t, ps, v);
      TextCons(p, ps, "\"" + StringBody(s, acc).rest);
      Grouped(acc, t, v);
      ps, v := [p] + ps, t + v;
    }
  }

  lemma TextCons(p: Piece, ps: seq<Piece>, more: string)
    ensures PiecesText([p] + ps) + more == PieceText(p) + (PiecesText(ps) + more)
  {
    hide PieceText;
    assert ([p] + ps)[1..] == ps;
    Grouped(PieceText(p), PiecesText(ps), more);
  }

  lemma Grouped(a: string, b: string, c: string)
    ensures a + (b + c) == a + b + c
  {
  }

  lemma PieceHasText(p: Piece)
    ensures |PieceText(p)| > 0
  {
  }

  /** A string literal is read exactly if it is spelt in pieces, as what the pieces stand for. */
  lemma LiteralIff(s: string, v: string, rest: string)
    ensures ParseString(s) == Yes(v, rest) <==> exists ps :: Spells(ps, v) && s == "\"" + PiecesText(ps) + "\"" + rest
  {
    hide StringBody, Spells;
    if ParseString(s) == Yes(v, rest) {
      var ps, w := ReadIsSpelled(s[1..], "");
      assert "" + w == w;
      assert s == "\"" + s[1..] && "\"" + (PiecesText(ps) + ("\"" + rest)) == "\"" + PiecesText(ps) + "\"" + rest;
    }
    if ps :| Spells(ps, v) && s == "\"" + PiecesText(ps) + "\"" + rest {
      assert s[1..] == PiecesText(ps) + ("\"" + rest);
      SpelledRead(ps, v, "\"" + rest, "");
      assert "" + v == v;
      QuoteEnds(rest, v);
    }
  }

  lemma QuoteEnds(rest: string, acc: string)
    ensures StringBody("\"" + rest, acc) == Yes(acc, rest)
  {
    assert ("\"" + rest)[1..] == rest;
  }

  /** A quoted \u escape of either case is read as the bytes of its code; a quoted two-character escape likewise. */
  lemma EscapesRead(p: Piece, t: string, rest: string)
    requires Means(p, t)
    ensures ParseString("\"" + PieceText(p) + "\"" + rest) == Yes(t, rest)
  {
    hide Means, PieceText;
    var text := PieceText(p) + ("\"" + rest);
    assert "\"" + PieceText(p) + "\"" + rest == "\"" + text;
    PieceRead(p, t, "\"" + rest, "");
    QuoteEnds(rest, t);
    assert "" + t == t && ("\"" + text)[1..] == text;
  }

  // ---------------------------------------------------------------------
  // Blanks, words, numbers, empty containers
  // ---------------------------------------------------------------------

  const BLANKS: string := " \t\n\U{B}\U{C}\r"
  const DIGITS: string := "0123456789"
  const NUMBER_CHARACTERS: string := "0123456789.eE+-"

  lemma BlankIff(c: char)
    ensures IsSpace(c) <==> c in BLANKS
  {
    assert BLANKS == [' ', '\t', '\n', 11 as char, 12 as char, '\r'];
  }

  lemma DigitIff(c: char)
    ensures IsDigit(c) <==> c in DIGITS
    ensures IsNumberChar(c) <==> c in NUMBER_CHARACTERS
  {
    assert DIGITS == ['0', '1', '2', '3', '4', '5', '6', '7', '8', '9'];
    assert NUMBER_CHARACTERS == DIGITS + ['.', 'e', 'E', '+', '-'];
    assert ".eE+-" == ['.', 'e', 'E', '+', '-'];
  }

  /** Six characters may stand before a value. */
  lemma BlankBefore(c: char, s: string)
    requires c in BLANKS
    ensures ParseDocument([c] + s) == ParseDocument(s)
  {
    hide ParseValue;
    BlankIff(c);
    assert ([c] + s)[1..] == s;
  }

  /** The same six may stand after it; any other character there is an error. */
  lemma BlankAfter(c: char)
    ensures ParseDocument("null" + [c]) == if c in BLANKS then Yes(Null, "") else No(TrailingCharacters)
  {
    hide ParseToken, SkipWs;
    BlankIff(c);
    SkipBlank("", "null" + [c]);
    assert "" + ("null" + [c]) == "null" + [c];
    WordRead("null", [c]);
    SkipOne(c);
  }

  lemma SkipOne(c: char)
    ensures SkipWs([c]) == if IsSpace(c) then "" else [c]
  {
    assert [c][1..] == "";
  }

  lemma WordRead(word: string, rest: string)
    requires word in ["true", "false", "null"]
    ensures ParseToken(word + rest) ==
      Yes(if word == "true" then Bool(true) else if word == "false" then Bool(false) else Null, rest)
  {
    hide ParseToken;
    var t := word + rest;
    assert t[..|word|] == word && t[|word|..] == rest && t[0] == word[0];
    assert "true"[0] == 't' && "false"[0] == 'f' && "null"[0] == 'n';
    assert word == "false" ==> t[..4] != "true" by { assert t[..4][0] == t[0]; }
    assert word == "null" ==> t[..4] != "true" by { assert t[..4][0] == t[0]; }
    assert word == "null" ==> !HasPrefix(t, "false") by {
      if HasPrefix(t, "false") {
        assert t[..5][0] == t[0];
      }
    }
    WordStep(t);
  }

  /** A number is the longest run of number characters, kept as text. */
  lemma NumberTextRead(text: string, rest: string)
    requires text != "" && (text[0] == '-' || text[0] in DIGITS)
    requires forall i :: 0 <= i < |text| ==> text[i] in NUMBER_CHARACTERS
    requires rest != "" ==> rest[0] !in NUMBER_CHARACTERS
    ensures ParseToken(text + rest) == Yes(Number(text), rest)
  {
    hide ParseToken;
    var t := text + rest;
    assert t[0] == text[0];
    DigitIff(t[0]);
    RunOf(text, rest);
    NumberStep(t);
    assert t[..|text|] == text && t[|text|..] == rest;
  }

  lemma {:induction false} RunOf(text: string, rest: string)
    requires forall i :: 0 <= i < |text| ==> text[i] in NUMBER_CHARACTERS
    requires rest != "" ==> rest[0] !in NUMBER_CHARACTERS
    ensures NumberRun(text + rest) == |text|
    decreases |text|
  {
    if text == "" {
      assert text + rest == rest;
      if rest != "" {
        DigitIff(rest[0]);
      }
    } else {
      DigitIff(text[0]);
      assert (text + rest)[1..] == text[1..] + rest;
      RunOf(text[1..], rest);
    }
  }

  lemma BlankText(between: string)
    requires forall i :: 0 <= i < |between| ==> between[i] in BLANKS
    ensures Blank(between)
  {
    forall i | 0 <= i < |between| ensures IsSpace(between[i]) {
      BlankIff(between[i]);
    }
  }

  /** Brackets with nothing but blanks between them, and braces. */
  lemma EmptyArrayRead(between: string, rest: string)
    requires forall i :: 0 <= i < |between| ==> between[i] in BLANKS
    ensures ParseToken("[" + between + "]" + rest) == Yes(Array([]), rest)
  {
    BlankText(between);
    hide ParseToken, SkipWs, Blank;
    var t := "[" + between + "]" + rest;
    assert t[1..] == between + ("]" + rest) && ("]" + rest)[1..] == rest;
    SkipBlank(between, "]" + rest);
    ArrayStep(t);
  }

  lemma EmptyObjectRead(between: string, rest: string)
    requires forall i :: 0 <= i < |between| ==> between[i] in BLANKS
    ensures ParseToken("{" + between + "}" + rest) == Yes(Object([]), rest)
  {
    BlankText(between);
    hide ParseToken, SkipWs, Blank;
    var t := "{" + between + "}" + rest;
    assert t[1..] == between + ("}" + rest) && ("}" + rest)[1..] == rest;
    SkipBlank(between, "}" + rest);
    ObjectStep(t);
  }

  // ---------------------------------------------------------------------
  // Numbers as 64-bit values
  // ---------------------------------------------------------------------

  predicate DigitIs(c: char, d: nat) {
    d < 10 && c == DIGITS[d]
  }

  predicate AreDigits(text: string, ds: seq<nat>) {
    |text| == |ds| && forall i :: 0 <= i < |ds| ==> DigitIs(text[i], ds[i])
  }

  function Horner(ds: seq<nat>): nat {
    if ds == [] then 0 else 10 * Horner(ds[..|ds| - 1]) + ds[|ds| - 1]
  }

  /** n is the number that a text of decimal digits denotes. */
  ghost predicate Denotes(digits: string, n: nat) {
    exists ds :: AreDigits(digits, ds) && n == Horner(ds)
  }

  lemma DigitAt(c: char, d: nat)
    ensures DigitIs(c, d) <==> IsDigit(c) && c as int - '0' as int == d
  {
    assert DIGITS == ['0', '1', '2', '3', '4', '5', '6', '7', '8', '9'];
  }

  lemma {:induction false} HornerIsValue(digits: string, ds: seq<nat>)
    requires AreDigits(digits, ds)
    ensures AllDigits(digits) && DecimalValue(digits) == Horner(ds)
    decreases |digits|
  {
    forall i | 0 <= i < |digits| ensures IsDigit(digits[i]) {
      DigitAt(digits[i], ds[i]);
    }
    if digits != "" {
      var n := |digits| - 1;
      assert DigitIs(digits[n], ds[n]);
      hide DigitIs;
      HornerIsValue(digits[..n], ds[..n]);
      DigitAt(digits[n], ds[n]);
    }
  }

  lemma DenotesIff(digits: string, n: nat)
    ensures Denotes(digits, n) <==> AllDigits(digits) && DecimalValue(digits) == n
  {
    hide DecimalValue, Horner, DigitIs;
    if ds :| AreDigits(digits, ds) && n == Horner(ds) {
      HornerIsValue(digits, ds);
    }
    if AllDigits(digits) && DecimalValue(digits) == n {
      var ds := seq(|digits|, i requires 0 <= i < |digits| => (assert IsDigit(digits[i]); digits[i] as nat - '0' as nat));
      forall i | 0 <= i < |ds| ensures DigitIs(digits[i], ds[i]) {
        assert IsDigit(digits[i]);
        DigitAt(digits[i], ds[i]);
      }
      HornerIsValue(digits, ds);
    }
  }

  /** Which number texts are 64-bit values, and which values they are. */
  lemma NumberValue(text: string)
    requires text != ""
    ensures var v := Number(text).AsU64();
      var digits := if text[0] == '-' || text[0] == '+' then text[1..] else text;
      && (v.None? <==> digits == "" || forall n: nat :: !Denotes(digits, n))
      && forall n: nat :: digits != "" && Denotes(digits, n) ==>
           v == Some(if n >= 0x1_0000_0000_0000_0000 then 0xFFFF_FFFF_FFFF_FFFF
                     else if text[0] == '-' && n > 0 then 0x1_0000_0000_0000_0000 - n
                     else n)
  {
    hide Denotes;
    var digits := if text[0] == '-' || text[0] == '+' then text[1..] else text;
    assert "+-" == ['+', '-'];
    if AllDigits(digits) {
      DenotesIff(digits, DecimalValue(digits));
    }
    forall n: nat ensures Denotes(digits, n) <==> AllDigits(digits) && DecimalValue(digits) == n {
      DenotesIff(digits, n);
    }
  }

  /** Printed numbers have no leading zeros. */
  lemma {:induction false} DecimalIsShort(n: nat)
    ensures Denotes(Decimal(n), n)
    ensures Decimal(n)[0] == '0' <==> n == 0
    ensures n == 0 ==> Decimal(n) == "0"
  {
    ValueOfDecimal(n);
    DenotesIff(Decimal(n), n);
    if n >= 10 {
      DecimalIsShort(n / 10);
    }
  }

  // ---------------------------------------------------------------------
  // Printed escapes
  // ---------------------------------------------------------------------

  /** What json_escape prints for one character. */
  lemma EscapesPrinted(c: char)
    ensures (exists i :: 0 <= i < 7 && c == "\"\\\U{8}\U{C}\n\r\t"[i] && Escape([c]) == ['\\', "\"\\bfnrt"[i]])
      || (c as nat >= 0x20 && c != '\"' && c != '\\' && Escape([c]) == [c])
      || (c as nat < 0x20 && c !in "\U{8}\U{C}\n\r\t" && exists h, l ::
            0 <= h < 16 && 0 <= l < 16 && c as nat == 0x10 * h + l
            && Escape([c]) == "\\u00" + ["0123456789abcdef"[h], "0123456789abcdef"[l]])
  {
    assert [c][1..] == "" && Escape([c]) == EscapeChar(c) + "" == EscapeChar(c);
    var from, to := "\"\\\U{8}\U{C}\n\r\t", "\"\\bfnrt";
    assert from[0] == '\"' && from[1] == '\\' && from[2] == 8 as char && from[3] == 12 as char;
    assert from[4] == '\n' && from[5] == '\r' && from[6] == '\t';
    if c as nat < 0x20 && c !in "\U{8}\U{C}\n\r\t" {
      var h, l := c as nat / 0x10, c as nat % 0x10;
      HexDigitIs(h);
      HexDigitIs(l);
      assert ControlEscape(c) == "\\u00" + [HexDigit(h), HexDigit(l)];
    }
  }

  lemma HexDigitIs(n: nat)
    requires n < 16
    ensures HexDigit(n) == "0123456789abcdef"[n]
  {
  }
}
