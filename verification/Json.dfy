/** The JSON routines of package.cpp: json_escape and the cursor-moving JsonParser. */
module Json {
  import opened JsonFormat

  /** json_escape: one switch per character, appending to out. */
  method JsonEscape(s: string) returns (out: string)
    ensures out == Escape(s)
  {
    out := "";
    for i := 0 to |s|
      invariant out == Escape(s[..i])
    {
      EscapeSnoc(s[..i], s[i]);
      assert s[..i + 1] == s[..i] + [s[i]];
      var c := s[i];
      match c {
        case '\"' => out := out + ['\\', '\"'];
        case '\\' => out := out + ['\\', '\\'];
        case '\n' => out := out + ['\\', 'n'];
        case '\r' => out := out + ['\\', 'r'];
        case '\t' => out := out + ['\\', 't'];
        case _ =>
          if c as int == 8 {
            out := out + ['\\', 'b'];
          } else if c as int == 12 {
            out := out + ['\\', 'f'];
          } else if c < ' ' {
            out := out + ['\\', 'u', '0', '0', HexDigit(c as int / 16), HexDigit(c as int % 16)];
          } else {
            out := out + [c];
          }
      }
    }
    assert s[..|s|] == s;
  }

  /** A parse step agrees with the parser function: same value and cursor, or same error. */
  ghost predicate Agrees<T(!new)>(ok: bool, out: T, err: JsonError, rest: string, expected: Parsed<T>) {
    match expected
    case Yes(v, r) => ok && out == v && rest == r
    case No(e) => !ok && err == e
  }

  lemma SkipOneSpace(text: string, pos: nat)
    requires pos < |text| && IsSpace(text[pos])
    ensures SkipWs(text[pos..]) == SkipWs(text[pos + 1..])
  {
    assert text[pos..][1..] == text[pos + 1..];
  }

  lemma NoMoreSpace(rest: string)
    requires rest == "" || !IsSpace(rest[0])
    ensures SkipWs(rest) == rest
  {
  }

  class JsonParser {
    const text: string
    var pos: nat

    ghost predicate Valid()
      reads this
    {
      pos <= |text|
    }

    ghost function Rest(): string
      requires Valid()
      reads this
    {
      text[pos..]
    }

    constructor (text: string)
      ensures this.text == text && pos == 0 && Valid()
    {
      this.text, pos := text, 0;
    }

    /** parse: the whole text as one value. */
    method Parse() returns (ok: bool, out: JsonValue, err: JsonError)
      requires Valid() && pos == 0
      modifies this
      ensures Valid()
      ensures match ParseDocument(text)
              case Yes(v, _) => ok && out == v
              case No(e) => !ok && err == e
    {
      assert text[0..] == text;
      SkipSpace();
      ok, out, err := ReadValue();
      if !ok {
        return;
      }
      SkipSpace();
      if pos != |text| {
        return false, out, TrailingCharacters;
      }
    }

    method SkipSpace()
      requires Valid()
      modifies this
      ensures Valid() && Rest() == SkipWs(old(Rest())) && pos >= old(pos)
    {
      hide SkipWs;
      ghost var start := Rest();
      while pos < |text| && IsSpace(text[pos])
        invariant Valid() && pos >= old(pos) && SkipWs(text[pos..]) == SkipWs(start)
        decreases |text| - pos
      {
        SkipOneSpace(text, pos);
        pos := pos + 1;
      }
      NoMoreSpace(text[pos..]);
    }

    method Expect(c: char) returns (ok: bool)
      requires Valid()
      modifies this
      ensures Valid()
      ensures ok == StartsWith(old(Rest()), c)
      ensures ok ==> pos == old(pos) + 1 && Rest() == old(Rest())[1..]
      ensures !ok ==> pos == old(pos)
    {
      if pos >= |text| || text[pos] != c {
        return false;
      }
      pos := pos + 1;
      return true;
    }

    method ReadValue() returns (ok: bool, out: JsonValue, err: JsonError)
      requires Valid()
      modifies this
      ensures Valid() && pos >= old(pos) && Agrees(ok, out, err, Rest(), ParseValue(old(Rest())))
      decreases |text| - pos, 1
    {
      hide ParseToken, SkipWs;
      SkipSpace();
      ok, out, err := ReadToken();
    }

    /** parse_value after the white space: dispatch on the next character. */
    method ReadToken() returns (ok: bool, out: JsonValue, err: JsonError)
      requires Valid()
      modifies this
      ensures Valid() && pos >= old(pos) && Agrees(ok, out, err, Rest(), ParseToken(old(Rest())))
      decreases |text| - pos, 0, 1
    {
      out, err := Null, UnexpectedCharacter;
      if pos >= |text| {
        return false, out, UnexpectedEnd;
      }
      ghost var t := Rest();
      hide ParseToken, ParseString, NumberRun;
      var c := text[pos];
      if c == '{' {
        ok, out, err := ReadObject();
        return;
      }
      if c == '[' {
        ok, out, err := ReadArray();
        return;
      }
      if c == '\"' {
        StringStep(t);
        var s;
        ok, s, err := ReadString();
        out := String(s);
        return;
      }
      if c == '-' || IsDigit(c) {
        NumberStep(t);
      } else {
        WordStep(t);
      }
      if HasPrefix(text[pos..], "true") {
        pos := pos + 4;
        assert text[pos..] == t[4..];
        return true, Bool(true), err;
      }
      if HasPrefix(text[pos..], "false") {
        pos := pos + 5;
        assert text[pos..] == t[5..];
        return true, Bool(false), err;
      }
      if HasPrefix(text[pos..], "null") {
        pos := pos + 4;
        assert text[pos..] == t[4..];
        return true, Null, err;
      }
      if c == '-' || IsDigit(c) {
        ok, out, err := ReadNumber();
        return;
      }
      return false, out, UnexpectedCharacter;
    }

    method ReadObject() returns (ok: bool, out: JsonValue, err: JsonError)
      requires Valid() && StartsWith(Rest(), '{')
      modifies this
      ensures Valid() && pos >= old(pos) && Agrees(ok, out, err, Rest(), ParseToken(old(Rest())))
      decreases |text| - pos, 0, 0
    {
      hide ParseToken, ParseMembers, SkipWs;
      ghost var start := Rest();
      ObjectStep(start);
      pos := pos + 1;
      assert text[pos..] == start[1..];
      SkipSpace();
      ok, out, err := true, Object([]), UnexpectedEnd;
      if pos < |text| && text[pos] == '}' {
        pos := pos + 1;
        assert text[pos..] == SkipWs(start[1..])[1..];
        return;
      }
      hide Agrees;
      var done := false;
      while !done
        invariant Valid() && pos > old(pos) && out.Object?
        invariant !done ==> ParseToken(start) == ParseMembers(text[pos..], out.members)
        invariant done ==> Agrees(ok, out, err, Rest(), ParseToken(start))
        decreases !done, |text| - pos
      {
        done, ok, out, err := ReadMemberTurn(out.members);
      }
    }

    /** One turn of the loop in parse_object; `done` says that the loop returns, with ok and err as its result. */
    method ReadMemberTurn(members: seq<(string, JsonValue)>) returns (done: bool, ok: bool, out: JsonValue, err: JsonError)
      requires Valid()
      modifies this
      ensures Valid() && pos >= old(pos) && out.Object?
      ensures done ==> Agrees(ok, out, err, Rest(), ParseMembers(old(Rest()), members))
      ensures !done ==> pos > old(pos) && ParseMembers(old(Rest()), members) == ParseMembers(Rest(), out.members)
      decreases |text| - pos, 3
    {
      hide ParseMember, ParseMembers, SkipWs;
      MembersStep(Rest(), members);
      var key, val;
      ok, key, val, err := ReadMember();
      out := Object(members);
      if !ok {
        return true, false, out, err;
      }
      out := Object(members + [(key, val)]);
      SkipSpace();
      ghost var t := Rest();
      assert pos < |text| ==> t[0] == text[pos] && t[1..] == text[pos + 1..];
      if pos < |text| && text[pos] == ',' {
        pos := pos + 1;
        return false, true, out, err;
      }
      if pos < |text| && text[pos] == '}' {
        pos := pos + 1;
        return true, true, out, err;
      }
      return true, false, out, ExpectedCommaOrBrace;
    }

    /** A key, a colon and a value. */
    method ReadMember() returns (ok: bool, key: string, val: JsonValue, err: JsonError)
      requires Valid()
      modifies this
      ensures Valid() && pos >= old(pos) && Agrees(ok, (key, val), err, Rest(), ParseMember(old(Rest())))
      ensures ok ==> pos > old(pos)
      decreases |text| - pos, 2
    {
      val := Null;
      SkipSpace();
      ok, key, err := ReadString();
      if !ok {
        return;
      }
      SkipSpace();
      ok := Expect(':');
      if !ok {
        return false, key, val, Expected(':');
      }
      ok, val, err := ReadValue();
    }

    method ReadArray() returns (ok: bool, out: JsonValue, err: JsonError)
      requires Valid() && StartsWith(Rest(), '[')
      modifies this
      ensures Valid() && pos >= old(pos) && Agrees(ok, out, err, Rest(), ParseToken(old(Rest())))
      decreases |text| - pos, 0, 0
    {
      hide ParseToken, ParseItems, SkipWs;
      ghost var start := Rest();
      ArrayStep(start);
      pos := pos + 1;
      assert text[pos..] == start[1..];
      SkipSpace();
      ok, out, err := true, Array([]), UnexpectedEnd;
      if pos < |text| && text[pos] == ']' {
        pos := pos + 1;
        assert text[pos..] == SkipWs(start[1..])[1..];
        return;
      }
      hide Agrees;
      var done := false;
      while !done
        invariant Valid() && pos > old(pos) && out.Array?
        invariant !done ==> ParseToken(start) == ParseItems(text[pos..], out.items)
        invariant done ==> Agrees(ok, out, err, Rest(), ParseToken(start))
        decreases !done, |text| - pos
      {
        done, ok, out, err := ReadItemTurn(out.items);
      }
    }

    /** One turn of the loop in parse_array; `done` says that the loop returns, with ok and err as its result. */
    method ReadItemTurn(items: seq<JsonValue>) returns (done: bool, ok: bool, out: JsonValue, err: JsonError)
      requires Valid()
      modifies this
      ensures Valid() && pos >= old(pos) && out.Array?
      ensures done ==> Agrees(ok, out, err, Rest(), ParseItems(old(Rest()), items))
      ensures !done ==> pos > old(pos) && ParseItems(old(Rest()), items) == ParseItems(Rest(), out.items)
      decreases |text| - pos, 3
    {
      hide ParseValue, ParseItems, SkipWs;
      ItemsStep(Rest(), items);
      var val;
      ok, val, err := ReadValue();
      out := Array(items);
      if !ok {
        return true, false, out, err;
      }
      out := Array(items + [val]);
      SkipSpace();
      ghost var t := Rest();
      assert pos < |text| ==> t[0] == text[pos] && t[1..] == text[pos + 1..];
      if pos < |text| && text[pos] == ',' {
        pos := pos + 1;
        return false, true, out, err;
      }
      if pos < |text| && text[pos] == ']' {
        pos := pos + 1;
        return true, true, out, err;
      }
      return true, false, out, ExpectedCommaOrBracket;
    }

    method ReadString() returns (ok: bool, out: string, err: JsonError)
      requires Valid()
      modifies this
      ensures Valid() && pos >= old(pos) && Agrees(ok, out, err, Rest(), ParseString(old(Rest())))
      ensures ok ==> pos > old(pos)
    {
      hide HexCode, Utf8, StringBody;
      out, err := "", UnterminatedString;
      ok := Expect('\"');
      if !ok {
        return false, out, Expected('\"');
      }
      ghost var body := Rest();
      var done := false;
      while pos < |text|
        invariant Valid() && pos > old(pos) && StringBody(body, "") == StringBody(text[pos..], out)
        decreases |text| - pos
      {
        done, ok, out, err := ReadStringChar(out);
        if done {
          return;
        }
      }
      BodyAtEnd(text[pos..], out);
      return false, out, UnterminatedString;
    }

    lemma BodyAtEnd(s: string, acc: string)
      requires s == ""
      ensures StringBody(s, acc) == No(UnterminatedString)
    {
    }

    /**
     * One turn of the loop in parse_string: a plain character, an escape, or the end.
     * `done` says that the loop returns, with ok and err as its result.
     */
    method ReadStringChar(acc: string) returns (done: bool, ok: bool, out: string, err: JsonError)
      requires Valid() && pos < |text|
      modifies this
      ensures Valid() && pos > old(pos)
      ensures done ==> Agrees(ok, out, err, Rest(), StringBody(old(Rest()), acc))
      ensures !done ==> StringBody(old(Rest()), acc) == StringBody(Rest(), out)
    {
      hide HexCode, Utf8;
      ghost var here := Rest();
      out, err := acc, UnterminatedString;
      var c := text[pos];
      pos := pos + 1;
      assert text[pos..] == here[1..];
      if c == '\"' {
        return true, true, out, err;
      }
      if c != '\\' {
        return false, true, acc + [c], err;
      }
      if pos >= |text| {
        return true, false, out, UnterminatedString;
      }
      var esc := text[pos];
      pos := pos + 1;
      assert here[1] == esc && text[pos..] == here[2..];
      if esc == 'u' {
        if pos + 4 > |text| {
          return true, false, out, TruncatedEscape;
        }
        assert here[2..6] == text[pos..pos + 4] && here[6..] == text[pos + 4..];
        var code: nat;
        ok, code := ReadHex();
        if !ok {
          return true, false, out, InvalidHexEscape;
        }
        return false, true, acc + Utf8(code), err;
      }
      match SimpleEscape(esc) {
        case Some(e) => return false, true, acc + [e], err;
        case None => return true, false, out, InvalidEscape;
      }
    }

    /** The four hex digits of a \u escape, shifted into code one at a time. */
    method ReadHex() returns (ok: bool, code: nat)
      requires Valid() && pos + 4 <= |text|
      modifies this
      ensures Valid() && pos >= old(pos)
      ensures ok <==> HexCode(text[old(pos)..old(pos) + 4]).Some?
      ensures ok ==> pos == old(pos) + 4 && code < 0x1_0000 && HexCode(text[old(pos)..old(pos) + 4]) == Some(code)
    {
      ghost var digits := text[pos..pos + 4];
      assert Pow16(2) == 0x100 && Pow16(4) == 0x1_0000;
      code := 0;
      for i := 0 to 4
        invariant pos == old(pos) + i
        invariant HexCode(digits[..i]) == Some(code)
      {
        assert digits[..i + 1][..i] == digits[..i];
        match HexValue(text[pos]) {
          case None =>
            HexNeedsEveryDigit(digits, i);
            pos := pos + 1;
            return false, 0;
          case Some(h) =>
            pos := pos + 1;
            code := 16 * code + h;
        }
      }
      assert digits[..4] == digits;
      ok := true;
    }

    lemma {:induction false} HexNeedsEveryDigit(digits: string, i: nat)
      requires i < |digits| && HexValue(digits[i]).None?
      ensures HexCode(digits).None?
      decreases |digits|
    {
      if i < |digits| - 1 {
        HexNeedsEveryDigit(digits[..|digits| - 1], i);
      }
    }

    method ReadNumber() returns (ok: bool, out: JsonValue, err: JsonError)
      requires Valid() && Rest() != "" && (Rest()[0] == '-' || IsDigit(Rest()[0]))
      modifies this
      ensures Valid() && pos >= old(pos)
      ensures ok && out == Number(old(Rest())[..NumberRun(old(Rest()))])
      ensures Rest() == old(Rest())[NumberRun(old(Rest()))..]
    {
      var start := pos;
      err := InvalidNumber;
      if text[pos] == '-' {
        pos := pos + 1;
      }
      assert text[start..][1..] == text[start + 1..];
      while pos < |text| && IsNumberChar(text[pos])
        invariant Valid() && pos >= start
        invariant NumberRun(text[start..]) == (pos - start) + NumberRun(text[pos..])
        decreases |text| - pos
      {
        assert text[pos..][1..] == text[pos + 1..];
        pos := pos + 1;
      }
      assert pos > start;
      ok, out := true, Number(text[start..pos]);
    }
  }
}
