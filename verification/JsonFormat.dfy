/** What manifest.json text means: the escaping printer, decimal numbers, and the parser as functions on text. */
module JsonFormat {
  import opened Bytes

  datatype Option<+T> = None | Some(value: T)

  datatype JsonValue =
    | Null
    | Bool(boolean: bool)
    | Number(text: string)
    | String(str: string)
    | Array(items: seq<JsonValue>)
    | Object(members: seq<(string, JsonValue)>)
  {
    /** find: the first member with that name, of an object. */
    function Find(key: string): Option<JsonValue> {
      if Object? then Lookup(members, key) else None
    }

    function AsU64(): Option<u64> {
      if Number? then StrToULL(text) else None
    }

    function AsString(): Option<string> {
      if String? then Some(str) else None
    }
  }

  function Lookup(members: seq<(string, JsonValue)>, key: string): Option<JsonValue> {
    if members == [] then None
    else if members[0].0 == key then Some(members[0].1)
    else Lookup(members[1..], key)
  }

  lemma {:induction false} LookupAt(members: seq<(string, JsonValue)>, i: nat)
    requires i < |members| && forall j :: 0 <= j < i ==> members[j].0 != members[i].0
    ensures Lookup(members, members[i].0) == Some(members[i].1)
  {
    if i > 0 {
      assert members[0].0 != members[i].0;
      LookupAt(members[1..], i - 1);
    }
  }

  // ---- characters ----------------------------------------------------------------

  predicate IsSpace(c: char) {
    c == ' ' || '\t' <= c <= '\r'
  }

  predicate IsDigit(c: char) {
    '0' <= c <= '9'
  }

  predicate IsNumberChar(c: char) {
    IsDigit(c) || c in ".eE+-"
  }

  ghost predicate Blank(s: string) {
    forall i :: 0 <= i < |s| ==> IsSpace(s[i])
  }

  function HexDigit(n: nat): char
    requires n < 16
  {
    if n < 10 then '0' + n as char else 'a' + (n - 10) as char
  }

  function HexValue(c: char): Option<nat> {
    if '0' <= c <= '9' then Some(c as int - '0' as int)
    else if 'a' <= c <= 'f' then Some(c as int - 'a' as int + 10)
    else if 'A' <= c <= 'F' then Some(c as int - 'A' as int + 10)
    else None
  }

  // ---- decimal numbers -------------------------------------------------------------

  function Digit(n: nat): char
    requires n < 10
  {
    '0' + n as char
  }

  /** An unsigned number as operator<< prints it. */
  function Decimal(n: nat): (s: string)
    ensures |s| > 0 && forall i :: 0 <= i < |s| ==> IsDigit(s[i])
  {
    if n < 10 then [Digit(n)] else Decimal(n / 10) + [Digit(n % 10)]
  }

  function DecimalValue(s: string): nat
    requires forall i :: 0 <= i < |s| ==> IsDigit(s[i])
  {
    if s == "" then 0
    else
      assert IsDigit(s[|s| - 1]);
      10 * DecimalValue(s[..|s| - 1]) + (s[|s| - 1] as int - '0' as int)
  }

  predicate AllDigits(s: string) {
    forall i :: 0 <= i < |s| ==> IsDigit(s[i])
  }

  /**
   * strtoull over number text, then the check that it stopped at the end: an optional
   * sign and digits; too large a value saturates, a minus sign wraps around.
   */
  function StrToULL(text: string): Option<u64> {
    if text == "" then Some(0)
    else
      var negative := text[0] == '-';
      var digits := if text[0] in "+-" then text[1..] else text;
      if digits == "" || !AllDigits(digits) then None
      else
        var v := DecimalValue(digits);
        if v > U64_MAX then Some(U64_MAX)
        else if negative && v > 0 then Some(U64_LIMIT - v)
        else Some(v)
  }

  lemma {:induction false} ValueOfDecimal(n: nat)
    ensures DecimalValue(Decimal(n)) == n
  {
    if n >= 10 {
      ValueOfDecimal(n / 10);
      assert Decimal(n)[..|Decimal(n)| - 1] == Decimal(n / 10);
    } else {
      assert [Digit(n)][..0] == "";
    }
  }

  /** Every printed 64-bit number is read back. */
  lemma DecimalRoundTrip(n: u64)
    ensures StrToULL(Decimal(n)) == Some(n)
  {
    ValueOfDecimal(n);
    assert IsDigit(Decimal(n)[0]);
  }

  // ---- escaping --------------------------------------------------------------------

  /** "\u00XX" for a control character. */
  function ControlEscape(c: char): string
    requires c < ' '
  {
    ['\\', 'u', '0', '0', HexDigit(c as int / 16), HexDigit(c as int % 16)]
  }

  function EscapeChar(c: char): string {
    match c
    case '\"' => ['\\', '\"']
    case '\\' => ['\\', '\\']
    case '\n' => ['\\', 'n']
    case '\r' => ['\\', 'r']
    case '\t' => ['\\', 't']
    case _ =>
      if c as int == 8 then ['\\', 'b']
      else if c as int == 12 then ['\\', 'f']
      else if c < ' ' then ControlEscape(c)
      else [c]
  }

  function Escape(s: string): string {
    if s == "" then "" else EscapeChar(s[0]) + Escape(s[1..])
  }

  ghost predicate Plain(s: string) {
    forall i :: 0 <= i < |s| ==> s[i] >= ' ' && s[i] != '\"' && s[i] != '\\'
  }

  lemma {:induction false} EscapePlain(s: string)
    requires Plain(s)
    ensures Escape(s) == s
  {
    if s != "" {
      EscapePlain(s[1..]);
    }
  }

  lemma {:induction false} EscapeSnoc(s: string, c: char)
    ensures Escape(s + [c]) == Escape(s) + EscapeChar(c)
  {
    if s == "" {
      assert Escape([c]) == EscapeChar(c) + Escape("");
    } else {
      assert (s + [c])[1..] == s[1..] + [c];
      EscapeSnoc(s[1..], c);
    }
  }

  // ---- the parser, on the text that is left --------------------------------------------

  datatype JsonError =
    | Expected(c: char) | UnexpectedEnd | UnexpectedCharacter | ExpectedCommaOrBrace | ExpectedCommaOrBracket
    | TruncatedEscape | InvalidHexEscape | InvalidEscape | UnterminatedString | InvalidNumber | TrailingCharacters

  datatype Parsed<+T> = Yes(value: T, rest: string) | No(error: JsonError)

  function SkipWs(s: string): (r: string)
    ensures |r| <= |s| && (r != "" ==> !IsSpace(r[0]))
    ensures r == s[|s| - |r|..]
  {
    if s != "" && IsSpace(s[0]) then SkipWs(s[1..]) else s
  }

  function SimpleEscape(c: char): Option<char> {
    match c
    case '\"' => Some('\"')
    case '\\' => Some('\\')
    case '/' => Some('/')
    case 'b' => Some(8 as char)
    case 'f' => Some(12 as char)
    case 'n' => Some('\n')
    case 'r' => Some('\r')
    case 't' => Some('\t')
    case _ => None
  }

  function Pow16(n: nat): nat {
    if n == 0 then 1 else 16 * Pow16(n - 1)
  }

  /** The number that hex digits denote, most significant first. */
  function HexCode(digits: string): (r: Option<nat>)
    ensures r.Some? ==> r.value < Pow16(|digits|)
  {
    if digits == "" then Some(0)
    else
      match (HexCode(digits[..|digits| - 1]), HexValue(digits[|digits| - 1]))
      case (Some(high), Some(low)) => Some(16 * high + low)
      case _ => None
  }

  /** A code point below 0x10000 as one to three bytes; surrogates are not combined. */
  function Utf8(code: nat): string
    requires code < 0x1_0000
  {
    if code < 0x80 then [code as char]
    else if code < 0x800 then [(0xC0 + code / 0x40) as char, (0x80 + code % 0x40) as char]
    else [(0xE0 + code / 0x1000) as char, (0x80 + code / 0x40 % 0x40) as char, (0x80 + code % 0x40) as char]
  }

  /** A string from just after its opening quote; acc is what has been read of it. */
  function StringBody(s: string, acc: string): (r: Parsed<string>)
    ensures r.Yes? ==> |r.rest| < |s|
    decreases |s|
  {
    if s == "" then No(UnterminatedString)
    else if s[0] == '\"' then Yes(acc, s[1..])
    else if s[0] != '\\' then StringBody(s[1..], acc + [s[0]])
    else if |s| == 1 then No(UnterminatedString)
    else if s[1] == 'u' then
      if |s| < 6 then No(TruncatedEscape)
      else
        match HexCode(s[2..6])
        case None => No(InvalidHexEscape)
        case Some(code) =>
          assert Pow16(2) == 0x100 && Pow16(4) == 0x1_0000;
          StringBody(s[6..], acc + Utf8(code))
    else
      match SimpleEscape(s[1])
      case None => No(InvalidEscape)
      case Some(c) => StringBody(s[2..], acc + [c])
  }

  function ParseString(s: string): (r: Parsed<string>)
    ensures r.Yes? ==> |r.rest| < |s|
  {
    if s == "" || s[0] != '\"' then No(Expected('\"')) else StringBody(s[1..], "")
  }

  /** How much of s is number characters. */
  function NumberRun(s: string): (n: nat)
    ensures n <= |s|
  {
    if s != "" && IsNumberChar(s[0]) then 1 + NumberRun(s[1..]) else 0
  }

  function StartsWith(s: string, c: char): bool {
    s != "" && s[0] == c
  }

  predicate HasPrefix(s: string, p: string) {
    |p| <= |s| && s[..|p|] == p
  }

  function ParseValue(s: string): (r: Parsed<JsonValue>)
    ensures r.Yes? ==> |r.rest| < |s|
    decreases |s|, 1
  {
    ParseToken(SkipWs(s))
  }

  /** A value whose first character is at the front of t. */
  function ParseToken(t: string): (r: Parsed<JsonValue>)
    ensures r.Yes? ==> |r.rest| < |t|
    decreases |t|, 0
  {
    if t == "" then No(UnexpectedEnd)
    else if t[0] == '{' then
      var u := SkipWs(t[1..]);
      if StartsWith(u, '}') then Yes(Object([]), u[1..]) else ParseMembers(u, [])
    else if t[0] == '[' then
      var u := SkipWs(t[1..]);
      if StartsWith(u, ']') then Yes(Array([]), u[1..]) else ParseItems(u, [])
    else if t[0] == '\"' then
      match ParseString(t)
      case Yes(v, rest) => Yes(String(v), rest)
      case No(e) => No(e)
    else if HasPrefix(t, "true") then Yes(Bool(true), t[4..])
    else if HasPrefix(t, "false") then Yes(Bool(false), t[5..])
    else if HasPrefix(t, "null") then Yes(Null, t[4..])
    else if t[0] == '-' || IsDigit(t[0]) then Yes(Number(t[..NumberRun(t)]), t[NumberRun(t)..])
    else No(UnexpectedCharacter)
  }

  function ParseMember(s: string): (r: Parsed<(string, JsonValue)>)
    ensures r.Yes? ==> |r.rest| < |s|
    decreases |s|, 2
  {
    match ParseString(SkipWs(s))
    case No(e) => No(e)
    case Yes(key, afterKey) =>
      var t := SkipWs(afterKey);
      if !StartsWith(t, ':') then No(Expected(':'))
      else
        match ParseValue(t[1..])
        case No(e) => No(e)
        case Yes(v, rest) => Yes((key, v), rest)
  }

  /** The members of an object from just before a key; acc holds those already read. */
  function ParseMembers(s: string, acc: seq<(string, JsonValue)>): (r: Parsed<JsonValue>)
    ensures r.Yes? ==> |r.rest| < |s|
    decreases |s|, 3
  {
    match ParseMember(s)
    case No(e) => No(e)
    case Yes(member, rest) =>
      var t := SkipWs(rest);
      if StartsWith(t, ',') then ParseMembers(t[1..], acc + [member])
      else if StartsWith(t, '}') then Yes(Object(acc + [member]), t[1..])
      else No(ExpectedCommaOrBrace)
  }

  function ParseItems(s: string, acc: seq<JsonValue>): (r: Parsed<JsonValue>)
    ensures r.Yes? ==> |r.rest| < |s|
    decreases |s|, 3
  {
    match ParseValue(s)
    case No(e) => No(e)
    case Yes(v, rest) =>
      var t := SkipWs(rest);
      if StartsWith(t, ',') then ParseItems(t[1..], acc + [v])
      else if StartsWith(t, ']') then Yes(Array(acc + [v]), t[1..])
      else No(ExpectedCommaOrBracket)
  }

  function ParseDocument(s: string): Parsed<JsonValue> {
    match ParseValue(SkipWs(s))
    case No(e) => No(e)
    case Yes(v, rest) => if SkipWs(rest) == "" then Yes(v, "") else No(TrailingCharacters)
  }

  // ---- one step of each parser function ---------------------------------------------

  lemma ObjectStep(t: string)
    requires StartsWith(t, '{')
    ensures var u := SkipWs(t[1..]);
            ParseToken(t) == if StartsWith(u, '}') then Yes(Object([]), u[1..]) else ParseMembers(u, [])
  {
    hide SkipWs, ParseMembers;
  }

  lemma ArrayStep(t: string)
    requires StartsWith(t, '[')
    ensures var u := SkipWs(t[1..]);
            ParseToken(t) == if StartsWith(u, ']') then Yes(Array([]), u[1..]) else ParseItems(u, [])
  {
    hide SkipWs, ParseItems;
  }

  lemma StringStep(t: string)
    requires StartsWith(t, '\"')
    ensures ParseToken(t) ==
            if ParseString(t).Yes? then Yes(String(ParseString(t).value), ParseString(t).rest)
            else No(ParseString(t).error)
  {
    hide ParseString;
  }

  lemma NumberStep(t: string)
    requires t != "" && (t[0] == '-' || IsDigit(t[0]))
    ensures ParseToken(t) == Yes(Number(t[..NumberRun(t)]), t[NumberRun(t)..])
  {
    hide NumberRun;
    assert !HasPrefix(t, "true") && !HasPrefix(t, "false") && !HasPrefix(t, "null");
  }

  /** The tokens that are not brackets, strings or numbers. */
  lemma WordStep(t: string)
    requires t != "" && t[0] !in "{[\"-" && !IsDigit(t[0])
    ensures ParseToken(t) ==
            if HasPrefix(t, "true") then Yes(Bool(true), t[4..])
            else if HasPrefix(t, "false") then Yes(Bool(false), t[5..])
            else if HasPrefix(t, "null") then Yes(Null, t[4..])
            else No(UnexpectedCharacter)
  {
    hide SkipWs, ParseString, ParseMembers, ParseItems, NumberRun;
  }

  lemma ItemsStep(s: string, acc: seq<JsonValue>)
    ensures ParseValue(s).No? ==> ParseItems(s, acc) == No(ParseValue(s).error)
    ensures ParseValue(s).Yes? ==>
              var t, items := SkipWs(ParseValue(s).rest), acc + [ParseValue(s).value];
              ParseItems(s, acc) ==
              if StartsWith(t, ',') then ParseItems(t[1..], items)
              else if StartsWith(t, ']') then Yes(Array(items), t[1..])
              else No(ExpectedCommaOrBracket)
  {
    hide ParseValue, SkipWs;
  }

  lemma MembersStep(s: string, acc: seq<(string, JsonValue)>)
    ensures ParseMember(s).No? ==> ParseMembers(s, acc) == No(ParseMember(s).error)
    ensures ParseMember(s).Yes? ==>
              var t, members := SkipWs(ParseMember(s).rest), acc + [ParseMember(s).value];
              ParseMembers(s, acc) ==
              if StartsWith(t, ',') then ParseMembers(t[1..], members)
              else if StartsWith(t, '}') then Yes(Object(members), t[1..])
              else No(ExpectedCommaOrBrace)
  {
    hide ParseMember, SkipWs;
  }
}
