/** The JSON values that `Item.properties` and `Item.raw_payload` hold
    (`serde_json::Value`), the compact text `Value::to_string` writes for them,
    and a reader that takes that text back to the value. The reader exists to
    show that the text the storage engine keeps loses nothing. */
module Json {
  import opened Results
  import opened Decimal

  /** `serde_json::Value`, with numbers restricted to integers. An object is the
      sequence of its members in the order the map iterates them. */
  datatype Value =
    | Null
    | Bool(b: bool)
    | Number(n: int)
    | String(s: string)
    | Array(elements: seq<Value>)
    | Object(members: seq<Member>)

  datatype Member = Member(key: string, value: Value)

  // ---------------------------------------------------------------------------
  // Writer: serde_json's compact formatter
  // ---------------------------------------------------------------------------

  /** Lower-case hexadecimal digit, as serde_json writes in `\u00XX` escapes. */
  function HexDigit(d: int): (c: char)
    requires 0 <= d < 16
    ensures IsHex(c) && HexValue(c) == d
  {
    if d < 10 then DigitChar(d) else (('a' as int) + d - 10) as char
  }

  /** How one character of a string is written between the quotes: the quote
      and the backslash are escaped, control characters get their short escape
      or `\u00XX`, and every other character is written as itself. */
  function EscapeChar(c: char): string {
    if c == '"' then "\\\""
    else if c == '\\' then "\\\\"
    else if c == '\n' then "\\n"
    else if c == '\r' then "\\r"
    else if c == '\t' then "\\t"
    else if c as int == 0x08 then "\\b"
    else if c as int == 0x0C then "\\f"
    else if (c as int) < 0x20 then "\\u00" + [HexDigit(c as int / 16), HexDigit(c as int % 16)]
    else [c]
  }

  function Escape(s: string): string {
    if |s| == 0 then "" else EscapeChar(s[0]) + Escape(s[1..])
  }

  /** A string as a JSON string literal. */
  function Quote(s: string): string {
    "\"" + Escape(s) + "\""
  }

  /** `Value::to_string`: compact JSON, no whitespace anywhere. The first
      character tells what kind of value follows. */
  function Text(v: Value): (r: string)
    ensures |r| > 0
    ensures r[0] == '"' <==> v.String?
    ensures r[0] == '[' <==> v.Array?
    ensures r[0] == '{' <==> v.Object?
    ensures r[0] == '-' || IsDigit(r[0]) <==> v.Number?
  {
    match v
    case Null => "null"
    case Bool(b) => if b then "true" else "false"
    case Number(n) => if n < 0 then "-" + Digits(-n) else Digits(n)
    case String(s) => Quote(s)
    case Array(vs) => "[" + ElementsText(vs) + "]"
    case Object(ms) => "{" + MembersText(ms) + "}"
  }

  function ElementsText(vs: seq<Value>): string {
    if |vs| == 0 then ""
    else if |vs| == 1 then Text(vs[0])
    else Text(vs[0]) + "," + ElementsText(vs[1..])
  }

  function MembersText(ms: seq<Member>): string {
    if |ms| == 0 then ""
    else if |ms| == 1 then MemberText(ms[0])
    else MemberText(ms[0]) + "," + MembersText(ms[1..])
  }

  function MemberText(m: Member): string {
    Quote(m.key) + ":" + Text(m.value)
  }

  /** `Value::get(key)`: the value of the first member named `key` of an
      object; nothing for a missing key or a value that is not an object. */
  function Lookup(v: Value, key: string): Option<Value> {
    if !v.Object? then None else LookupMember(v.members, key)
  }

  function LookupMember(ms: seq<Member>, key: string): (r: Option<Value>)
    ensures r.Some? <==> exists i :: 0 <= i < |ms| && ms[i].key == key
  {
    if |ms| == 0 then None
    else if ms[0].key == key then Some(ms[0].value)
    else
      var r := LookupMember(ms[1..], key);
      assert forall i :: 1 <= i < |ms| ==> ms[i] == ms[1..][i - 1];
      r
  }

  /** A text with no quote, backslash or control character, which the
      writer never escapes. */
  predicate Plain(name: string) {
    forall i :: 0 <= i < |name| ==> 0x20 <= name[i] as int && name[i] != '"' && name[i] != '\\'
  }

  lemma {:induction false} PlainNeedsNoEscape(name: string)
    requires Plain(name)
    ensures Escape(name) == name
  {
    if |name| > 0 {
      PlainNeedsNoEscape(name[1..]);
      assert name == [name[0]] + name[1..];
    }
  }

  /** An object of one member is written as that member between braces. */
  lemma SingleMemberText(key: string, v: Value)
    ensures Text(Object([Member(key, v)])) == "{" + (Quote(key) + ":" + Text(v)) + "}"
  {
    assert MembersText([Member(key, v)]) == MemberText(Member(key, v));
  }

  /** A plain text is written as itself between quotes. */
  lemma QuotePlain(name: string)
    requires Plain(name)
    ensures Quote(name) == "\"" + name + "\""
  {
    PlainNeedsNoEscape(name);
  }

  // ---------------------------------------------------------------------------
  // Reader: each function consumes a prefix and returns what is left
  // ---------------------------------------------------------------------------

  predicate IsHex(c: char) {
    IsDigit(c) || 'a' <= c <= 'f' || 'A' <= c <= 'F'
  }

  function HexValue(c: char): (d: int)
    requires IsHex(c)
    ensures 0 <= d < 16
  {
    if IsDigit(c) then DigitValue(c)
    else if 'a' <= c <= 'f' then (c as int) - ('a' as int) + 10
    else (c as int) - ('A' as int) + 10
  }

  /** The character a two-character escape `\e` stands for, if any. */
  function ShortEscape(e: char): Option<char> {
    if e == '"' || e == '\\' || e == '/' then Some(e)
    else if e == 'n' then Some('\n')
    else if e == 'r' then Some('\r')
    else if e == 't' then Some('\t')
    else if e == 'b' then Some(0x08 as char)
    else if e == 'f' then Some(0x0C as char)
    else None
  }

  function Prepend(c: char, r: Option<(string, string)>): Option<(string, string)> {
    match r
    case None => None
    case Some((s, rest)) => Some(([c] + s, rest))
  }

  /** Reads the body of a string literal up to and including its closing
      quote. Raw control characters are refused, as serde_json refuses them;
      `\uXXXX` escapes of surrogate code units are refused too. */
  function StringBody(t: string): (r: Option<(string, string)>)
    ensures r.Some? ==> |r.value.1| < |t|
    decreases |t|
  {
    if |t| == 0 then None
    else if t[0] == '"' then Some(("", t[1..]))
    else if t[0] == '\\' then
      if |t| < 2 then None
      else if t[1] == 'u' then
        if |t| < 6 || !(IsHex(t[2]) && IsHex(t[3]) && IsHex(t[4]) && IsHex(t[5])) then None
        else
          var code := ((HexValue(t[2]) * 16 + HexValue(t[3])) * 16 + HexValue(t[4])) * 16 + HexValue(t[5]);
          if 0xD800 <= code < 0xE000 then None
          else Prepend(code as char, StringBody(t[6..]))
      else
        match ShortEscape(t[1])
        case None => None
        case Some(c) => Prepend(c, StringBody(t[2..]))
    else if (t[0] as int) < 0x20 then None
    else Prepend(t[0], StringBody(t[1..]))
  }

  /** Reads an unsigned integer without superfluous leading zeros. */
  function Natural(s: string): (r: Option<(nat, string)>)
    ensures r.Some? ==> |r.value.1| < |s|
  {
    var k := DigitRun(s);
    if k == 0 || (k > 1 && s[0] == '0') then None
    else Some((ValueOf(s[..k]), s[k..]))
  }

  /** Reads the literal `word` as the value `v`. */
  function Keyword(s: string, word: string, v: Value): (r: Option<(Value, string)>)
    requires |word| > 0
    ensures r.Some? ==> |r.value.1| < |s|
  {
    if |s| >= |word| && s[..|word|] == word then Some((v, s[|word|..])) else None
  }

  /** Reads an optionally negative integer. */
  function ParseNumber(s: string): (r: Option<(Value, string)>)
    ensures r.Some? ==> |r.value.1| < |s|
  {
    if |s| > 0 && s[0] == '-' then
      match Natural(s[1..])
      case None => None
      case Some((n, rest)) => Some((Number(-(n as int)), rest))
    else
      match Natural(s)
      case None => None
      case Some((n, rest)) => Some((Number(n), rest))
  }

  function ParseValue(s: string): (r: Option<(Value, string)>)
    ensures r.Some? ==> |r.value.1| < |s|
    decreases |s|, 2
  {
    if |s| == 0 then None
    else if s[0] == 'n' then Keyword(s, "null", Null)
    else if s[0] == 't' then Keyword(s, "true", Bool(true))
    else if s[0] == 'f' then Keyword(s, "false", Bool(false))
    else if s[0] == '"' then ParseString(s)
    else if s[0] == '[' then ParseArray(s)
    else if s[0] == '{' then ParseObject(s)
    else ParseNumber(s)
  }

  /** Reads a string literal from its opening quote. */
  function ParseString(s: string): (r: Option<(Value, string)>)
    ensures r.Some? ==> |r.value.1| < |s|
  {
    if |s| == 0 || s[0] != '"' then None
    else
      match StringBody(s[1..])
      case None => None
      case Some((t, rest)) => Some((String(t), rest))
  }

  /** Reads an array from its opening bracket. */
  function ParseArray(s: string): (r: Option<(Value, string)>)
    ensures r.Some? ==> |r.value.1| < |s|
    decreases |s|, 1
  {
    if |s| == 0 || s[0] != '[' then None
    else if |s| >= 2 && s[1] == ']' then Some((Array([]), s[2..]))
    else
      match ParseElements(s[1..])
      case None => None
      case Some((vs, rest)) => Some((Array(vs), rest))
  }

  /** Reads an object from its opening brace. */
  function ParseObject(s: string): (r: Option<(Value, string)>)
    ensures r.Some? ==> |r.value.1| < |s|
    decreases |s|, 1
  {
    if |s| == 0 || s[0] != '{' then None
    else if |s| >= 2 && s[1] == '}' then Some((Object([]), s[2..]))
    else
      match ParseMembers(s[1..])
      case None => None
      case Some((ms, rest)) => Some((Object(ms), rest))
  }

  /** Reads one or more comma-separated values and the closing bracket. */
  function ParseElements(s: string): (r: Option<(seq<Value>, string)>)
    ensures r.Some? ==> |r.value.1| < |s|
    decreases |s|, 3
  {
    match ParseValue(s)
    case None => None
    case Some((v, rest)) =>
      if |rest| > 0 && rest[0] == ',' then
        match ParseElements(rest[1..])
        case None => None
        case Some((vs, rest')) => Some(([v] + vs, rest'))
      else if |rest| > 0 && rest[0] == ']' then Some(([v], rest[1..]))
      else None
  }

  /** Reads one or more comma-separated `"key":value` members and the closing brace. */
  function ParseMembers(s: string): (r: Option<(seq<Member>, string)>)
    ensures r.Some? ==> |r.value.1| < |s|
    decreases |s|, 1
  {
    if |s| == 0 || s[0] != '"' then None
    else
      match StringBody(s[1..])
      case None => None
      case Some((key, r1)) =>
        if |r1| == 0 || r1[0] != ':' then None
        else
          match ParseValue(r1[1..])
          case None => None
          case Some((v, r2)) =>
            if |r2| > 0 && r2[0] == ',' then
              match ParseMembers(r2[1..])
              case None => None
              case Some((ms, rest)) => Some(([Member(key, v)] + ms, rest))
            else if |r2| > 0 && r2[0] == '}' then Some(([Member(key, v)], r2[1..]))
            else None
  }

  /** Reads a whole text as exactly one value. */
  function Parse(s: string): Option<Value> {
    match ParseValue(s)
    case Some((v, rest)) => if |rest| == 0 then Some(v) else None
    case None => None
  }

  // ---------------------------------------------------------------------------
  // Round trip
  // ---------------------------------------------------------------------------

  /** What may follow a value's text without being read as part of it: only a
      number's text can be extended, by a further digit. */
  predicate Delimited(rest: string) {
    |rest| == 0 || !IsDigit(rest[0])
  }

  /** A character written with a two-character escape. */
  predicate HasShortEscape(c: char) {
    c == '"' || c == '\\' || c == '\n' || c == '\r' || c == '\t' || c as int == 0x08 || c as int == 0x0C
  }

  lemma ShortEscapeStep(c: char, t: string)
    requires HasShortEscape(c)
    ensures StringBody(EscapeChar(c) + t) == Prepend(c, StringBody(t))
  {
    var u := EscapeChar(c) + t;
    assert u[0] == '\\' && u[2..] == t;
  }

  lemma UnicodeEscapeStep(c: char, t: string)
    requires !HasShortEscape(c) && (c as int) < 0x20
    ensures StringBody(EscapeChar(c) + t) == Prepend(c, StringBody(t))
  {
    var u := EscapeChar(c) + t;
    var hi, lo := c as int / 16, c as int % 16;
    assert u[..6] == ['\\', 'u', '0', '0', HexDigit(hi), HexDigit(lo)];
    assert u[6..] == t;
    assert (c as int) as char == c;
  }

  /** Every written character is read back from its escape. */
  lemma EscapeCharStep(c: char, t: string)
    ensures StringBody(EscapeChar(c) + t) == Prepend(c, StringBody(t))
  {
    if HasShortEscape(c) {
      ShortEscapeStep(c, t);
    } else if (c as int) < 0x20 {
      UnicodeEscapeStep(c, t);
    } else {
      var u := EscapeChar(c) + t;
      assert u[0] == c && u[1..] == t;
    }
  }

  /** The body of a written string literal reads back as the string, and the
      reader stops right after the closing quote. */
  lemma {:induction false} EscapeRoundTrip(s: string, rest: string)
    ensures StringBody(Escape(s) + "\"" + rest) == Some((s, rest))
  {
    if |s| == 0 {
      assert Escape(s) + "\"" + rest == "\"" + rest;
    } else {
      var tail := Escape(s[1..]) + "\"" + rest;
      assert Escape(s) + "\"" + rest == EscapeChar(s[0]) + tail;
      EscapeCharStep(s[0], tail);
      EscapeRoundTrip(s[1..], rest);
      assert [s[0]] + s[1..] == s;
    }
  }

  /** A value's text is never empty and never starts with a closing bracket or
      brace, so the reader can tell an empty array or object from a non-empty one. */
  lemma TextStart(v: Value)
    ensures |Text(v)| > 0
    ensures Text(v)[0] != ']' && Text(v)[0] != '}'
  {
    match v
    case Number(n) =>
      if n >= 0 {
        assert IsDigit(Digits(n)[0]);
      }
    case _ =>
  }

  lemma NaturalRoundTrip(m: nat, rest: string)
    requires Delimited(rest)
    ensures Natural(Digits(m) + rest) == Some((m, rest))
  {
    var d := Digits(m);
    DigitRunStopsAtEnd(d, rest);
    DigitsHaveNoLeadingZero(m);
    ValueOfDigits(m);
  }

  lemma NumberRoundTrip(n: int, rest: string)
    requires Delimited(rest)
    ensures ParseNumber(Text(Number(n)) + rest) == Some((Number(n), rest))
  {
    var m: nat := if n < 0 then -n else n;
    var d := Digits(m);
    NaturalRoundTrip(m, rest);
    var s := Text(Number(n)) + rest;
    if n < 0 {
      assert s == "-" + (d + rest);
      assert s[1..] == d + rest;
    } else {
      assert s == d + rest;
      assert IsDigit(s[0]);
    }
  }

  lemma StringRoundTrip(t: string, rest: string)
    ensures ParseValue(Text(String(t)) + rest) == Some((String(t), rest))
  {
    var s := Text(String(t)) + rest;
    Enclosed("\"", Escape(t), "\"", rest);
    DropFirst("\"", Escape(t) + "\"" + rest);
    ParseValueDispatch(s);
    EscapeRoundTrip(t, rest);
  }

  lemma KeywordRoundTrip(v: Value, rest: string)
    requires v.Null? || v.Bool?
    ensures ParseValue(Text(v) + rest) == Some((v, rest))
  {
    var s := Text(v) + rest;
    var w := Text(v);
    assert s[..|w|] == w && s[|w|..] == rest;
  }

  /** Reading the text of any value gives the value back, leaving untouched
      whatever follows it. */
  lemma {:induction false} ValueRoundTrip(v: Value, rest: string)
    requires Delimited(rest)
    ensures ParseValue(Text(v) + rest) == Some((v, rest))
    decreases v, 1
  {
    match v
    case Null => KeywordRoundTrip(v, rest);
    case Bool(_) => KeywordRoundTrip(v, rest);
    case Number(n) =>
      NumberRoundTrip(n, rest);
      var s := Text(v) + rest;
      assert s[0] == '-' || IsDigit(s[0]);
    case String(t) => StringRoundTrip(t, rest);
    case Array(vs) => ArrayRoundTrip(vs, rest);
    case Object(ms) => ObjectRoundTrip(ms, rest);
  }

  /** At a bracket or a brace the reader hands over to the array or object reader. */
  lemma ParseValueDispatch(s: string)
    requires |s| > 0
    ensures s[0] == '[' ==> ParseValue(s) == ParseArray(s)
    ensures s[0] == '{' ==> ParseValue(s) == ParseObject(s)
    ensures s[0] == '"' ==> ParseValue(s) == ParseString(s)
  {
  }

  lemma {:induction false} ArrayRoundTrip(vs: seq<Value>, rest: string)
    ensures ParseValue(Text(Array(vs)) + rest) == Some((Array(vs), rest))
    decreases vs, 2
  {
    var inner := ElementsText(vs) + "]" + rest;
    ArrayTextShape(vs, rest);
    if |vs| > 0 {
      ElementsRoundTrip(vs, rest);
    }
    ArrayOpening(inner, vs, rest);
  }

  /** A written array is its bracket followed by the elements' text, which
      cannot open with a closing bracket unless the array is empty. */
  lemma ArrayTextShape(vs: seq<Value>, rest: string)
    ensures Text(Array(vs)) + rest == "[" + (ElementsText(vs) + "]" + rest)
    ensures |ElementsText(vs) + "]" + rest| > 0
    ensures |vs| == 0 ==> (ElementsText(vs) + "]" + rest)[0] == ']'
                          && (ElementsText(vs) + "]" + rest)[1..] == rest
    ensures |vs| > 0 ==> (ElementsText(vs) + "]" + rest)[0] != ']'
  {
    Enclosed("[", ElementsText(vs), "]", rest);
    if |vs| == 0 {
      DropFirst("]", rest);
    } else {
      TextStart(vs[0]);
      StartsWithAppend(Text(vs[0]), if |vs| == 1 then "" else "," + ElementsText(vs[1..]));
      StartsWithAppend(ElementsText(vs), "]" + rest);
      assert ElementsText(vs) + "]" + rest == ElementsText(vs) + ("]" + rest);
    }
  }

  /** After an opening bracket the array reader reads the elements, or an
      immediate closing bracket. */
  lemma ArrayOpening(x: string, vs: seq<Value>, rest: string)
    requires |x| > 0
    requires x[0] == ']' ==> vs == [] && x[1..] == rest
    requires x[0] != ']' ==> ParseElements(x) == Some((vs, rest))
    ensures ParseValue("[" + x) == Some((Array(vs), rest))
  {
    DropFirst("[", x);
    ParseValueDispatch("[" + x);
  }

  lemma {:induction false} ObjectRoundTrip(ms: seq<Member>, rest: string)
    ensures ParseValue(Text(Object(ms)) + rest) == Some((Object(ms), rest))
    decreases ms, 2
  {
    var inner := MembersText(ms) + "}" + rest;
    ObjectTextShape(ms, rest);
    if |ms| > 0 {
      MembersRoundTrip(ms, rest);
    }
    ObjectOpening(inner, ms, rest);
  }

  /** A written object is its brace followed by the members' text, which
      opens with a quote unless the object is empty. */
  lemma ObjectTextShape(ms: seq<Member>, rest: string)
    ensures Text(Object(ms)) + rest == "{" + (MembersText(ms) + "}" + rest)
    ensures |MembersText(ms) + "}" + rest| > 0
    ensures |ms| == 0 ==> (MembersText(ms) + "}" + rest)[0] == '}'
                          && (MembersText(ms) + "}" + rest)[1..] == rest
    ensures |ms| > 0 ==> (MembersText(ms) + "}" + rest)[0] == '"'
  {
    Enclosed("{", MembersText(ms), "}", rest);
    if |ms| == 0 {
      DropFirst("}", rest);
    } else {
      MembersTextStart(ms, "}" + rest);
      assert MembersText(ms) + "}" + rest == MembersText(ms) + ("}" + rest);
    }
  }

  /** After an opening brace the object reader reads the members, or an
      immediate closing brace. */
  lemma ObjectOpening(x: string, ms: seq<Member>, rest: string)
    requires |x| > 0
    requires x[0] == '}' ==> ms == [] && x[1..] == rest
    requires x[0] != '}' ==> x[0] == '"' && ParseMembers(x) == Some((ms, rest))
    ensures ParseValue("{" + x) == Some((Object(ms), rest))
  {
    DropFirst("{", x);
    ParseValueDispatch("{" + x);
  }

  lemma {:induction false} ElementsRoundTrip(vs: seq<Value>, rest: string)
    requires |vs| > 0
    ensures ParseElements(ElementsText(vs) + "]" + rest) == Some((vs, rest))
    decreases vs, 1
  {
    if |vs| == 1 {
      LastElementRoundTrip(vs, rest);
    } else {
      ElementsRoundTrip(vs[1..], rest);
      ElementsStep(vs, rest);
    }
  }

  /** The last element of an array is followed by the closing bracket. */
  lemma LastElementRoundTrip(vs: seq<Value>, rest: string)
    requires |vs| == 1
    ensures ParseElements(ElementsText(vs) + "]" + rest) == Some((vs, rest))
    decreases vs, 0
  {
    Enclosed("", Text(vs[0]), "]", rest);
    assert ElementsText(vs) + "]" + rest == Text(vs[0]) + ("]" + rest);
    ValueRoundTrip(vs[0], "]" + rest);
    DropFirst("]", rest);
    assert [vs[0]] == vs;
  }

  /** The first of several elements is read, then the others as before. */
  lemma ElementsStep(vs: seq<Value>, rest: string)
    requires |vs| > 1
    requires ParseElements(ElementsText(vs[1..]) + "]" + rest) == Some((vs[1..], rest))
    ensures ParseElements(ElementsText(vs) + "]" + rest) == Some((vs, rest))
    decreases vs, 0
  {
    var tail := ElementsText(vs[1..]) + "]" + rest;
    Reassociate(Text(vs[0]), ",", ElementsText(vs[1..]), "]", rest);
    assert ElementsText(vs) + "]" + rest == Text(vs[0]) + ("," + tail);
    ValueRoundTrip(vs[0], "," + tail);
    DropFirst(",", tail);
    assert [vs[0]] + vs[1..] == vs;
  }

  /** The key of a written member reads back, and so does its value. */
  lemma {:induction false} MemberRoundTrip(m: Member, after: string)
    requires Delimited(after)
    ensures |MemberText(m) + after| > 0 && (MemberText(m) + after)[0] == '"'
    ensures StringBody((MemberText(m) + after)[1..]) == Some((m.key, ":" + (Text(m.value) + after)))
    ensures ParseValue(Text(m.value) + after) == Some((m.value, after))
    decreases m, 0
  {
    var valueAndAfter := Text(m.value) + after;
    MemberShape(Escape(m.key), Text(m.value), after);
    DropFirst("\"", Escape(m.key) + "\"" + (":" + valueAndAfter));
    EscapeRoundTrip(m.key, ":" + valueAndAfter);
    ValueRoundTrip(m.value, after);
  }

  /** After one written member the reader either closes the object or goes
      on to the next member. */
  lemma MemberStep(m: Member, after: string)
    requires |after| > 0 && (after[0] == ',' || after[0] == '}')
    ensures ParseMembers(MemberText(m) + after) ==
      if after[0] == '}' then Some(([m], after[1..]))
      else
        match ParseMembers(after[1..])
        case None => None
        case Some((ms, rest)) => Some(([m] + ms, rest))
    decreases m, 1
  {
    MemberRoundTrip(m, after);
    var valueAndAfter := Text(m.value) + after;
    assert (":" + valueAndAfter)[1..] == valueAndAfter;
  }

  /** The last member of an object is followed by the closing brace. */
  lemma LastMemberRoundTrip(m: Member, rest: string)
    ensures ParseMembers(MembersText([m]) + "}" + rest) == Some(([m], rest))
    decreases m, 2
  {
    assert MembersText([m]) + "}" + rest == MemberText(m) + ("}" + rest);
    MemberStep(m, "}" + rest);
    assert ("}" + rest)[1..] == rest;
  }

  /** A member followed by a comma is read together with the members after it. */
  lemma MemberThenComma(m: Member, next: string, later: seq<Member>, rest: string)
    requires ParseMembers(next) == Some((later, rest))
    ensures ParseMembers(MemberText(m) + ("," + next)) == Some(([m] + later, rest))
    decreases m, 2
  {
    MemberStep(m, "," + next);
    DropFirst(",", next);
  }

  /** Members written before the last are each followed by a comma. */
  lemma MembersSplit(ms: seq<Member>, rest: string)
    requires |ms| > 1
    ensures MembersText(ms) + "}" + rest == MemberText(ms[0]) + ("," + (MembersText(ms[1..]) + "}" + rest))
  {
    Reassociate(MemberText(ms[0]), ",", MembersText(ms[1..]), "}", rest);
  }

  /** The members of a non-empty object are written from a quote on. */
  lemma MembersTextStart(ms: seq<Member>, after: string)
    requires |ms| > 0
    ensures |MembersText(ms) + after| > 0 && (MembersText(ms) + after)[0] == '"'
  {
    var m := ms[0];
    StartsWithAppend("\"", Escape(m.key) + "\"");
    StartsWithAppend(Quote(m.key), ":");
    StartsWithAppend(Quote(m.key) + ":", Text(m.value));
    if |ms| > 1 {
      StartsWithAppend(MemberText(m), ",");
      StartsWithAppend(MemberText(m) + ",", MembersText(ms[1..]));
    }
    StartsWithAppend(MembersText(ms), after);
  }

  /** A written member, regrouped from the front. */
  lemma MemberShape(e: string, t: string, after: string)
    ensures "\"" + e + "\"" + ":" + t + after == "\"" + (e + "\"" + (":" + (t + after)))
  {
  }

  /** What is left of a text once its one-character head is read. */
  lemma DropFirst(c: string, x: string)
    requires |c| == 1
    ensures |c + x| > 0 && (c + x)[0] == c[0] && (c + x)[1..] == x
  {
  }

  /** Appending keeps the first character of a non-empty text. */
  lemma StartsWithAppend(a: string, b: string)
    requires |a| > 0
    ensures |a + b| > 0 && (a + b)[0] == a[0]
  {
  }

  lemma Enclosed(a: string, b: string, c: string, d: string)
    ensures a + b + c + d == a + (b + c + d)
  {
  }

  lemma Reassociate(a: string, b: string, c: string, d: string, e: string)
    ensures a + b + c + d + e == a + (b + (c + d + e))
  {
  }

  lemma {:induction false} MembersRoundTrip(ms: seq<Member>, rest: string)
    requires |ms| > 0
    ensures ParseMembers(MembersText(ms) + "}" + rest) == Some((ms, rest))
    decreases ms, 1
  {
    if |ms| == 1 {
      assert [ms[0]] == ms;
      LastMemberRoundTrip(ms[0], rest);
    } else {
      MembersRoundTrip(ms[1..], rest);
      MembersStep(ms, rest);
    }
  }

  /** The first of several members is read, then the others as before. */
  lemma MembersStep(ms: seq<Member>, rest: string)
    requires |ms| > 1
    requires ParseMembers(MembersText(ms[1..]) + "}" + rest) == Some((ms[1..], rest))
    ensures ParseMembers(MembersText(ms) + "}" + rest) == Some((ms, rest))
    decreases ms, 0
  {
    MemberThenComma(ms[0], MembersText(ms[1..]) + "}" + rest, ms[1..], rest);
    MembersSplit(ms, rest);
    assert [ms[0]] + ms[1..] == ms;
  }

  /** `Parse` is a left inverse of `Text`. */
  lemma ParseText(v: Value)
    ensures Parse(Text(v)) == Some(v)
  {
    ValueRoundTrip(v, "");
    assert Text(v) + "" == Text(v);
  }

  /** Distinct values are written as distinct texts. */
  lemma TextInjective(a: Value, b: Value)
    ensures Text(a) == Text(b) <==> a == b
  {
    ParseText(a);
    ParseText(b);
  }
}
