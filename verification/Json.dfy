/**
 JSON text: the escaping and decimal printing that the record writers use, a renderer of
 JSON values, and a reader that follows sections 2 to 7 of RFC 8259 (without white space
 and with natural numbers only). The reader gives back every value that is rendered.
 Characters stand for bytes; the results hold for every character.
 */
module Json {

  datatype Value =
    | Number(n: nat)
    | Text(s: string)
    | List(items: seq<Value>)
    | Record(fields: seq<Field>)

  datatype Field = Field(key: string, value: Value)

  // ---------- Writing ----------

  const HEX: string := "0123456789abcdef"

  function EscapeChar(c: char): string {
    match c
    case '\\' => "\\\\"
    case '"' => "\\\""
    case '\U{8}' => "\\b"
    case '\U{c}' => "\\f"
    case '\n' => "\\n"
    case '\r' => "\\r"
    case '\t' => "\\t"
    case _ => if c < ' ' then "\\u00" + [HEX[c as int / 16], HEX[c as int % 16]] else [c]
  }

  /** The escaped text of `s`, followed by `rest`. */
  function EscapeOnto(s: string, rest: string): string {
    if s == "" then rest else EscapeChar(s[0]) + EscapeOnto(s[1..], rest)
  }

  function Escape(s: string): string {
    EscapeOnto(s, "")
  }

  function Digit(d: nat): char
    requires d < 10
  {
    '0' + d as char
  }

  function DecimalOnto(n: nat, rest: string): string {
    if n < 10 then [Digit(n)] + rest else DecimalOnto(n / 10, [Digit(n % 10)] + rest)
  }

  function Decimal(n: nat): string {
    DecimalOnto(n, "")
  }

  function TextOnto(s: string, rest: string): string {
    "\"" + EscapeOnto(s, "\"" + rest)
  }

  function RenderOnto(v: Value, rest: string): string
    decreases v, 1
  {
    match v
    case Number(n) => DecimalOnto(n, rest)
    case Text(s) => TextOnto(s, rest)
    case List(items) => "[" + ItemsOnto(items, "]" + rest)
    case Record(fields) => "{" + FieldsOnto(fields, "}" + rest)
  }

  function ItemsOnto(items: seq<Value>, rest: string): string
    decreases items, 0
  {
    if items == [] then rest
    else if |items| == 1 then RenderOnto(items[0], rest)
    else RenderOnto(items[0], "," + ItemsOnto(items[1..], rest))
  }

  function FieldOnto(f: Field, rest: string): string
    decreases f, 0
  {
    TextOnto(f.key, ":" + RenderOnto(f.value, rest))
  }

  function FieldsOnto(fields: seq<Field>, rest: string): string
    decreases fields, 0
  {
    if fields == [] then rest
    else if |fields| == 1 then FieldOnto(fields[0], rest)
    else FieldOnto(fields[0], "," + FieldsOnto(fields[1..], rest))
  }

  // ---------- Reading ----------

  datatype Parsed<T> = Fail | Got(value: T, rest: string)

  predicate IsDigit(c: char) { '0' <= c <= '9' }

  function DigitValue(c: char): nat
    requires IsDigit(c)
  {
    c as int - '0' as int
  }

  function ReadDigits(s: string, n: nat): (r: Parsed<nat>)
    ensures r.Got? && |r.rest| <= |s|
  {
    if s != "" && IsDigit(s[0]) then ReadDigits(s[1..], 10 * n + DigitValue(s[0])) else Got(n, s)
  }

  /** Section 6: a zero, or digits that do not begin with one. */
  function ReadNumber(s: string): (r: Parsed<nat>)
    ensures r.Got? ==> |r.rest| < |s|
  {
    if s == "" || !IsDigit(s[0]) then Fail
    else if s[0] == '0' then (if |s| > 1 && IsDigit(s[1]) then Fail else Got(0, s[1..]))
    else ReadDigits(s[1..], DigitValue(s[0]))
  }

  predicate IsHex(c: char) { '0' <= c <= '9' || 'a' <= c <= 'f' || 'A' <= c <= 'F' }

  function HexValue(c: char): (v: nat)
    requires IsHex(c)
    ensures v < 16
  {
    if c <= '9' then c as int - '0' as int
    else if c <= 'F' then c as int - 'A' as int + 10
    else c as int - 'a' as int + 10
  }

  /** The character that a two-character escape stands for. */
  function ShortEscape(c: char): Parsed<char> {
    match c
    case '"' => Got('"', "")
    case '\\' => Got('\\', "")
    case '/' => Got('/', "")
    case 'b' => Got('\U{8}', "")
    case 'f' => Got('\U{c}', "")
    case 'n' => Got('\n', "")
    case 'r' => Got('\r', "")
    case 't' => Got('\t', "")
    case _ => Fail
  }

  /** Section 7: one character of a string, escaped or not; a quote or a control character fails. */
  function ReadChar(s: string): (r: Parsed<char>)
    ensures r.Got? ==> |r.rest| < |s|
  {
    if s == "" || s[0] == '"' || s[0] < ' ' then Fail
    else if s[0] != '\\' then Got(s[0], s[1..])
    else if |s| < 2 then Fail
    else if s[1] != 'u' then
      (match ShortEscape(s[1]) case Got(c, _) => Got(c, s[2..]) case Fail => Fail)
    else if |s| < 6 || !(IsHex(s[2]) && IsHex(s[3]) && IsHex(s[4]) && IsHex(s[5])) then Fail
    else
      var code := 4096 * HexValue(s[2]) + 256 * HexValue(s[3]) + 16 * HexValue(s[4]) + HexValue(s[5]);
      if 0xd800 <= code < 0xe000 then Fail else Got(code as char, s[6..])
  }

  /** Reads up to and including the closing quote. */
  function ReadText(s: string): (r: Parsed<string>)
    ensures r.Got? ==> |r.rest| < |s|
  {
    if s != "" && s[0] == '"' then Got("", s[1..])
    else match ReadChar(s)
      case Fail => Fail
      case Got(c, rest) =>
        match ReadText(rest)
        case Fail => Fail
        case Got(text, rest') => Got([c] + text, rest')
  }

  function ReadValue(s: string): (r: Parsed<Value>)
    ensures r.Got? ==> |r.rest| < |s|
    decreases |s|, 0
  {
    if s == "" then Fail
    else if s[0] == '"' then
      match ReadText(s[1..]) case Got(t, rest) => Got(Text(t), rest) case Fail => Fail
    else if s[0] == '[' then
      if |s| > 1 && s[1] == ']' then Got(List([]), s[2..])
      else match ReadItems(s[1..]) case Got(items, rest) => Got(List(items), rest) case Fail => Fail
    else if s[0] == '{' then
      if |s| > 1 && s[1] == '}' then Got(Record([]), s[2..])
      else match ReadFields(s[1..]) case Got(fields, rest) => Got(Record(fields), rest) case Fail => Fail
    else
      match ReadNumber(s) case Got(n, rest) => Got(Number(n), rest) case Fail => Fail
  }

  function ReadItems(s: string): (r: Parsed<seq<Value>>)
    ensures r.Got? ==> |r.rest| < |s|
    decreases |s|, 1
  {
    match ReadValue(s)
    case Fail => Fail
    case Got(v, rest) =>
      if rest == "" then Fail
      else if rest[0] == ']' then Got([v], rest[1..])
      else if rest[0] != ',' then Fail
      else match ReadItems(rest[1..]) case Got(items, end) => Got([v] + items, end) case Fail => Fail
  }

  function ReadField(s: string): (r: Parsed<Field>)
    ensures r.Got? ==> |r.rest| < |s|
    decreases |s|, 0
  {
    if s == "" || s[0] != '"' then Fail
    else match ReadText(s[1..])
      case Fail => Fail
      case Got(key, rest) =>
        if rest == "" || rest[0] != ':' then Fail
        else match ReadValue(rest[1..]) case Got(v, end) => Got(Field(key, v), end) case Fail => Fail
  }

  function ReadFields(s: string): (r: Parsed<seq<Field>>)
    ensures r.Got? ==> |r.rest| < |s|
    decreases |s|, 1
  {
    match ReadField(s)
    case Fail => Fail
    case Got(f, rest) =>
      if rest == "" then Fail
      else if rest[0] == '}' then Got([f], rest[1..])
      else if rest[0] != ',' then Fail
      else match ReadFields(rest[1..]) case Got(fields, end) => Got([f] + fields, end) case Fail => Fail
  }

  // ---------- Reading gives back what was written ----------

  lemma ReadCharReadsEscape(c: char, rest: string)
    ensures ReadChar(EscapeChar(c) + rest) == Got(c, rest)
    ensures EscapeChar(c)[0] != '"'
  {
    var s := EscapeChar(c) + rest;
    if |EscapeChar(c)| == 6 {
      var high, low := c as int / 16, c as int % 16;
      assert s[..6] == "\\u00" + [HEX[high], HEX[low]];
      assert s[2] == '0' && s[3] == '0' && s[4] == HEX[high] && s[5] == HEX[low];
      HexDigits(high);
      HexDigits(low);
      assert s[6..] == rest;
    } else if |EscapeChar(c)| == 2 {
      assert s[2..] == rest;
    } else {
      assert s[1..] == rest;
    }
  }

  lemma HexDigits(d: nat)
    requires d < 16
    ensures IsHex(HEX[d]) && HexValue(HEX[d]) == d
  {
  }

  lemma {:induction false} ReadTextReadsEscape(s: string, rest: string)
    ensures ReadText(EscapeOnto(s, "\"" + rest)) == Got(s, rest)
  {
    if s == "" {
      assert ("\"" + rest)[1..] == rest;
    } else {
      var tail := EscapeOnto(s[1..], "\"" + rest);
      ReadCharReadsEscape(s[0], tail);
      ReadTextReadsEscape(s[1..], rest);
      assert [s[0]] + s[1..] == s;
    }
  }

  lemma {:induction false} ReadDigitsReadsDecimal(n: nat, rest: string)
    requires 0 < n
    ensures DecimalOnto(n, rest) != "" && IsDigit(DecimalOnto(n, rest)[0]) && DecimalOnto(n, rest)[0] != '0'
    ensures ReadDigits(DecimalOnto(n, rest)[1..], DigitValue(DecimalOnto(n, rest)[0])) == ReadDigits(rest, n)
  {
    if n < 10 {
      assert DecimalOnto(n, rest)[1..] == rest;
    } else {
      var d := [Digit(n % 10)] + rest;
      ReadDigitsReadsDecimal(n / 10, d);
      assert d[1..] == rest;
      assert 10 * (n / 10) + n % 10 == n;
    }
  }

  ghost predicate StartsWithDigit(s: string) {
    s != "" && IsDigit(s[0])
  }

  lemma ReadNumberReadsDecimal(n: nat, rest: string)
    requires !StartsWithDigit(rest)
    ensures ReadNumber(DecimalOnto(n, rest)) == Got(n, rest)
    ensures StartsWithDigit(DecimalOnto(n, rest))
  {
    if n == 0 {
      assert ("0" + rest)[1..] == rest;
    } else {
      ReadDigitsReadsDecimal(n, rest);
    }
  }

  lemma TextReadsBack(s: string, rest: string)
    ensures TextOnto(s, rest)[0] == '"' && ReadText(TextOnto(s, rest)[1..]) == Got(s, rest)
  {
    ReadTextReadsEscape(s, rest);
    assert TextOnto(s, rest)[1..] == EscapeOnto(s, "\"" + rest);
  }

  /** Every JSON value is read back from its rendering, whatever follows it. */
  lemma {:induction false} ReadsBack(v: Value, rest: string)
    requires v.Number? ==> !StartsWithDigit(rest)
    ensures RenderOnto(v, rest) != "" && RenderOnto(v, rest)[0] !in "]}"
    ensures ReadValue(RenderOnto(v, rest)) == Got(v, rest)
    decreases v, 1
  {
    match v
    case Number(n) =>
      ReadNumberReadsDecimal(n, rest);
    case Text(s) =>
      TextReadsBack(s, rest);
    case List(items) =>
      var s := RenderOnto(v, rest);
      assert s[1..] == ItemsOnto(items, "]" + rest);
      if items == [] {
        assert s[2..] == rest;
      } else {
        ItemsReadBack(items, rest);
      }
    case Record(fields) =>
      var s := RenderOnto(v, rest);
      assert s[1..] == FieldsOnto(fields, "}" + rest);
      if fields == [] {
        assert s[2..] == rest;
      } else {
        FieldsReadBack(fields, rest);
      }
  }

  lemma {:induction false} ItemsReadBack(items: seq<Value>, rest: string)
    requires items != []
    ensures ItemsOnto(items, "]" + rest) != "" && ItemsOnto(items, "]" + rest)[0] != ']'
    ensures ReadItems(ItemsOnto(items, "]" + rest)) == Got(items, rest)
    decreases items, 0
  {
    if |items| == 1 {
      ReadsBack(items[0], "]" + rest);
      assert ("]" + rest)[1..] == rest;
      assert items == [items[0]];
    } else {
      var tail := ItemsOnto(items[1..], "]" + rest);
      ReadsBack(items[0], "," + tail);
      assert ("," + tail)[1..] == tail;
      ItemsReadBack(items[1..], rest);
      assert [items[0]] + items[1..] == items;
    }
  }

  lemma {:induction false} FieldReadsBack(f: Field, rest: string)
    requires rest != "" && rest[0] in ",}"
    ensures FieldOnto(f, rest)[0] == '"' && ReadField(FieldOnto(f, rest)) == Got(f, rest)
    decreases f, 0
  {
    var tail := RenderOnto(f.value, rest);
    TextReadsBack(f.key, ":" + tail);
    assert (":" + tail)[1..] == tail;
    ReadsBack(f.value, rest);
  }

  lemma {:induction false} FieldsReadBack(fields: seq<Field>, rest: string)
    requires fields != []
    ensures FieldsOnto(fields, "}" + rest) != "" && FieldsOnto(fields, "}" + rest)[0] != '}'
    ensures ReadFields(FieldsOnto(fields, "}" + rest)) == Got(fields, rest)
    decreases fields, 0
  {
    if |fields| == 1 {
      FieldReadsBack(fields[0], "}" + rest);
      assert ("}" + rest)[1..] == rest;
      assert fields == [fields[0]];
    } else {
      var tail := FieldsOnto(fields[1..], "}" + rest);
      FieldReadsBack(fields[0], "," + tail);
      assert ("," + tail)[1..] == tail;
      FieldsReadBack(fields[1..], rest);
      assert [fields[0]] + fields[1..] == fields;
    }
  }

  // ---------- Writing piece by piece ----------

  lemma {:induction false} EscapeSplits(s: string, rest: string)
    ensures EscapeOnto(s, rest) == Escape(s) + rest
  {
    if s != "" {
      EscapeSplits(s[1..], rest);
    }
  }

  lemma {:induction false} DecimalSplits(n: nat, rest: string)
    ensures DecimalOnto(n, rest) == Decimal(n) + rest
  {
    if n >= 10 {
      var d := [Digit(n % 10)];
      DecimalSplits(n / 10, d + rest);
      DecimalSplits(n / 10, d);
      assert d + "" == d;
    }
  }

  lemma TextSplits(s: string, rest: string)
    ensures TextOnto(s, rest) == "\"" + Escape(s) + "\"" + rest
  {
    EscapeSplits(s, "\"" + rest);
  }

  lemma {:induction false} RenderSplits(v: Value, rest: string)
    ensures RenderOnto(v, rest) == RenderOnto(v, "") + rest
    decreases v, 1
  {
    match v
    case Number(n) =>
      DecimalSplits(n, rest);
    case Text(s) =>
      TextSplits(s, rest);
      TextSplits(s, "");
    case List(items) =>
      ItemsSplit(items, "]" + rest);
      ItemsSplit(items, "]");
      assert "]" + "" == "]";
    case Record(fields) =>
      FieldsSplit(fields, "}" + rest);
      FieldsSplit(fields, "}");
      assert "}" + "" == "}";
  }

  lemma CommaSplits(head: string, tail: string, rest: string)
    ensures head + ("," + (tail + rest)) == head + ("," + tail) + rest
  {
  }

  lemma {:induction false} ItemsSplit(items: seq<Value>, rest: string)
    ensures ItemsOnto(items, rest) == ItemsOnto(items, "") + rest
    decreases items, 0
  {
    if |items| == 1 {
      RenderSplits(items[0], rest);
    } else if items != [] {
      var tail := ItemsOnto(items[1..], "");
      ItemsSplit(items[1..], rest);
      RenderSplits(items[0], "," + (tail + rest));
      RenderSplits(items[0], "," + tail);
      CommaSplits(RenderOnto(items[0], ""), tail, rest);
    }
  }

  lemma {:induction false} FieldSplits(f: Field, rest: string)
    ensures FieldOnto(f, rest) == FieldOnto(f, "") + rest
    ensures FieldOnto(f, "") == "\"" + Escape(f.key) + "\"" + (":" + RenderOnto(f.value, ""))
    decreases f, 0
  {
    var head, tail := "\"" + Escape(f.key) + "\"", RenderOnto(f.value, "");
    RenderSplits(f.value, rest);
    TextSplits(f.key, ":" + (tail + rest));
    TextSplits(f.key, ":" + tail);
    assert FieldOnto(f, rest) == head + (":" + (tail + rest));
    assert FieldOnto(f, "") == head + (":" + tail);
    Regroup(head, ":", tail, rest);
  }

  lemma Regroup(a: string, b: string, c: string, d: string)
    ensures a + (b + (c + d)) == (a + (b + c)) + d == (a + b) + (c + d)
    ensures a + (b + c) == a + b + c
  {
  }

  lemma {:induction false} FieldsSplit(fields: seq<Field>, rest: string)
    ensures FieldsOnto(fields, rest) == FieldsOnto(fields, "") + rest
    decreases fields, 0
  {
    if |fields| == 1 {
      FieldSplits(fields[0], rest);
    } else if fields != [] {
      var tail := FieldsOnto(fields[1..], "");
      FieldsSplit(fields[1..], rest);
      FieldSplits(fields[0], "," + (tail + rest));
      FieldSplits(fields[0], "," + tail);
      CommaSplits(FieldOnto(fields[0], ""), tail, rest);
    }
  }

  lemma {:induction false} FieldsAppend(fields: seq<Field>, f: Field, rest: string)
    requires fields != []
    ensures FieldsOnto(fields + [f], rest) == FieldsOnto(fields, "," + FieldOnto(f, rest))
  {
    if |fields| == 1 {
      assert (fields + [f])[1..] == [f];
    } else {
      assert (fields + [f])[1..] == fields[1..] + [f];
      FieldsAppend(fields[1..], f, rest);
    }
  }

  predicate NeedsNoEscape(s: string) {
    forall i :: 0 <= i < |s| ==> s[i] >= ' ' && s[i] != '"' && s[i] != '\\'
  }

  lemma {:induction false} PlainTextStays(s: string)
    requires NeedsNoEscape(s)
    ensures Escape(s) == s
  {
    if s != "" {
      PlainTextStays(s[1..]);
      assert [s[0]] + s[1..] == s;
    }
  }

  /** `json_escape`, as the loop that fills the stream. */
  method JsonEscape(value: string) returns (escaped: string)
    ensures escaped == Escape(value)
  {
    escaped := "";
    for i := 0 to |value|
      invariant Escape(value) == escaped + Escape(value[i..])
    {
      EscapeStep(value[i..], escaped);
      assert value[i..][1..] == value[i + 1..];
      escaped := escaped + EscapeChar(value[i]);
    }
  }

  lemma EscapeStep(s: string, before: string)
    requires s != ""
    ensures before + Escape(s) == before + EscapeChar(s[0]) + Escape(s[1..])
  {
  }

  /** Between quotes, escaped text reads back as the text it came from, byte for byte. */
  lemma EscapedTextReadsBack(value: string, rest: string)
    ensures ReadValue("\"" + Escape(value) + "\"" + rest) == Got(Text(value), rest)
  {
    TextSplits(value, rest);
    TextReadsBack(value, rest);
  }

  // ---------- Which of the possible escapes is written ----------

  predicate HasUpperCase(s: string) {
    exists i :: 0 <= i < |s| && 'A' <= s[i] <= 'Z'
  }

  lemma EscapeLength(c: char)
    ensures |EscapeChar(c)| == if c >= ' ' && c != '"' && c != '\\' then 1 else if c in "\"\\\U{8}\U{c}\n\r\t" then 2 else 6
  {
  }

  lemma LowerHexIsUnique(x: char, y: char)
    requires IsHex(x) && IsHex(y) && HexValue(x) == HexValue(y)
    requires !('A' <= x <= 'Z') && !('A' <= y <= 'Z')
    ensures x == y
  {
  }

  lemma ShortTextIsEscape(t: string, c: char)
    requires ReadChar(t) == Got(c, "") && |t| <= |EscapeChar(c)| && |t| < 6
    ensures t == EscapeChar(c)
  {
    EscapeLength(c);
    if t[0] != '\\' {
      assert t[1..] == "" && t == [c];
    } else {
      assert t[1] != 'u' && t[2..] == "";
      assert t == [t[0], t[1]];
    }
  }

  /** A six-character text is a hexadecimal escape. */
  lemma LongTextReads(t: string, c: char)
    requires ReadChar(t) == Got(c, "") && |t| == 6
    ensures t[0] == '\\' && t[1] == 'u' && IsHex(t[2]) && IsHex(t[3]) && IsHex(t[4]) && IsHex(t[5])
    ensures 4096 * HexValue(t[2]) + 256 * HexValue(t[3]) + 16 * HexValue(t[4]) + HexValue(t[5]) == c as int
  {
    assert |t[1..]| == 5 && |t[2..]| == 4;
  }

  lemma LongEscapeIsLower(c: char)
    requires |EscapeChar(c)| == 6
    ensures c < ' ' && forall i :: 2 <= i < 6 ==> !('A' <= EscapeChar(c)[i] <= 'Z')
    ensures ReadChar(EscapeChar(c)) == Got(c, "")
  {
    EscapeLength(c);
    ReadCharReadsEscape(c, "");
    assert EscapeChar(c) + "" == EscapeChar(c);
  }

  lemma HexDigitsAreUnique(a: nat, b: nat, c: nat, d: nat, e: nat, f: nat, g: nat, h: nat)
    requires a < 16 && b < 16 && c < 16 && d < 16 && e < 16 && f < 16 && g < 16 && h < 16
    requires 4096 * a + 256 * b + 16 * c + d == 4096 * e + 256 * f + 16 * g + h
    ensures a == e && b == f && c == g && d == h
  {
  }

  lemma LongTextIsEscape(t: string, c: char)
    requires ReadChar(t) == Got(c, "") && |EscapeChar(c)| == |t| == 6 && !HasUpperCase(t)
    ensures t == EscapeChar(c)
  {
    var e := EscapeChar(c);
    LongEscapeIsLower(c);
    LongTextReads(t, c);
    LongTextReads(e, c);
    HexDigitsAreUnique(HexValue(t[2]), HexValue(t[3]), HexValue(t[4]), HexValue(t[5]),
                       HexValue(e[2]), HexValue(e[3]), HexValue(e[4]), HexValue(e[5]));
    LowerHexIsUnique(t[2], e[2]);
    LowerHexIsUnique(t[3], e[3]);
    LowerHexIsUnique(t[4], e[4]);
    LowerHexIsUnique(t[5], e[5]);
    assert t[..6] == t && e[..6] == e;
  }

  /**
   Of all texts that read as the character, `json_escape` writes the shortest: there is no
   other text as short, apart from capital letters among its hex digits.
   */
  lemma EscapeIsShortest(t: string, c: char)
    requires ReadChar(t) == Got(c, "") && |t| <= |EscapeChar(c)| && (|t| == 6 ==> !HasUpperCase(t))
    ensures t == EscapeChar(c)
  {
    EscapeLength(c);
    assert |t| <= 6;
    if |t| == 6 {
      LongTextIsEscape(t, c);
    } else {
      ShortTextIsEscape(t, c);
    }
  }

  // ---------- The quoting of the tracking records ----------

  /** One turn of the loop of `json_quote`, which knows fewer escapes. */
  function QuoteChar(c: char): string {
    if c == '\\' || c == '"' then ['\\', c]
    else if c == '\n' then "\\n"
    else if c == '\r' then "\\r"
    else [c]
  }

  function QuoteOnto(s: string, rest: string): string {
    if s == "" then "\"" + rest else QuoteChar(s[0]) + QuoteOnto(s[1..], rest)
  }

  predicate QuotableChar(c: char) {
    c >= ' ' || c == '\n' || c == '\r'
  }

  predicate Quotable(s: string) {
    s == "" || (QuotableChar(s[0]) && Quotable(s[1..]))
  }

  lemma ReadCharReadsQuote(c: char, rest: string)
    ensures ReadChar(QuoteChar(c) + rest) == if QuotableChar(c) then Got(c, rest) else Fail
    ensures QuoteChar(c)[0] != '"'
  {
    var quoted := QuoteChar(c) + rest;
    assert quoted[|QuoteChar(c)|..] == rest;
  }

  lemma ReadTextReadsQuote(c: char, tail: string)
    ensures ReadText(QuoteChar(c) + tail) ==
            if !QuotableChar(c) || ReadText(tail).Fail? then Fail else Got([c] + ReadText(tail).value, ReadText(tail).rest)
  {
    ReadCharReadsQuote(c, tail);
  }

  /**
   `json_quote` writes a JSON string that stands for its argument exactly when that has no
   control character other than line feed and carriage return; with one, it is no JSON.
   */
  lemma {:induction false} QuotedTextReadsBack(s: string, rest: string)
    ensures ReadText(QuoteOnto(s, rest)) == if Quotable(s) then Got(s, rest) else Fail
  {
    if s == "" {
      assert ("\"" + rest)[1..] == rest;
    } else {
      QuotedTextReadsBack(s[1..], rest);
      ReadTextReadsQuote(s[0], QuoteOnto(s[1..], rest));
      assert s == [s[0]] + s[1..];
    }
  }

  /** On what it can quote, it writes what `json_escape` writes; other characters it leaves as they are. */
  lemma QuoteIsEscape(c: char)
    ensures if c >= ' ' || c == '\n' || c == '\r' then QuoteChar(c) == EscapeChar(c) else QuoteChar(c) == [c]
  {
  }

  lemma {:induction false} QuoteOntoIsEscape(s: string)
    ensures Quotable(s) <==> forall i :: 0 <= i < |s| ==> s[i] >= ' ' || s[i] == '\n' || s[i] == '\r'
    ensures Quotable(s) ==> QuoteOnto(s, "") == Escape(s) + "\""
  {
    if s != "" {
      QuoteOntoIsEscape(s[1..]);
      QuoteIsEscape(s[0]);
      assert s == [s[0]] + s[1..];
    }
  }

  method JsonQuote(value: string) returns (result: string)
    ensures (forall i :: 0 <= i < |value| ==> value[i] >= ' ' || value[i] == '\n' || value[i] == '\r') ==>
              result == "\"" + Escape(value) + "\""
    ensures ReadValue(result) == if Quotable(value) then Got(Text(value), "") else Fail
  {
    result := "\"";
    for i := 0 to |value|
      invariant "\"" + QuoteOnto(value, "") == result + QuoteOnto(value[i..], "")
    {
      assert value[i..][1..] == value[i + 1..];
      result := result + QuoteChar(value[i]);
    }
    result := result + "\"";
    assert result == "\"" + QuoteOnto(value, "");
    assert result[1..] == QuoteOnto(value, "");
    QuotedTextReadsBack(value, "");
    QuoteOntoIsEscape(value);
  }
}
