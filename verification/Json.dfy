/**
 * The compact, ASCII-only JSON text that `json.dumps(..., separators=(",", ":"))` produces,
 * with a decoder that undoes it (section 7 of RFC 8259 for the string escapes).
 */
module Json {
  import opened Basics

  datatype Json =
    | JNull | JBool(flag: bool) | JNum(number: nat) | JStr(text: string)
    | JArr(items: seq<Json>) | JObj(members: seq<Member>)

  datatype Member = Member(key: string, value: Json)

  datatype Parsed<+T> = Fail | Got(value: T, rest: string)

  // ---------- digits ----------

  const HEX_DIGITS := "0123456789abcdef"

  function HexValue(c: char): (r: Option<nat>)
    ensures r.Some? ==> r.value < 16
  {
    if '0' <= c <= '9' then Some(c as nat - '0' as nat)
    else if 'a' <= c <= 'f' then Some(c as nat - 'a' as nat + 10)
    else None
  }

  lemma HexDigitRoundTrip(d: nat)
    requires d < 16
    ensures HexValue(HEX_DIGITS[d]) == Some(d)
  {
    if d < 10 { assert HEX_DIGITS[d] == ('0' as nat + d) as char; }
    else { assert HEX_DIGITS[d] == ('a' as nat + d - 10) as char; }
  }

  function Pow16(n: nat): nat {
    if n == 0 then 1 else 16 * Pow16(n - 1)
  }

  /** v in exactly n hexadecimal digits. */
  function Hex(v: nat, n: nat): (s: string)
    ensures |s| == n
  {
    if n == 0 then "" else Hex(v / 16, n - 1) + [HEX_DIGITS[v % 16]]
  }

  function Unhex(s: string): Option<nat> {
    if s == "" then Some(0) else
    match (Unhex(s[..|s| - 1]), HexValue(s[|s| - 1]))
    case (Some(high), Some(low)) => Some(high * 16 + low)
    case _ => None
  }

  lemma {:induction false} HexRoundTrip(v: nat, n: nat)
    requires v < Pow16(n)
    ensures Unhex(Hex(v, n)) == Some(v)
  {
    if n > 0 {
      HexRoundTrip(v / 16, n - 1);
      HexDigitRoundTrip(v % 16);
      assert Hex(v, n)[..n - 1] == Hex(v / 16, n - 1);
    }
  }

  lemma Hex4RoundTrip(v: nat)
    requires v < 0x10000
    ensures Unhex(Hex(v, 4)) == Some(v)
  {
    assert Pow16(4) == 0x10000;
    HexRoundTrip(v, 4);
  }

  function Decimal(n: nat): string {
    if n < 10 then [HEX_DIGITS[n]] else Decimal(n / 10) + [HEX_DIGITS[n % 10]]
  }

  function ReadDecimal(s: string, sofar: nat): (nat, string) {
    if s != "" && '0' <= s[0] <= '9' then ReadDecimal(s[1..], sofar * 10 + (s[0] as nat - '0' as nat)) else (sofar, s)
  }

  lemma Regroup(x: string, y: string, z: string)
    ensures x + y + z == x + (y + z)
  {
  }

  lemma AfterFirst(c: char, body: string, tail: string)
    ensures ([c] + body + tail)[0] == c && ([c] + body + tail)[1..] == body + tail
  {
  }

  lemma ReadsDigit(d: nat, tail: string, sofar: nat)
    requires d < 10
    ensures ReadDecimal([HEX_DIGITS[d]] + tail, sofar) == ReadDecimal(tail, sofar * 10 + d)
  {
    HexDigitRoundTrip(d);
    assert ([HEX_DIGITS[d]] + tail)[1..] == tail;
  }

  lemma {:induction false} ReadDecimalSkips(n: nat, tail: string)
    ensures ReadDecimal(Decimal(n) + tail, 0) == ReadDecimal(tail, n)
  {
    if n >= 10 {
      var front, last := Decimal(n / 10), [HEX_DIGITS[n % 10]];
      assert Decimal(n) == front + last;
      hide ReadDecimal, Decimal;
      Regroup(front, last, tail);
      ReadDecimalSkips(n / 10, last + tail);
      ReadsDigit(n % 10, tail, n / 10);
    } else {
      ReadsDigit(n, tail, 0);
    }
  }

  // ---------- strings ----------

  function EscapeChar(c: char): string {
    if c == '\"' then "\\\""
    else if c == '\\' then "\\\\"
    else if c == '\n' then "\\n"
    else if c == '\r' then "\\r"
    else if c == '\t' then "\\t"
    else if c as int == 8 then "\\b"
    else if c as int == 12 then "\\f"
    else if ' ' <= c <= '~' then [c]
    else if c as int < 0x10000 then "\\u" + Hex(c as int, 4)
    else
      var v := c as int - 0x10000;
      "\\u" + Hex(0xD800 + v / 0x400, 4) + "\\u" + Hex(0xDC00 + v % 0x400, 4)
  }

  function Escape(s: string): string {
    if s == "" then "" else EscapeChar(s[0]) + Escape(s[1..])
  }

  /** Undoes the escape of one character at the front of s. */
  function UnescapeChar(s: string): (p: Parsed<char>)
    ensures p.Got? ==> |p.rest| < |s|
  {
    if s == "" then Fail
    else if s[0] != '\\' then Got(s[0], s[1..])
    else if |s| < 2 then Fail
    else if s[1] == '\"' then Got('\"', s[2..])
    else if s[1] == '\\' then Got('\\', s[2..])
    else if s[1] == 'n' then Got('\n', s[2..])
    else if s[1] == 'r' then Got('\r', s[2..])
    else if s[1] == 't' then Got('\t', s[2..])
    else if s[1] == 'b' then Got(8 as char, s[2..])
    else if s[1] == 'f' then Got(12 as char, s[2..])
    else if s[1] != 'u' then Fail
    else UnescapeUnicode(s)
  }

  function UnescapeUnicode(s: string): (p: Parsed<char>)
    requires |s| >= 2
    ensures p.Got? ==> |p.rest| < |s|
  {
    if |s| < 6 then Fail else
    match Unhex(s[2..6])
    case None => Fail
    case Some(u) =>
      if u < 0xD800 || 0xE000 <= u < 0x10000 then Got(u as char, s[6..])
      else if |s| < 12 || s[6..8] != "\\u" then Fail
      else match Unhex(s[8..12])
           case None => Fail
           case Some(w) =>
             if 0xD800 <= u < 0xDC00 <= w < 0xE000
             then Got((0x10000 + (u - 0xD800) * 0x400 + (w - 0xDC00)) as char, s[12..])
             else Fail
  }

  lemma UnescapeCharRoundTrip(c: char, tail: string)
    ensures UnescapeChar(EscapeChar(c) + tail) == Got(c, tail)
    ensures EscapeChar(c) != "" && EscapeChar(c)[0] != '\"'
  {
    var code := c as int;
    var s := EscapeChar(c) + tail;
    if c == '\"' || c == '\\' || c == '\n' || c == '\r' || c == '\t' || code == 8 || code == 12 {
      assert s[2..] == tail;
    } else if ' ' <= c <= '~' {
      assert s[1..] == tail;
    } else if code < 0x10000 {
      Hex4RoundTrip(code);
      assert s[2..6] == Hex(code, 4) && s[6..] == tail;
    } else {
      SurrogatesRoundTrip(c, tail);
    }
  }

  lemma EscapesAsPair(c: char)
    requires c as int >= 0x10000
    ensures var v := c as int - 0x10000;
            EscapeChar(c) == "\\u" + Hex(0xD800 + v / 0x400, 4) + "\\u" + Hex(0xDC00 + v % 0x400, 4)
  {
    hide Hex;
  }

  lemma SurrogatesRoundTrip(c: char, tail: string)
    requires c as int >= 0x10000
    ensures UnescapeUnicode(EscapeChar(c) + tail) == Got(c, tail)
  {
    var v := c as int - 0x10000;
    var high, low := 0xD800 + v / 0x400, 0xDC00 + v % 0x400;
    Hex4RoundTrip(high);
    Hex4RoundTrip(low);
    var h, l := Hex(high, 4), Hex(low, 4);
    EscapesAsPair(c);
    assert c == (0x10000 + (high - 0xD800) * 0x400 + (low - 0xDC00)) as char;
    hide Hex, Unhex, UnescapeUnicode, EscapeChar;
    PairReads(h, l, high, low, tail);
  }

  lemma PairReads(h: string, l: string, high: nat, low: nat, tail: string)
    requires |h| == |l| == 4 && Unhex(h) == Some(high) && Unhex(l) == Some(low)
    requires 0xD800 <= high < 0xDC00 <= low < 0xE000
    ensures UnescapeUnicode("\\u" + h + "\\u" + l + tail)
         == Got((0x10000 + (high - 0xD800) * 0x400 + (low - 0xDC00)) as char, tail)
  {
    var s := "\\u" + h + "\\u" + l + tail;
    assert s[2..6] == h;
    assert s[6..8] == "\\u";
    assert s[8..12] == l;
    assert s[12..] == tail;
  }

  /** Reads up to the closing quote. */
  function Unescape(s: string): (p: Parsed<string>)
    ensures p.Got? ==> |p.rest| < |s|
  {
    if s == "" then Fail
    else if s[0] == '\"' then Got("", s[1..])
    else match UnescapeChar(s)
         case Fail => Fail
         case Got(c, rest) =>
           match Unescape(rest)
           case Fail => Fail
           case Got(cs, tail) => Got([c] + cs, tail)
  }

  lemma {:induction false} UnescapeRoundTrip(s: string, tail: string)
    ensures Unescape(Escape(s) + "\"" + tail) == Got(s, tail)
  {
    if s == "" {
      assert (Escape(s) + "\"" + tail)[1..] == tail;
    } else {
      var more := Escape(s[1..]) + "\"" + tail;
      assert Escape(s) + "\"" + tail == EscapeChar(s[0]) + more;
      UnescapeCharRoundTrip(s[0], more);
      UnescapeRoundTrip(s[1..], tail);
      assert (EscapeChar(s[0]) + more)[0] == EscapeChar(s[0])[0];
      assert [s[0]] + s[1..] == s;
    }
  }

  /** Printable ASCII without quotes and backslashes is written as it is. */
  ghost predicate Plain(s: string) {
    forall k :: 0 <= k < |s| ==> ' ' <= s[k] <= '~' && s[k] != '\"' && s[k] != '\\'
  }

  lemma {:induction false} PlainIsKept(s: string)
    requires Plain(s)
    ensures Escape(s) == s
  {
    if s != "" {
      PlainIsKept(s[1..]);
      assert [s[0]] + s[1..] == s;
    }
  }

  /** Hexadecimal text is in lower case. */
  lemma {:induction false} HexIsLower(v: nat, n: nat)
    ensures forall k :: 0 <= k < n ==> '0' <= Hex(v, n)[k] <= '9' || 'a' <= Hex(v, n)[k] <= 'f'
  {
    if n > 0 {
      HexIsLower(v / 16, n - 1);
      HexDigitRoundTrip(v % 16);
    }
  }

  // ---------- values ----------

  function Encode(v: Json): string {
    match v
    case JNull => "null"
    case JBool(b) => if b then "true" else "false"
    case JNum(n) => Decimal(n)
    case JStr(s) => "\"" + Escape(s) + "\""
    case JArr(items) => if items == [] then "[]" else "[" + EncodeItems(items)
    case JObj(members) => if members == [] then "{}" else "{" + EncodeMembers(members)
  }

  function EncodeItems(items: seq<Json>): string
    requires items != []
  {
    Encode(items[0]) + if |items| == 1 then "]" else "," + EncodeItems(items[1..])
  }

  function EncodeMembers(members: seq<Member>): string
    requires members != []
  {
    "\"" + Escape(members[0].key) + "\":" + Encode(members[0].value)
    + if |members| == 1 then "}" else "," + EncodeMembers(members[1..])
  }

  /** Text that a first member adds, before other members and at the end. */
  lemma FirstMemberText(m: Member, rest: seq<Member>)
    ensures EncodeMembers([m]) == "\"" + Escape(m.key) + "\":" + Encode(m.value) + "}"
    ensures rest != [] ==>
              EncodeMembers([m] + rest)
                == "\"" + Escape(m.key) + "\":" + Encode(m.value) + "," + EncodeMembers(rest)
  {
    hide Escape, Encode;
    assert rest != [] ==> ([m] + rest)[1..] == rest;
  }

  lemma FirstItemText(v: Json, rest: seq<Json>)
    ensures EncodeItems([v]) == Encode(v) + "]"
    ensures rest != [] ==> EncodeItems([v] + rest) == Encode(v) + "," + EncodeItems(rest)
  {
    hide Encode;
    assert rest != [] ==> ([v] + rest)[1..] == rest;
  }

  /** Constants and empty values, as they are written. */
  lemma ConstantsText()
    ensures Encode(JNull) == "null" && Encode(JBool(true)) == "true" && Encode(JBool(false)) == "false"
    ensures Encode(JArr([])) == "[]" && Encode(JObj([])) == "{}"
  {
  }

  /** The short escapes, as they are written. */
  lemma ShortEscapesText()
    ensures EscapeChar('\"') == "\\\"" && EscapeChar('\\') == "\\\\"
    ensures EscapeChar('\n') == "\\n" && EscapeChar('\r') == "\\r" && EscapeChar('\t') == "\\t"
    ensures EscapeChar('\U{0008}') == "\\b" && EscapeChar('\U{000C}') == "\\f" && EscapeChar('/') == "/"
  {
    hide Hex;
  }

  /** One escape of four lower-case digits with this value. */
  ghost predicate EscapesUnit(s: string, v: nat) {
    && |s| == 6 && s[..2] == "\\u" && Unhex(s[2..]) == Some(v)
    && forall k :: 2 <= k < 6 ==> '0' <= s[k] <= '9' || 'a' <= s[k] <= 'f'
  }

  /** Every other character that is not printable ASCII is escaped by its UTF-16 code units. */
  lemma UnicodeEscapesText(c: char)
    requires (c < ' ' || c > '~') && c !in "\n\r\t" && c as int != 8 && c as int != 12
    ensures var s, v := EscapeChar(c), c as int - 0x10000;
            if v < 0 then EscapesUnit(s, c as int)
            else |s| == 12 && EscapesUnit(s[..6], 0xD800 + v / 0x400) && EscapesUnit(s[6..], 0xDC00 + v % 0x400)
  {
    var v := c as int - 0x10000;
    if v < 0 {
      UnitText(c as int);
    } else {
      var high, low := 0xD800 + v / 0x400, 0xDC00 + v % 0x400;
      EscapesAsPair(c);
      UnitText(high);
      UnitText(low);
      hide EscapesUnit, Hex, EscapeChar;
      assert EscapeChar(c)[..6] == "\\u" + Hex(high, 4) && EscapeChar(c)[6..] == "\\u" + Hex(low, 4);
    }
  }

  lemma UnitText(v: nat)
    requires v < 0x10000
    ensures EscapesUnit("\\u" + Hex(v, 4), v)
  {
    HexIsLower(v, 4);
    Hex4RoundTrip(v);
    hide Hex, Unhex;
    assert ("\\u" + Hex(v, 4))[2..] == Hex(v, 4);
  }

  lemma StringText(s: string)
    ensures Encode(JStr(s)) == "\"" + Escape(s) + "\""
  {
    hide Escape;
  }

  function Literal(s: string, word: string, v: Json): (p: Parsed<Json>)
    requires word != ""
    ensures p.Got? ==> |p.rest| < |s|
  {
    if |word| <= |s| && s[..|word|] == word then Got(v, s[|word|..]) else Fail
  }

  function ArrayOf(p: Parsed<seq<Json>>): Parsed<Json> {
    match p case Fail => Fail case Got(items, rest) => Got(JArr(items), rest)
  }

  function ObjectOf(p: Parsed<seq<Member>>): Parsed<Json> {
    match p case Fail => Fail case Got(members, rest) => Got(JObj(members), rest)
  }

  function Decode(s: string): (p: Parsed<Json>)
    ensures p.Got? ==> |p.rest| < |s|
    decreases |s|, 0
  {
    if s == "" then Fail
    else if s[0] == 'n' then Literal(s, "null", JNull)
    else if s[0] == 't' then Literal(s, "true", JBool(true))
    else if s[0] == 'f' then Literal(s, "false", JBool(false))
    else if s[0] == '\"' then
      (match Unescape(s[1..])
       case Fail => Fail
       case Got(text, rest) => Got(JStr(text), rest))
    else if s[0] == '[' then
      if |s| > 1 && s[1] == ']' then Got(JArr([]), s[2..])
      else ArrayOf(DecodeItems(s[1..]))
    else if s[0] == '{' then
      if |s| > 1 && s[1] == '}' then Got(JObj([]), s[2..])
      else ObjectOf(DecodeMembers(s[1..]))
    else if '0' <= s[0] <= '9' then
      var (n, rest) := ReadDecimal(s[1..], s[0] as nat - '0' as nat);
      if |rest| < |s| then Got(JNum(n), rest) else Fail
    else Fail
  }

  function DecodeItems(s: string): (p: Parsed<seq<Json>>)
    ensures p.Got? ==> |p.rest| < |s|
    decreases |s|, 1
  {
    match Decode(s)
    case Fail => Fail
    case Got(item, rest) =>
      if rest == "" then Fail
      else if rest[0] == ']' then Got([item], rest[1..])
      else if rest[0] != ',' then Fail
      else match DecodeItems(rest[1..])
           case Fail => Fail
           case Got(items, tail) => Got([item] + items, tail)
  }

  function DecodeMembers(s: string): (p: Parsed<seq<Member>>)
    ensures p.Got? ==> |p.rest| < |s|
    decreases |s|, 1
  {
    if s == "" || s[0] != '\"' then Fail else
    match Unescape(s[1..])
    case Fail => Fail
    case Got(key, afterKey) => DecodeAfterKey(key, afterKey)
  }

  function DecodeAfterKey(key: string, s: string): (p: Parsed<seq<Member>>)
    ensures p.Got? ==> |p.rest| < |s|
    decreases |s|, 1
  {
    if s == "" || s[0] != ':' then Fail else
    match Decode(s[1..])
    case Fail => Fail
    case Got(value, rest) =>
      if rest == "" then Fail
      else if rest[0] == '}' then Got([Member(key, value)], rest[1..])
      else if rest[0] != ',' then Fail
      else match DecodeMembers(rest[1..])
           case Fail => Fail
           case Got(members, tail) => Got([Member(key, value)] + members, tail)
  }

  /** A tail that cannot be read as more digits of a number before it. */
  predicate Stops(tail: string) {
    tail == "" || !('0' <= tail[0] <= '9')
  }

  lemma {:induction false} DecimalFront(n: nat)
    ensures Decimal(n) != "" && '0' <= Decimal(n)[0] <= '9'
  {
    if n >= 10 { DecimalFront(n / 10); } else { HexDigitRoundTrip(n); }
  }

  /** An encoded value is never empty and never starts with a closing bracket. */
  lemma EncodeFront(v: Json)
    ensures Encode(v) != "" && Encode(v)[0] != ']'
  {
    match v
    case JNum(n) => DecimalFront(n);
    case _ =>
  }

  /** Text that starts with a digit is read as a number. */
  lemma DecodesNumber(s: string, n: nat, rest: string)
    requires s != "" && '0' <= s[0] <= '9' && ReadDecimal(s, 0) == (n, rest) && |rest| < |s|
    ensures Decode(s) == Got(JNum(n), rest)
  {
  }

  lemma NumberRoundTrip(n: nat, tail: string)
    requires Stops(tail)
    ensures Decode(Decimal(n) + tail) == Got(JNum(n), tail)
  {
    DecimalFront(n);
    ReadDecimalSkips(n, tail);
    assert ReadDecimal(tail, n) == (n, tail);
    hide Decode, Decimal, ReadDecimal;
    DecodesNumber(Decimal(n) + tail, n, tail);
  }

  lemma LiteralRoundTrip(word: string, v: Json, tail: string)
    requires word != ""
    ensures Literal(word + tail, word, v) == Got(v, tail)
  {
    assert (word + tail)[..|word|] == word && (word + tail)[|word|..] == tail;
  }

  /** Text that starts with a quote is read as a string. */
  lemma DecodesString(body: string, text: string, rest: string)
    requires Unescape(body) == Got(text, rest)
    ensures Decode("\"" + body) == Got(JStr(text), rest)
  {
    hide Unescape;
    assert ("\"" + body)[1..] == body;
  }

  lemma StringRoundTrip(text: string, tail: string)
    ensures Decode(Encode(JStr(text)) + tail) == Got(JStr(text), tail)
  {
    var body := Escape(text) + "\"" + tail;
    hide Unescape, Escape, Decode;
    UnescapeRoundTrip(text, tail);
    DecodesString(body, text, tail);
    assert Encode(JStr(text)) + tail == "\"" + body;
  }

  /** Decoding an encoded value gives it back and leaves the rest of the text. */
  lemma {:induction false} DecodeRoundTrip(v: Json, tail: string)
    requires Stops(tail)
    ensures Decode(Encode(v) + tail) == Got(v, tail)
    decreases v, 1
  {
    match v
    case JNull => LiteralRoundTrip("null", v, tail);
    case JBool(b) => LiteralRoundTrip(if b then "true" else "false", v, tail);
    case JNum(n) => NumberRoundTrip(n, tail);
    case JStr(text) => StringRoundTrip(text, tail);
    case JArr(items) =>
      if items == [] {
        assert ("[]" + tail)[2..] == tail;
      } else {
        ItemsRoundTrip(items, tail);
        EncodeFront(items[0]);
        ArrayOpens(EncodeItems(items), items, tail);
      }
    case JObj(members) =>
      if members == [] {
        assert ("{}" + tail)[2..] == tail;
      } else {
        MembersRoundTrip(members, tail);
        ObjectOpens(EncodeMembers(members), members, tail);
      }
  }

  lemma ArrayOpens(body: string, items: seq<Json>, tail: string)
    requires body != "" && body[0] != ']' && DecodeItems(body + tail) == Got(items, tail)
    ensures Decode("[" + body + tail) == Got(JArr(items), tail)
  {
    hide DecodeMembers, DecodeItems, Unescape;
    var s := "[" + body + tail;
    assert s[1] == body[0];
    assert s[1..] == body + tail;
  }

  lemma ObjectOpens(body: string, members: seq<Member>, tail: string)
    requires body != "" && body[0] == '\"' && DecodeMembers(body + tail) == Got(members, tail)
    ensures Decode("{" + body + tail) == Got(JObj(members), tail)
  {
    hide DecodeMembers, DecodeItems, Unescape;
    var s := "{" + body + tail;
    assert s[1] == body[0];
    assert s[1..] == body + tail;
  }

  /** Reading one item off the front of an array's text. */
  lemma ItemReads(encoded: string, item: Json, more: string)
    requires more != "" && Decode(encoded + more) == Got(item, more)
    ensures DecodeItems(encoded + more)
         == if more[0] == ']' then Got([item], more[1..])
            else if more[0] != ',' then Fail
            else match DecodeItems(more[1..])
                 case Fail => Fail
                 case Got(items, tail) => Got([item] + items, tail)
  {
  }

  lemma {:induction false} ItemsRoundTrip(items: seq<Json>, tail: string)
    requires items != []
    ensures DecodeItems(EncodeItems(items) + tail) == Got(items, tail)
    decreases items, 1
  {
    var first := Encode(items[0]);
    var rest := if |items| == 1 then "]" else "," + EncodeItems(items[1..]);
    Regroup(first, rest, tail);
    DecodeRoundTrip(items[0], rest + tail);
    ItemReads(first, items[0], rest + tail);
    if |items| > 1 {
      ItemsRoundTrip(items[1..], tail);
      AfterFirst(',', EncodeItems(items[1..]), tail);
      assert [items[0]] + items[1..] == items;
    } else {
      AfterFirst(']', "", tail);
      assert [items[0]] == items;
    }
  }

  lemma KeyReads(key: string, afterKey: string)
    ensures DecodeMembers("\"" + Escape(key) + "\"" + afterKey) == DecodeAfterKey(key, afterKey)
  {
    var s := "\"" + Escape(key) + "\"" + afterKey;
    assert s[1..] == Escape(key) + "\"" + afterKey;
    UnescapeRoundTrip(key, afterKey);
  }

  lemma RegroupMember(key: string, encoded: string, more: string)
    ensures "\"" + key + "\":" + encoded + more == "\"" + key + "\"" + (":" + (encoded + more))
    ensures (":" + (encoded + more))[1..] == encoded + more
  {
  }

  /** Reading one member off the front of an object's text. */
  lemma MemberReads(key: string, encoded: string, value: Json, more: string)
    requires more != "" && Decode(encoded + more) == Got(value, more)
    ensures DecodeMembers("\"" + Escape(key) + "\":" + encoded + more)
         == if more[0] == '}' then Got([Member(key, value)], more[1..])
            else if more[0] != ',' then Fail
            else match DecodeMembers(more[1..])
                 case Fail => Fail
                 case Got(members, tail) => Got([Member(key, value)] + members, tail)
  {
    RegroupMember(Escape(key), encoded, more);
    KeyReads(key, ":" + (encoded + more));
  }

  lemma {:induction false} MembersRoundTrip(members: seq<Member>, tail: string)
    requires members != []
    ensures DecodeMembers(EncodeMembers(members) + tail) == Got(members, tail)
    decreases members, 1
  {
    var m := members[0];
    var front := "\"" + Escape(m.key) + "\":" + Encode(m.value);
    var rest := if |members| == 1 then "}" else "," + EncodeMembers(members[1..]);
    Regroup(front, rest, tail);
    DecodeRoundTrip(m.value, rest + tail);
    MemberReads(m.key, Encode(m.value), m.value, rest + tail);
    assert Member(m.key, m.value) == m;
    if |members| > 1 {
      MembersRoundTrip(members[1..], tail);
      AfterFirst(',', EncodeMembers(members[1..]), tail);
      assert [m] + members[1..] == members;
    } else {
      AfterFirst('}', "", tail);
      assert [m] == members;
    }
  }

  /** Two values with the same text are the same value. */
  lemma EncodeIsInjective(v: Json, w: Json)
    ensures Encode(v) == Encode(w) <==> v == w
  {
    DecodeRoundTrip(v, "");
    DecodeRoundTrip(w, "");
    assert Encode(v) + "" == Encode(v) && Encode(w) + "" == Encode(w);
  }
}
