/**
 * The part of Go's encoding/json that this program relies on: json.Marshal of the
 * values it stores in meta rows (a string slice of capabilities, a map of strings,
 * an integer), and the decoding of a JSON string literal, which turns a stored
 * string back into the original.
 */
module Json {
  import opened Wrappers
  import opened Strings

  /**
   * The values handed to json.Marshal. A Go map is written with its keys sorted,
   * so a JObject lists its fields in ascending key order.
   */
  datatype Json = JString(s: string) | JInt(n: int) | JArray(items: seq<Json>) | JObject(fields: seq<(string, Json)>)

  /** Characters json.Marshal writes as an escape sequence (HTML escaping on, as in Go 1.22 and later). */
  predicate NeedsEscape(c: char) {
    var n := c as int;
    c == '"' || c == '\\' || n < 0x20 || c == '<' || c == '>' || c == '&' || n == 0x2028 || n == 0x2029
  }

  /** How json.Marshal writes one character inside a string literal. */
  function EscapeChar(c: char): (r: string)
    ensures |r| >= 1
    ensures !NeedsEscape(c) <==> r == [c]
  {
    var n := c as int;
    if c == '"' then "\\\""
    else if c == '\\' then "\\\\"
    else if c == '\n' then "\\n"
    else if c == '\r' then "\\r"
    else if c == '\t' then "\\t"
    else if n == 8 then "\\b"
    else if n == 12 then "\\f"
    else if NeedsEscape(c) then "\\u" + ZeroPad(Numeral(n, 16), 4)
    else [c]
  }

  function EscapeString(s: string): string {
    if s == [] then [] else EscapeChar(s[0]) + EscapeString(s[1..])
  }

  /** The JSON string literal json.Marshal writes for s. */
  function Quote(s: string): string {
    "\"" + EscapeString(s) + "\""
  }

  function Encode(j: Json): string
    decreases j, 1
  {
    match j
    case JString(s) => Quote(s)
    case JInt(n) => FormatInt(n)
    case JArray(items) => "[" + EncodeItems(items) + "]"
    case JObject(fields) => "{" + EncodeFields(fields) + "}"
  }

  function EncodeItems(items: seq<Json>): string
    decreases items, 0
  {
    if items == [] then ""
    else if |items| == 1 then Encode(items[0])
    else Encode(items[0]) + "," + EncodeItems(items[1..])
  }

  function EncodeFields(fields: seq<(string, Json)>): string
    decreases fields, 0
  {
    if fields == [] then ""
    else
      var (key, value) := fields[0];
      assert fields[0] in fields && value < fields[0];
      var field := Quote(key) + ":" + Encode(value);
      if |fields| == 1 then field else field + "," + EncodeFields(fields[1..])
  }

  /** A string with nothing to escape is written as itself between quotes. */
  lemma {:induction false} EscapePlain(s: string)
    requires forall i :: 0 <= i < |s| ==> !NeedsEscape(s[i])
    ensures EscapeString(s) == s
    decreases |s|
  {
    if s != [] {
      EscapePlain(s[1..]);
    }
  }

  lemma EscapeDigits(s: string)
    requires AllDigits(s)
    ensures EscapeString(s) == s
  {
    forall i | 0 <= i < |s| ensures !NeedsEscape(s[i]) {
      assert IsBaseDigit(s[i], 10);
    }
    EscapePlain(s);
  }

  /** A string with nothing to escape occurs in its own literal. */
  lemma QuoteContains(s: string)
    requires forall i :: 0 <= i < |s| ==> !NeedsEscape(s[i])
    ensures ContainsSub(Quote(s), s)
  {
    EscapePlain(s);
    assert s <= s[0..];
    ContainsInRight("\"", s, s);
    ContainsInLeft("\"" + s, "\"", s);
  }

  /** How a two-field object is written. */
  lemma EncodePair(k1: string, v1: Json, k2: string, v2: Json)
    ensures Encode(JObject([(k1, v1), (k2, v2)]))
      == "{" + ((Quote(k1) + ":" + Encode(v1)) + "," + (Quote(k2) + ":" + Encode(v2))) + "}"
  {
    var fields := [(k1, v1), (k2, v2)];
    var second := Quote(k2) + ":" + Encode(v2);
    assert fields[1..] == [(k2, v2)];
    assert EncodeFields([(k2, v2)]) == second;
    assert EncodeFields(fields) == (Quote(k1) + ":" + Encode(v1)) + "," + second;
  }

  /** The key and the string value of an object's first field, when neither needs escaping, occur in its text. */
  lemma PairContains(k1: string, s1: string, k2: string, v2: Json)
    requires forall i :: 0 <= i < |k1| ==> !NeedsEscape(k1[i])
    requires forall i :: 0 <= i < |s1| ==> !NeedsEscape(s1[i])
    ensures ContainsSub(Encode(JObject([(k1, JString(s1)), (k2, v2)])), k1)
    ensures ContainsSub(Encode(JObject([(k1, JString(s1)), (k2, v2)])), s1)
  {
    EncodePair(k1, JString(s1), k2, v2);
    var first := Quote(k1) + ":" + Quote(s1);
    var rest := Quote(k2) + ":" + Encode(v2);
    QuoteContains(k1);
    QuoteContains(s1);
    ContainsInLeft(Quote(k1), ":", k1);
    ContainsInLeft(Quote(k1) + ":", Quote(s1), k1);
    ContainsInRight(Quote(k1) + ":", Quote(s1), s1);
    InFirstField(first, rest, k1);
    InFirstField(first, rest, s1);
  }

  lemma InFirstField(first: string, rest: string, q: string)
    requires ContainsSub(first, q)
    ensures ContainsSub("{" + (first + "," + rest) + "}", q)
  {
    ContainsInLeft(first, ",", q);
    ContainsInLeft(first + ",", rest, q);
    ContainsInRight("{", first + "," + rest, q);
    ContainsInLeft("{" + (first + "," + rest), "}", q);
  }

  /** The capability list granted to a workspace's creator: `["admin"]`. */
  lemma EncodeAdminList()
    ensures Encode(JArray([JString("admin")])) == "[\"admin\"]"
  {
    var admin := "admin";
    assert forall i :: 0 <= i < |admin| ==> 'a' <= admin[i] <= 'n';
    EscapePlain(admin);
    assert EncodeItems([JString(admin)]) == Quote(admin);
  }

  /** An integer value is stored as its decimal numeral. */
  lemma EncodeInt(n: int)
    ensures Encode(JInt(n)) == FormatInt(n)
  {
  }

  // ------------------------------------------------------------- decoding

  /** Reads the four hexadecimal digits of a `\u` escape. */
  function HexQuad(s: string): (r: Option<int>)
    ensures r.Some? ==> |s| >= 4
  {
    if |s| >= 4 && AllBaseDigits(s[..4], 16) then Some(NumeralValue(s[..4], 16)) else None
  }

  /** The character a two-character escape `\e` stands for. */
  function ShortEscape(e: char): Option<char>
  {
    if e == '"' then Some('"') else if e == '\\' then Some('\\') else if e == '/' then Some('/')
    else if e == 'n' then Some('\n') else if e == 'r' then Some('\r') else if e == 't' then Some('\t')
    else if e == 'b' then Some(8 as char) else if e == 'f' then Some(12 as char) else None
  }

  /**
   * Reads the first character of the body of a JSON string literal: the character
   * and how many characters of s it took. None for a stray quote, a raw control
   * character or an unknown escape. Upper-case hexadecimal digits and UTF-16
   * surrogate pairs in `\u` escapes, which json.Marshal never writes, are rejected
   * here rather than decoded.
   */
  function Token(s: string): (r: Option<(char, nat)>)
    requires s != []
    ensures r.Some? ==> 1 <= r.value.1 <= |s|
  {
    if s[0] == '"' || s[0] as int < 0x20 then None
    else if s[0] != '\\' then Some((s[0], 1))
    else if |s| < 2 then None
    else if ShortEscape(s[1]).Some? then Some((ShortEscape(s[1]).value, 2))
    else if s[1] != 'u' then None
    else
      match HexQuad(s[2..])
      case Some(n) => if n < 0xD800 || 0xE000 <= n < 0x10000 then Some((n as char, 6)) else None
      case None => None
  }

  /** Decodes the body of a JSON string literal as json.Unmarshal does, one token at a time. */
  function Unescape(s: string): Option<string>
    decreases |s|
  {
    if s == [] then Some([])
    else
      match Token(s)
      case None => None
      case Some((c, k)) =>
        match Unescape(s[k..])
        case Some(rest) => Some([c] + rest)
        case None => None
  }

  /** The decoder inverts the encoder of string literals: a stored string reads back unchanged. */
  lemma {:induction false} UnescapeEscape(s: string)
    ensures Unescape(EscapeString(s)) == Some(s)
    decreases |s|
  {
    if s != [] {
      var head := EscapeChar(s[0]);
      var t := EscapeString(s);
      assert t == head + EscapeString(s[1..]);
      TokenOfEscape(s[0], EscapeString(s[1..]));
      assert t[|head|..] == EscapeString(s[1..]);
      UnescapeEscape(s[1..]);
      assert [s[0]] + s[1..] == s;
    }
  }

  /** The first token of an escaped character, whatever follows it, is that character. */
  lemma TokenOfEscape(c: char, rest: string)
    ensures Token(EscapeChar(c) + rest) == Some((c, |EscapeChar(c)|))
  {
    var n := c as int;
    if c == '"' || c == '\\' || c == '\n' || c == '\r' || c == '\t' || n == 8 || n == 12 {
      TokenOfShort(c, rest);
    } else if NeedsEscape(c) {
      TokenOfUnicode(c, rest);
    } else {
      var t := EscapeChar(c) + rest;
      assert t[0] == c;
    }
  }

  lemma TokenOfShort(c: char, rest: string)
    requires c == '"' || c == '\\' || c == '\n' || c == '\r' || c == '\t' || c as int == 8 || c as int == 12
    ensures Token(EscapeChar(c) + rest) == Some((c, |EscapeChar(c)|))
  {
    var t := EscapeChar(c) + rest;
    assert |EscapeChar(c)| == 2 && t[0] == '\\' && t[1] == EscapeChar(c)[1];
    assert ShortEscape(t[1]) == Some(c);
  }

  lemma TokenOfUnicode(c: char, rest: string)
    requires NeedsEscape(c) && c != '"' && c != '\\' && c != '\n' && c != '\r' && c != '\t'
    requires c as int != 8 && c as int != 12
    ensures Token(EscapeChar(c) + rest) == Some((c, |EscapeChar(c)|))
  {
    var quad := ZeroPad(Numeral(c as int, 16), 4);
    UnicodeEscapeText(c);
    var t := "\\u" + (quad + rest);
    assert EscapeChar(c) + rest == t;
    assert t[2..] == quad + rest;
    HexQuadPrefix(quad, rest);
    UnicodeToken(t, c);
  }

  /** A character with no short escape is written as `\u` and four hexadecimal digits that read back as its code. */
  lemma UnicodeEscapeText(c: char)
    requires NeedsEscape(c) && c != '"' && c != '\\' && c != '\n' && c != '\r' && c != '\t'
    requires c as int != 8 && c as int != 12
    ensures var quad := ZeroPad(Numeral(c as int, 16), 4);
      EscapeChar(c) == "\\u" + quad && |quad| == 4 && AllBaseDigits(quad, 16) && NumeralValue(quad, 16) == c as int
  {
    QuadValue(c);
  }

  /** Four hexadecimal digits are read as a quad whatever follows them. */
  lemma HexQuadPrefix(quad: string, rest: string)
    requires |quad| == 4 && AllBaseDigits(quad, 16)
    ensures HexQuad(quad + rest) == Some(NumeralValue(quad, 16))
  {
    assert (quad + rest)[..4] == quad;
  }

  /** A `\u` escape whose quad names a character outside the surrogates is that character, six long. */
  lemma UnicodeToken(t: string, c: char)
    requires |t| >= 2 && t[0] == '\\' && t[1] == 'u' && HexQuad(t[2..]) == Some(c as int)
    requires c as int < 0xD800
    ensures Token(t) == Some((c, 6))
  {
    assert ShortEscape(t[1]).None?;
    assert (c as int) as char == c;
  }

  /** The four digits of a `\u` escape are read back as the character's code. */
  lemma QuadValue(c: char)
    requires c as int < 0x2100
    ensures var quad := ZeroPad(Numeral(c as int, 16), 4);
      |quad| == 4 && AllBaseDigits(quad, 16) && NumeralValue(quad, 16) == c as int
  {
    var n := c as int;
    var hex := Numeral(n, 16);
    NumeralValueOfNumeral(n, 16);
    assert Pow16(4) == 0x10000;
    NumeralLength(n, 4);
    ZeroPadValue(hex, 4);
  }

  /** The literal json.Marshal writes for a string reads back as that string. */
  lemma QuoteRoundTrip(s: string)
    ensures var q := Quote(s); |q| >= 2 && q[0] == '"' && q[|q| - 1] == '"' && Unescape(q[1..|q| - 1]) == Some(s)
  {
    var q := Quote(s);
    assert q[1..|q| - 1] == EscapeString(s);
    UnescapeEscape(s);
  }
}
