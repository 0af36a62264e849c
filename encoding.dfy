/** A Some/None value for results that may be absent. */
module Optional {
  datatype Option<+T> = None | Some(value: T)
}

/**
 Text encodings the error renderers share: Go's `%q` quoting, the escaping
 that `json.HTMLEscape` applies to JSON text, `strings.Join`, and the sorted
 order in which `encoding/json` writes the keys of a map. A small JSON string
 decoder serves as the independent reference the quoting is proved against.
 */
module Encoding {
  import opened Optional

  // ---------------------------------------------------------------------
  // Go's %q (strconv.Quote), for quotes, backslashes and ASCII controls
  // ---------------------------------------------------------------------

  /** A lower-case hex digit, as strconv writes them. */
  function LowerHex(n: nat): (r: char)
    requires n < 16
    ensures '0' <= r <= '9' || 'a' <= r <= 'f'
  {
    if n < 10 then ('0' as int + n) as char else ('a' as int + n - 10) as char
  }

  /**
   The escape strconv.Quote writes for one character: a backslash before a
   quote or backslash, the seven one-letter escapes of Go, `\x` and two hex
   digits for the other ASCII control characters and DEL, and any other
   character as it is.
   */
  function QuoteChar(c: char): string {
    if c == '"' then "\\\""
    else if c == '\\' then "\\\\"
    else if c == '\U{0007}' then "\\a"
    else if c == '\U{0008}' then "\\b"
    else if c == '\U{000C}' then "\\f"
    else if c == '\n' then "\\n"
    else if c == '\r' then "\\r"
    else if c == '\t' then "\\t"
    else if c == '\U{000B}' then "\\v"
    else if c < ' ' || c == '\U{007F}' then "\\x" + [LowerHex(c as nat / 16), LowerHex(c as nat % 16)]
    else [c]
  }

  /** The text between the quotes of a quoted string. */
  function QuoteBody(s: string): string {
    if s == [] then [] else QuoteChar(s[0]) + QuoteBody(s[1..])
  }

  /** `fmt.Sprintf("%q", s)`. */
  function Quote(s: string): string {
    "\"" + QuoteBody(s) + "\""
  }

  // ---------------------------------------------------------------------
  // json.HTMLEscape
  // ---------------------------------------------------------------------

  /** Characters json.HTMLEscape rewrites. */
  predicate HtmlSpecial(c: char) {
    c == '<' || c == '>' || c == '&' || c == '\U{2028}' || c == '\U{2029}'
  }

  function HtmlEscapeChar(c: char): string {
    if c == '<' then "\\u003c"
    else if c == '>' then "\\u003e"
    else if c == '&' then "\\u0026"
    else if c == '\U{2028}' then "\\u2028"
    else if c == '\U{2029}' then "\\u2029"
    else [c]
  }

  /** `json.HTMLEscape`: `<`, `>`, `&`, U+2028 and U+2029 become `\u` escapes. */
  function HtmlEscape(s: string): string {
    if s == [] then [] else HtmlEscapeChar(s[0]) + HtmlEscape(s[1..])
  }

  /** Text that may be embedded in HTML: no character json.HTMLEscape rewrites. */
  predicate HtmlSafe(s: string) {
    s == [] || (!HtmlSpecial(s[0]) && HtmlSafe(s[1..]))
  }

  /** Safe character by character. */
  lemma {:induction false} SafeByChars(s: string)
    requires forall i | 0 <= i < |s| :: !HtmlSpecial(s[i])
    ensures HtmlSafe(s)
  {
    if s != [] {
      SafeByChars(s[1..]);
    }
  }

  lemma {:induction false} HtmlSafeAppend(a: string, b: string)
    ensures HtmlSafe(a + b) <==> HtmlSafe(a) && HtmlSafe(b)
  {
    if a == [] {
      assert a + b == b;
    } else {
      assert (a + b)[0] == a[0];
      assert (a + b)[1..] == a[1..] + b;
      HtmlSafeAppend(a[1..], b);
    }
  }

  lemma {:induction false} HtmlEscapeAppend(a: string, b: string)
    ensures HtmlEscape(a + b) == HtmlEscape(a) + HtmlEscape(b)
  {
    if a == [] {
      assert a + b == b;
    } else {
      assert (a + b)[0] == a[0];
      assert (a + b)[1..] == a[1..] + b;
      HtmlEscapeAppend(a[1..], b);
    }
  }

  /** A `\u` escape of four hex digits contains nothing HTML escaping rewrites. */
  lemma UnicodeEscapeSafe(t: string)
    requires |t| == 6 && t[0] == '\\' && t[1] == 'u'
    requires forall i | 2 <= i < 6 :: '0' <= t[i] <= '9' || 'a' <= t[i] <= 'f'
    ensures HtmlSafe(t)
  {
    SafeByChars(t);
  }

  lemma HtmlEscapeCharIsSafe(c: char)
    ensures HtmlSafe(HtmlEscapeChar(c))
  {
    if HtmlSpecial(c) {
      UnicodeEscapeSafe(HtmlEscapeChar(c));
    }
  }

  /** Escaping leaves nothing for a second escape to rewrite. */
  lemma {:induction false} HtmlEscapeIsSafe(s: string)
    ensures HtmlSafe(HtmlEscape(s))
  {
    if s != [] {
      HtmlEscapeIsSafe(s[1..]);
      HtmlEscapeCharIsSafe(s[0]);
      HtmlSafeAppend(HtmlEscapeChar(s[0]), HtmlEscape(s[1..]));
    }
  }

  /** Safe text passes through unchanged. */
  lemma {:induction false} HtmlEscapeKeepsSafe(s: string)
    requires HtmlSafe(s)
    ensures HtmlEscape(s) == s
  {
    if s != [] {
      HtmlEscapeKeepsSafe(s[1..]);
      assert s == [s[0]] + s[1..];
    }
  }

  /** Escaping twice is escaping once (the aggregate re-escapes escaped JSON). */
  lemma HtmlEscapeIdempotent(s: string)
    ensures HtmlEscape(HtmlEscape(s)) == HtmlEscape(s)
  {
    HtmlEscapeIsSafe(s);
    HtmlEscapeKeepsSafe(HtmlEscape(s));
  }

  lemma QuoteCharSafe(c: char)
    requires !HtmlSpecial(c)
    ensures HtmlSafe(QuoteChar(c))
  {
    if !JsonQuotable(c) {
      ControlEscapeSafe(c);
    }
  }

  /** Quoting adds only quotes and backslash escapes, none of which HTML escaping rewrites. */
  lemma {:induction false} QuoteBodySafe(s: string)
    requires HtmlSafe(s)
    ensures HtmlSafe(QuoteBody(s))
  {
    if s != [] {
      QuoteCharSafe(s[0]);
      QuoteBodySafe(s[1..]);
      HtmlSafeAppend(QuoteChar(s[0]), QuoteBody(s[1..]));
    }
  }

  lemma QuoteSafe(s: string)
    requires HtmlSafe(s)
    ensures HtmlSafe(Quote(s))
  {
    QuoteBodySafe(s);
    HtmlSafeAppend("\"", QuoteBody(s));
    HtmlSafeAppend("\"" + QuoteBody(s), "\"");
  }

  /** A JSON string value as the renderers write it: quoted, then HTML-escaped. */
  function JsonString(s: string): string {
    HtmlEscape(Quote(s))
  }

  /** A rendered JSON string needs no further HTML escaping. */
  lemma JsonStringSafe(s: string)
    ensures HtmlSafe(JsonString(s))
  {
    HtmlEscapeIsSafe(Quote(s));
  }

  // ---------------------------------------------------------------------
  // A JSON string decoder, the reference for JsonString
  // ---------------------------------------------------------------------

  function HexDigit(c: char): (r: Option<nat>)
    ensures r.Some? ==> r.value < 16
  {
    if '0' <= c <= '9' then Some(c as nat - '0' as nat)
    else if 'a' <= c <= 'f' then Some(c as nat - 'a' as nat + 10)
    else if 'A' <= c <= 'F' then Some(c as nat - 'A' as nat + 10)
    else None
  }

  /** The character named by the four hex digits of a `\u` escape (no surrogates). */
  function Hex4(t: string): Option<char>
    requires |t| == 4
  {
    match (HexDigit(t[0]), HexDigit(t[1]), HexDigit(t[2]), HexDigit(t[3]))
    case (Some(a), Some(b), Some(c), Some(d)) =>
      var code := a * 0x1000 + b * 0x100 + c * 0x10 + d;
      if 0xD800 <= code < 0xE000 then None else Some(code as char)
    case _ => None
  }

  /** The one-character escapes of JSON (RFC 8259, section 7), after the backslash. */
  function SimpleEscape(c: char): Option<char> {
    if c == '"' then Some('"')
    else if c == '\\' then Some('\\')
    else if c == '/' then Some('/')
    else if c == 'b' then Some('\U{0008}')
    else if c == 'f' then Some('\U{000C}')
    else if c == 'n' then Some('\n')
    else if c == 'r' then Some('\r')
    else if c == 't' then Some('\t')
    else None
  }

  function Prepend(c: char, r: Option<string>): Option<string> {
    match r
    case Some(s) => Some([c] + s)
    case None => None
  }

  /**
   Decodes the characters between the quotes of a JSON string. A raw control
   character is rejected, as RFC 8259 (section 7) requires them escaped.
   */
  function DecodeBody(t: string): Option<string>
    decreases |t|
  {
    if t == [] then Some([])
    else if t[0] == '"' || t[0] < ' ' then None
    else if t[0] != '\\' then Prepend(t[0], DecodeBody(t[1..]))
    else if |t| < 2 then None
    else if t[1] == 'u' then
      if |t| < 6 then None
      else match Hex4(t[2..6])
        case Some(c) => Prepend(c, DecodeBody(t[6..]))
        case None => None
    else match SimpleEscape(t[1])
      case Some(c) => Prepend(c, DecodeBody(t[2..]))
      case None => None
  }

  /** Decodes a JSON string literal. */
  function DecodeString(t: string): Option<string> {
    if |t| >= 2 && t[0] == '"' && t[|t| - 1] == '"' then DecodeBody(t[1..|t| - 1]) else None
  }

  /** The tokens JsonString writes for one character. */
  function EncodeChar(c: char): string {
    HtmlEscape(QuoteChar(c))
  }

  lemma {:induction false} EncodeBody(s: string)
    ensures HtmlEscape(QuoteBody(s)) == if s == [] then [] else EncodeChar(s[0]) + HtmlEscape(QuoteBody(s[1..]))
  {
    if s != [] {
      HtmlEscapeAppend(QuoteChar(s[0]), QuoteBody(s[1..]));
    }
  }

  lemma DecodePlain(c: char, rest: string)
    requires c != '"' && c != '\\' && c >= ' '
    ensures DecodeBody([c] + rest) == Prepend(c, DecodeBody(rest))
  {
    assert ([c] + rest)[1..] == rest;
  }

  lemma DecodeSimple(e: char, c: char, rest: string)
    requires e != 'u' && SimpleEscape(e) == Some(c)
    ensures DecodeBody(['\\', e] + rest) == Prepend(c, DecodeBody(rest))
  {
    assert (['\\', e] + rest)[2..] == rest;
  }

  lemma DecodeUnicode(hex: string, c: char, rest: string)
    requires |hex| == 4 && Hex4(hex) == Some(c)
    ensures DecodeBody("\\u" + hex + rest) == Prepend(c, DecodeBody(rest))
  {
    var t := "\\u" + hex + rest;
    assert t[2..6] == hex;
    assert t[6..] == rest;
  }

  /**
   The characters whose %q form JSON reads back: all but the control
   characters %q writes as `\a`, `\v` or `\x` escapes, which JSON does not have.
   */
  predicate JsonQuotable(c: char) {
    (' ' <= c && c != '\U{007F}')
    || c == '\U{0008}' || c == '\t' || c == '\n' || c == '\U{000C}' || c == '\r'
  }

  predicate JsonQuotableText(s: string) {
    forall i | 0 <= i < |s| :: JsonQuotable(s[i])
  }

  /** What a JSON reader makes of JsonString(s): s itself, or nothing at all. */
  function JsonReadback(s: string): Option<string> {
    if JsonQuotableText(s) then Some(s) else None
  }

  lemma DecodeToken(c: char, rest: string)
    requires JsonQuotable(c)
    ensures DecodeBody(EncodeChar(c) + rest) == Prepend(c, DecodeBody(rest))
  {
    if c == '"' || c == '\\' || c == '\U{0008}' || c == '\U{000C}' || c == '\n' || c == '\r' || c == '\t' {
      DecodeQuotedToken(c, rest);
    } else if HtmlSpecial(c) {
      DecodeHtmlToken(c, rest);
    } else {
      HtmlEscapeKeepsSafe(QuoteChar(c));
      assert EncodeChar(c) == [c];
      DecodePlain(c, rest);
    }
  }

  /** The characters %q writes as a backslash and a letter JSON shares decode back. */
  lemma DecodeQuotedToken(c: char, rest: string)
    requires c == '"' || c == '\\' || c == '\U{0008}' || c == '\U{000C}' || c == '\n' || c == '\r' || c == '\t'
    ensures DecodeBody(EncodeChar(c) + rest) == Prepend(c, DecodeBody(rest))
  {
    HtmlEscapeKeepsSafe(QuoteChar(c));
    if c == '"' {
      assert EncodeChar(c) == ['\\', '"'];
      DecodeSimple('"', c, rest);
    } else if c == '\\' {
      assert EncodeChar(c) == ['\\', '\\'];
      DecodeSimple('\\', c, rest);
    } else if c == '\U{0008}' {
      assert EncodeChar(c) == ['\\', 'b'];
      DecodeSimple('b', c, rest);
    } else if c == '\U{000C}' {
      assert EncodeChar(c) == ['\\', 'f'];
      DecodeSimple('f', c, rest);
    } else if c == '\n' {
      assert EncodeChar(c) == ['\\', 'n'];
      DecodeSimple('n', c, rest);
    } else if c == '\r' {
      assert EncodeChar(c) == ['\\', 'r'];
      DecodeSimple('r', c, rest);
    } else {
      assert EncodeChar(c) == ['\\', 't'];
      DecodeSimple('t', c, rest);
    }
  }

  /** The characters json.HTMLEscape rewrites as `\u` escapes decode back. */
  lemma DecodeHtmlToken(c: char, rest: string)
    requires HtmlSpecial(c)
    ensures DecodeBody(EncodeChar(c) + rest) == Prepend(c, DecodeBody(rest))
  {
    if c == '<' {
      DecodeLessThan(rest);
    } else if c == '>' {
      DecodeGreaterThan(rest);
    } else if c == '&' {
      DecodeAmpersand(rest);
    } else if c == '\U{2028}' {
      DecodeLineSeparator(rest);
    } else {
      DecodeParagraphSeparator(rest);
    }
  }

  lemma DecodeLessThan(rest: string)
    ensures DecodeBody(EncodeChar('<') + rest) == Prepend('<', DecodeBody(rest))
  {
    assert EncodeChar('<') == "\\u" + "003c";
    assert Hex4("003c") == Some('<');
    DecodeUnicode("003c", '<', rest);
  }

  lemma DecodeGreaterThan(rest: string)
    ensures DecodeBody(EncodeChar('>') + rest) == Prepend('>', DecodeBody(rest))
  {
    assert EncodeChar('>') == "\\u" + "003e";
    assert Hex4("003e") == Some('>');
    DecodeUnicode("003e", '>', rest);
  }

  lemma DecodeAmpersand(rest: string)
    ensures DecodeBody(EncodeChar('&') + rest) == Prepend('&', DecodeBody(rest))
  {
    assert EncodeChar('&') == "\\u" + "0026";
    assert Hex4("0026") == Some('&');
    DecodeUnicode("0026", '&', rest);
  }

  lemma DecodeLineSeparator(rest: string)
    ensures DecodeBody(EncodeChar('\U{2028}') + rest) == Prepend('\U{2028}', DecodeBody(rest))
  {
    assert EncodeChar('\U{2028}') == "\\u" + "2028";
    assert Hex4("2028") == Some('\U{2028}');
    DecodeUnicode("2028", '\U{2028}', rest);
  }

  lemma DecodeParagraphSeparator(rest: string)
    ensures DecodeBody(EncodeChar('\U{2029}') + rest) == Prepend('\U{2029}', DecodeBody(rest))
  {
    assert EncodeChar('\U{2029}') == "\\u" + "2029";
    assert Hex4("2029") == Some('\U{2029}');
    DecodeUnicode("2029", '\U{2029}', rest);
  }

  /** The `\a`, `\v` and `\x` escapes of %q stop a JSON reader. */
  lemma DecodeRejected(c: char, rest: string)
    requires !JsonQuotable(c)
    ensures DecodeBody(EncodeChar(c) + rest) == None
  {
    var q := QuoteChar(c);
    ControlEscapeSafe(c);
    HtmlEscapeKeepsSafe(q);
    var t := q + rest;
    assert t[0] == '\\' && t[1] == q[1];
  }

  lemma ControlEscapeSafe(c: char)
    requires !JsonQuotable(c)
    ensures |QuoteChar(c)| >= 2 && QuoteChar(c)[0] == '\\'
    ensures QuoteChar(c)[1] == 'a' || QuoteChar(c)[1] == 'v' || QuoteChar(c)[1] == 'x'
    ensures HtmlSafe(QuoteChar(c))
  {
    SafeByChars(QuoteChar(c));
  }

  lemma {:induction false} DecodeEncodedBody(s: string)
    ensures DecodeBody(HtmlEscape(QuoteBody(s))) == JsonReadback(s)
  {
    EncodeBody(s);
    if s != [] {
      var rest := HtmlEscape(QuoteBody(s[1..]));
      if JsonQuotable(s[0]) {
        DecodeToken(s[0], rest);
        DecodeEncodedBody(s[1..]);
        QuotableTail(s);
        assert [s[0]] + s[1..] == s;
      } else {
        DecodeRejected(s[0], rest);
      }
    }
  }

  lemma QuotableTail(s: string)
    requires s != [] && JsonQuotable(s[0])
    ensures JsonQuotableText(s) <==> JsonQuotableText(s[1..])
  {
    if JsonQuotableText(s[1..]) {
      forall i | 0 < i < |s| ensures JsonQuotable(s[i]) {
        assert s[i] == s[1..][i - 1];
      }
    }
  }

  /**
   A JSON reader recovers exactly the original text from JsonString when every
   character is one whose %q escape JSON shares; when some character is
   written as a `\a`, `\v` or `\x` escape, the quoted text is not a JSON string
   at all.
   */
  lemma JsonStringRoundTrip(s: string)
    ensures DecodeString(JsonString(s)) == JsonReadback(s)
    ensures JsonQuotableText(s) ==> DecodeString(JsonString(s)) == Some(s)
  {
    HtmlEscapeAppend("\"" + QuoteBody(s), "\"");
    HtmlEscapeAppend("\"", QuoteBody(s));
    var body := HtmlEscape(QuoteBody(s));
    assert JsonString(s) == "\"" + body + "\"";
    assert JsonString(s)[1..|JsonString(s)| - 1] == body;
    DecodeEncodedBody(s);
  }

  // ---------------------------------------------------------------------
  // The string writer of encoding/json (json.Marshal, HTML escaping on)
  // ---------------------------------------------------------------------

  /**
   What json.Marshal writes for one character of a string: a backslash
   before a quote or backslash; the short escapes for backspace, form feed,
   newline, carriage return and tab; `\u00` and two lower-case hex digits for
   the other control characters; the `\u` escapes of json.HTMLEscape for `<`,
   `>`, `&`, U+2028 and U+2029; and any other character, DEL included, as it is.
   */
  function MarshalChar(c: char): string {
    if c == '"' then "\\\""
    else if c == '\\' then "\\\\"
    else if c == '\U{0008}' then "\\b"
    else if c == '\U{000C}' then "\\f"
    else if c == '\n' then "\\n"
    else if c == '\r' then "\\r"
    else if c == '\t' then "\\t"
    else if c < ' ' then "\\u00" + [LowerHex(c as nat / 16), LowerHex(c as nat % 16)]
    else HtmlEscapeChar(c)
  }

  function MarshalBody(s: string): string {
    if s == [] then [] else MarshalChar(s[0]) + MarshalBody(s[1..])
  }

  /** json.Marshal of a string. */
  function MarshalString(s: string): string {
    "\"" + MarshalBody(s) + "\""
  }

  /**
   On every character whose %q escape JSON shares, json.Marshal writes what
   %q followed by json.HTMLEscape writes.
   */
  lemma MarshalAgrees(c: char)
    requires JsonQuotable(c)
    ensures MarshalChar(c) == EncodeChar(c)
  {
    if c == '"' || c == '\\' || c == '\U{0008}' || c == '\U{000C}' || c == '\n' || c == '\r' || c == '\t' {
      HtmlEscapeKeepsSafe(QuoteChar(c));
    } else {
      assert QuoteChar(c) == [c];
      assert HtmlEscape([c]) == HtmlEscapeChar(c) + HtmlEscape([]);
    }
  }

  lemma LowerHexDigit(n: nat)
    requires n < 16
    ensures HexDigit(LowerHex(n)) == Some(n)
  {
  }

  /** The `\u00` escape of a control character decodes back to it. */
  lemma DecodeControl(c: char, rest: string)
    requires c < ' '
    ensures DecodeBody("\\u" + "00" + [LowerHex(c as nat / 16), LowerHex(c as nat % 16)] + rest)
         == Prepend(c, DecodeBody(rest))
  {
    var hex := "00" + [LowerHex(c as nat / 16), LowerHex(c as nat % 16)];
    LowerHexDigit(c as nat / 16);
    LowerHexDigit(c as nat % 16);
    assert hex[2] == LowerHex(c as nat / 16) && hex[3] == LowerHex(c as nat % 16);
    assert Hex4(hex) == Some(c);
    DecodeUnicode(hex, c, rest);
    assert "\\u" + "00" + [LowerHex(c as nat / 16), LowerHex(c as nat % 16)] + rest == "\\u" + hex + rest;
  }

  lemma MarshalToken(c: char, rest: string)
    ensures DecodeBody(MarshalChar(c) + rest) == Prepend(c, DecodeBody(rest))
  {
    if JsonQuotable(c) {
      MarshalAgrees(c);
      DecodeToken(c, rest);
    } else if c < ' ' {
      assert MarshalChar(c) == "\\u" + "00" + [LowerHex(c as nat / 16), LowerHex(c as nat % 16)];
      DecodeControl(c, rest);
    } else {
      assert MarshalChar(c) == [c];
      DecodePlain(c, rest);
    }
  }

  lemma {:induction false} MarshalBodyDecodes(s: string)
    ensures DecodeBody(MarshalBody(s)) == Some(s)
  {
    if s != [] {
      MarshalToken(s[0], MarshalBody(s[1..]));
      MarshalBodyDecodes(s[1..]);
      assert [s[0]] + s[1..] == s;
    }
  }

  /** A JSON reader recovers every string exactly from what json.Marshal writes. */
  lemma MarshalStringRoundTrip(s: string)
    ensures DecodeString(MarshalString(s)) == Some(s)
  {
    var t := MarshalString(s);
    assert t[1..|t| - 1] == MarshalBody(s);
    MarshalBodyDecodes(s);
  }

  /**
   For text without the control characters %q escapes in its own way,
   json.Marshal and the `%q`-then-HTMLEscape rendering write the same JSON.
   */
  lemma {:induction false} MarshalAgreesText(s: string)
    requires JsonQuotableText(s)
    ensures MarshalBody(s) == HtmlEscape(QuoteBody(s))
  {
    EncodeBody(s);
    if s != [] {
      MarshalAgrees(s[0]);
      QuotableTail(s);
      MarshalAgreesText(s[1..]);
    }
  }

  lemma MarshalCharSafe(c: char)
    ensures HtmlSafe(MarshalChar(c))
  {
    if JsonQuotable(c) {
      MarshalAgrees(c);
      HtmlEscapeIsSafe(QuoteChar(c));
    } else if c < ' ' {
      SafeByChars(MarshalChar(c));
    } else {
      assert MarshalChar(c) == [c];
    }
  }

  lemma {:induction false} MarshalBodySafe(s: string)
    ensures HtmlSafe(MarshalBody(s))
  {
    if s != [] {
      MarshalCharSafe(s[0]);
      MarshalBodySafe(s[1..]);
      HtmlSafeAppend(MarshalChar(s[0]), MarshalBody(s[1..]));
    }
  }

  /** json.Marshal escapes everything json.HTMLEscape would rewrite. */
  lemma MarshalStringSafe(s: string)
    ensures HtmlSafe(MarshalString(s))
  {
    MarshalBodySafe(s);
    HtmlSafeAppend("\"", MarshalBody(s));
    HtmlSafeAppend("\"" + MarshalBody(s), "\"");
  }

  // ---------------------------------------------------------------------
  // strings.Join
  // ---------------------------------------------------------------------

  /** `strings.Join(parts, sep)`: the parts in order, `sep` between neighbours. */
  function Join(parts: seq<string>, sep: string): string {
    if |parts| == 0 then ""
    else if |parts| == 1 then parts[0]
    else Join(parts[..|parts| - 1], sep) + sep + parts[|parts| - 1]
  }

  /** Joining a part in front of others puts one separator after it. */
  lemma {:induction false} JoinPrepend(first: string, rest: seq<string>, sep: string)
    requires |rest| > 0
    ensures Join([first] + rest, sep) == first + sep + Join(rest, sep)
    decreases |rest|
  {
    var all := [first] + rest;
    if |rest| > 1 {
      assert all[..|all| - 1] == [first] + rest[..|rest| - 1];
      JoinPrepend(first, rest[..|rest| - 1], sep);
    } else {
      assert all == [first, rest[0]];
    }
  }

  /** Joining safe parts with a safe separator gives safe text. */
  lemma {:induction false} JoinSafe(parts: seq<string>, sep: string)
    requires HtmlSafe(sep)
    requires forall i | 0 <= i < |parts| :: HtmlSafe(parts[i])
    ensures HtmlSafe(Join(parts, sep))
    decreases |parts|
  {
    if |parts| > 1 {
      JoinSafe(parts[..|parts| - 1], sep);
      HtmlSafeAppend(Join(parts[..|parts| - 1], sep), sep);
      HtmlSafeAppend(Join(parts[..|parts| - 1], sep) + sep, parts[|parts| - 1]);
    }
  }

  /** `strings.Split(s, string(sep))`: the pieces between occurrences of `sep`. */
  function Split(s: string, sep: char): (r: seq<string>)
    ensures |r| > 0
  {
    if s == [] then [""]
    else
      var init := Split(s[..|s| - 1], sep);
      if s[|s| - 1] == sep then init + [""]
      else init[..|init| - 1] + [init[|init| - 1] + [s[|s| - 1]]]
  }

  /** Text without the separator extends the last piece. */
  lemma {:induction false} SplitPlain(a: string, x: string, sep: char, init: seq<string>, last: string)
    requires sep !in x && Split(a, sep) == init + [last]
    ensures Split(a + x, sep) == init + [last + x]
    decreases |x|
  {
    if x == [] {
      assert a + x == a;
      assert last + x == last;
    } else {
      var x', c := x[..|x| - 1], x[|x| - 1];
      assert c in x;
      SplitPlain(a, x', sep, init, last);
      SplitAppendChar(a + x', c, sep, init, last + x');
      assert x == x' + [c];
      AppendAssoc(a, x', [c]);
      AppendAssoc(last, x', [c]);
    }
  }

  lemma AppendAssoc(a: string, b: string, c: string)
    ensures a + (b + c) == (a + b) + c
  {
  }

  /** A character other than the separator extends the last piece. */
  lemma SplitAppendChar(s: string, c: char, sep: char, init: seq<string>, last: string)
    requires c != sep && Split(s, sep) == init + [last]
    ensures Split(s + [c], sep) == init + [last + [c]]
  {
    assert (s + [c])[..|s|] == s;
    var p := init + [last];
    assert p[..|p| - 1] == init;
  }

  lemma SplitSep(a: string, sep: char)
    ensures Split(a + [sep], sep) == Split(a, sep) + [""]
  {
    assert (a + [sep])[..|a|] == a;
  }

  /**
   Splitting a joined list at the separator gives the list back, provided no
   part contains the separator.
   */
  lemma {:induction false} SplitJoin(parts: seq<string>, sep: char)
    requires |parts| > 0
    requires forall i | 0 <= i < |parts| :: sep !in parts[i]
    ensures Split(Join(parts, [sep]), sep) == parts
    decreases |parts|
  {
    var last := parts[|parts| - 1];
    assert sep !in last;
    if |parts| == 1 {
      SplitJoinOne(last, sep);
      assert parts == [last];
    } else {
      var init := parts[..|parts| - 1];
      SplitJoin(init, sep);
      SplitJoinStep(init, last, sep);
      assert parts == init + [last];
    }
  }

  /** A single part without the separator splits into itself. */
  lemma SplitJoinOne(last: string, sep: char)
    requires sep !in last
    ensures Split(Join([last], [sep]), sep) == [last]
  {
    SplitPlain([], last, sep, [], "");
    assert [] + last == last;
  }

  /** One more part after a separator becomes one more piece. */
  lemma SplitJoinStep(init: seq<string>, last: string, sep: char)
    requires |init| > 0 && sep !in last
    requires Split(Join(init, [sep]), sep) == init
    ensures Split(Join(init + [last], [sep]), sep) == init + [last]
  {
    var j := Join(init, [sep]);
    SplitSep(j, sep);
    SplitPlain(j + [sep], last, sep, init, "");
    assert "" + last == last;
    assert (init + [last])[..|init|] == init;
    assert Join(init + [last], [sep]) == j + [sep] + last;
  }

  // ---------------------------------------------------------------------
  // The order encoding/json writes map keys in
  // ---------------------------------------------------------------------

  /** Lexicographic order on strings (byte order of UTF-8 is code-point order). */
  predicate Below(a: string, b: string) {
    a == [] || (b != [] && (a[0] < b[0] || (a[0] == b[0] && Below(a[1..], b[1..]))))
  }

  lemma {:induction false} BelowReflexive(a: string)
    ensures Below(a, a)
  {
    if a != [] {
      BelowReflexive(a[1..]);
    }
  }

  lemma {:induction false} BelowTotal(a: string, b: string)
    ensures Below(a, b) || Below(b, a)
  {
    if a != [] && b != [] && a[0] == b[0] {
      BelowTotal(a[1..], b[1..]);
    }
  }

  lemma {:induction false} BelowAntisymmetric(a: string, b: string)
    requires Below(a, b) && Below(b, a)
    ensures a == b
  {
    if a != [] && b != [] {
      BelowAntisymmetric(a[1..], b[1..]);
      assert a == [a[0]] + a[1..];
      assert b == [b[0]] + b[1..];
    }
  }

  lemma {:induction false} BelowTransitive(a: string, b: string, c: string)
    requires Below(a, b) && Below(b, c)
    ensures Below(a, c)
  {
    if a != [] && b != [] && c != [] && a[0] == b[0] && b[0] == c[0] {
      BelowTransitive(a[1..], b[1..], c[1..]);
    }
  }

  predicate IsMinimum(k: string, keys: set<string>) {
    k in keys && forall j | j in keys :: Below(k, j)
  }

  lemma MinimumIsUnique(keys: set<string>)
    ensures forall a, b | IsMinimum(a, keys) && IsMinimum(b, keys) :: a == b
  {
    forall a, b | IsMinimum(a, keys) && IsMinimum(b, keys) ensures a == b {
      BelowAntisymmetric(a, b);
    }
  }

  lemma {:induction false} MinimumExists(keys: set<string>)
    requires keys != {}
    ensures exists k :: IsMinimum(k, keys)
    decreases |keys|
  {
    var x :| x in keys;
    if keys != {x} {
      var rest := keys - {x};
      MinimumExists(rest);
      var m :| IsMinimum(m, rest);
      BelowTotal(m, x);
      if Below(m, x) {
        assert IsMinimum(m, keys);
      } else {
        forall j | j in keys ensures Below(x, j) {
          if j == x {
            BelowReflexive(x);
          } else {
            BelowTransitive(x, m, j);
          }
        }
        assert IsMinimum(x, keys);
      }
    } else {
      BelowReflexive(x);
      assert IsMinimum(x, keys);
    }
  }

  /** Strictly increasing in the order above. */
  predicate StrictlySorted(s: seq<string>) {
    forall i, j | 0 <= i < j < |s| :: Below(s[i], s[j]) && s[i] != s[j]
  }

  /** The keys of a map in the order encoding/json writes them. */
  function SortedKeys(keys: set<string>): (r: seq<string>)
    ensures |r| == |keys|
    ensures forall k :: k in r <==> k in keys
    ensures StrictlySorted(r)
    decreases |keys|
  {
    if keys == {} then []
    else
      MinimumExists(keys);
      MinimumIsUnique(keys);
      var k :| IsMinimum(k, keys);
      var rest := SortedKeys(keys - {k});
      PrependMinimum(k, keys, rest);
      [k] + rest
  }

  /** The least key in front of the others, sorted, keeps the order strict. */
  lemma PrependMinimum(k: string, keys: set<string>, rest: seq<string>)
    requires IsMinimum(k, keys) && StrictlySorted(rest)
    requires forall x :: x in rest <==> x in keys - {k}
    ensures StrictlySorted([k] + rest)
  {
    var s := [k] + rest;
    forall i, j | 0 <= i < j < |s| ensures Below(s[i], s[j]) && s[i] != s[j] {
      assert s[j] == rest[j - 1];
      assert rest[j - 1] in rest;
      if i > 0 {
        assert s[i] == rest[i - 1];
      }
    }
  }
}
