/**
 * JSON text for a list of optional strings.
 *
 * The encoder writes what Python's `json.dumps` writes for such a list with its
 * default options: `ensure_ascii` on, items separated by ", ", `None` as `null`,
 * and every character outside printable ASCII escaped (`\uXXXX` with lower-case
 * hex digits, a surrogate pair above U+FFFF). The decoder reads the array
 * grammar of RFC 8259 (section 5, arrays; section 7, strings; section 2,
 * insignificant whitespace) and is the partner the round trip is proved against.
 */
module JsonText {
  import opened Wrappers

  /** One array element: a string, or `null` for Python's `None`. */
  type Item = Option<string>

  /** Every character is printable ASCII (U+0020 to U+007E). */
  predicate PrintableAscii(s: string) {
    forall i :: 0 <= i < |s| ==> 0x20 <= s[i] as int <= 0x7E
  }

  // ------------------------------------------------------------------
  // Encoding
  // ------------------------------------------------------------------

  /** The lower-case hexadecimal digit of `d`, as Python's "{:04x}" writes it. */
  function HexDigit(d: nat): char
    requires d < 16
  {
    if d < 10 then ('0' as int + d) as char else ('a' as int + d - 10) as char
  }

  /** `n` as exactly four lower-case hexadecimal digits. */
  function Hex4(n: nat): (h: string)
    requires n < 0x10000
    ensures |h| == 4
  {
    [HexDigit(n / 0x1000), HexDigit(n / 0x100 % 0x10), HexDigit(n / 0x10 % 0x10), HexDigit(n % 0x10)]
  }

  /** The escape `\uXXXX` of one UTF-16 code unit. */
  function UnitEscape(u: nat): string
    requires u < 0x10000
  {
    "\\u" + Hex4(u)
  }

  /**
   * The text that stands for one character inside a JSON string. The two-letter
   * escapes come first, printable ASCII stays as it is, and everything else is
   * written as code units. Above U+FFFF the pair is (0xD800 | (m >> 10),
   * 0xDC00 | (m & 0x3FF)) for m = n - 0x10000, written here with `/` and `%`.
   */
  function EscapeChar(c: char): string
  {
    var n := c as int;
    if c == '"' then "\\\""
    else if c == '\\' then "\\\\"
    else if n == 0x08 then "\\b"
    else if n == 0x0C then "\\f"
    else if c == '\n' then "\\n"
    else if c == '\r' then "\\r"
    else if c == '\t' then "\\t"
    else if 0x20 <= n <= 0x7E then [c]
    else if n < 0x10000 then UnitEscape(n)
    else
      var m := n - 0x10000;
      UnitEscape(0xD800 + m / 0x400) + UnitEscape(0xDC00 + m % 0x400)
  }

  /** The escaped characters of `s`, without the enclosing quotes. */
  function EncodeChars(s: string): string
  {
    if s == [] then [] else EscapeChar(s[0]) + EncodeChars(s[1..])
  }

  function EncodeString(s: string): string
  {
    "\"" + EncodeChars(s) + "\""
  }

  function EncodeItem(x: Item): string
  {
    match x
    case None => "null"
    case Some(s) => EncodeString(s)
  }

  /** The items after the first, each preceded by the separator ", ". */
  function EncodeRest(ys: seq<Item>): string
  {
    if ys == [] then [] else ", " + EncodeItem(ys[0]) + EncodeRest(ys[1..])
  }

  /** `json.dumps(xs)`: "[]" for the empty list, otherwise "[" items "]". */
  function EncodeList(xs: seq<Item>): string
  {
    if xs == [] then "[]" else "[" + EncodeItem(xs[0]) + EncodeRest(xs[1..]) + "]"
  }

  // ------------------------------------------------------------------
  // Decoding (RFC 8259)
  // ------------------------------------------------------------------

  /** Insignificant whitespace: space, horizontal tab, line feed, carriage return. */
  predicate IsWs(c: char) {
    c == ' ' || c == '\t' || c == '\n' || c == '\r'
  }

  /** `s` without its leading whitespace. */
  function SkipWs(s: string): (r: string)
    ensures |r| <= |s|
    ensures r != [] ==> !IsWs(r[0])
  {
    if s != [] && IsWs(s[0]) then SkipWs(s[1..]) else s
  }

  /** The value of a hexadecimal digit, in either case. */
  function HexValue(c: char): (r: Option<nat>)
    ensures r.Some? ==> r.value < 16
  {
    if '0' <= c <= '9' then Some(c as int - '0' as int)
    else if 'a' <= c <= 'f' then Some(c as int - 'a' as int + 10)
    else if 'A' <= c <= 'F' then Some(c as int - 'A' as int + 10)
    else None
  }

  /** The code unit written by four hexadecimal digits. */
  function ParseHex4(h: string): (r: Option<nat>)
    requires |h| == 4
    ensures r.Some? ==> r.value < 0x10000
  {
    match (HexValue(h[0]), HexValue(h[1]), HexValue(h[2]), HexValue(h[3]))
    case (Some(a), Some(b), Some(c), Some(d)) => Some(((a * 16 + b) * 16 + c) * 16 + d)
    case _ => None
  }

  /**
   * The character written by the code units after `\u`, and the rest. A high
   * surrogate must be followed by `\u` and a low surrogate; a lone surrogate
   * is not a character and is refused.
   */
  function ParseUnicode(s: string): (r: Option<(char, string)>)
    ensures r.Some? ==> |r.value.1| < |s|
  {
    if |s| < 4 then None
    else match ParseHex4(s[..4])
      case None => None
      case Some(u) =>
        if 0xD800 <= u < 0xDC00 then
          if |s| < 10 || s[4] != '\\' || s[5] != 'u' then None
          else match ParseHex4(s[6..10])
            case None => None
            case Some(l) =>
              if 0xDC00 <= l < 0xE000 then
                Some(((0x10000 + (u - 0xD800) * 0x400 + (l - 0xDC00)) as char, s[10..]))
              else None
        else if 0xDC00 <= u < 0xE000 then None
        else Some((u as char, s[4..]))
  }

  /** The character written by the escape after a backslash, and the rest. */
  function ParseEscape(s: string): (r: Option<(char, string)>)
    ensures r.Some? ==> |r.value.1| < |s|
  {
    if s == [] then None
    else if s[0] == '"' then Some(('"', s[1..]))
    else if s[0] == '\\' then Some(('\\', s[1..]))
    else if s[0] == '/' then Some(('/', s[1..]))
    else if s[0] == 'b' then Some((0x08 as char, s[1..]))
    else if s[0] == 'f' then Some((0x0C as char, s[1..]))
    else if s[0] == 'n' then Some(('\n', s[1..]))
    else if s[0] == 'r' then Some(('\r', s[1..]))
    else if s[0] == 't' then Some(('\t', s[1..]))
    else if s[0] == 'u' then ParseUnicode(s[1..])
    else None
  }

  /** One character of a string body (not the closing quote), and the rest. */
  function ParseChar(s: string): (r: Option<(char, string)>)
    requires s != [] && s[0] != '"'
    ensures r.Some? ==> |r.value.1| < |s|
  {
    if s[0] == '\\' then ParseEscape(s[1..])
    else if (s[0] as int) < 0x20 then None
    else Some((s[0], s[1..]))
  }

  /** The characters of a string body up to and including its closing quote. */
  function ParseChars(s: string): (r: Option<(string, string)>)
    ensures r.Some? ==> |r.value.1| < |s|
    decreases |s|
  {
    if s == [] then None
    else if s[0] == '"' then Some(([], s[1..]))
    else match ParseChar(s)
      case None => None
      case Some((c, rest)) =>
        match ParseChars(rest)
        case None => None
        case Some((cs, rest')) => Some(([c] + cs, rest'))
  }

  /** One array element, `null` or a string, and the rest. */
  function ParseItem(s: string): (r: Option<(Item, string)>)
    ensures r.Some? ==> |r.value.1| < |s|
  {
    if |s| >= 4 && s[..4] == "null" then Some((None, s[4..]))
    else if s != [] && s[0] == '"' then
      match ParseChars(s[1..])
      case None => None
      case Some((cs, rest)) => Some((Some(cs), rest))
    else None
  }

  /** The elements of a non-empty array up to and including its closing bracket. */
  function ParseElements(s: string): (r: Option<(seq<Item>, string)>)
    ensures r.Some? ==> |r.value.1| < |s|
    decreases |s|
  {
    match ParseItem(s)
    case None => None
    case Some((x, rest)) =>
      var t := SkipWs(rest);
      if t == [] then None
      else if t[0] == ']' then Some(([x], t[1..]))
      else if t[0] == ',' then
        match ParseElements(SkipWs(t[1..]))
        case None => None
        case Some((xs, rest')) => Some(([x] + xs, rest'))
      else None
  }

  /** A whole JSON text that is an array of strings and nulls. */
  function Decode(text: string): Option<seq<Item>>
  {
    var s := SkipWs(text);
    if s == [] || s[0] != '[' then None
    else
      var t := SkipWs(s[1..]);
      if t != [] && t[0] == ']' then
        if SkipWs(t[1..]) == [] then Some([]) else None
      else match ParseElements(t)
        case None => None
        case Some((xs, rest)) => if SkipWs(rest) == [] then Some(xs) else None
  }

  // ------------------------------------------------------------------
  // Round trip
  // ------------------------------------------------------------------

  lemma HexDigitRoundTrip(d: nat)
    requires d < 16
    ensures HexValue(HexDigit(d)) == Some(d)
  {
  }

  lemma {:induction false} Hex4RoundTrip(n: nat)
    requires n < 0x10000
    ensures ParseHex4(Hex4(n)) == Some(n)
  {
    var h := Hex4(n);
    HexDigitRoundTrip(n / 0x1000);
    HexDigitRoundTrip(n / 0x100 % 0x10);
    HexDigitRoundTrip(n / 0x10 % 0x10);
    HexDigitRoundTrip(n % 0x10);
    assert n / 0x100 == n / 0x1000 * 16 + n / 0x100 % 0x10;
    assert n / 0x10 == n / 0x100 * 16 + n / 0x10 % 0x10;
    assert n == n / 0x10 * 16 + n % 0x10;
  }

  /** The code units after `\u` of a character below U+10000 are read back. */
  lemma {:induction false} ParseUnicodeUnit(u: nat, rest: string)
    requires u < 0xD800 || 0xE000 <= u < 0x10000
    ensures ParseUnicode(Hex4(u) + rest) == Some((u as char, rest))
  {
    var s := Hex4(u) + rest;
    assert s[..4] == Hex4(u) && s[4..] == rest;
    Hex4RoundTrip(u);
  }

  /** The surrogate pair of a character above U+FFFF, and how it combines back. */
  lemma SurrogatePair(n: int)
    requires 0x10000 <= n < 0x110000
    ensures var m := n - 0x10000;
      var hi, lo := 0xD800 + m / 0x400, 0xDC00 + m % 0x400;
      && 0xD800 <= hi < 0xDC00 && 0xDC00 <= lo < 0xE000
      && 0x10000 + (hi - 0xD800) * 0x400 + (lo - 0xDC00) == n
  {
  }

  /** Text holding a high and a low surrogate escape decodes to their character. */
  lemma {:induction false} ParseUnicodeSurrogates(h1: string, lo: nat, rest: string, hi: nat, n: int)
    requires 0xD800 <= hi < 0xDC00 && 0xDC00 <= lo < 0xE000
    requires |h1| == 4 && ParseHex4(h1) == Some(hi)
    requires n == 0x10000 + (hi - 0xD800) * 0x400 + (lo - 0xDC00)
    ensures ParseUnicode(h1 + UnitEscape(lo) + rest) == Some((n as char, rest))
  {
    var s := h1 + UnitEscape(lo) + rest;
    Hex4RoundTrip(lo);
    assert s[..4] == h1;
    assert s[4] == '\\' && s[5] == 'u';
    assert s[6..10] == Hex4(lo);
    assert s[10..] == rest;
  }

  /** The surrogate pair after `\u` of a character above U+FFFF is read back. */
  lemma {:induction false} ParseUnicodePair(n: int, rest: string)
    requires 0x10000 <= n < 0x110000
    ensures var m := n - 0x10000;
      ParseUnicode(Hex4(0xD800 + m / 0x400) + UnitEscape(0xDC00 + m % 0x400) + rest) == Some((n as char, rest))
  {
    var m := n - 0x10000;
    SurrogatePair(n);
    Hex4RoundTrip(0xD800 + m / 0x400);
    ParseUnicodeSurrogates(Hex4(0xD800 + m / 0x400), 0xDC00 + m % 0x400, rest, 0xD800 + m / 0x400, n);
  }

  /** An escape starting with a backslash is read by `ParseEscape` after it. */
  lemma BackslashEscape(e: string, rest: string, c: char)
    requires |e| >= 2 && e[0] == '\\' && ParseEscape(e[1..] + rest) == Some((c, rest))
    ensures ParseChar(e + rest) == Some((c, rest))
  {
    assert (e + rest)[1..] == e[1..] + rest;
  }

  /** The two-letter escapes of `"`, backslash, backspace, form feed, newline, return and tab. */
  lemma {:induction false} ShortEscapeRoundTrip(c: char, rest: string)
    requires c == '"' || c == '\\' || c as int == 0x08 || c as int == 0x0C || c == '\n' || c == '\r' || c == '\t'
    ensures EscapeChar(c) != [] && EscapeChar(c)[0] == '\\'
    ensures ParseChar(EscapeChar(c) + rest) == Some((c, rest))
  {
    var e := EscapeChar(c);
    assert |e| == 2 && e[0] == '\\';
    assert e[1..] + rest == [e[1]] + rest;
    BackslashEscape(e, rest, c);
  }

  /** A character below U+10000 written as one `\uXXXX` escape. */
  lemma {:induction false} UnitEscapeRoundTrip(c: char, rest: string)
    requires !(c == '"' || c == '\\' || c as int == 0x08 || c as int == 0x0C || c == '\n' || c == '\r' || c == '\t')
    requires !(0x20 <= c as int <= 0x7E) && c as int < 0x10000
    ensures EscapeChar(c) != [] && EscapeChar(c)[0] == '\\'
    ensures ParseChar(EscapeChar(c) + rest) == Some((c, rest))
  {
    var n := c as int;
    var e := EscapeChar(c);
    assert e == "\\u" + Hex4(n);
    assert e[1..] + rest == "u" + (Hex4(n) + rest);
    ParseUnicodeUnit(n, rest);
    BackslashEscape(e, rest, c);
  }

  /** A character above U+FFFF written as a surrogate pair of escapes. */
  lemma {:induction false} PairEscapeRoundTrip(c: char, rest: string)
    requires c as int >= 0x10000
    ensures EscapeChar(c) != [] && EscapeChar(c)[0] == '\\'
    ensures ParseChar(EscapeChar(c) + rest) == Some((c, rest))
  {
    var n := c as int;
    var m := n - 0x10000;
    var e := EscapeChar(c);
    assert e == "\\u" + Hex4(0xD800 + m / 0x400) + UnitEscape(0xDC00 + m % 0x400);
    assert e[1..] + rest == "u" + (Hex4(0xD800 + m / 0x400) + UnitEscape(0xDC00 + m % 0x400) + rest);
    ParseUnicodePair(n, rest);
    BackslashEscape(e, rest, c);
  }

  /** The escape of one character is read back as that character. */
  lemma {:induction false} EscapeCharRoundTrip(c: char, rest: string)
    ensures EscapeChar(c) != [] && EscapeChar(c)[0] != '"'
    ensures ParseChar(EscapeChar(c) + rest) == Some((c, rest))
  {
    var n := c as int;
    if c == '"' || c == '\\' || n == 0x08 || n == 0x0C || c == '\n' || c == '\r' || c == '\t' {
      ShortEscapeRoundTrip(c, rest);
    } else if 0x20 <= n <= 0x7E {
      assert EscapeChar(c) + rest == [c] + rest;
    } else if n < 0x10000 {
      UnitEscapeRoundTrip(c, rest);
    } else {
      PairEscapeRoundTrip(c, rest);
    }
  }

  lemma {:induction false} EncodeCharsRoundTrip(s: string, rest: string)
    ensures ParseChars(EncodeChars(s) + "\"" + rest) == Some((s, rest))
    decreases |s|
  {
    if s == [] {
      assert EncodeChars(s) + "\"" + rest == "\"" + rest;
    } else {
      var tail := EncodeChars(s[1..]) + "\"" + rest;
      assert EncodeChars(s) + "\"" + rest == EscapeChar(s[0]) + tail;
      EscapeCharRoundTrip(s[0], tail);
      EncodeCharsRoundTrip(s[1..], rest);
      assert [s[0]] + s[1..] == s;
    }
  }

  lemma {:induction false} EncodeItemRoundTrip(x: Item, rest: string)
    ensures EncodeItem(x) != [] && !IsWs(EncodeItem(x)[0])
    ensures ParseItem(EncodeItem(x) + rest) == Some((x, rest))
  {
    var s := EncodeItem(x) + rest;
    match x
    case None =>
      assert s[..4] == "null" && s[4..] == rest;
    case Some(cs) =>
      var body := EncodeChars(cs) + "\"" + rest;
      assert s == "\"" + body;
      assert s[0] == '"' && s[1..] == body;
      assert |s| >= 4 ==> s[..4][0] == '"';
      EncodeCharsRoundTrip(cs, rest);
  }

  /** The last element, then the closing bracket. */
  lemma {:induction false} ElementsLast(x: Item, rest: string)
    ensures ParseElements(EncodeItem(x) + EncodeRest([]) + "]" + rest) == Some(([x] + [], rest))
  {
    var after := "]" + rest;
    assert EncodeItem(x) + EncodeRest([]) + "]" + rest == EncodeItem(x) + after;
    assert [x] + [] == [x];
    EncodeItemRoundTrip(x, after);
    assert SkipWs(after) == after;
    assert after[1..] == rest;
  }

  /** An element, the separator ", ", then elements that parse on their own. */
  lemma {:induction false} ElementsCons(x: Item, next: string, ys: seq<Item>, rest: string)
    requires next != [] && !IsWs(next[0])
    requires ParseElements(next) == Some((ys, rest))
    ensures ParseElements(EncodeItem(x) + (", " + next)) == Some(([x] + ys, rest))
  {
    var after := ", " + next;
    EncodeItemRoundTrip(x, after);
    assert SkipWs(after) == after;
    assert after[1..] == " " + next;
    assert SkipWs(after[1..]) == SkipWs(next);
  }

  lemma EncodeRestShape(x: Item, ys: seq<Item>, rest: string)
    requires ys != []
    ensures EncodeItem(x) + EncodeRest(ys) + "]" + rest
         == EncodeItem(x) + (", " + (EncodeItem(ys[0]) + EncodeRest(ys[1..]) + "]" + rest))
  {
  }

  /** The elements written after the opening bracket are read back up to the closing one. */
  lemma {:induction false} EncodeElementsRoundTrip(x: Item, ys: seq<Item>, rest: string)
    ensures ParseElements(EncodeItem(x) + EncodeRest(ys) + "]" + rest) == Some(([x] + ys, rest))
    decreases |ys|
  {
    if ys == [] {
      ElementsLast(x, rest);
    } else {
      var tail := EncodeRest(ys[1..]) + "]" + rest;
      var next := EncodeItem(ys[0]) + EncodeRest(ys[1..]) + "]" + rest;
      EncodeItemRoundTrip(ys[0], tail);
      assert next == EncodeItem(ys[0]) + tail;
      EncodeElementsRoundTrip(ys[0], ys[1..], rest);
      assert [ys[0]] + ys[1..] == ys;
      ElementsCons(x, next, ys, rest);
      EncodeRestShape(x, ys, rest);
    }
  }

  /** An opening bracket followed by elements that parse to the end is decoded as them. */
  lemma DecodeElements(body: string, xs: seq<Item>)
    requires body != [] && !IsWs(body[0]) && body[0] != ']'
    requires ParseElements(body) == Some((xs, []))
    ensures Decode("[" + body) == Some(xs)
  {
    assert ("[" + body)[1..] == body;
  }

  lemma EncodeListShape(xs: seq<Item>)
    requires xs != [] && EncodeItem(xs[0]) != []
    ensures var body := EncodeItem(xs[0]) + EncodeRest(xs[1..]) + "]" + [];
      EncodeList(xs) == "[" + body && body[0] == EncodeItem(xs[0])[0]
  {
  }

  lemma {:induction false} NonEmptyRoundTrip(xs: seq<Item>)
    requires xs != []
    ensures Decode(EncodeList(xs)) == Some(xs)
  {
    var body := EncodeItem(xs[0]) + EncodeRest(xs[1..]) + "]" + [];
    EncodeItemRoundTrip(xs[0], []);
    EncodeListShape(xs);
    EncodeElementsRoundTrip(xs[0], xs[1..], []);
    assert [xs[0]] + xs[1..] == xs;
    DecodeElements(body, xs);
  }

  /** Decoding the text `json.dumps` writes gives back the list. */
  lemma {:induction false} RoundTrip(xs: seq<Item>)
    ensures Decode(EncodeList(xs)) == Some(xs)
  {
    if xs == [] {
      assert "[]"[1..] == "]";
      assert "]"[1..] == [];
    } else {
      NonEmptyRoundTrip(xs);
    }
  }

  /** Two different lists never encode to the same text. */
  lemma EncodeListInjective(xs: seq<Item>, ys: seq<Item>)
    requires EncodeList(xs) == EncodeList(ys)
    ensures xs == ys
  {
    RoundTrip(xs);
    RoundTrip(ys);
  }

  // ------------------------------------------------------------------
  // ASCII output
  // ------------------------------------------------------------------

  lemma PrintableAsciiConcat(a: string, b: string)
    requires PrintableAscii(a) && PrintableAscii(b)
    ensures PrintableAscii(a + b)
  {
    forall i | 0 <= i < |a + b|
      ensures 0x20 <= (a + b)[i] as int <= 0x7E
    {
      if i >= |a| {
        assert (a + b)[i] == b[i - |a|];
      }
    }
  }

  lemma {:induction false} EscapeCharAscii(c: char)
    ensures PrintableAscii(EscapeChar(c))
  {
    var n := c as int;
    if !(c == '"' || c == '\\' || n == 0x08 || n == 0x0C || c == '\n' || c == '\r' || c == '\t'
         || 0x20 <= n <= 0x7E) {
      forall u: nat | u < 0x10000 ensures PrintableAscii(UnitEscape(u)) {
        var h := Hex4(u);
        assert forall d: nat :: d < 16 ==> 0x20 <= HexDigit(d) as int <= 0x7E;
        assert UnitEscape(u) == ['\\', 'u', h[0], h[1], h[2], h[3]];
      }
    }
  }

  lemma {:induction false} EncodeCharsAscii(s: string)
    ensures PrintableAscii(EncodeChars(s))
    decreases |s|
  {
    if s != [] {
      EscapeCharAscii(s[0]);
      EncodeCharsAscii(s[1..]);
      PrintableAsciiConcat(EscapeChar(s[0]), EncodeChars(s[1..]));
    }
  }

  lemma {:induction false} EncodeItemAscii(x: Item)
    ensures PrintableAscii(EncodeItem(x))
  {
    if x.Some? {
      EncodeCharsAscii(x.value);
      PrintableAsciiConcat("\"", EncodeChars(x.value));
      PrintableAsciiConcat("\"" + EncodeChars(x.value), "\"");
    }
  }

  lemma {:induction false} EncodeRestAscii(ys: seq<Item>)
    ensures PrintableAscii(EncodeRest(ys))
    decreases |ys|
  {
    if ys != [] {
      EncodeItemAscii(ys[0]);
      EncodeRestAscii(ys[1..]);
      PrintableAsciiConcat(", ", EncodeItem(ys[0]));
      PrintableAsciiConcat(", " + EncodeItem(ys[0]), EncodeRest(ys[1..]));
    }
  }

  /** With `ensure_ascii` on, the text holds printable ASCII only. */
  lemma EncodeListAscii(xs: seq<Item>)
    ensures PrintableAscii(EncodeList(xs))
  {
    if xs != [] {
      EncodeItemAscii(xs[0]);
      EncodeRestAscii(xs[1..]);
      PrintableAsciiConcat("[", EncodeItem(xs[0]));
      PrintableAsciiConcat("[" + EncodeItem(xs[0]), EncodeRest(xs[1..]));
      PrintableAsciiConcat("[" + EncodeItem(xs[0]) + EncodeRest(xs[1..]), "]");
    }
  }
}
