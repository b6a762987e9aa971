/**
 * The JSON text the store keeps for a list of strings (the `authors` and
 * `function_calls` columns): Python's `json.dumps(xs)` with its defaults
 * (`ensure_ascii=True`, separator ", "), and a decoder for that text as
 * `json.loads` reads it. The decoder is proved to invert the encoder.
 */
module Json {
  import opened Wrappers

  // ---------------------------------------------------------------------------
  // Hexadecimal digits of \uXXXX escapes
  // ---------------------------------------------------------------------------

  /** The lower-case hex digit `json.dumps` writes for `d`. */
  function HexDigit(d: nat): (c: char)
    requires d < 16
    ensures ' ' <= c <= '~'
  {
    if d < 10 then ('0' as int + d) as char else ('a' as int + d - 10) as char
  }

  /** The value of a hex digit in either case, as `json.loads` reads it. */
  function HexValue(c: char): Option<nat> {
    if '0' <= c <= '9' then Some(c as int - '0' as int)
    else if 'a' <= c <= 'f' then Some(c as int - 'a' as int + 10)
    else if 'A' <= c <= 'F' then Some(c as int - 'A' as int + 10)
    else None
  }

  lemma HexDigitValue(d: nat)
    requires d < 16
    ensures HexValue(HexDigit(d)) == Some(d)
  {
  }

  /** Four lower-case hex digits, as the format `{:04x}` writes `v`. */
  function Hex4(v: nat): (r: string)
    requires v < 0x10000
    ensures |r| == 4 && forall i :: 0 <= i < 4 ==> ' ' <= r[i] <= '~'
  {
    var r1 := v % 0x1000;
    var r2 := r1 % 0x100;
    [HexDigit(v / 0x1000), HexDigit(r1 / 0x100), HexDigit(r2 / 0x10), HexDigit(r2 % 0x10)]
  }

  /** The value of the four hex digits at the start of `t`. */
  function ParseHex4(t: string): Option<nat> {
    if |t| < 4 then None
    else
      match (HexValue(t[0]), HexValue(t[1]), HexValue(t[2]), HexValue(t[3]))
      case (Some(a), Some(b), Some(c), Some(d)) => Some(a * 0x1000 + b * 0x100 + c * 0x10 + d)
      case _ => None
  }

  lemma ParseHex4Of(v: nat, rest: string)
    requires v < 0x10000
    ensures ParseHex4(Hex4(v) + rest) == Some(v)
  {
    var t := Hex4(v) + rest;
    var r1 := v % 0x1000;
    var r2 := r1 % 0x100;
    var a, b, c, d := v / 0x1000, r1 / 0x100, r2 / 0x10, r2 % 0x10;
    HexDigitValue(a);
    HexDigitValue(b);
    HexDigitValue(c);
    HexDigitValue(d);
    assert t[0] == HexDigit(a) && t[1] == HexDigit(b) && t[2] == HexDigit(c) && t[3] == HexDigit(d);
    assert v == a * 0x1000 + r1 && r1 == b * 0x100 + r2 && r2 == c * 0x10 + d;
  }

  // ---------------------------------------------------------------------------
  // Encoder
  // ---------------------------------------------------------------------------

  /**
   * What `json.dumps` writes for one character of a string: a short escape for
   * quote, backslash and five control characters, the character itself when it
   * is printable ASCII, `\uXXXX` for any other code point below 0x10000 and a
   * surrogate pair of `\uXXXX` escapes above it.
   */
  function EscapeChar(c: char): (r: string)
    ensures r != [] && r[0] != '"'
    ensures forall i :: 0 <= i < |r| ==> ' ' <= r[i] <= '~'
  {
    if c == '"' then "\\\""
    else if c == '\\' then "\\\\"
    else if c == '\n' then "\\n"
    else if c == '\r' then "\\r"
    else if c == '\t' then "\\t"
    else if c == '\U{8}' then "\\b"
    else if c == '\U{c}' then "\\f"
    else if ' ' <= c <= '~' then [c]
    else if c as int < 0x10000 then "\\u" + Hex4(c as int)
    else "\\u" + Hex4(HighSurrogate(c)) + "\\u" + Hex4(LowSurrogate(c))
  }

  /** The UTF-16 surrogate pair of a code point above 0xFFFF. */
  function HighSurrogate(c: char): (hi: nat)
    requires c as int >= 0x10000
    ensures 0xD800 <= hi < 0xDC00
  {
    0xD800 + (c as int - 0x10000) / 0x400
  }

  function LowSurrogate(c: char): (lo: nat)
    requires c as int >= 0x10000
    ensures 0xDC00 <= lo < 0xE000
  {
    0xDC00 + (c as int - 0x10000) % 0x400
  }

  function EscapeAll(s: string): (r: string)
    ensures forall i :: 0 <= i < |r| ==> ' ' <= r[i] <= '~'
  {
    if s == [] then [] else EscapeChar(s[0]) + EscapeAll(s[1..])
  }

  /** `json.dumps(s)` for a string. */
  function EncodeString(s: string): string {
    "\"" + EscapeAll(s) + "\""
  }

  function EncodeItems(xs: seq<string>): string {
    if xs == [] then []
    else if |xs| == 1 then EncodeString(xs[0])
    else EncodeString(xs[0]) + ", " + EncodeItems(xs[1..])
  }

  /** `json.dumps(xs)` for a list of strings. */
  function EncodeStringList(xs: seq<string>): string {
    "[" + EncodeItems(xs) + "]"
  }

  // ---------------------------------------------------------------------------
  // Decoder
  // ---------------------------------------------------------------------------

  /** JSON whitespace between tokens. */
  predicate IsJsonSpace(c: char) {
    c == ' ' || c == '\t' || c == '\n' || c == '\r'
  }

  function SkipSpace(t: string): (r: string)
    ensures |r| <= |t|
    ensures r == [] || !IsJsonSpace(r[0])
  {
    if t != [] && IsJsonSpace(t[0]) then SkipSpace(t[1..]) else t
  }

  /** After `\u`: one code point, combining a surrogate pair; the text after it. */
  function DecodeU(t: string): (r: Option<(char, string)>)
    ensures r.Some? ==> |r.value.1| < |t|
  {
    match ParseHex4(t)
    case None => None
    case Some(v) =>
      if 0xD800 <= v < 0xDC00 then
        if |t| >= 6 && t[4] == '\\' && t[5] == 'u' then
          match ParseHex4(t[6..])
          case Some(w) =>
            if 0xDC00 <= w < 0xE000 then Some(((0x10000 + (v - 0xD800) * 0x400 + (w - 0xDC00)) as char, t[10..]))
            else None
          case None => None
        else None
      else if 0xDC00 <= v < 0xE000 then None
      else Some((v as char, t[4..]))
  }

  /** One character of a string body (not its closing quote), and the text after it. */
  function DecodeUnit(t: string): (r: Option<(char, string)>)
    ensures r.Some? ==> |r.value.1| < |t|
  {
    if t == [] || t[0] == '"' then None
    else if t[0] != '\\' then (if t[0] < ' ' then None else Some((t[0], t[1..])))
    else if |t| < 2 then None
    else if t[1] == '"' then Some(('"', t[2..]))
    else if t[1] == '\\' then Some(('\\', t[2..]))
    else if t[1] == '/' then Some(('/', t[2..]))
    else if t[1] == 'b' then Some(('\U{8}', t[2..]))
    else if t[1] == 'f' then Some(('\U{c}', t[2..]))
    else if t[1] == 'n' then Some(('\n', t[2..]))
    else if t[1] == 'r' then Some(('\r', t[2..]))
    else if t[1] == 't' then Some(('\t', t[2..]))
    else if t[1] == 'u' then
      match DecodeU(t[2..])
      case None => None
      case Some(p) => Some(p)
    else None
  }

  /** A string body up to and including its closing quote: the text and what follows the quote. */
  function DecodeBody(t: string): (r: Option<(string, string)>)
    ensures r.Some? ==> |r.value.1| < |t|
    decreases |t|
  {
    if t == [] then None
    else if t[0] == '"' then Some(([], t[1..]))
    else
      match DecodeUnit(t)
      case None => None
      case Some((c, rest)) =>
        match DecodeBody(rest)
        case None => None
        case Some((s, after)) => Some(([c] + s, after))
  }

  /** The items of a list from the opening quote of an item on: each item, then ',' or the closing ']'. */
  function DecodeItems(t: string): Option<seq<string>>
    decreases |t|
  {
    if t == [] || t[0] != '"' then None
    else
      match DecodeBody(t[1..])
      case None => None
      case Some((s, rest)) =>
        var u := SkipSpace(rest);
        if u == [] then None
        else if u[0] == ',' then
          match DecodeItems(SkipSpace(u[1..]))
          case None => None
          case Some(more) => Some([s] + more)
        else if u[0] == ']' && SkipSpace(u[1..]) == [] then Some([s])
        else None
  }

  /** `json.loads(t)` where the result is a list of strings; None for any other text. */
  function DecodeStringList(t: string): Option<seq<string>> {
    var a := SkipSpace(t);
    if a == [] || a[0] != '[' then None
    else
      var b := SkipSpace(a[1..]);
      if b != [] && b[0] == ']' then (if SkipSpace(b[1..]) == [] then Some([]) else None)
      else DecodeItems(b)
  }

  // ---------------------------------------------------------------------------
  // Round trip
  // ---------------------------------------------------------------------------

  /** The surrogate pair combines back to the code point. */
  lemma SurrogatePair(c: char)
    requires c as int >= 0x10000
    ensures 0x10000 + (HighSurrogate(c) - 0xD800) * 0x400 + (LowSurrogate(c) - 0xDC00) == c as int
  {
  }

  lemma DecodeUPair(hi: nat, lo: nat, rest: string)
    requires 0xD800 <= hi < 0xDC00 && 0xDC00 <= lo < 0xE000
    requires 0x10000 + (hi - 0xD800) * 0x400 + (lo - 0xDC00) < 0x11_0000
    ensures DecodeU(Hex4(hi) + ("\\u" + Hex4(lo) + rest))
         == Some(((0x10000 + (hi - 0xD800) * 0x400 + (lo - 0xDC00)) as char, rest))
  {
    var u := Hex4(hi) + ("\\u" + Hex4(lo) + rest);
    ParseHex4Of(hi, "\\u" + Hex4(lo) + rest);
    assert u[6..] == Hex4(lo) + rest;
    ParseHex4Of(lo, rest);
    assert u[10..] == rest;
  }

  lemma DecodeEscapedAstral(c: char, rest: string)
    requires c as int >= 0x10000
    ensures DecodeUnit(EscapeChar(c) + rest) == Some((c, rest))
  {
    var hi, lo := HighSurrogate(c), LowSurrogate(c);
    SurrogatePair(c);
    assert EscapeChar(c) == "\\u" + Hex4(hi) + "\\u" + Hex4(lo);
    var t := EscapeChar(c) + rest;
    assert t[2..] == Hex4(hi) + ("\\u" + Hex4(lo) + rest);
    DecodeUnitOfU(t);
    DecodeUPair(hi, lo, rest);
  }

  lemma DecodeUnitOfU(t: string)
    requires |t| >= 2 && t[0] == '\\' && t[1] == 'u'
    ensures DecodeUnit(t) == DecodeU(t[2..])
  {
  }

  lemma DecodeEscapedBmp(c: char, rest: string)
    requires c as int < 0x10000 && !(' ' <= c <= '~')
    ensures DecodeUnit("\\u" + Hex4(c as int) + rest) == Some((c, rest))
  {
    var t := "\\u" + Hex4(c as int) + rest;
    var u := t[2..];
    assert u == Hex4(c as int) + rest;
    ParseHex4Of(c as int, rest);
    assert u[4..] == rest;
  }

  /** Every character survives its escape: decoding `EscapeChar(c)` gives back `c`. */
  lemma DecodeEscapeChar(c: char, rest: string)
    ensures DecodeUnit(EscapeChar(c) + rest) == Some((c, rest))
  {
    var t := EscapeChar(c) + rest;
    if c == '"' || c == '\\' || c == '\n' || c == '\r' || c == '\t' || c == '\U{8}' || c == '\U{c}' {
      assert t[2..] == rest;
    } else if ' ' <= c <= '~' {
      assert t[1..] == rest;
    } else if c as int < 0x10000 {
      DecodeEscapedBmp(c, rest);
    } else {
      DecodeEscapedAstral(c, rest);
    }
  }

  lemma {:induction false} DecodeEscapeAll(s: string, rest: string)
    ensures DecodeBody(EscapeAll(s) + "\"" + rest) == Some((s, rest))
    decreases |s|
  {
    var t := EscapeAll(s) + "\"" + rest;
    if s == [] {
      assert t == "\"" + rest;
      assert t[1..] == rest;
    } else {
      var tail := EscapeAll(s[1..]) + "\"" + rest;
      assert t == EscapeChar(s[0]) + tail;
      DecodeEscapeChar(s[0], tail);
      DecodeEscapeAll(s[1..], rest);
      assert [s[0]] + s[1..] == s;
    }
  }

  lemma SkipSpaceAtQuote(t: string)
    requires t != [] && t[0] == '"'
    ensures SkipSpace(t) == t
  {
  }

  lemma {:induction false} DecodeEncodeItems(xs: seq<string>)
    requires xs != []
    ensures DecodeItems(EncodeItems(xs) + "]") == Some(xs)
    decreases |xs|
  {
    if |xs| == 1 {
      DecodeEncodeSingle(xs[0]);
      assert EncodeItems(xs) == EncodeString(xs[0]);
      assert xs == [xs[0]];
    } else {
      var more := EncodeItems(xs[1..]) + "]";
      assert EncodeItems(xs) + "]" == EncodeString(xs[0]) + ", " + more;
      EncodeItemsStartsWithQuote(xs[1..]);
      DecodeEncodeItems(xs[1..]);
      DecodeEncodeCons(xs[0], more, xs[1..]);
      assert [xs[0]] + xs[1..] == xs;
    }
  }

  lemma EncodeItemsStartsWithQuote(xs: seq<string>)
    requires xs != []
    ensures EncodeItems(xs)[0] == '"'
  {
  }

  /** An item, a comma and then the text of further items that decodes. */
  lemma DecodeEncodeCons(x: string, more: string, ys: seq<string>)
    requires more != [] && more[0] == '"' && DecodeItems(more) == Some(ys)
    ensures DecodeItems(EncodeString(x) + ", " + more) == Some([x] + ys)
  {
    var after := ", " + more;
    var t := EncodeString(x) + ", " + more;
    assert t == EncodeString(x) + after;
    DecodeEncodedString(x, after);
    SkipSpaceAfterComma(more);
    DecodeItemsStep(t, x, after, ys);
  }

  /** The body of an encoded string decodes to the string, leaving what follows the closing quote. */
  lemma DecodeEncodedString(x: string, rest: string)
    ensures (EncodeString(x) + rest)[0] == '"'
    ensures DecodeBody((EncodeString(x) + rest)[1..]) == Some((x, rest))
  {
    var t := EncodeString(x) + rest;
    assert t == "\"" + (EscapeAll(x) + "\"" + rest);
    assert t[1..] == EscapeAll(x) + "\"" + rest;
    DecodeEscapeAll(x, rest);
  }

  lemma SkipSpaceAfterComma(more: string)
    requires more != [] && more[0] == '"'
    ensures SkipSpace((", " + more)[1..]) == more
  {
    assert (", " + more)[1..] == " " + more;
    SkipSpaceAtQuote(more);
  }

  /** A list with one item. */
  lemma DecodeEncodeSingle(x: string)
    ensures DecodeItems(EncodeString(x) + "]") == Some([x])
  {
    DecodeEncodedString(x, "]");
    DecodeItemsLast(EncodeString(x) + "]", x);
  }

  /** `DecodeItems` on the last item of a list, followed by the closing bracket. */
  lemma DecodeItemsLast(t: string, x: string)
    requires t != [] && t[0] == '"' && DecodeBody(t[1..]) == Some((x, "]"))
    ensures DecodeItems(t) == Some([x])
  {
    assert SkipSpace("]") == "]";
    assert SkipSpace("]"[1..]) == [];
  }

  /** One step of `DecodeItems`: an item followed by a comma and the remaining items. */
  lemma DecodeItemsStep(t: string, x: string, after: string, more: seq<string>)
    requires t != [] && t[0] == '"' && DecodeBody(t[1..]) == Some((x, after))
    requires after != [] && after[0] == ',' && DecodeItems(SkipSpace(after[1..])) == Some(more)
    ensures DecodeItems(t) == Some([x] + more)
  {
    assert SkipSpace(after) == after;
  }

  /** `json.loads(json.dumps(xs)) == xs` for every list of strings. */
  lemma DecodeEncodeStringList(xs: seq<string>)
    ensures DecodeStringList(EncodeStringList(xs)) == Some(xs)
  {
    var t := EncodeStringList(xs);
    if xs == [] {
      assert t == "[]";
      assert SkipSpace("[]") == "[]";
      assert SkipSpace("]") == "]";
      assert SkipSpace("]"[1..]) == [];
    } else {
      assert t == "[" + (EncodeItems(xs) + "]");
      EncodeItemsStartsWithQuote(xs);
      DecodeEncodeItems(xs);
      DecodeListOpen(EncodeItems(xs) + "]");
    }
  }

  /** A list whose first item starts right after the bracket. */
  lemma DecodeListOpen(b: string)
    requires b != [] && b[0] == '"'
    ensures DecodeStringList("[" + b) == DecodeItems(b)
  {
    var t := "[" + b;
    assert SkipSpace(t) == t;
    assert t[1..] == b;
    SkipSpaceAtQuote(b);
  }

  /** The encoded text is printable ASCII, as `ensure_ascii=True` promises. */
  lemma {:induction false} EncodeItemsAscii(xs: seq<string>)
    ensures forall i :: 0 <= i < |EncodeItems(xs)| ==> ' ' <= EncodeItems(xs)[i] <= '~'
    decreases |xs|
  {
    if |xs| > 1 {
      EncodeItemsAscii(xs[1..]);
    }
  }
}
