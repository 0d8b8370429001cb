/** Text renderings of metadata values: `json.dumps(v, ensure_ascii=False)` with
    CPython's string escaping (and its inverse, the JSON string unescaper), and
    Python's `str()` / `repr()` as they appear inside f-strings. */
module Encode {
  import opened Wrappers
  import opened Text
  import opened Json

  // ---- JSON string escaping, as CPython's json encoder does it ----

  function HexDigit(d: nat): (c: char)
    requires d < 16
  {
    if d < 10 then ('0' as int + d) as char else ('a' as int + d - 10) as char
  }

  /** Value of one hexadecimal digit of either case. */
  function HexValue(c: char): (r: Option<nat>)
    ensures r.Some? ==> r.value < 16
  {
    if '0' <= c <= '9' then Some(c as int - '0' as int)
    else if 'a' <= c <= 'f' then Some(c as int - 'a' as int + 10)
    else if 'A' <= c <= 'F' then Some(c as int - 'A' as int + 10)
    else None
  }

  /** The escaped form of one character: quote, backslash and the control
      characters below U+0020 are escaped; everything else, non-ASCII
      included, is copied (`ensure_ascii=False`). */
  function EscapeChar(c: char): string {
    if c == '"' then ['\\', '"']
    else if c == '\\' then ['\\', '\\']
    else if c == '\n' then ['\\', 'n']
    else if c == '\r' then ['\\', 'r']
    else if c == '\t' then ['\\', 't']
    else if c as int == 8 then ['\\', 'b']
    else if c as int == 12 then ['\\', 'f']
    else if (c as int) < 0x20 then ['\\', 'u', '0', '0', HexDigit(c as int / 16), HexDigit(c as int % 16)]
    else [c]
  }

  function Escape(s: string): string
    decreases |s|
  {
    if |s| == 0 then "" else EscapeChar(s[0]) + Escape(s[1..])
  }

  /** A character the encoder copies as it is: not a quote, not a backslash and
      not a control character. Non-ASCII characters are among them. */
  predicate Verbatim(c: char) {
    c as int >= 0x20 && c != '"' && c != '\\'
  }

  lemma {:induction false} EscapeNotShorter(s: string)
    ensures |Escape(s)| >= |s|
    decreases |s|
  {
    if |s| > 0 {
      EscapeNotShorter(s[1..]);
    }
  }

  /** Escaping leaves a string unchanged exactly when every character is copied
      verbatim; in particular non-ASCII text is never written as `\u` escapes. */
  lemma {:induction false} EscapeIdentity(s: string)
    ensures Escape(s) == s <==> forall k :: 0 <= k < |s| ==> Verbatim(s[k])
    decreases |s|
  {
    if |s| > 0 {
      EscapeIdentity(s[1..]);
      EscapeNotShorter(s[1..]);
      assert Escape(s) == EscapeChar(s[0]) + Escape(s[1..]);
      assert forall k :: 1 <= k < |s| ==> s[k] == s[1..][k - 1];
      if Verbatim(s[0]) {
        assert EscapeChar(s[0]) == [s[0]];
        assert s == [s[0]] + s[1..];
      } else {
        assert |EscapeChar(s[0])| >= 2;
        assert |Escape(s)| > |s|;
      }
    }
  }

  /** Text made only of non-ASCII characters passes through unchanged. */
  lemma NonAsciiVerbatim(s: string)
    requires forall k :: 0 <= k < |s| ==> s[k] as int >= 0x80
    ensures Escape(s) == s
  {
    EscapeIdentity(s);
  }

  /** `json.dumps` of a string. */
  function Quote(s: string): string {
    "\"" + Escape(s) + "\""
  }

  // ---- the inverse: decoding the body of a JSON string literal ----

  function SimpleUnescape(e: char): Option<char> {
    if e == '"' then Some('"')
    else if e == '\\' then Some('\\')
    else if e == '/' then Some('/')
    else if e == 'n' then Some('\n')
    else if e == 'r' then Some('\r')
    else if e == 't' then Some('\t')
    else if e == 'b' then Some(8 as char)
    else if e == 'f' then Some(12 as char)
    else None
  }

  function HexQuad(h: string): (r: Option<nat>)
    requires |h| == 4
    ensures r.Some? ==> r.value < 0x10000
  {
    match (HexValue(h[0]), HexValue(h[1]), HexValue(h[2]), HexValue(h[3]))
    case (Some(a), Some(b), Some(c), Some(d)) => Some(((a * 16 + b) * 16 + c) * 16 + d)
    case _ => None
  }

  function Cons(c: char, r: Option<string>): Option<string> {
    match r
    case None => None
    case Some(t) => Some([c] + t)
  }

  /** Decodes the text between the quotes of a JSON string literal; `None` when
      it is not valid JSON (a raw quote or control character, a bad escape, or a
      `\u` escape naming a lone surrogate, which this decoder does not pair). */
  function Unescape(s: string): Option<string>
    decreases |s|
  {
    if |s| == 0 then Some("")
    else if s[0] == '\\' then
      if |s| < 2 then None
      else if s[1] == 'u' then
        if |s| < 6 then None
        else
          match HexQuad(s[2..6])
          case None => None
          case Some(v) =>
            if v < 0xD800 || 0xE000 <= v then Cons(v as char, Unescape(s[6..])) else None
      else
        match SimpleUnescape(s[1])
        case None => None
        case Some(c) => Cons(c, Unescape(s[2..]))
    else if s[0] == '"' || (s[0] as int) < 0x20 then None
    else Cons(s[0], Unescape(s[1..]))
  }

  lemma HexDigitValue(d: nat)
    requires d < 16
    ensures HexValue(HexDigit(d)) == Some(d)
  {
  }

  lemma {:induction false} UnescapeEscapeChar(c: char, t: string)
    ensures Unescape(EscapeChar(c) + t) == Cons(c, Unescape(t))
  {
    var e := EscapeChar(c);
    var s := e + t;
    if |e| == 2 {
      assert s[2..] == t;
    } else if |e| == 6 {
      var v := c as int;
      HexDigitValue(v / 16);
      HexDigitValue(v % 16);
      assert s[2..6] == ['0', '0', HexDigit(v / 16), HexDigit(v % 16)];
      assert HexQuad(s[2..6]) == Some(v);
      assert s[6..] == t;
    } else {
      assert s[1..] == t;
    }
  }

  /** The escaper and the unescaper are inverse: every string survives a
      round trip through its JSON encoding. */
  lemma {:induction false} UnescapeEscape(s: string)
    ensures Unescape(Escape(s)) == Some(s)
    decreases |s|
  {
    if |s| > 0 {
      UnescapeEscape(s[1..]);
      UnescapeEscapeChar(s[0], Escape(s[1..]));
      assert [s[0]] + s[1..] == s;
    }
  }

  /** An escaped string holds no raw control character, so in particular no
      line break. */
  lemma {:induction false} EscapeHasNoControl(s: string)
    ensures forall k :: 0 <= k < |Escape(s)| ==> (Escape(s)[k] as int) >= 0x20
    decreases |s|
  {
    if |s| > 0 {
      EscapeHasNoControl(s[1..]);
      var e := EscapeChar(s[0]);
      assert forall k :: 0 <= k < |e| ==> (e[k] as int) >= 0x20;
    }
  }

  // ---- json.dumps(value, ensure_ascii=False) ----

  /** The JSON text of a value with the default separators, non-ASCII characters
      written as they are. */
  function Dumps(j: J): string
    decreases j
  {
    match j
    case JNull => "null"
    case JBool(b) => if b then "true" else "false"
    case JNum(n) => Decimal(n)
    case JStr(s) => Quote(s)
    case JArr(xs) => "[" + Join(", ", seq(|xs|, k requires 0 <= k < |xs| => Dumps(xs[k]))) + "]"
  }

  /** A JSON encoding is a single line that never ends in a comma. */
  lemma {:induction false} DumpsShape(j: J)
    ensures '\n' !in Dumps(j)
    ensures |Dumps(j)| > 0 && Dumps(j)[|Dumps(j)| - 1] != ','
    decreases j
  {
    match j
    case JNull =>
    case JBool(b) =>
    case JNum(n) =>
      DecimalShape(n);
    case JStr(s) =>
      EscapeHasNoControl(s);
    case JArr(xs) =>
      var parts := seq(|xs|, k requires 0 <= k < |xs| => Dumps(xs[k]));
      forall k | 0 <= k < |xs| ensures '\n' !in parts[k] {
        DumpsShape(xs[k]);
      }
      JoinAvoids(", ", parts, '\n');
  }

  /** `json.dumps` of a string decodes back to that string. */
  lemma DumpsStringRoundTrip(s: string)
    ensures Dumps(JStr(s)) == "\"" + Escape(s) + "\""
    ensures Unescape(Dumps(JStr(s))[1..|Dumps(JStr(s))| - 1]) == Some(s)
  {
    var d := Dumps(JStr(s));
    assert d[1..|d| - 1] == Escape(s);
    UnescapeEscape(s);
  }

  // ---- str() and repr() inside f-strings ----

  /** Python's `str(j)` (`quoted` false) or `repr(j)` (`quoted` true). Lists show
      their elements with `repr`. */
  function Show(j: J, quoted: bool): string
    decreases j
  {
    match j
    case JNull => "None"
    case JBool(b) => if b then "True" else "False"
    case JNum(n) => Decimal(n)
    case JStr(s) => if quoted then "'" + s + "'" else s
    case JArr(xs) => "[" + Join(", ", seq(|xs|, k requires 0 <= k < |xs| => Show(xs[k], true))) + "]"
  }

  /** `str(j)`, as `f"{j}"` renders it. */
  function PyStr(j: J): string {
    Show(j, false)
  }
}
