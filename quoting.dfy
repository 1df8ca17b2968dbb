/**
 * Go's `%q` verb on strings (`strconv.Quote`), exact for ASCII text, and a
 * decoder for the quoted form that undoes it.
 */
module Quoting {
  import opened Wrappers

  /** Lower-case hexadecimal digit, as `strconv` writes `\x` escapes. */
  function HexDigit(d: nat): (c: char)
    requires d < 16
    ensures HexValue(c) == Some(d)
  {
    "0123456789abcdef"[d]
  }

  /** The value of a hexadecimal digit of either case. */
  function HexValue(c: char): (r: Option<nat>)
    ensures r.Some? ==> r.value < 16
    ensures r.Some? <==> ('0' <= c <= '9' || 'a' <= c <= 'f' || 'A' <= c <= 'F')
  {
    if '0' <= c <= '9' then Some(c as int - '0' as int)
    else if 'a' <= c <= 'f' then Some(c as int - 'a' as int + 10)
    else if 'A' <= c <= 'F' then Some(c as int - 'A' as int + 10)
    else None
  }

  /** The single-letter escapes `\a \b \f \n \r \t \v \" \\` and the characters they stand for. */
  function SimpleEscape(e: char): Option<char> {
    if e == '"' then Some('"')
    else if e == '\\' then Some('\\')
    else if e == 'a' then Some('\U{7}')
    else if e == 'b' then Some('\U{8}')
    else if e == 'f' then Some('\U{C}')
    else if e == 'n' then Some('\n')
    else if e == 'r' then Some('\r')
    else if e == 't' then Some('\t')
    else if e == 'v' then Some('\U{B}')
    else None
  }

  /**
   * How `strconv.Quote` writes one character inside the quotes: `"` and `\`
   * get a back-slash, the seven control characters with a letter escape get
   * it, the other ASCII control characters and DEL become `\xHH`, and every
   * other character is copied.
   */
  function Escape(c: char): (r: string)
    ensures |r| >= 1 && (r[0] == '\\' || r == [c])
    ensures '"' !in r[1..] || r == "\\\""
  {
    if c == '"' || c == '\\' then ['\\', c]
    else if c == '\U{7}' then "\\a"
    else if c == '\U{8}' then "\\b"
    else if c == '\U{C}' then "\\f"
    else if c == '\n' then "\\n"
    else if c == '\r' then "\\r"
    else if c == '\t' then "\\t"
    else if c == '\U{B}' then "\\v"
    else if c < ' ' || c == '\U{7F}' then ['\\', 'x', HexDigit(c as int / 16), HexDigit(c as int % 16)]
    else [c]
  }

  function EscapeAll(s: string): string {
    if s == [] then [] else Escape(s[0]) + EscapeAll(s[1..])
  }

  /** `fmt.Sprintf("%q", s)`. */
  function Quote(s: string): (r: string)
    ensures |r| >= 2 && r[0] == '"' && r[|r| - 1] == '"'
  {
    ['"'] + EscapeAll(s) + ['"']
  }

  function Prepend(c: char, o: Option<string>): Option<string> {
    match o
    case Some(t) => Some([c] + t)
    case None => None
  }

  /**
   * Decodes the text between the quotes of a Go interpreted string literal:
   * the escapes `Escape` writes are undone, and a bare `"` or new-line is
   * rejected.
   */
  function UnescapeBody(b: string): Option<string>
    decreases |b|
  {
    if b == [] then Some([])
    else if b[0] == '"' || b[0] == '\n' then None
    else if b[0] != '\\' then Prepend(b[0], UnescapeBody(b[1..]))
    else if |b| < 2 then None
    else if b[1] == 'x' then
      if |b| < 4 then None
      else match (HexValue(b[2]), HexValue(b[3]))
        case (Some(h), Some(l)) => Prepend((h * 16 + l) as char, UnescapeBody(b[4..]))
        case _ => None
    else match SimpleEscape(b[1])
      case Some(c) => Prepend(c, UnescapeBody(b[2..]))
      case None => None
  }

  /** The decoded content of a double-quoted Go string literal, or None if `q` is not one. */
  function Unquote(q: string): Option<string> {
    if |q| >= 2 && q[0] == '"' && q[|q| - 1] == '"' then UnescapeBody(q[1..|q| - 1]) else None
  }

  /** Decoding one escaped character peels exactly that character off. */
  lemma UnescapeEscape(c: char, rest: string)
    ensures UnescapeBody(Escape(c) + rest) == Prepend(c, UnescapeBody(rest))
  {
    var e := Escape(c);
    var b := e + rest;
    if c == '"' || c == '\\' || c == '\U{7}' || c == '\U{8}' || c == '\U{C}'
      || c == '\n' || c == '\r' || c == '\t' || c == '\U{B}' {
      assert b[2..] == rest;
    } else if c < ' ' || c == '\U{7F}' {
      var n := c as int;
      assert b[0] == '\\' && b[1] == 'x';
      assert HexValue(b[2]) == Some(n / 16) && HexValue(b[3]) == Some(n % 16);
      assert (n / 16 * 16 + n % 16) as char == c;
      assert b[4..] == rest;
    } else {
      assert b[1..] == rest;
    }
  }

  /** Decoding undoes the escaping of a whole string. */
  lemma {:induction false} UnescapeEscapeAll(s: string)
    ensures UnescapeBody(EscapeAll(s)) == Some(s)
  {
    if s != [] {
      UnescapeEscape(s[0], EscapeAll(s[1..]));
      UnescapeEscapeAll(s[1..]);
      assert [s[0]] + s[1..] == s;
    }
  }

  /**
   * Round trip: the `%q` form of any string decodes back to it, so text
   * embedded with `%q` can neither end the literal early nor be altered.
   */
  lemma QuoteRoundTrip(s: string)
    ensures Unquote(Quote(s)) == Some(s)
  {
    var q := Quote(s);
    assert q[1..|q| - 1] == EscapeAll(s);
    UnescapeEscapeAll(s);
  }
}
