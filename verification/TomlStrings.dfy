/** The strings of TOML v1.0.0, section "String", as a reader understands them. Text is a sequence of
    code points. */
module TomlStrings {
  import opened Options

  const BACKSPACE: nat := 0x08
  const TAB: nat := 0x09
  const NEWLINE: nat := 0x0A
  const FORM_FEED: nat := 0x0C
  const RETURN: nat := 0x0D
  const QUOTE: nat := 0x22
  const APOSTROPHE: nat := 0x27
  const BACKSLASH: nat := 0x5C
  const DELETE: nat := 0x7F

  type Text = seq<nat>

  predicate IsScalar(c: nat) {
    c < 0xD800 || 0xE000 <= c < 0x11_0000
  }

  ghost predicate IsText(s: Text) {
    forall i :: 0 <= i < |s| ==> IsScalar(s[i])
  }

  /** Control characters other than tab are not allowed as they are. */
  predicate IsControl(c: nat) {
    (c < 0x20 && c != TAB) || c == DELETE
  }

  /** A character and the length of its escape sequence. */
  datatype Escaped = Escaped(c: nat, length: nat)

  function HexValue(d: nat): Option<nat> {
    if 0x30 <= d <= 0x39 then Some(d - 0x30)
    else if 0x41 <= d <= 0x46 then Some(d - 0x41 + 10)
    else if 0x61 <= d <= 0x66 then Some(d - 0x61 + 10)
    else None
  }

  function HexNumber(t: Text, n: nat): Option<nat>
    requires n <= |t|
  {
    if n == 0 then Some(0)
    else
      match (HexNumber(t, n - 1), HexValue(t[n - 1]))
      case (Some(high), Some(low)) => Some(16 * high + low)
      case _ => None
  }

  function UnicodeEscape(t: Text, digits: nat): Option<Escaped> {
    if |t| < 2 + digits then None
    else
      match HexNumber(t[2..2 + digits], digits)
      case Some(c) => if IsScalar(c) then Some(Escaped(c, 2 + digits)) else None
      case None => None
  }

  /** The escape sequence at the front of a text that begins with a backslash. */
  function ReadEscape(t: Text): (e: Option<Escaped>)
    requires t != []
    ensures e.Some? ==> 2 <= e.value.length <= |t|
  {
    if |t| < 2 then None
    else if t[1] == 0x62 then Some(Escaped(BACKSPACE, 2))
    else if t[1] == 0x74 then Some(Escaped(TAB, 2))
    else if t[1] == 0x6E then Some(Escaped(NEWLINE, 2))
    else if t[1] == 0x66 then Some(Escaped(FORM_FEED, 2))
    else if t[1] == 0x72 then Some(Escaped(RETURN, 2))
    else if t[1] == QUOTE then Some(Escaped(QUOTE, 2))
    else if t[1] == BACKSLASH then Some(Escaped(BACKSLASH, 2))
    else if t[1] == 0x75 then UnicodeEscape(t, 4)
    else if t[1] == 0x55 then UnicodeEscape(t, 8)
    else None
  }

  /** What was read, and what comes behind it. */
  datatype Read = Bad | Good(value: Text, rest: Text)

  function Prepend(front: Text, r: Read): Read {
    match r
    case Bad => Bad
    case Good(value, rest) => Good(front + value, rest)
  }

  /** A basic string, behind its opening quote. */
  function ReadBasic(t: Text): Read
    decreases |t|
  {
    if t == [] then Bad
    else if t[0] == QUOTE then Good([], t[1..])
    else if t[0] == BACKSLASH then
      match ReadEscape(t)
      case None => Bad
      case Some(e) => Prepend([e.c], ReadBasic(t[e.length..]))
    else if IsControl(t[0]) then Bad
    else Prepend([t[0]], ReadBasic(t[1..]))
  }

  function Quotes(n: nat): (s: Text)
    ensures |s| == n && forall i :: 0 <= i < n ==> s[i] == QUOTE
  {
    seq(n, _ => QUOTE)
  }

  /** Quotes at the front of a text, `most` at most. */
  function LeadingQuotes(t: Text, most: nat): (n: nat)
    ensures n <= most && n <= |t| && (forall i :: 0 <= i < n ==> t[i] == QUOTE)
            && (n < most && n < |t| ==> t[n] != QUOTE)
  {
    if most == 0 || t == [] || t[0] != QUOTE then 0 else 1 + LeadingQuotes(t[1..], most - 1)
  }

  /** A multi-line basic string, behind its opening quotes: one or two quotes may stand anywhere, also
      right before the three that close the string. */
  function ReadMultiline(t: Text): Read
    decreases |t|
  {
    if t == [] then Bad
    else if t[0] == QUOTE then
      if LeadingQuotes(t, 3) == 3 then
        var more := LeadingQuotes(t[3..], 2);
        Good(Quotes(more), t[3 + more..])
      else Prepend([QUOTE], ReadMultiline(t[1..]))
    else if t[0] == BACKSLASH then
      match ReadEscape(t)
      case None => Bad
      case Some(e) => Prepend([e.c], ReadMultiline(t[e.length..]))
    else if t[0] != NEWLINE && IsControl(t[0]) then Bad
    else Prepend([t[0]], ReadMultiline(t[1..]))
  }

  /** A whole value: a basic string, a multi-line basic string (a newline right behind its opening
      quotes is dropped), or a literal string. */
  function ReadValue(t: Text): Read {
    if LeadingQuotes(t, 3) == 3 then
      if |t| > 3 && t[3] == NEWLINE then ReadMultiline(t[4..]) else ReadMultiline(t[3..])
    else if t != [] && t[0] == QUOTE then ReadBasic(t[1..])
    else if t != [] && t[0] == APOSTROPHE then ReadLiteral(t[1..])
    else Bad
  }

  /** A literal string, behind its opening apostrophe. */
  function ReadLiteral(t: Text): Read
    decreases |t|
  {
    if t == [] then Bad
    else if t[0] == APOSTROPHE then Good([], t[1..])
    else if IsControl(t[0]) then Bad
    else Prepend([t[0]], ReadLiteral(t[1..]))
  }
}
