/** Writing configuration values as TOML strings (`toml_internal` in src/xenia/base/cvar.cc). */
module Cvar {
  import opened Hexadecimal
  import opened Options
  import opened TomlStrings

  function UnicodeEscaped(c: nat): Text {
    if c <= 0xFFFF then [BACKSLASH, 0x75] + Hex(c, 4) else [BACKSLASH, 0x75] + Hex(c, 8)
  }

  /** One character of `EscapeBasicString`. */
  function BasicChar(c: nat): Text {
    if c == BACKSPACE then [BACKSLASH, 0x62]
    else if c == TAB then [BACKSLASH, 0x74]
    else if c == NEWLINE then [BACKSLASH, 0x6E]
    else if c == FORM_FEED then [BACKSLASH, 0x66]
    else if c == RETURN then [BACKSLASH, 0x72]
    else if c == QUOTE then [BACKSLASH, QUOTE]
    else if c == BACKSLASH then [BACKSLASH, BACKSLASH]
    else if c < 0x20 || c == DELETE then UnicodeEscaped(c)
    else [c]
  }

  function BasicText(s: Text): Text {
    if s == [] then [] else BasicChar(s[0]) + BasicText(s[1..])
  }

  /** The branches of the loop of `EscapeBasicString`. */
  method AppendBasic(before: Text, c: nat) returns (result: Text)
    ensures result == before + BasicChar(c)
  {
    result := before;
    if c == BACKSPACE {
      result := result + [BACKSLASH, 0x62];
    } else if c == TAB {
      result := result + [BACKSLASH, 0x74];
    } else if c == NEWLINE {
      result := result + [BACKSLASH, 0x6E];
    } else if c == FORM_FEED {
      result := result + [BACKSLASH, 0x66];
    } else if c == RETURN {
      result := result + [BACKSLASH, 0x72];
    } else if c == QUOTE {
      result := result + [BACKSLASH, QUOTE];
    } else if c == BACKSLASH {
      result := result + [BACKSLASH, BACKSLASH];
    } else if c < 0x20 || c == DELETE {
      result := result + UnicodeEscaped(c);
    } else {
      result := result + [c];
    }
  }

  method EscapeBasicString(view: Text) returns (result: Text)
    ensures result == BasicText(view)
  {
    hide BasicChar;
    result := [];
    var i := 0;
    while i < |view|
      invariant 0 <= i <= |view| && result + BasicText(view[i..]) == BasicText(view)
    {
      Associative(result, BasicChar(view[i]), BasicText(view[i + 1..]));
      assert view[i..][1..] == view[i + 1..];
      result := AppendBasic(result, view[i]);
      i := i + 1;
    }
    assert view[|view|..] == [];
  }

  lemma Associative(a: Text, b: Text, c: Text)
    ensures a + b + c == a + (b + c)
  {
  }

  // ---- reading a basic string back ----------------------------------------------------------------

  lemma {:induction false} HexRoundTrip(v: nat, n: nat, t: Text)
    requires n <= |t| && t[..n] == Hex(v, n) && v < Pow16(n)
    ensures HexNumber(t, n) == Some(v)
    decreases n
  {
    if n > 0 {
      assert t[..n - 1] == Hex(v / 16, n - 1) by {
        assert t[..n][..n - 1] == t[..n - 1];
      }
      assert t[n - 1] == t[..n][n - 1];
      HexRoundTrip(v / 16, n - 1, t);
    }
  }

  function Pow16(n: nat): nat {
    if n == 0 then 1 else 16 * Pow16(n - 1)
  }

  lemma UnicodeRoundTrip(c: nat, t: Text)
    requires c < 0x20 || c == DELETE
    ensures ReadEscape(UnicodeEscaped(c) + t) == Some(Escaped(c, 6))
  {
    var all := UnicodeEscaped(c) + t;
    assert Pow16(2) == 256;
    assert Pow16(3) == 4096;
    assert all[2..6] == Hex(c, 4);
    assert all[2..6][..4] == all[2..6];
    HexRoundTrip(c, 4, all[2..6]);
  }

  /** One escaped character, read from the front of a basic string. */
  lemma BasicCharReads(c: nat, t: Text)
    requires IsScalar(c)
    ensures ReadBasic(BasicChar(c) + t) == Prepend([c], ReadBasic(t))
  {
    var front := BasicChar(c);
    if front[0] == BACKSLASH {
      BasicEscape(c, t);
      EscapeReads(front, c, t);
    } else {
      assert ([c] + t)[1..] == t;
    }
  }

  lemma BasicEscape(c: nat, t: Text)
    requires BasicChar(c)[0] == BACKSLASH
    ensures ReadEscape(BasicChar(c) + t) == Some(Escaped(c, |BasicChar(c)|))
  {
    hide Hex, HexNumber;
    if BasicChar(c) == UnicodeEscaped(c) {
      UnicodeRoundTrip(c, t);
    }
  }

  /** An escape sequence, read from the front of a string of either kind. */
  lemma EscapeReads(front: Text, c: nat, t: Text)
    requires front != [] && front[0] == BACKSLASH && ReadEscape(front + t) == Some(Escaped(c, |front|))
    ensures ReadBasic(front + t) == Prepend([c], ReadBasic(t))
            && ReadMultiline(front + t) == Prepend([c], ReadMultiline(t))
  {
    hide ReadEscape;
    assert (front + t)[|front|..] == t;
  }

  lemma {:induction false} BasicRoundTrip(s: Text, t: Text)
    requires IsText(s)
    ensures ReadBasic(BasicText(s) + [QUOTE] + t) == Good(s, t)
    decreases |s|
  {
    if s == [] {
      assert BasicText(s) + [QUOTE] + t == [QUOTE] + t;
      assert ([QUOTE] + t)[1..] == t;
    } else {
      var rest := BasicText(s[1..]) + [QUOTE] + t;
      assert BasicText(s) + [QUOTE] + t == BasicChar(s[0]) + rest;
      BasicCharReads(s[0], rest);
      BasicRoundTrip(s[1..], t);
      assert [s[0]] + s[1..] == s;
    }
  }

  // ---- multi-line basic strings ---------------------------------------------------------------------

  /** The quote at place `r` of a run: every third one is escaped. */
  function RunQuote(r: nat): Text {
    if r % 3 == 2 then [BACKSLASH, QUOTE] else [QUOTE]
  }

  /** One character, other than a quote, of `EscapeMultilineBasicString`. Carriage returns are
      dropped. */
  function MultilineChar(c: nat): Text {
    if c == BACKSPACE then [BACKSLASH, 0x62]
    else if c == TAB || c == NEWLINE then [c]
    else if c == FORM_FEED then [BACKSLASH, 0x66]
    else if c == RETURN then []
    else if c == BACKSLASH then [BACKSLASH, BACKSLASH]
    else if c < 0x20 || c == DELETE then UnicodeEscaped(c)
    else [c]
  }

  /** The text from a place in it on, where `r` quotes of a run came right before. */
  function MultilineText(s: Text, r: nat): Text {
    if s == [] then []
    else if s[0] == QUOTE then RunQuote(r) + MultilineText(s[1..], r + 1)
    else MultilineChar(s[0]) + MultilineText(s[1..], 0)
  }

  /** A run of `n` quotes. */
  function Run(n: nat): Text {
    if n == 0 then [] else Run(n - 1) + RunQuote(n - 1)
  }

  /** The loops that write out a run. */
  method AppendRun(before: Text, quoteRun: nat) returns (result: Text)
    ensures result == before + Run(quoteRun)
  {
    result := before;
    for i := 0 to quoteRun
      invariant result == before + Run(i)
    {
      Associative(before, Run(i), RunQuote(i));
      if i % 3 == 2 {
        result := result + [BACKSLASH];
        Associative(before + Run(i), [BACKSLASH], [QUOTE]);
      }
      result := result + [QUOTE];
    }
  }

  /** The branches of the loop of `EscapeMultilineBasicString`, quotes apart. */
  method AppendMultiline(before: Text, c: nat) returns (result: Text)
    requires c != QUOTE
    ensures result == before + MultilineChar(c)
  {
    result := before;
    if c == BACKSPACE {
      result := result + [BACKSLASH, 0x62];
    } else if c == TAB || c == NEWLINE {
      result := result + [c];
    } else if c == FORM_FEED {
      result := result + [BACKSLASH, 0x66];
    } else if c == RETURN {
    } else if c == BACKSLASH {
      result := result + [BACKSLASH, BACKSLASH];
    } else if c < 0x20 || c == DELETE {
      result := result + UnicodeEscaped(c);
    } else {
      result := result + [c];
    }
  }

  method EscapeMultilineBasicString(view: Text) returns (result: Text)
    ensures result == MultilineText(view, 0)
  {
    hide MultilineChar, Run, RunQuote;
    result := [];
    var quoteRun := 0;
    NoRun();
    for i := 0 to |view|
      invariant result + (Run(quoteRun) + MultilineText(view[i..], quoteRun)) == MultilineText(view, 0)
    {
      ghost var rest := view[i + 1..];
      assert view[i..][1..] == rest && view[i..][0] == view[i];
      var c := view[i];
      if c == QUOTE {
        RunGrows(quoteRun, MultilineText(rest, quoteRun + 1));
        quoteRun := quoteRun + 1;
        continue;
      }
      ghost var before := result;
      result := AppendRun(result, quoteRun);
      Associative(before, Run(quoteRun), MultilineChar(c) + MultilineText(rest, 0));
      quoteRun := 0;
      Associative(result, MultilineChar(c), MultilineText(rest, 0));
      result := AppendMultiline(result, c);
      NoRun();
      assert Run(0) + MultilineText(rest, 0) == MultilineText(rest, 0);
    }
    assert view[|view|..] == [];
    result := AppendRun(result, quoteRun);
  }

  lemma NoRun()
    ensures Run(0) == []
  {
  }

  lemma RunGrows(n: nat, t: Text)
    ensures Run(n) + (RunQuote(n) + t) == Run(n + 1) + t
  {
    hide RunQuote;
    Associative(Run(n), RunQuote(n), t);
    assert n + 1 - 1 == n;
  }

  // ---- reading a multi-line basic string back -------------------------------------------------------

  function WithoutReturns(s: Text): Text {
    if s == [] then [] else (if s[0] == RETURN then [] else [s[0]]) + WithoutReturns(s[1..])
  }

  /** No three unescaped quotes come together, where `r` quotes of a run and `plain` unescaped quotes
      came right before. A dropped carriage return starts a new run but does not part the quotes. */
  predicate NoTripleQuote(s: Text, r: nat, plain: nat) {
    if s == [] then true
    else if s[0] == QUOTE then
      if r % 3 == 2 then NoTripleQuote(s[1..], r + 1, 0) else plain < 2 && NoTripleQuote(s[1..], r + 1, plain + 1)
    else if s[0] == RETURN then NoTripleQuote(s[1..], 0, plain)
    else NoTripleQuote(s[1..], 0, 0)
  }

  const CLOSING: Text := [QUOTE, QUOTE, QUOTE]

  lemma QuotesMore(n: nat, t: Text)
    ensures Quotes(n) + ([QUOTE] + t) == Quotes(n + 1) + t
    ensures Quotes(n + 1) + t == [QUOTE] + (Quotes(n) + t)
  {
  }

  /** One or two quotes before anything but a quote stand for themselves. */
  lemma {:induction false} QuotesRead(n: nat, t: Text)
    requires n < 3 && t != [] && t[0] != QUOTE
    ensures ReadMultiline(Quotes(n) + t) == Prepend(Quotes(n), ReadMultiline(t))
    decreases n
  {
    if n == 0 {
      assert Quotes(0) + t == t && Quotes(0) == [];
      PrependNothing(ReadMultiline(t));
    } else {
      var all := Quotes(n) + t;
      QuotesRead(n - 1, t);
      assert all[1..] == Quotes(n - 1) + t;
      assert all[n] == t[0];
      assert LeadingQuotes(all, 3) < 3;
      PrependTwice([QUOTE], Quotes(n - 1), ReadMultiline(t));
      assert [QUOTE] + Quotes(n - 1) == Quotes(n);
    }
  }

  lemma PrependNothing(r: Read)
    ensures Prepend([], r) == r
  {
  }

  lemma PrependTwice(a: Text, b: Text, r: Read)
    ensures Prepend(a, Prepend(b, r)) == Prepend(a + b, r)
  {
    if r.Good? {
      Associative(a, b, r.value);
    }
  }

  /** Three quotes end the string, with up to two more before them. */
  lemma QuotesClose(t: Text)
    requires |t| >= 3 && t[0] == t[1] == t[2] == QUOTE
    ensures ReadMultiline(t) == Good(Quotes(LeadingQuotes(t[3..], 2)), t[3 + LeadingQuotes(t[3..], 2)..])
  {
    var n := LeadingQuotes(t, 3);
    assert n == 3 by {
      assert n != 0 && n != 1 && n != 2;
    }
  }

  lemma CloseBehind(plain: nat)
    requires plain < 3
    ensures ReadMultiline(Quotes(plain) + CLOSING) == Good(Quotes(plain), [])
  {
    var t := Quotes(plain) + CLOSING;
    assert |t| == plain + 3 && forall i :: 0 <= i < |t| ==> t[i] == QUOTE;
    QuotesClose(t);
    var n, tail := LeadingQuotes(t[3..], 2), t[3..];
    assert |tail| == plain && forall i :: 0 <= i < |tail| ==> tail[i] == QUOTE;
    assert t[3 + n..] == [];
  }

  /** A character that is neither a quote nor a carriage return, with quotes in front of it. */
  lemma CharReads(plain: nat, c: nat, t: Text)
    requires plain < 3 && IsScalar(c) && c != QUOTE && c != RETURN
    ensures ReadMultiline(Quotes(plain) + (MultilineChar(c) + t)) == Prepend(Quotes(plain) + [c], ReadMultiline(t))
  {
    var front := MultilineChar(c);
    PrependTwice(Quotes(plain), [c], ReadMultiline(t));
    QuotesRead(plain, front + t);
    if front[0] == BACKSLASH {
      if front == UnicodeEscaped(c) {
        UnicodeRoundTrip(c, t);
      }
      EscapeReads(front, c, t);
    } else {
      assert ([c] + t)[1..] == t;
    }
  }

  lemma EscapedQuoteReads(plain: nat, t: Text)
    requires plain < 3
    ensures ReadMultiline(Quotes(plain) + ([BACKSLASH, QUOTE] + t)) == Prepend(Quotes(plain) + [QUOTE],
        ReadMultiline(t))
  {
    PrependTwice(Quotes(plain), [QUOTE], ReadMultiline(t));
    QuotesRead(plain, [BACKSLASH, QUOTE] + t);
    EscapeReads([BACKSLASH, QUOTE], QUOTE, t);
  }

  lemma MultilineParts(s: Text, r: nat, plain: nat)
    requires s != []
    ensures Quotes(plain) + MultilineText(s, r) + CLOSING
            == if s[0] == QUOTE then Quotes(plain) + (RunQuote(r) + (MultilineText(s[1..], r + 1) + CLOSING))
               else Quotes(plain) + (MultilineChar(s[0]) + (MultilineText(s[1..], 0) + CLOSING))
  {
    hide MultilineChar, RunQuote;
    if s[0] == QUOTE {
      Associative(RunQuote(r), MultilineText(s[1..], r + 1), CLOSING);
    } else {
      Associative(MultilineChar(s[0]), MultilineText(s[1..], 0), CLOSING);
    }
    Associative(Quotes(plain), MultilineText(s, r), CLOSING);
  }

  /** What a reader sees behind `plain` unescaped quotes. */
  function Body(s: Text, r: nat, plain: nat): Text {
    Quotes(plain) + MultilineText(s, r) + CLOSING
  }

  lemma StepEscapedQuote(s: Text, r: nat, plain: nat)
    requires s != [] && s[0] == QUOTE && r % 3 == 2 && plain < 3
    ensures ReadMultiline(Body(s, r, plain)) == Prepend(Quotes(plain) + [QUOTE], ReadMultiline(Body(s[1..], r + 1, 0)))
  {
    hide ReadMultiline, CLOSING;
    MultilineParts(s, r, plain);
    NoQuotesInFront(MultilineText(s[1..], r + 1) + CLOSING);
    Associative(Quotes(0), MultilineText(s[1..], r + 1), CLOSING);
    EscapedQuoteReads(plain, MultilineText(s[1..], r + 1) + CLOSING);
  }

  lemma StepQuote(s: Text, r: nat, plain: nat)
    requires s != [] && s[0] == QUOTE && r % 3 != 2
    ensures Body(s, r, plain) == Body(s[1..], r + 1, plain + 1)
  {
    hide CLOSING;
    MultilineParts(s, r, plain);
    QuotesMore(plain, MultilineText(s[1..], r + 1) + CLOSING);
    Associative(Quotes(plain + 1), MultilineText(s[1..], r + 1), CLOSING);
  }

  lemma StepReturn(s: Text, r: nat, plain: nat)
    requires s != [] && s[0] == RETURN
    ensures Body(s, r, plain) == Body(s[1..], 0, plain)
  {
    hide CLOSING;
    MultilineParts(s, r, plain);
    Associative(Quotes(plain), MultilineText(s[1..], 0), CLOSING);
    assert MultilineChar(s[0]) + (MultilineText(s[1..], 0) + CLOSING) == MultilineText(s[1..], 0) + CLOSING;
  }

  lemma StepChar(s: Text, r: nat, plain: nat)
    requires s != [] && s[0] != QUOTE && s[0] != RETURN && IsScalar(s[0]) && plain < 3
    ensures ReadMultiline(Body(s, r, plain)) == Prepend(Quotes(plain) + [s[0]], ReadMultiline(Body(s[1..], 0, 0)))
  {
    hide ReadMultiline, CLOSING;
    MultilineParts(s, r, plain);
    NoQuotesInFront(MultilineText(s[1..], 0) + CLOSING);
    Associative(Quotes(0), MultilineText(s[1..], 0), CLOSING);
    CharReads(plain, s[0], MultilineText(s[1..], 0) + CLOSING);
  }

  /** Behind `plain` quotes the text reads back, with the carriage returns dropped ... */
  lemma {:induction false} MultilineReads(s: Text, r: nat, plain: nat)
    requires IsText(s) && plain < 3 && NoTripleQuote(s, r, plain)
    ensures ReadMultiline(Body(s, r, plain)) == Good(Quotes(plain) + WithoutReturns(s), [])
    decreases |s|
  {
    hide ReadMultiline, Body, WithoutReturns, Quotes;
    if s == [] {
      BodyOfNothing(s, r, plain);
    } else if s[0] == QUOTE && r % 3 == 2 {
      WithoutStep(s);
      StepEscapedQuote(s, r, plain);
      MultilineReads(s[1..], r + 1, 0);
      ValueParts(plain, [QUOTE], WithoutReturns(s[1..]));
    } else if s[0] == QUOTE {
      WithoutStep(s);
      StepQuote(s, r, plain);
      MultilineReads(s[1..], r + 1, plain + 1);
      QuotesMore(plain, WithoutReturns(s[1..]));
    } else if s[0] == RETURN {
      WithoutStep(s);
      StepReturn(s, r, plain);
      MultilineReads(s[1..], 0, plain);
    } else {
      WithoutStep(s);
      StepChar(s, r, plain);
      MultilineReads(s[1..], 0, 0);
      ValueParts(plain, [s[0]], WithoutReturns(s[1..]));
    }
  }

  lemma WithoutStep(s: Text)
    requires s != []
    ensures WithoutReturns(s) == if s[0] == RETURN then WithoutReturns(s[1..]) else [s[0]] + WithoutReturns(s[1..])
  {
  }

  lemma BodyOfNothing(s: Text, r: nat, plain: nat)
    requires s == [] && plain < 3
    ensures ReadMultiline(Body(s, r, plain)) == Good(Quotes(plain) + WithoutReturns(s), [])
  {
    hide ReadMultiline;
    assert Body(s, r, plain) == Quotes(plain) + CLOSING;
    CloseBehind(plain);
  }

  lemma NoQuotesInFront(t: Text)
    ensures Quotes(0) + t == t
  {
  }

  lemma ValueParts(plain: nat, c: Text, t: Text)
    ensures Quotes(plain) + c + (Quotes(0) + t) == Quotes(plain) + (c + t)
  {
    NoQuotesInFront(t);
  }

  /** ... unless three unescaped quotes come together: the string ends too early. */
  lemma {:induction false} MultilineEndsEarly(s: Text, r: nat, plain: nat)
    requires IsText(s) && plain < 3 && !NoTripleQuote(s, r, plain)
    ensures var read := ReadMultiline(Body(s, r, plain)); read.Good? && read.rest != []
    decreases |s|
  {
    hide ReadMultiline, Body;
    if s[0] == QUOTE && r % 3 == 2 {
      StepEscapedQuote(s, r, plain);
      MultilineEndsEarly(s[1..], r + 1, 0);
    } else if s[0] == QUOTE {
      StepQuote(s, r, plain);
      if plain < 2 {
        MultilineEndsEarly(s[1..], r + 1, plain + 1);
      } else {
        TooManyQuotes(s[1..], r + 1);
      }
    } else if s[0] == RETURN {
      StepReturn(s, r, plain);
      MultilineEndsEarly(s[1..], 0, plain);
    } else {
      StepChar(s, r, plain);
      MultilineEndsEarly(s[1..], 0, 0);
    }
  }

  lemma TooManyQuotes(s: Text, r: nat)
    ensures var read := ReadMultiline(Body(s, r, 3)); read.Good? && read.rest != []
  {
    QuotesClose(Body(s, r, 3));
  }

  lemma {:induction false} NoReturnsNoTriples(s: Text, r: nat)
    requires RETURN !in s
    ensures NoTripleQuote(s, r, r % 3) && WithoutReturns(s) == s
    decreases |s|
  {
    if s != [] {
      NoReturnsNoTriples(s[1..], if s[0] == QUOTE then r + 1 else 0);
      assert s == [s[0]] + s[1..];
    }
  }

  // ---- the choice between the forms -----------------------------------------------------------------

  /** `find_any_of` finds nothing. An empty set of needles is always found. */
  predicate FindsNone(s: Text, needles: Text) {
    needles != [] && forall i :: 0 <= i < |s| ==> s[i] !in needles
  }

  /** The set of characters that need a basic string begins with a NUL, and so it is empty. */
  const ESCAPE_CHARS: Text := []
  const MULTILINE_CHARS: Text := [RETURN, NEWLINE]

  /** `EscapeString`, without its literal forms: these are taken only when no escape character is
      found. */
  method EscapeString(view: Text) returns (result: Text)
    ensures result == Value(view)
  {
    assert !FindsNone(view, ESCAPE_CHARS);
    if FindsNone(view, MULTILINE_CHARS) {
      var text := EscapeBasicString(view);
      result := [QUOTE] + text + [QUOTE];
    } else {
      var text := EscapeMultilineBasicString(view);
      result := CLOSING + [NEWLINE] + text + CLOSING;
    }
  }

  function Value(s: Text): Text {
    if FindsNone(s, MULTILINE_CHARS) then [QUOTE] + BasicText(s) + [QUOTE]
    else CLOSING + [NEWLINE] + MultilineText(s, 0) + CLOSING
  }

  lemma ReadsSingle(s: Text)
    requires IsText(s) && FindsNone(s, MULTILINE_CHARS)
    ensures ReadValue(Value(s)) == Good(s, [])
  {
    hide ReadBasic, BasicText;
    var t := Value(s);
    BasicRoundTrip(s, []);
    assert t[1..] == BasicText(s) + [QUOTE] + [];
    BasicStart(s);
  }

  /** The text of a basic string does not begin with a quote. */
  lemma BasicStart(s: Text)
    ensures LeadingQuotes([QUOTE] + BasicText(s) + [QUOTE], 3) < 3
  {
    var t := [QUOTE] + BasicText(s) + [QUOTE];
    if s == [] {
      assert |t| == 2;
    } else {
      assert t[1] == BasicChar(s[0])[0];
    }
  }

  lemma ReadsMulti(s: Text)
    requires !FindsNone(s, MULTILINE_CHARS)
    ensures ReadValue(Value(s)) == ReadMultiline(Body(s, 0, 0))
  {
    hide ReadMultiline, MultilineText;
    var t := Value(s);
    assert t[0] == t[1] == t[2] == QUOTE && t[3] == NEWLINE;
    var n := LeadingQuotes(t, 3);
    assert n != 0 && n != 1 && n != 2;
    assert t[4..] == Body(s, 0, 0);
  }

  /** A value comes back as it was exactly when it holds no carriage return; one with carriage returns
      comes back without them exactly when these do not bring three quotes together. */
  lemma EscapeStringExactly(s: Text)
    requires IsText(s)
    ensures ReadValue(Value(s)) == Good(s, []) <==> RETURN !in s
    ensures ReadValue(Value(s)) == Good(WithoutReturns(s), []) <==> RETURN !in s || NoTripleQuote(s, 0, 0)
    ensures ReadValue(Value(s)).Good?
  {
    hide ReadValue, Value, NoTripleQuote, ReadMultiline, MultilineText;
    if FindsNone(s, MULTILINE_CHARS) {
      ReadsSingle(s);
      assert RETURN !in s;
      NoReturnsNoTriples(s, 0);
    } else {
      ReadsMulti(s);
      if RETURN !in s {
        NoReturnsNoTriples(s, 0);
      } else {
        ReturnsShorten(s);
      }
      if NoTripleQuote(s, 0, 0) {
        MultilineReads(s, 0, 0);
        assert Quotes(0) + WithoutReturns(s) == WithoutReturns(s);
      } else {
        MultilineEndsEarly(s, 0, 0);
      }
    }
  }

  lemma {:induction false} ReturnsShorten(s: Text)
    ensures |WithoutReturns(s)| <= |s| && (RETURN in s ==> |WithoutReturns(s)| < |s|)
    decreases |s|
  {
    if s != [] {
      ReturnsShorten(s[1..]);
    }
  }

  /** Two quotes, a carriage return and a quote. */
  lemma ReturnJoinsQuotes()
    ensures !NoTripleQuote([QUOTE, QUOTE, RETURN, QUOTE], 0, 0)
  {
    var s0 := [QUOTE, QUOTE, RETURN, QUOTE];
    var s1, s2, s3 := s0[1..], s0[2..], s0[3..];
    assert !NoTripleQuote(s3, 0, 2);
    assert s2[1..] == s3 && s2[0] == RETURN;
    assert !NoTripleQuote(s2, 2, 2);
    assert s1[1..] == s2 && s1[0] == QUOTE;
    assert !NoTripleQuote(s1, 1, 1);
  }
}
