/** The token grammar as pure functions: what one call of the lexer's `next`
    does to a byte sequence (Scan), and the whole token stream (Lex). */
module Grammar {
  import opened Bytes

  /** `i64::MAX`, the largest value a `Number` token can carry. */
  const I64_MAX: int := 0x7FFF_FFFF_FFFF_FFFF

  datatype Token = Identifier(text: seq<byte>) | Number(value: int)

  /** A first byte that is a letter or `_`, then letters, digits or `_`. */
  predicate ValidIdentifier(text: seq<byte>) {
    |text| > 0 && IsIdentStart(text[0]) && AllIn(text, IdentChar)
  }

  /** What every emitted token satisfies. */
  predicate WellFormed(t: Token) {
    match t
    case Identifier(text) => ValidIdentifier(text)
    case Number(v) => 0 <= v <= I64_MAX
  }

  /** Length of the longest prefix of `s` whose bytes are all in `cls`. */
  function PrefixLen(s: seq<byte>, cls: ByteClass): (n: nat)
    ensures n <= |s|
    ensures AllIn(s[..n], cls)
    ensures Ends(s[n..], cls)
  {
    if s == [] || !InClass(s[0], cls) then 0
    else
      var n := 1 + PrefixLen(s[1..], cls);
      assert s[..n] == [s[0]] + s[1..][..n - 1];
      n
  }

  /** A run of class `cls` followed by a byte outside it (or nothing) has
      exactly its own length as maximal prefix. */
  lemma {:induction false} PrefixLenOfRun(run: seq<byte>, rest: seq<byte>, cls: ByteClass)
    requires AllIn(run, cls) && Ends(rest, cls)
    ensures PrefixLen(run + rest, cls) == |run|
  {
    if run != [] {
      assert (run + rest)[1..] == run[1..] + rest;
      PrefixLenOfRun(run[1..], rest, cls);
    } else {
      assert run + rest == rest;
    }
  }

  /** Base-10 reading of a digit run; leading zeros are allowed. */
  function DecimalValue(d: seq<byte>): nat
    requires AllIn(d, Digit)
  {
    if d == [] then 0
    else 10 * DecimalValue(d[..|d| - 1]) + (d[|d| - 1] as int - 48)
  }

  /** A leading `0` does not change the value of a digit run. */
  lemma {:induction false} LeadingZero(d: seq<byte>)
    requires AllIn(d, Digit)
    ensures AllIn([48 as byte] + d, Digit)
    ensures DecimalValue([48 as byte] + d) == DecimalValue(d)
  {
    var z := [48 as byte] + d;
    if d != [] {
      assert z[..|z| - 1] == [48 as byte] + d[..|d| - 1];
      LeadingZero(d[..|d| - 1]);
    }
  }

  /** Reading a longer run never gives a smaller value. */
  lemma {:induction false} DecimalPrefixBound(d: seq<byte>, i: nat)
    requires AllIn(d, Digit) && i <= |d|
    ensures DecimalValue(d[..i]) <= DecimalValue(d)
  {
    if i < |d| {
      assert d[..|d| - 1][..i] == d[..i];
      DecimalPrefixBound(d[..|d| - 1], i);
    } else {
      assert d[..i] == d;
    }
  }

  /** One more digit: the step the parser's accumulator takes. */
  lemma DecimalStep(d: seq<byte>, i: nat)
    requires AllIn(d, Digit) && i < |d|
    ensures DecimalValue(d[..i + 1]) == 10 * DecimalValue(d[..i]) + (d[i] as int - 48)
  {
    assert d[..i + 1][..i] == d[..i];
  }

  /** The shortest decimal spelling of `v` (no leading zeros). */
  function Digits(v: nat): (d: seq<byte>)
    ensures |d| > 0 && AllIn(d, Digit)
  {
    if v < 10 then [(48 + v) as byte]
    else Digits(v / 10) + [(48 + v % 10) as byte]
  }

  /** `Digits` is a right inverse of the parser's reading. */
  lemma {:induction false} DigitsValue(v: nat)
    ensures DecimalValue(Digits(v)) == v
  {
    if v >= 10 {
      var d := Digits(v);
      assert d[..|d| - 1] == Digits(v / 10);
      DigitsValue(v / 10);
    }
  }

  /** `s` is some ASCII whitespace followed by exactly `t`. */
  ghost predicate SkipsTo(s: seq<byte>, t: seq<byte>) {
    |t| <= |s| && s[|s| - |t|..] == t && AllIn(s[..|s| - |t|], Whitespace)
  }

  /** The outcome of one call of the lexer's `next` on the bytes still to
      come: a token with the bytes it was built from and the bytes after it;
      the end of the token stream, with the bytes not consumed; or the
      `unwrap` panic on a digit run that does not fit in an `i64`. */
  datatype Step =
    | Emit(tok: Token, lexeme: seq<byte>, rest: seq<byte>)
    | Stop(rest: seq<byte>)
    | Overflow(lexeme: seq<byte>, rest: seq<byte>)

  /** The identifier branch: the peeked letter or `_` and every following
      letter, digit or `_`. */
  function IdentifierStep(s: seq<byte>): (st: Step)
    requires s != [] && IsIdentStart(s[0])
    ensures st.Emit? && st.tok == Identifier(st.lexeme) && s == st.lexeme + st.rest
    ensures ValidIdentifier(st.lexeme) && Ends(st.rest, IdentChar)
  {
    var n := 1 + PrefixLen(s[1..], IdentChar);
    IdentifierAt(s, n);
    Emit(Identifier(s[..n]), s[..n], s[n..])
  }

  lemma IdentifierAt(s: seq<byte>, n: nat)
    requires s != [] && IsIdentStart(s[0]) && n == 1 + PrefixLen(s[1..], IdentChar)
    ensures n <= |s| && s == s[..n] + s[n..]
    ensures ValidIdentifier(s[..n]) && Ends(s[n..], IdentChar)
  {
    var tail := s[1..];
    var k := n - 1;
    assert AllIn(tail[..k], IdentChar) && Ends(tail[k..], IdentChar);
    assert s[..n] == [s[0]] + tail[..k];
    assert s[n..] == tail[k..];
    AllInCons(s[0], tail[..k], IdentChar);
  }

  lemma AllInCons(b: byte, t: seq<byte>, cls: ByteClass)
    requires InClass(b, cls) && AllIn(t, cls)
    ensures AllIn([b] + t, cls)
  {
    assert forall i :: 1 <= i < |t| + 1 ==> ([b] + t)[i] == t[i - 1];
  }

  /** The number branch: the maximal digit run and its reading as an `i64`. */
  function NumberStep(s: seq<byte>): (st: Step)
    requires s != [] && IsDigit(s[0])
    ensures !st.Stop? && |st.lexeme| > 0 && s == st.lexeme + st.rest
    ensures AllIn(st.lexeme, Digit) && Ends(st.rest, Digit)
    ensures st.Emit? ==> st.tok == Number(DecimalValue(st.lexeme)) && DecimalValue(st.lexeme) <= I64_MAX
    ensures st.Overflow? ==> DecimalValue(st.lexeme) > I64_MAX
  {
    var n := PrefixLen(s, Digit);
    assert s == s[..n] + s[n..];
    var v := DecimalValue(s[..n]);
    if v <= I64_MAX then Emit(Number(v), s[..n], s[n..]) else Overflow(s[..n], s[n..])
  }

  function Scan(s: seq<byte>): (st: Step)
    decreases |s|
    // whitespace is consumed; the stop byte, if any, is not
    ensures st.Stop? ==> SkipsTo(s, st.rest) && (st.rest == [] || IsForeign(st.rest[0]))
    ensures !st.Stop? ==> |st.lexeme| > 0 && SkipsTo(s, st.lexeme + st.rest)
    // an identifier is a maximal run that starts with a letter or `_`
    ensures st.Emit? && st.tok.Identifier? ==>
      st.tok.text == st.lexeme && ValidIdentifier(st.lexeme) && Ends(st.rest, IdentChar)
    // a number comes from a maximal digit run ...
    ensures (st.Emit? && st.tok.Number?) || st.Overflow? ==>
      AllIn(st.lexeme, Digit) && Ends(st.rest, Digit)
    // ... and carries its base-10 value, unless that exceeds i64::MAX
    ensures st.Emit? && st.tok.Number? ==> st.tok.value == DecimalValue(st.lexeme) <= I64_MAX
    ensures st.Overflow? ==> DecimalValue(st.lexeme) > I64_MAX
  {
    if s == [] then Stop(s)
    else if IsIdentStart(s[0]) then
      NoBlanks(s);
      IdentifierStep(s)
    else if IsDigit(s[0]) then
      NoBlanks(s);
      NumberStep(s)
    else if IsWhitespace(s[0]) then
      var st := Scan(s[1..]);
      SkipBlank(s, if st.Stop? then st.rest else st.lexeme + st.rest);
      st
    else
      NoBlanks(s);
      Stop(s)
  }

  lemma NoBlanks(s: seq<byte>)
    ensures SkipsTo(s, s)
  {
    assert s[..0] == [];
  }

  lemma SkipBlank(s: seq<byte>, t: seq<byte>)
    requires s != [] && IsWhitespace(s[0]) && SkipsTo(s[1..], t)
    ensures SkipsTo(s, t)
  {
    assert s[..|s| - |t|] == [s[0]] + s[1..][..|s| - 1 - |t|];
    AllInCons(s[0], s[1..][..|s| - 1 - |t|], Whitespace);
  }

  /** The token stream a lexer produces, and whether it ended normally or in
      the overflow panic (after the tokens listed). */
  datatype LexResult = Finished(tokens: seq<Token>) | Aborted(tokens: seq<Token>)

  /** `toks` followed by the tokens of `r`, ending as `r` ends. */
  function Prepend(toks: seq<Token>, r: LexResult): LexResult {
    match r
    case Finished(ts) => Finished(toks + ts)
    case Aborted(ts) => Aborted(toks + ts)
  }

  /** An emitted token is well formed and consumes at least one byte. */
  lemma EmitProgress(s: seq<byte>)
    requires Scan(s).Emit?
    ensures WellFormed(Scan(s).tok) && |Scan(s).rest| < |s|
  {
    var st := Scan(s);
    assert SkipsTo(s, st.lexeme + st.rest);
  }

  function Lex(s: seq<byte>): (r: LexResult)
    decreases |s|
    ensures forall i :: 0 <= i < |r.tokens| ==> WellFormed(r.tokens[i])
  {
    var st := Scan(s);
    if st.Emit? then
      EmitProgress(s);
      Prepend([st.tok], Lex(st.rest))
    else if st.Stop? then Finished([])
    else Aborted([])
  }

  /** Every identifier the lexer produces is ASCII text. */
  lemma TokensAreAscii(s: seq<byte>)
    ensures forall i, j ::
      0 <= i < |Lex(s).tokens| && Lex(s).tokens[i].Identifier? && 0 <= j < |Lex(s).tokens[i].text|
      ==> Lex(s).tokens[i].text[j] < 128
  {
    var toks := Lex(s).tokens;
    forall i | 0 <= i < |toks| && toks[i].Identifier?
      ensures forall j :: 0 <= j < |toks[i].text| ==> toks[i].text[j] < 128
    {
      assert WellFormed(toks[i]);
      RunIsAscii(toks[i].text, IdentChar);
    }
  }

  /** A whole identifier followed by a byte that cannot continue it is
      scanned as exactly that identifier. */
  lemma ScanIdentifier(text: seq<byte>, rest: seq<byte>)
    requires ValidIdentifier(text) && Ends(rest, IdentChar)
    ensures Scan(text + rest) == Emit(Identifier(text), text, rest)
  {
    var s := text + rest;
    assert s[0] == text[0] && s[1..] == text[1..] + rest;
    assert AllIn(text[1..], IdentChar) by {
      assert forall i :: 0 <= i < |text| - 1 ==> text[1..][i] == text[i + 1];
    }
    PrefixLenOfRun(text[1..], rest, IdentChar);
    assert s[..|text|] == text && s[|text|..] == rest;
    assert IdentifierStep(s) == Emit(Identifier(text), text, rest);
    assert Scan(s) == IdentifierStep(s);
  }

  /** A whole digit run followed by a non-digit is scanned as its value, or
      as the overflow panic when the value does not fit in an `i64`. */
  lemma ScanNumber(digits: seq<byte>, rest: seq<byte>)
    requires |digits| > 0 && AllIn(digits, Digit) && Ends(rest, Digit)
    ensures Scan(digits + rest) ==
      if DecimalValue(digits) <= I64_MAX then Emit(Number(DecimalValue(digits)), digits, rest)
      else Overflow(digits, rest)
  {
    var s := digits + rest;
    assert s[0] == digits[0] && IsDigit(s[0]) && !IsIdentStart(s[0]);
    assert Scan(s) == NumberStep(s);
    PrefixLenOfRun(digits, rest, Digit);
    assert NumberStep(s).lexeme == s[..|digits|] == digits;
  }

  /** Once `next` has returned `None`, every later call returns `None`
      without consuming anything. */
  lemma StopIsFinal(s: seq<byte>)
    requires Scan(s).Stop?
    ensures Scan(Scan(s).rest) == Scan(s)
  {
  }

  /** Empty or whitespace-only input yields no tokens. */
  lemma {:induction false} BlankInput(s: seq<byte>)
    requires AllIn(s, Whitespace)
    ensures Lex(s) == Finished([])
  {
    if s != [] {
      assert AllIn(s[1..], Whitespace);
      BlankInput(s[1..]);
    }
  }

  /** The spelling of a token: its text, or the shortest decimal of its value. */
  function Spelling(t: Token): (b: seq<byte>)
    requires WellFormed(t)
    ensures |b| > 0
  {
    match t
    case Identifier(text) => text
    case Number(v) => Digits(v)
  }

  /** Tokens written out, each followed by one space. */
  function Render(toks: seq<Token>): seq<byte>
    requires forall i :: 0 <= i < |toks| ==> WellFormed(toks[i])
  {
    if toks == [] then [] else Spelling(toks[0]) + [32 as byte] + Render(toks[1..])
  }

  /** A leading whitespace byte is skipped. */
  lemma LexSkipsBlank(b: byte, s: seq<byte>)
    requires IsWhitespace(b)
    ensures Lex([b] + s) == Lex(s)
  {
    ScanSkipsBlank(b, s);
  }

  lemma ScanSkipsBlank(b: byte, s: seq<byte>)
    requires IsWhitespace(b)
    ensures Scan([b] + s) == Scan(s)
  {
    var t := [b] + s;
    assert t[0] == b && !IsIdentStart(b) && !IsDigit(b);
    assert t[1..] == s;
  }

  /** A well-formed token spelled out and followed by a space is lexed as
      that token. */
  lemma LexSpelling(t: Token, s: seq<byte>)
    requires WellFormed(t)
    ensures Lex(Spelling(t) + [32 as byte] + s) == Prepend([t], Lex(s))
  {
    var tail := [32 as byte] + s;
    assert Spelling(t) + [32 as byte] + s == Spelling(t) + tail;
    match t {
      case Identifier(text) =>
        ScanIdentifier(text, tail);
      case Number(v) =>
        DigitsValue(v);
        ScanNumber(Digits(v), tail);
    }
    LexSkipsBlank(32 as byte, s);
  }

  /** Lexing recovers every sequence of well-formed tokens from its
      rendering. */
  lemma {:induction false} LexRender(toks: seq<Token>)
    requires forall i :: 0 <= i < |toks| ==> WellFormed(toks[i])
    ensures Lex(Render(toks)) == Finished(toks)
  {
    if toks != [] {
      LexSpelling(toks[0], Render(toks[1..]));
      LexRender(toks[1..]);
      assert [toks[0]] + toks[1..] == toks;
    }
  }

  /** Appends `more` to the bytes left after a step. */
  function Extend(st: Step, more: seq<byte>): Step {
    match st
    case Emit(t, lexeme, rest) => Emit(t, lexeme, rest + more)
    case Stop(rest) => Stop(rest + more)
    case Overflow(lexeme, rest) => Overflow(lexeme, rest + more)
  }

  /** A prefix run is unaffected by what follows a byte that ends it. */
  lemma {:induction false} PrefixLenAppend(a: seq<byte>, more: seq<byte>, cls: ByteClass)
    requires more != [] && !InClass(more[0], cls)
    ensures PrefixLen(a + more, cls) == PrefixLen(a, cls)
  {
    if a != [] {
      assert (a + more)[1..] == a[1..] + more;
      PrefixLenAppend(a[1..], more, cls);
    } else {
      assert a + more == more;
    }
  }

  /** One step over `a` followed by an unrecognised byte does what it does
      over `a`, and leaves the unrecognised byte and the rest unconsumed. */
  lemma {:induction false} ScanBeforeForeign(a: seq<byte>, more: seq<byte>)
    requires more != [] && IsForeign(more[0])
    ensures Scan(a + more) == Extend(Scan(a), more)
    decreases |a|
  {
    var s := a + more;
    if a == [] {
      assert s == more;
    } else if IsIdentStart(a[0]) {
      IdentifierBeforeForeign(a, more);
    } else if IsDigit(a[0]) {
      NumberBeforeForeign(a, more);
    } else if IsWhitespace(a[0]) {
      assert s[1..] == a[1..] + more;
      ScanBeforeForeign(a[1..], more);
    }
  }

  lemma IdentifierBeforeForeign(a: seq<byte>, more: seq<byte>)
    requires a != [] && IsIdentStart(a[0]) && more != [] && IsForeign(more[0])
    ensures IdentifierStep(a + more) == Extend(IdentifierStep(a), more)
  {
    var s := a + more;
    assert s[1..] == a[1..] + more;
    PrefixLenAppend(a[1..], more, IdentChar);
    var n := 1 + PrefixLen(a[1..], IdentChar);
    assert s[..n] == a[..n] && s[n..] == a[n..] + more;
  }

  lemma NumberBeforeForeign(a: seq<byte>, more: seq<byte>)
    requires a != [] && IsDigit(a[0]) && more != [] && IsForeign(more[0])
    ensures NumberStep(a + more) == Extend(NumberStep(a), more)
  {
    var s := a + more;
    PrefixLenAppend(a, more, Digit);
    var n := PrefixLen(a, Digit);
    assert s[..n] == a[..n] && s[n..] == a[n..] + more;
  }

  /** Any byte that is not a letter, digit, `_` or whitespace silently ends
      the token stream: nothing after it is ever lexed. */
  lemma {:induction false} ForeignByteTruncates(a: seq<byte>, c: byte, b: seq<byte>)
    requires IsForeign(c)
    ensures Lex(a + [c] + b) == Lex(a)
    decreases |a|
  {
    var more := [c] + b;
    assert a + [c] + b == a + more;
    ScanBeforeForeign(a, more);
    match Scan(a)
    case Emit(t, _, rest) =>
      assert rest + [c] + b == rest + more;
      ForeignByteTruncates(rest, c, b);
    case Stop(_) =>
    case Overflow(_, _) =>
  }

  /** What the number branch of `next` returns, given the result of parsing
      the digit run it accumulated. */
  lemma NumberBranch(input: seq<byte>, digits: seq<byte>, rest: seq<byte>, parsed: Option<int>)
    requires input == digits + rest && |digits| > 0 && AllIn(digits, Digit) && Ends(rest, Digit)
    requires parsed.Some? <==> DecimalValue(digits) <= I64_MAX
    requires parsed.Some? ==> parsed.value == DecimalValue(digits)
    ensures Scan(input) == if parsed.Some? then Emit(Number(parsed.value), digits, rest) else Overflow(digits, rest)
  {
    ScanNumber(digits, rest);
  }
}
