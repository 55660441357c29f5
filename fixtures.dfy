/** Concrete inputs and the token streams the grammar assigns them. */
module Fixtures {
  import opened Bytes
  import opened Grammar

  /** The bytes of a string of ASCII characters. */
  function Ascii(s: string): (r: seq<byte>)
    requires forall i :: 0 <= i < |s| ==> s[i] as int < 256
    ensures |r| == |s|
    ensures forall i :: 0 <= i < |s| ==> r[i] as int == s[i] as int
  {
    seq(|s|, i requires 0 <= i < |s| => s[i] as int as byte)
  }

  lemma AsciiAppend(s: string, t: string)
    requires forall i :: 0 <= i < |s| ==> s[i] as int < 256
    requires forall i :: 0 <= i < |t| ==> t[i] as int < 256
    ensures forall i :: 0 <= i < |s + t| ==> (s + t)[i] as int < 256
    ensures Ascii(s + t) == Ascii(s) + Ascii(t)
  {
  }

  function Pow10(n: nat): nat {
    if n == 0 then 1 else 10 * Pow10(n - 1)
  }

  /** A digit run without a leading zero is worth at least `10^(len-1)`, so
      every such run of twenty or more digits overflows an `i64`. */
  lemma {:induction false} DecimalLowerBound(d: seq<byte>)
    requires |d| > 0 && AllIn(d, Digit) && d[0] != 48
    ensures DecimalValue(d) >= Pow10(|d| - 1)
  {
    if |d| > 1 {
      var init := d[..|d| - 1];
      assert init[0] == d[0];
      DecimalLowerBound(init);
    }
  }

  /** `ab3_c 42` and a newline: an identifier with a digit and `_` inside,
      then a number; the trailing newline adds nothing. */
  lemma IdentifierThenNumber()
    ensures Lex(Ascii("ab3_c 42\n")) == Finished([Identifier(Ascii("ab3_c")), Number(42)])
  {
    var id, num, nl := Ascii("ab3_c"), Ascii("42"), Ascii("\n");
    SplitExample();
    NumberFortyTwo(num, nl);
    IdentifierThenToken(id, num + nl, Number(42));
  }

  lemma SplitExample()
    ensures Ascii("ab3_c 42\n") == Ascii("ab3_c") + ([32 as byte] + (Ascii("42") + Ascii("\n")))
    ensures ValidIdentifier(Ascii("ab3_c"))
  {
    assert "ab3_c" + " 42\n" == "ab3_c 42\n";
    AsciiAppend("ab3_c", " 42\n");
    SplitTail();
  }

  lemma SplitTail()
    ensures Ascii(" 42\n") == [32 as byte] + (Ascii("42") + Ascii("\n"))
  {
    assert " " + "42\n" == " 42\n" && "42" + "\n" == "42\n";
    AsciiAppend(" ", "42\n");
    AsciiAppend("42", "\n");
  }

  /** An identifier, a space, then input that lexes to exactly one token. */
  lemma IdentifierThenToken(id: seq<byte>, s: seq<byte>, t: Token)
    requires ValidIdentifier(id) && Lex(s) == Finished([t])
    ensures Lex(id + ([32 as byte] + s)) == Finished([Identifier(id), t])
  {
    ScanIdentifier(id, [32 as byte] + s);
    LexSkipsBlank(32 as byte, s);
    assert [Identifier(id)] + [t] == [Identifier(id), t];
  }

  lemma NumberFortyTwo(num: seq<byte>, nl: seq<byte>)
    requires num == Ascii("42") && nl == Ascii("\n")
    ensures Lex(num + nl) == Finished([Number(42)])
  {
    assert AllIn(num, Digit) && num[..1] == [52 as byte] && num[..0] == [];
    assert DecimalValue(num[..1]) == 4;
    assert DecimalValue(num) == 42;
    ScanNumber(num, nl);
    BlankInput(nl);
  }

  /** Input that ends inside an identifier still yields all of it. */
  lemma IdentifierAtEnd(id: seq<byte>)
    requires ValidIdentifier(id)
    ensures Lex(id) == Finished([Identifier(id)])
  {
    assert id + [] == id;
    ScanIdentifier(id, []);
  }

  lemma NoTrailingDelimiter()
    ensures Lex(Ascii("foo")) == Finished([Identifier(Ascii("foo"))])
  {
    IdentifierAtEnd(Ascii("foo"));
  }

  /** A run of twenty nines exceeds `i64::MAX`: the `unwrap` panic, not a
      wrapped value. */
  lemma TwentyNinesOverflow()
    ensures Lex(Ascii("99999999999999999999")) == Aborted([])
  {
    var d := Ascii("99999999999999999999");
    TwentyNinesValue(d);
    OverflowAtEnd(d);
  }

  lemma TwentyNinesValue(d: seq<byte>)
    requires d == Ascii("99999999999999999999")
    ensures |d| > 0 && AllIn(d, Digit) && DecimalValue(d) > I64_MAX
  {
    assert |d| == 20 && d[0] == 57;
    DecimalLowerBound(d);
    Pow10Nineteen();
  }

  lemma Pow10Nineteen()
    ensures Pow10(19) > I64_MAX
  {
    assert Pow10(10) == 10000000000;
    assert Pow10(19) == 10000000000000000000;
  }

  /** A digit run too large for an `i64` at the very end of the input. */
  lemma OverflowAtEnd(d: seq<byte>)
    requires |d| > 0 && AllIn(d, Digit) && DecimalValue(d) > I64_MAX
    ensures Lex(d) == Aborted([])
  {
    assert d + [] == d;
    ScanNumber(d, []);
  }

  /** A comma ends the stream: the identifier after it is never produced. */
  lemma CommaEndsStream()
    ensures Lex(Ascii("a,b")) == Finished([Identifier(Ascii("a"))])
  {
    var a := Ascii("a");
    assert Ascii("a,b") == a + [44 as byte] + Ascii("b");
    ForeignByteTruncates(a, 44 as byte, Ascii("b"));
    IdentifierAtEnd(a);
  }
}
