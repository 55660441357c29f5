/** The single-lookahead lexer over any byte source, proved against `Scan`. */
module Lexing {
  import opened Bytes
  import opened Grammar
  import opened Readers

  /** What one call of `next` gives back: a token, `None`, or the panic of
      `unwrap` on a number that does not fit in an `i64`. */
  datatype NextResult = Item(tok: Token) | End | Panic

  /** `str::parse::<i64>` on a non-empty run of ASCII digits: the accumulator
      is multiplied by ten and the digit added with overflow checks, and an
      overflow is an error, never a wrapped value. */
  method ParseI64(digits: seq<byte>) returns (r: Option<int>)
    requires |digits| > 0 && AllIn(digits, Digit)
    ensures r.Some? <==> DecimalValue(digits) <= I64_MAX
    ensures r.Some? ==> r.value == DecimalValue(digits)
  {
    var acc := 0;
    var i := 0;
    while i < |digits|
      invariant 0 <= i <= |digits|
      invariant acc == DecimalValue(digits[..i]) <= I64_MAX
    {
      DecimalStep(digits, i);
      acc := acc * 10 + (digits[i] as int - 48);
      if acc > I64_MAX {
        DecimalPrefixBound(digits, i + 1);
        return None;
      }
      i := i + 1;
    }
    assert digits[..i] == digits;
    r := Some(acc);
  }

  /** Moving the next byte of the input onto the end of the accumulated run. */
  lemma RunGrows(s: seq<byte>, b: byte, rest: seq<byte>, input: seq<byte>, cls: ByteClass)
    requires s + ([b] + rest) == input && |s| > 0 && AllIn(s[1..], cls) && InClass(b, cls)
    ensures (s + [b]) + rest == input && (s + [b])[0] == s[0] && AllIn((s + [b])[1..], cls)
  {
    assert (s + [b]) + rest == s + ([b] + rest);
    assert (s + [b])[1..] == s[1..] + [b];
  }

  class Lexer {
    const inner: Source
    /** The `Peekable` cache: nothing peeked yet, a peeked `None` (kept, so
        the source is not asked again), or a peeked byte. */
    var peeked: Option<Option<byte>>

    ghost function Repr(): set<object> {
      {this} + inner.Repr()
    }

    ghost predicate Valid()
      reads this, inner.Repr()
    {
      this !in inner.Repr() && inner.Valid()
    }

    /** The bytes the lexer has still to see. */
    ghost function Input(): seq<byte>
      reads this, inner.Repr()
      requires Valid()
    {
      match peeked
      case None => inner.Stream()
      case Some(None) => []
      case Some(Some(b)) => [b] + inner.Stream()
    }

    constructor (inner: Source)
      requires inner.Valid()
      ensures Valid() && this.inner == inner && peeked == None
      ensures Input() == inner.Stream()
    {
      this.inner := inner;
      peeked := None;
    }

    /** `Peekable::peek`: asks the source only when nothing is cached. */
    method Peek() returns (c: Option<byte>)
      requires Valid()
      modifies Repr()
      ensures Valid() && Input() == old(Input()) && peeked == Some(c)
      ensures c == if Input() == [] then None else Some(Input()[0])
      // a cached answer, `None` included, is given again without a read
      ensures old(peeked).Some? ==> peeked == old(peeked) && unchanged(inner.Repr())
    {
      if peeked.None? {
        var b := inner.Next();
        peeked := Some(b);
      }
      c := peeked.value;
    }

    /** `Peekable::next` right after a peek that found a byte: takes it. */
    method Advance()
      requires Valid() && peeked.Some? && peeked.value.Some?
      modifies this
      ensures Valid() && peeked == None
      ensures Input() == old(Input())[1..]
    {
      peeked := None;
    }

    /** The accumulation loop of both token branches: takes the peeked byte
        and then every following byte of class `cls`, stopping (without
        consuming) at the first byte outside it or at the end. */
    method Accumulate(cls: ByteClass) returns (s: seq<byte>)
      requires Valid() && peeked.Some? && peeked.value.Some? && InClass(peeked.value.value, cls)
      modifies Repr()
      ensures Valid()
      ensures |s| > 0 && s[0] == old(peeked.value.value) && AllIn(s, cls)
      ensures s + Input() == old(Input()) && Ends(Input(), cls)
      // ASCII only, so valid UTF-8 for `from_utf8_unchecked`
      ensures forall i :: 0 <= i < |s| ==> s[i] < 128
    {
      ghost var input := Input();
      s := [peeked.value.value];
      Advance();
      while true
        invariant Valid() && s + Input() == input
        invariant |s| > 0 && s[0] == input[0] && AllIn(s[1..], cls)
        decreases |Input()|
      {
        var d := Peek();
        if d.Some? && InClass(d.value, cls) {
          Advance();
          RunGrows(s, d.value, Input(), input, cls);
          s := s + [d.value];
        } else {
          break;
        }
      }
      assert s == [s[0]] + s[1..];
      AllInCons(s[0], s[1..], cls);
      RunIsAscii(s, cls);
    }

    /** The identifier branch of `next`, entered with a peeked letter or `_`. */
    method LexIdentifier() returns (s: seq<byte>)
      requires Valid() && peeked.Some? && peeked.value.Some? && IsIdentStart(peeked.value.value)
      modifies Repr()
      ensures Valid()
      ensures Scan(old(Input())) == Emit(Identifier(s), s, Input())
      ensures forall i :: 0 <= i < |s| ==> s[i] < 128
    {
      s := Accumulate(IdentChar);
      ScanIdentifier(s, Input());
    }

    /** The number branch of `next`, entered with a peeked digit. */
    method LexNumber() returns (r: NextResult)
      requires Valid() && peeked.Some? && peeked.value.Some? && IsDigit(peeked.value.value)
      modifies Repr()
      ensures Valid()
      ensures Scan(old(Input())).Emit? ==>
        r == Item(Scan(old(Input())).tok) && Input() == Scan(old(Input())).rest
      ensures !Scan(old(Input())).Emit? ==> Scan(old(Input())).Overflow? && r == Panic
    {
      ghost var input := Input();
      var s := Accumulate(Digit);
      var v := ParseI64(s);
      NumberBranch(input, s, Input(), v);
      if v.None? {
        return Panic;
      }
      r := Item(Number(v.value));
    }

    method Next() returns (r: NextResult)
      requires Valid()
      modifies Repr()
      ensures Valid()
      ensures match Scan(old(Input()))
        case Emit(tok, _, rest) => r == Item(tok) && Input() == rest
        case Stop(rest) => r == End && Input() == rest
        case Overflow(_, _) => r == Panic
      decreases |Input()|
    {
      ghost var input := Input();
      var c := Peek();
      if c.None? {
        return End;
      }
      var x := c.value;
      if IsIdentStart(x) {
        var s := LexIdentifier();
        r := Item(Identifier(s));
      } else if IsDigit(x) {
        r := LexNumber();
      } else if IsWhitespace(x) {
        assert Scan(input) == Scan(input[1..]);
        Advance();
        r := Next();
      } else {
        r := End;
      }
    }
  }
}
