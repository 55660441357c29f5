/** Bytes and the ASCII character classes the lexer distinguishes. */
module Bytes {

  /** An unsigned 8-bit value, Rust's `u8`. */
  newtype byte = b: int | 0 <= b < 256

  datatype Option<T> = None | Some(value: T)

  const Underscore: byte := 95

  /** `u8::is_ascii_alphabetic`: `A`..`Z` or `a`..`z`. */
  predicate IsAlpha(b: byte) {
    (65 <= b <= 90) || (97 <= b <= 122)
  }

  /** `u8::is_ascii_digit`: `0`..`9`. */
  predicate IsDigit(b: byte) {
    48 <= b <= 57
  }

  /** `u8::is_ascii_whitespace`: space, tab, line feed, form feed and carriage
      return. The vertical tab (0x0B) is deliberately not in this class. */
  predicate IsWhitespace(b: byte) {
    b == 32 || b == 9 || b == 10 || b == 12 || b == 13
  }

  /** A byte that may start an identifier. */
  predicate IsIdentStart(b: byte) {
    IsAlpha(b) || b == Underscore
  }

  /** A byte that may continue an identifier (`is_ascii_alphanumeric` or `_`). */
  predicate IsIdentChar(b: byte) {
    IsAlpha(b) || IsDigit(b) || b == Underscore
  }

  /** A byte the lexer does not recognise: it ends the token stream. */
  predicate IsForeign(b: byte) {
    !IsIdentStart(b) && !IsDigit(b) && !IsWhitespace(b)
  }

  datatype ByteClass = IdentChar | Digit | Whitespace

  predicate InClass(b: byte, cls: ByteClass) {
    match cls
    case IdentChar => IsIdentChar(b)
    case Digit => IsDigit(b)
    case Whitespace => IsWhitespace(b)
  }

  /** Every byte of `s` is in class `cls`. */
  predicate AllIn(s: seq<byte>, cls: ByteClass) {
    forall i :: 0 <= i < |s| ==> InClass(s[i], cls)
  }

  /** `rest` does not continue a run of class `cls`. */
  predicate Ends(rest: seq<byte>, cls: ByteClass) {
    rest == [] || !InClass(rest[0], cls)
  }

  /** Every ASCII byte is below 0x80, so an accumulator of identifier or
      digit bytes is always valid UTF-8 text. */
  lemma ClassesAreAscii(b: byte, cls: ByteClass)
    requires InClass(b, cls)
    ensures b < 128
  {
  }

  /** A run of one class is ASCII throughout, so the bytes the lexer
      accumulates are valid UTF-8 text. */
  lemma RunIsAscii(s: seq<byte>, cls: ByteClass)
    requires AllIn(s, cls)
    ensures forall i :: 0 <= i < |s| ==> s[i] < 128
  {
    forall i | 0 <= i < |s|
      ensures s[i] < 128
    {
      ClassesAreAscii(s[i], cls);
    }
  }
}
