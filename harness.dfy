/** Driving a lexer to exhaustion over each kind of byte source, the way the
    benchmarks collect every token. Each driver builds a fresh source and
    lexer, and is proved to produce `Lex` of the bytes the source holds. */
module Harness {
  import opened Bytes
  import opened Grammar
  import opened Io
  import opened Readers
  import opened Lexing

  /** One token more in the collected prefix. */
  lemma CollectStep(input: seq<byte>, toks: seq<Token>, before: seq<byte>)
    requires Scan(before).Emit?
    requires Lex(input) == Prepend(toks, Lex(before))
    ensures |Scan(before).rest| < |before|
    ensures Lex(input) == Prepend(toks + [Scan(before).tok], Lex(Scan(before).rest))
  {
    var st := Scan(before);
    EmitProgress(before);
    var r := Lex(st.rest);
    assert Lex(before) == Prepend([st.tok], r);
    assert toks + ([st.tok] + r.tokens) == (toks + [st.tok]) + r.tokens;
  }

  /** The collection ends with the tokens gathered so far. */
  lemma CollectEnd(input: seq<byte>, toks: seq<Token>, before: seq<byte>)
    requires !Scan(before).Emit?
    requires Lex(input) == Prepend(toks, Lex(before))
    ensures Lex(input) == if Scan(before).Stop? then Finished(toks) else Aborted(toks)
  {
    assert toks + [] == toks;
  }

  /** `Iterator::collect` over the lexer: calls `next` until it returns
      `None`; the overflow panic stops the collection where it happens. */
  method Drain(lexer: Lexer) returns (r: LexResult)
    requires lexer.Valid()
    modifies lexer.Repr()
    ensures r == Lex(old(lexer.Input()))
  {
    ghost var input := lexer.Input();
    var toks: seq<Token> := [];
    while true
      invariant lexer.Valid()
      invariant Lex(input) == Prepend(toks, Lex(lexer.Input()))
      decreases |lexer.Input()|
    {
      ghost var before := lexer.Input();
      var n := lexer.Next();
      match n
      case Item(t) =>
        CollectStep(input, toks, before);
        toks := toks + [t];
      case End =>
        CollectEnd(input, toks, before);
        return Finished(toks);
      case Panic =>
        CollectEnd(input, toks, before);
        return Aborted(toks);
    }
  }

  /** The memory-mapped source over a file's contents. */
  method LexMapped(contents: seq<byte>) returns (r: LexResult)
    ensures r == Lex(contents)
  {
    var reader := new MMapReader(contents);
    var lexer := new Lexer(Mapped(reader));
    r := Drain(lexer);
  }

  /** The unbuffered source over any behaviour of the underlying reads. */
  method LexUnbuffered(replies: seq<Reply>) returns (r: LexResult)
    requires Fits(replies, 1)
    ensures r == Lex(Delivered(replies))
  {
    var reader := new ByteReader(replies);
    var lexer := new Lexer(Unbuffered(reader));
    r := Drain(lexer);
  }

  /** The buffered source with a fresh buffer of `capacity` bytes, over any
      behaviour of the underlying reads: a read reporting more than the
      buffer holds ends the stream; reads that respect the buffer size are
      lexed in full. */
  method LexBuffered(replies: seq<Reply>, capacity: nat) returns (r: LexResult)
    ensures r == Lex(DeliveredWithin(replies, capacity))
    ensures Fits(replies, capacity) ==> r == Lex(Delivered(replies))
  {
    var buffer := new byte[capacity];
    var reader := new BufferedReader(replies, buffer);
    var lexer := new Lexer(Buffered(reader));
    r := Drain(lexer);
    if Fits(replies, capacity) {
      DeliveredWithinFits(replies, capacity);
    }
  }

  /** Reading a file one byte per call lexes the whole file. */
  method LexFileUnbuffered(data: seq<byte>) returns (r: LexResult)
    ensures r == Lex(data)
  {
    FileDelivers(data, 1);
    r := LexUnbuffered(FileReplies(data, 1));
  }

  /** Reading a file through a buffer of any non-zero capacity lexes the
      whole file: the tokens do not depend on the capacity. */
  method LexFileBuffered(data: seq<byte>, capacity: nat) returns (r: LexResult)
    ensures capacity > 0 ==> r == Lex(data)
    ensures capacity == 0 ==> r == Finished([])
  {
    FileDelivers(data, capacity);
    r := LexBuffered(FileReplies(data, capacity), capacity);
  }
}
