# lexer-io-perf in Dafny

`lexer-io-perf` measures how the way a file's bytes reach a lexer affects lexing
speed. A single-lookahead lexer turns a byte iterator into `Identifier` and
`Number` tokens. It is driven by one of three byte sources:

- `ByteReader`: one `read_exact` per byte;
- `BufferedReader`: a caller-supplied buffer with `offset`/`remainder` cursors, refilled by one `read` when drained;
- `MMapReader`: a pointer walk over a memory-mapped file.

This project models the lexer and the three sources and proves them correct
against a pure grammar.

- `bytes.dfy` (`Bytes`): the `u8` type and the ASCII classes the lexer tests.
  - `is_ascii_whitespace` covers space, tab, line feed, form feed and carriage return.
  - It does not cover the vertical tab 0x0B.
- `grammar.dfy` (`Grammar`): the tokens and two pure functions.
  - `Scan` is one call of `next` on the bytes still to come: a token, the end of the stream, or the `unwrap` panic of an `i64` overflow.
  - `Lex` is the whole token stream.
  - Properties proved about them:
    - maximal runs;
    - base-10 values;
    - whitespace skipping;
    - a foreign byte truncating the stream;
    - the stop being final;
    - a render/lex round trip.
- `io.dfy` (`Io`): the `Read` a reader pulls from.
  - It is modelled as the sequence of replies that successive `read` calls return: `Ok` with bytes, or `Err`.
  - `Delivered` is the bytes handed out before the first error or `Ok(0)`.
  - `FileReplies` is a regular file read through a buffer of a given size.
- `readers.dfy` (`Readers`): the three sources as classes whose `Next` updates their fields in place.
  - Each class exposes `Stream()`, the bytes it yields before its next `None`; `Next` yields `None` exactly when `Stream()` is empty.
  - The lexer's `Peekable` caches that `None`, so the lexer never asks the source again.
  - `Source` is the tagged choice among the three that the lexer is written against.
- `lexer.dfy` (`Lexing`): the `Lexer` class.
  - It holds the `Peekable` cache, which may hold a cached `None`.
  - It includes `str::parse::<i64>` on digit runs.
  - `Next` is proved to do exactly what `Scan` says.
- `harness.dfy` (`Harness`): collecting the whole iterator, as the benchmarks do.
  - Every source yields `Lex` of the bytes it delivers, over any read behaviour that respects the buffer size.
  - The corrected buffered reader (see Findings) also accepts reads that report more than the buffer holds.
  - A file read through any non-empty buffer gives the same tokens as the file's contents.
- `fixtures.dfy` (`Fixtures`): concrete inputs and the token streams they produce.

## Model

| member | source | states |
|---|---|---|
| Bytes.ClassesAreAscii | src/lib.rs:45 | every byte an identifier or a number can contain is below 0x80 |
| Bytes.RunIsAscii | src/lib.rs:45 | a run of identifier bytes or digits is ASCII throughout, so it is valid UTF-8 for `from_utf8_unchecked` |
| Grammar.PrefixLen | src/lib.rs:35-43 | the length of the accumulation loop's run: the prefix is all in the class, and the byte after it (if any) is not |
| Grammar.PrefixLenOfRun | src/lib.rs:52-59 | a run of the class followed by a byte outside it is accumulated exactly, no more and no less |
| Grammar.IdentifierStep | src/lib.rs:31-45 | the identifier branch emits `Identifier(lexeme)`; the lexeme starts with a letter or `_`, continues with letters, digits or `_`, is a prefix of the input, and is maximal |
| Grammar.NumberStep | src/lib.rs:48-61 | the number branch takes the maximal digit run; it emits its base-10 value when that is at most `i64::MAX`, and overflows otherwise |
| Grammar.Scan | src/lib.rs:28-74 | one `next`: leading whitespace is consumed; a stop leaves the end or a foreign byte unconsumed; identifiers are maximal identifier runs; numbers carry their digit run's value ≤ `i64::MAX`; larger runs are the overflow panic |
| Grammar.Lex | src/lib.rs:28-74 | repeating `next` until `None` or the panic; every token produced is well formed (a valid identifier, or a value in `0..=i64::MAX`) |
| Grammar.EmitProgress | src/lib.rs:28-74 | a call that returns a token consumes at least one byte |
| Grammar.DecimalStep | src/lib.rs:61 | one more digit multiplies the value of the run so far by ten and adds the digit |
| Grammar.DecimalPrefixBound | src/lib.rs:61 | a prefix of a digit run is never worth more than the run, so overflow of a prefix means overflow of the run |
| Grammar.LeadingZero | src/lib.rs:61 | leading zeros are accepted and do not change the value |
| Grammar.DigitsValue | src/lib.rs:61 | reading back the shortest decimal spelling of any value gives the value |
| Grammar.TokensAreAscii | src/lib.rs:45 | the text of every identifier the lexer produces is ASCII |
| Grammar.ScanIdentifier | src/lib.rs:31-45 | an identifier followed by a byte that cannot continue it is emitted whole, and the byte is left unconsumed |
| Grammar.ScanNumber | src/lib.rs:48-61 | a digit run followed by a non-digit is emitted as its value, or panics when the value exceeds `i64::MAX` |
| Grammar.NumberBranch | src/lib.rs:61 | `parse().unwrap()`: a successful parse gives `Number(value)`; a failed parse is the panic |
| Grammar.StopIsFinal | src/lib.rs:29 | after `next` returned `None`, the next call returns `None` again and consumes nothing |
| Grammar.BlankInput | src/lib.rs:64-67 | input that is empty or all whitespace yields no tokens |
| Grammar.ScanSkipsBlank | src/lib.rs:64-67 | a leading whitespace byte is consumed and `next` continues after it |
| Grammar.LexSkipsBlank | src/lib.rs:64-67 | a leading whitespace byte does not change the token stream |
| Grammar.LexSpelling | src/lib.rs:28-74 | a well-formed token, spelled out and followed by a space, is lexed as that token before the rest |
| Grammar.LexRender | src/lib.rs:28-74 | every sequence of well-formed tokens, rendered with separating spaces, lexes back to itself |
| Grammar.ScanBeforeForeign | src/lib.rs:69 | appending a foreign byte and anything after it does not change what one `next` does before it |
| Grammar.ForeignByteTruncates | src/lib.rs:69 | any byte that is not a letter, digit, `_` or whitespace ends the token stream; nothing after it is lexed |
| Io.FileReplies | src/lib.rs:130 | each read of a regular file fills at most the buffer it is given |
| Io.DeliveredWithinFits | src/lib.rs:130 | when every read reports at most the buffer's length, refusing overrunning reads changes nothing |
| Io.FileDelivers | src/lib.rs:130 | a file read through any non-empty buffer delivers exactly its bytes; a zero-length buffer delivers none |
| Readers.ByteReader.constructor | src/lib.rs:84-88 | the reader starts over the given `Read` |
| Readers.ByteReader.Next | src/lib.rs:94-100 | one read per call; yields the next delivered byte, or `None` exactly when the `Read` is at end of file or fails |
| Readers.BufferedReader.constructor | src/lib.rs:120-127 | both cursors start at 0, so the first `next` reads |
| Readers.BufferedReader.RefillBuffer | src/lib.rs:129-135 | an error or `Ok(0)` gives `None` and leaves the cursors and buffer unchanged; `Ok(n)` places the bytes read at the front of the buffer and sets `offset = 0`, `remainder = n`; a read reporting more than the buffer's length is refused like an error (the correction in Findings) |
| Readers.BufferedReader.Next | src/lib.rs:141-151 | keeps `offset ≤ remainder ≤ buffer length` for every `Read`, so the unchecked read is in bounds; serves buffered bytes without reading; reads only when drained; yields the delivered bytes in order |
| Readers.ServesInOrder | src/lib.rs:146-150 | as written, while bytes remain, successive calls read successive indices up to `remainder`, with no bound by the buffer's length |
| Readers.InBoundsWhenFits | src/lib.rs:129-151 | as written, every index `next` reads is inside a buffer of `capacity` bytes whenever every read reports at most `capacity` bytes |
| Readers.OverrunAsWritten | src/lib.rs:133-150 | as written, a read that reports more bytes than the buffer holds makes a later `next` read the index one past the buffer's end |
| Readers.MMapReader.constructor | src/lib.rs:167-191 | the walk starts at the region's first byte, and the region holds the file's `len` bytes |
| Readers.MMapReader.Next | src/lib.rs:202-212 | yields the byte at `ptr` and advances by one while `ptr < end`; at `end` it yields `None` and stays there |
| Readers.Source.Next | src/lib.rs:13-15 | whichever source the lexer wraps, `next` yields the first remaining byte, or `None` exactly when none remain |
| Lexing.ParseI64 | src/lib.rs:61 | `str::parse::<i64>` on a digit run succeeds exactly when the base-10 value is at most `i64::MAX`, and then returns that value |
| Lexing.Lexer.constructor | src/lib.rs:18-22 | a new lexer has nothing peeked and sees exactly the source's bytes |
| Lexing.Lexer.Peek | src/lib.rs:29 | `Peekable::peek` consumes nothing; a cached answer, a cached `None` included, is returned again without touching the source |
| Lexing.Lexer.Advance | src/lib.rs:33 | `Peekable::next` after a successful peek removes exactly the peeked byte |
| Lexing.Lexer.Accumulate | src/lib.rs:32-43 | the accumulation loop takes the peeked byte, then every following byte of the class; it stops before the first byte outside it; the bytes gathered are ASCII |
| Lexing.Lexer.LexIdentifier | src/lib.rs:31-45 | the identifier branch does what `Scan` does: emits the identifier and leaves the rest; the text handed to `from_utf8_unchecked` is ASCII |
| Lexing.Lexer.LexNumber | src/lib.rs:48-61 | the number branch does what `Scan` does: emits the number and leaves the rest, or panics on overflow |
| Lexing.Lexer.Next | src/lib.rs:28-74 | one call returns the token `Scan` emits and leaves its rest as the remaining input; it returns `None` where `Scan` stops, and panics where `Scan` overflows |
| Harness.CollectStep | src/lib.rs:231 | collecting one more token keeps the collected prefix followed by `Lex` of what remains equal to `Lex` of the input |
| Harness.CollectEnd | src/lib.rs:231 | when `next` returns `None` or panics, the tokens collected so far are all of `Lex` of the input |
| Harness.Drain | src/lib.rs:230-236 | `collect` over the lexer produces exactly `Lex` of its input; the panic ends the collection |
| Harness.LexMapped | src/lib.rs:290-297 | the mapped source over a file's contents lexes exactly those contents |
| Harness.LexUnbuffered | src/lib.rs:239-246 | the byte-at-a-time source lexes exactly the bytes its `Read` delivers |
| Harness.LexBuffered | src/lib.rs:248-254 | the buffered source lexes exactly the bytes its `Read` delivers into the buffer, for any buffer size and any `Read`; when every read fits the buffer, that is everything the `Read` delivers |
| Harness.LexFileUnbuffered | src/lib.rs:239-246 | reading a file one byte per call lexes the whole file |
| Harness.LexFileBuffered | src/lib.rs:256-266 | reading a file through a buffer of any non-zero size lexes the whole file, so the tokens do not depend on the size; a zero-size buffer yields nothing |
| Fixtures.DecimalLowerBound | src/lib.rs:61 | a digit run without a leading zero is worth at least 10^(length-1) |
| Fixtures.IdentifierThenNumber | src/lib.rs:28-74 | `ab3_c 42` and a newline lex as `Identifier("ab3_c")`, `Number(42)` |
| Fixtures.IdentifierThenToken | src/lib.rs:28-74 | an identifier, a space, then input that lexes to a single token lexes to those two tokens |
| Fixtures.IdentifierAtEnd | src/lib.rs:35-45 | input that ends inside an identifier still yields the whole identifier |
| Fixtures.NoTrailingDelimiter | src/lib.rs:35-45 | `foo` with nothing after it lexes as `Identifier("foo")` |
| Fixtures.OverflowAtEnd | src/lib.rs:61 | a too-large digit run at the end of the input is the panic |
| Fixtures.TwentyNinesOverflow | src/lib.rs:61 | twenty nines overflow `i64` and panic; they are never wrapped |
| Fixtures.CommaEndsStream | src/lib.rs:69 | `a,b` yields only `Identifier("a")` |

## Findings

| source | as written | input that shows it | evidently intended | confidence | as-written member | corrected member |
|---|---|---|---|---|---|---|
| src/lib.rs:133, 150 | `refill_buffer` stores the `n` of `Ok(n)` as `remainder` without comparing it to the buffer's length. `next` then reads `buffer.get_unchecked(offset)` for every `offset < remainder`. | A `Read` (a safe trait) whose `read` returns `Ok(2)` into a one-byte buffer: the second `next` reads index 1 of that buffer, past its end. | `remainder` never exceeds the buffer's length, so the unchecked read stays in bounds for any `Read`. | high that the read goes out of bounds for such a `Read`; not executed | Readers.OverrunAsWritten | Readers.BufferedReader.Next |

## Left out

- `MMapReader::new`: the `mmap` system call, file metadata and the raw pointers are not modelled. The region is a fixed byte sequence of length `len`, and `ptr`/`end` are indices into it.
- `MMapReader`'s `Drop` (`munmap`) is not modelled. Unmapping has no effect on the bytes yielded.
- `make_box` is not modelled as its own operation. Its uninitialised contents are not modelled either. A buffer is a fresh `array<byte>` of the requested length, and only bytes a read wrote are ever served.
- `std::io::Read` internals are not modelled, including `read_exact`'s retry on `Interrupted`. A `Read` is the sequence of replies its calls return.
- Opening the test file is not modelled. A file is its contents.
- `read_to_string`/`read_to_end` followed by `into_iter` are not modelled separately. Once loaded, they iterate a byte sequence as `Harness.LexMapped` does. Their own failure paths are not modelled: `read_to_string(..).unwrap()` panics on a file that is not UTF-8, and `read_to_end(..).unwrap()` panics on an I/O error.
- `Lexing.ParseI64` handles only what the lexer passes it: a non-empty run of ASCII digits. Sign handling and the invalid-digit error of `str::parse` are out of scope.
- `Lexing.Lexer.Advance` models `Peekable::next` only right after a peek that found a byte. That is the only way the lexer calls it.
- Readers.BufferedReader.Next and Readers.ByteReader.Next: after a failed refill or a failed `read_exact`, a later call reads again (src/lib.rs:96-98, 143). A reader's own output therefore need not end at its first `None`. For example, replies `Err`, then `Ok` with byte 65, give `None` and then `Some(65)`. The model states only the bytes up to that `None`. The lexer's `Peekable` caches the `None`, so the lexer's own stream does end there.
- `String::from_utf8_unchecked` is not modelled. `Lexing.Lexer.Accumulate`, `Bytes.RunIsAscii` and `Grammar.TokensAreAscii` show that the bytes it receives are ASCII. Identifiers are kept as byte sequences.
- The test assertions on the item count (10 000 tokens in `test_300kb.src`) are not modelled. The test file is not part of this model.
- The benchmarks' timing, `black_box` and `Debug` are not modelled.
- Readers.BufferedReader.Next: the model refuses a read that reports more bytes than the buffer holds, which src/lib.rs:133 does not check. The code as written is `Readers.RefillAsWritten` and `Readers.NextAsWritten`, on the cursors; its out-of-bounds read is under Findings. With reads that respect the buffer size, the refusal never happens: the code as written stays in bounds (`Readers.InBoundsWhenFits`), and the corrected reader delivers everything (`Io.DeliveredWithinFits`).
- Readers.ByteReader.Next: requires every read to report at most one byte. A `Read` that reports more makes the standard `read_exact` panic when it slices the buffer, and that panic is not modelled.
- Lexing.Lexer.Next: the whitespace branch calls `next` recursively (src/lib.rs:66). Rust does not guarantee tail calls, so a long run of whitespace can overflow the stack when the call is not optimised. The model's recursion has no depth limit.
- `usize` arithmetic in the cursors and pointers is unbounded here. It cannot overflow, because each value is at most the buffer or region length.
