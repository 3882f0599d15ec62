# CHIP-8 assembler and machine state, modelled in Dafny

This project models the two pieces of logic in the CHIP-8 interpreter
repository that are present in its source, and proves properties of them.

1. **The assembler script** (`assembler.py`). It reads a text file of
   whitespace-separated hexadecimal CHIP-8 instructions and writes them to a
   binary `.ch8` image. Lines whose first character is `#` are comments and
   are dropped. The remaining lines are joined verbatim and split on
   whitespace (`str.split()`). Every token is read with `int(token, 16)`.
   Every value is written with `to_bytes(2, byteorder="big", signed=False)`.
   The model starts from the list of lines that `readlines()` returns. It
   ends with one of three outcomes:
   - `Written(image)`: the output file holds exactly `image`;
   - `InvalidToken(token)`: `int` raised `ValueError` at line 25, before the
     output file was opened, so the file is left alone;
   - `ValueOutOfRange(value, image)`: `to_bytes` raised `OverflowError` on a
     value that is negative or above 0xFFFF. The file was already opened and
     holds the bytes of the values written before that one.

   The Python built-ins the script relies on are modelled in modules of
   their own:
   - `TextSplit`: `str.split()` on the whitespace that `str.isspace()`
     recognises;
   - `HexInt`: `int(_, 16)`, with optional sign, optional `0x`/`0X` prefix
     and single underscores between digits;
   - `BigEndian`: `to_bytes(2, "big", signed=False)` and the concatenated
     image.

   The `Assembler` module holds the script's own logic. The comment-filter
   loop (lines 20-23) and the write loop (lines 29-30) are methods with loop
   invariants. Each is proved equal to a specification function, and the
   lemmas are stated about those functions. `Scenarios` works two concrete
   programs through to their outcome.

2. **The machine state** (`src/lib.rs`, module `Machine`). This covers the
   size constants, the `Chip8` record (4096 bytes of memory, a 32 × 64
   boolean display, `pc`, `I`, a 16-entry stack, two 8-bit timers and 16
   registers) and `Chip8::new`, which builds the reset state. It also covers
   `load_rom`, whose body is empty. Rust's fixed-size arrays carry their
   length in their type. Here each one is a sequence whose subset type fixes
   its length to the constant, and 8- and 16-bit fields are newtypes over
   their ranges.

The code stops at the machine state:
- there is no fetch, decode or execute, no timer ticking and no keypad;
- `Chip8::new` loads no font;
- the stack is a fixed array of 16 entries;
- `load_rom` is empty.

The model follows the code and does not invent instruction semantics.

## Model

| member | source | states |
|---|---|---|
| `TextSplit.Split` | assembler.py:25 | every token `program.split()` yields is non-empty and contains no whitespace |
| `TextSplit.SplitKeepsText` | assembler.py:25 | the tokens, concatenated in order, are exactly the non-whitespace characters of the text |
| `TextSplit.SplitEmptyIffAllSpace` | assembler.py:25 | a text has no tokens if and only if it consists of whitespace alone |
| `TextSplit.SplitAtSpace` | assembler.py:25 | tokens never span a whitespace character: the split of `a + w + b` is the split of `a` followed by the split of `b` |
| `TextSplit.SplitUnwords` | assembler.py:25 | round trip: tokens written out with a space after each split back into the same tokens |
| `HexInt.HexValue` | assembler.py:25 | a run of n hexadecimal digits denotes a number below 16^n |
| `HexInt.ParseUnsigned` | assembler.py:25 | an unsigned literal of n characters (prefix and underscores included) is read as a value below 16^n |
| `HexInt.ParseHex` | assembler.py:25 | `int(t, 16)` yields a value of magnitude below 16^|t|, and a negative value only when `t` starts with `-` |
| `HexInt.DigitRunWithoutUnderscores` | assembler.py:25 | removing the underscores of an accepted digit run leaves at least one plain hexadecimal digit |
| `HexInt.Digits` | assembler.py:25 | a reference formatter: the hexadecimal digits of m are non-empty and denote m |
| `HexInt.ParsePlainDigits` | assembler.py:25 | a non-empty run of plain hexadecimal digits is read as the number it denotes |
| `HexInt.ParseFormat` | assembler.py:25 | round trip: every integer written as a hexadecimal literal, with or without a sign and a `0x` prefix, is read back unchanged |
| `HexInt.ShortTokenFitsSixteenBits` | assembler.py:25-30 | a token of one to four plain hexadecimal digits always parses to a value that two unsigned bytes hold |
| `HexInt.ParseHexAlphabet` | assembler.py:25 | an accepted literal contains only hexadecimal digits, signs, `x`, `X` and `_` |
| `BigEndian.Word` | assembler.py:30 | a high and a low byte make a value in 0..0xFFFF |
| `BigEndian.ToBytes` | assembler.py:30 | `to_bytes(2, "big", signed=False)` succeeds if and only if 0 <= v <= 0xFFFF, and then gives two bytes, high first, with high * 256 + low == v |
| `BigEndian.Image` | assembler.py:29-30 | the image of n values is exactly 2n bytes |
| `BigEndian.Decode` | assembler.py:29-30 | partner of `Image`: reads an even-length byte sequence as one 16-bit big-endian value per pair |
| `BigEndian.DecodeImage` | assembler.py:29-30 | round trip: decoding the image of in-range values returns those values in their order, so bytes 2k and 2k+1, read as high * 256 + low, give value k |
| `BigEndian.ImageDecode` | assembler.py:29-30 | round trip the other way: every even-length byte sequence is the image of its decoding |
| `BigEndian.ImageAppend` | assembler.py:29-30 | the image of a concatenation of values is the concatenation of their images |
| `Assembler.KeptLines` | assembler.py:20-23 | the filter keeps no more lines than it gets; `Assembler.KeptSingle` and `Assembler.KeptLinesAppend` pin down which lines it keeps |
| `Assembler.KeptSingle` | assembler.py:20-23 | a single line is dropped exactly when it starts with `#`, and is kept unchanged otherwise |
| `Assembler.KeptLinesMembers` | assembler.py:20-23 | a line is kept exactly when it occurs in the input and does not start with `#` |
| `Assembler.StripComments` | assembler.py:19-23 | the comment-filter loop returns the concatenation of the kept lines in order |
| `Assembler.ParseTokens` | assembler.py:25 | on success, one value per token, each the value `int(_, 16)` gives that token; on failure, the reported token is the first one `int` rejects |
| `Assembler.FirstUnfit` | assembler.py:29-30 | the index of the first value outside 0..0xFFFF, every earlier value being in range, or the length if all are in range |
| `Assembler.ImageSnoc` | assembler.py:29-30 | writing one more value appends exactly its two bytes to what was written |
| `Assembler.WriteInstructions` | assembler.py:28-30 | the write loop leaves the image of all values, or stops at the first out-of-range value with the image of the values before it |
| `Assembler.Assemble` | assembler.py:19-30 | the body of `main` from the comment filter to the write loop has the outcome `Assembled` specifies |
| `Assembler.KeptLinesAppend` | assembler.py:20-23 | filtering a concatenation of line lists is concatenating their filtered lists |
| `Assembler.CommentLineDropped` | assembler.py:20-23 | inserting a line that starts with `#` anywhere leaves the kept lines as they were |
| `Assembler.CommentLineContributesNothing` | assembler.py:20-23 | inserting a line that starts with `#` anywhere changes neither the program text nor the outcome |
| `Assembler.OtherLineKeptVerbatim` | assembler.py:20-23 | any other line, an indented `#` included, appears verbatim in the program text between the text of the lines before and after it |
| `Assembler.NoCommentsKeepsAll` | assembler.py:20-23 | without comment lines every line is kept and the program text is all lines concatenated in order |
| `Assembler.FilterIdempotent` | assembler.py:20-23 | filtering an already filtered list of lines changes nothing, and neither does it change the program text |
| `Assembler.SplitConcat` | assembler.py:23-25 | when each text but the last ends in whitespace, splitting their concatenation is splitting each in turn |
| `Assembler.KeptLinesEndInSpace` | assembler.py:20-23 | if every line ends in whitespace, so does every kept line |
| `Assembler.TokensLineByLine` | assembler.py:16-25 | for lines shaped as `readlines()` returns them, the tokens are those of the kept lines, line after line |
| `Assembler.AllSpaceConcat` | assembler.py:23 | joining whitespace-only lines gives a whitespace-only text |
| `Assembler.OnlyCommentsAndBlankLines` | assembler.py:19-30 | a program of comment lines and blank lines alone produces an empty image |
| `Assembler.WrittenValues` | assembler.py:25-30 | a successful run parsed every token and wrote the image of all the values, each of which fits in 16 bits |
| `Assembler.SizeLaw` | assembler.py:25-30 | a successful run writes exactly two bytes per token |
| `Assembler.RoundTrip` | assembler.py:25-30 | in a successful run, bytes 2k and 2k+1, read as high * 256 + low, are the value of token k, so the image decodes to the token values in order |
| `Assembler.InvalidTokenIff` | assembler.py:25-28 | the run ends with `InvalidToken`, which writes nothing, if and only if some token is not a hexadecimal literal, and it reports the first such token |
| `Assembler.OverflowIff` | assembler.py:28-30 | the run ends with an overflow if and only if every token parses and some value is negative or above 0xFFFF; it reports the first such value and leaves the image of the values before it |
| `Assembler.HashInsideLineFails` | assembler.py:21-25 | a `#` anywhere but at the first character of a line is not a comment: the run fails with `InvalidToken` |
| `Scenarios.ClearAndJump` | assembler.py:19-30 | a comment line followed by `00E0 1200` assembles to the bytes 00 E0 12 00 |
| `Scenarios.OverflowAfterFirstValue` | assembler.py:28-30 | for `00E0 10000` the run stops at 0x10000 with the bytes 00 E0 already written |
| `Machine.New` | src/lib.rs:29-41 | `Chip8::new()` gives: memory all zero, every pixel off, `pc` at 0x200, `I` zero, an all-zero stack, both timers zero, all registers zero |
| `Machine.ResetStateIsUnique` | src/lib.rs:5-40 | these reset conditions fix every field of the record: a machine meets them if and only if it is `New()` |
| `Machine.LoadRom` | src/lib.rs:43-45 | `load_rom` has an empty body: the machine after it is the machine before it |

## Left out

- Reading and writing files, and command-line parsing (assembler.py lines
  7-16 and the `open` calls at lines 15 and 28) are I/O. The model starts
  from the list of lines `readlines()` returns. It ends with the outcome:
  the bytes the output file holds, or whether it was opened at all.
- Text decoding and the newline translation done by `open(..., "r")` are
  not modelled. The lines are taken as already decoded strings.
- `HexInt.ParseHex` does not model two things Python's `int(_, 16)` does.
  Python accepts non-ASCII decimal digits, such as Arabic-Indic digits, and
  the model rejects them. Python also strips surrounding whitespace, which
  cannot occur here because tokens come from `str.split()`.
- Failures of the write itself (a full disk, a closed descriptor) and
  output buffering are not modelled.
- `Machine.LoadRom`: Rust's by-value receiver `self` consumes the machine,
  so in src/main.rs the interpreter cannot be used after the call. The model
  states only that the state is not changed.
- The `println_debug!` macro and the global `debug_mode` flag (src/lib.rs
  lines 14 and 48-64) are console output controlled by unsynchronised global
  state.
- The `font` module (src/lib.rs line 3) is not part of this model. It is
  declared but not shown, and `Chip8::new` does not use it.
- src/main.rs (command-line parsing, process start) and src/display.rs (the
  window, the pixel surface and the event loop over foreign libraries) are
  not part of this model.
- Instruction execution, timers, keypad and drawing are not present in the
  source, so they are not modelled.
