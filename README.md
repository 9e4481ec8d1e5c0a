# Polyglot file generator (gen_poly.py), modelled in Dafny

gen_poly.py builds one file that is a JPEG image, an HTML page, a tar archive
and a zip archive at once, and that is also a Whitespace program and a
Brainfuck program printing messages chosen on the command line. This project
models the three parts of it that compute something:

- `gen_whitespace_program` and its `bitfield` helper (`whitespace.dfy`,
  module `Whitespace`). For every character of the message plus a newline it
  writes a push of the character code as eight tab/space binary digits, then
  a "print character" instruction. A final `"\n\n\n"` ends the program. The
  generator is a `method` with the source's loop, proved equal to a
  recursive definition `WsProgram`. That definition is proved to have the
  expected length and alphabet, and a block decoder reads it back.
- A small Whitespace interpreter (`ws_run.dfy`, module `WsRun`). It covers
  push, output-character and end-program, the only instructions the
  generator emits. It shows what the generated program really prints.
- `gen_bf_program` (`brainfuck.dfy`, module `Brainfuck`). It is a `method`
  with the source's loop and its four string accumulators (`program`, `tens`,
  `singles`, `goBack`), proved equal to `BfProgram`. Proved about it:
  - the digit fix-up identity;
  - the count of '.', '[' and ']';
  - the fixed head and tail.
- A Brainfuck machine (`bf_machine.dfy`, module `BfMachine`). It has byte
  cells that wrap around, a parser and printer for nested loops, and a
  fuel-bounded interpreter.
- The run of the generated program on that machine (`bf_run.dfy`, module
  `BfRun`). The program parses into a fixed instruction tree, and running it
  prints the message followed by a newline.
- The byte layout written by `main` (`container.dfy`, module `Container`):
  - the SOI marker FF D8;
  - three APP10 segments (FF EA, then a signed big-endian 16-bit length that
    counts itself) holding the two programs with their padding, the tar
    archive and the HTML wrapper;
  - the rest of the JPEG, written between the second and third segments;
  - the zip bytes at the end.

  The layout is a pure function `Polyglot` with an error outcome for each
  way `main` can stop. It is also a class `OutputFile` whose `Write` method
  appends, driven by methods that follow the order of the source's writes.

Messages are sequences of character codes (`seq<nat>`). The HTML file's
base64 text, the tar, JPEG and zip bytes are parameters.

Where the code and the comments around it differ, the model follows the code:

- The padding comment says the tar header is placed "at a multiple of 500
  bytes". The arithmetic `512 - (len + 6) % 512 - 4` puts the tar bytes,
  which start `len + 10` bytes into the file, at a multiple of 512. When
  `(len + 6) % 512` is 509, 510 or 511, the padding is negative. `b'F' * k`
  is then empty, and the tar starts 1 to 3 bytes past a multiple of 512
  (`Container.PaddingAlignment`).
- The final `"\n\n\n"` of the Whitespace program is the end-program
  instruction.
- The tail `>>>+[>,]` of the Brainfuck program ("loop forever") prints
  nothing. With the end-of-input convention modelled here (',' stores 255,
  that is −1 in a signed byte), it never stops on an input without a zero
  byte, the empty input included, as the comment says; a zero byte in the
  input ends it.
- The Whitespace program echoes the message only when every code is below
  128 (see Findings).

## Model

| member | source | states |
|---|---|---|
| Whitespace.Bitfield | gen_poly.py:25-26 | `bitfield`: the binary digits of the code with tab for 1 and space for 0, right-justified with spaces to eight characters (properties in `Whitespace.BitfieldRoundTrip`) |
| Whitespace.BitfieldRoundTrip | gen_poly.py:25-26 | for every code below 256, `bitfield` is exactly 8 characters, each a space or a tab, and reading tab as 1 and space as 0 (most significant first) gives the code back |
| Whitespace.WsProgram | gen_poly.py:22-32 | the text `gen_whitespace_program` returns: one block per code of the message and the newline, then the 3-LF trailer (the loop is proved to build it in `Whitespace.GenWhitespaceProgram`; its length, alphabet and decoding in the three rows after that) |
| Whitespace.GenWhitespaceProgram | gen_poly.py:22-32 | the loop yields one block (push, 8-digit field, LF, print-character) per character of the message followed by a newline, then the 3-LF trailer; for byte-sized codes the length is 15·(n+1)+3 |
| Whitespace.WsProgramLength | gen_poly.py:22-32 | the program of an n-character message of byte-sized codes has 15·(n+1)+3 characters |
| Whitespace.WsRoundTrip | gen_poly.py:22-32 | splitting the program into 15-character blocks, checking each block's fixed characters and reading each field recovers the message followed by the newline |
| Whitespace.WsProgramAlphabet | gen_poly.py:26-31 | every character of the program is a space, a tab or a line feed |
| Whitespace.HiExample | gen_poly.py:25-30 | the first block of the program for "hi" is the push of 104 as `"   \t\t \t   \n\t\n  "` |
| WsRun.WsProgramPrints | gen_poly.py:22-32 | run by a Whitespace interpreter, the program prints, for each code of the message and the newline, the number the push really holds: the field's first digit is read as the sign, so a code below 128 comes out unchanged and a code c from 128 on as `128 - c` |
| WsRun.WsProgramEcho | gen_poly.py:25-30 | the program prints exactly the message and a newline if and only if every code of the message is below 128 |
| WsRun.HighByteCounterexample | gen_poly.py:25-29 | a one-character message with a code from 128 to 255 prints `128 - c` instead of `c` |
| WsRun.CorrectedWsProgramPrints | gen_poly.py:25-31 | with an explicit positive sign (a space) before each field, the program prints every byte-sized message back followed by a newline |
| Brainfuck.DigitFixup | gen_poly.py:47-59 | the hundreds written by the inner loop, the signed tens adjustment and the signed ones adjustment, each after borrowing for a digit above 5, add up to the code: 100·H + 10·T + O = c |
| Brainfuck.DigitRunCost | gen_poly.py:49-59 | a digit up to 5 is written as that many '+', a digit above 5 as 10 − d '-' (at most four) |
| Brainfuck.AppendCharacter | gen_poly.py:46-60 | one pass of the loop body appends the character's piece to each of `program`, `tens` and `singles`, including the borrow '+' when the next-lower digit is above 5 |
| Brainfuck.CharacterLoop | gen_poly.py:45-61 | after the loop, `program`, `tens` and `singles` hold the pieces of every character in order, and `goBack` one '<' per character |
| Brainfuck.ProgramAssembly | gen_poly.py:62-70 | the statements after the loop put head, hundreds sweep, inner close, tens sweep, outer close, ones sweep and tail in that order |
| Brainfuck.BfProgram | gen_poly.py:34-71 | the text `gen_bf_program` returns: head, hundreds sweep, inner close, tens sweep, outer close, ones sweep and tail (the loop is proved to build it in `Brainfuck.GenBfProgram`; what it contains and prints in the rows below) |
| Brainfuck.GenBfProgram | gen_poly.py:34-71 | the method builds exactly `BfProgram` of the message with a newline appended |
| Brainfuck.BfProgramCounts | gen_poly.py:41-70 | the program holds one '.' per character of the message plus one for the newline, three '[' and three ']' |
| Brainfuck.BfProgramEnds | gen_poly.py:41-70 | the program starts with `++++++++++[>++++++++++[` and ends with `>>>+[>,]` |
| BfRun.PrintBf | gen_poly.py:41-70 | the text of the program is the printing of a fixed instruction tree: ten increments, the outer loop (with the inner loop inside), the ones sweep and the tail |
| BfRun.BfParse | gen_poly.py:41-70 | the program's brackets match and it parses into that tree; it uses only the eight Brainfuck characters |
| BfRun.TailSilent | gen_poly.py:70 | the tail writes no output, however long its read loop runs |
| BfRun.TailLoops | gen_poly.py:70 | started with an empty cell three places to the right and no zero byte left to read, the tail never stops |
| BfRun.TailHalts | gen_poly.py:70 | when a zero byte is left to read, the tail stops once the fuel exceeds the remaining input |
| BfRun.BfProgramOutput | gen_poly.py:34-71 | on a machine with wrapping byte cells, any input and enough fuel for the twenty counted passes, the program writes each code of the message and then a newline, each reduced modulo 256 |
| BfRun.BfProgramLoopsForever | gen_poly.py:70 | on an input without a zero byte (the empty input included) the program, after printing, is still running for every fuel of at least 20: it loops forever |
| BfRun.BfProgramHaltsOnZero | gen_poly.py:70 | a zero byte in the input ends the program, given fuel of at least 20 and more than the input's length |
| BfRun.BfProgramPrints | gen_poly.py:34-71 | for a message of byte-sized codes the output is exactly the message followed by a newline |
| Container.PackShort | gen_poly.py:223 | `struct.pack('>h', v)` succeeds with two bytes exactly when −32768 ≤ v ≤ 32767 |
| Container.PackShortRoundTrip | gen_poly.py:223 | unpacking the two bytes as a signed big-endian short gives the value back |
| Container.PackShortUnsigned | gen_poly.py:223 | for the non-negative lengths written here, the two bytes read as an unsigned big-endian length give the value |
| Container.Segment | gen_poly.py:222-225 | an APP10 segment is marker, length and body, 4 bytes longer than the body, and exists exactly when body length + 2 ≤ 32767 |
| Container.PaddingLength | gen_poly.py:220 | the padding `512 - (len + 6) % 512 - 4`, from −3 to 508 (its effect on alignment is `Container.PaddingAlignment`) |
| Container.CustomChunk | gen_poly.py:219-221 | the custom chunk: both programs, `<!--` and the filler (its layout is `Container.ChunkLayout`) |
| Container.Filler | gen_poly.py:221 | `b'F' * k` has k bytes, all 'F', and is empty when k ≤ 0 |
| Container.ChunkLayout | gen_poly.py:219-221 | the chunk is the Whitespace program, the Brainfuck program, `<!--`, then 0 to 508 'F' bytes and nothing else |
| Container.PaddingAlignment | gen_poly.py:220-224 | the tar bytes start at a multiple of 512 exactly when the padding is not negative; otherwise 1 to 3 bytes past one, with no filler |
| Container.HtmlText | gen_poly.py:235-240 | the HTML wrapper around the base64 text (its markers and length are `Container.HtmlMarkers`) |
| Container.HtmlMarkers | gen_poly.py:235-240 | the wrapper is 216 characters longer than the base64 text; it opens with whitespace, then `-->` and `<html>`; the base64 text sits at offset 79; it ends with `<!--`, a newline and 12 spaces |
| Container.HtmlBytes | gen_poly.py:235-243 | the encoded wrapper has one byte per character, 216 more than the base64 text |
| Container.MainChunkPrograms | gen_poly.py:210-221 | the chunk starts with the bytes of the generated Whitespace program followed by those of the generated Brainfuck program |
| Container.Polyglot | gen_poly.py:217-250 | the bytes `main` writes and how it ends, as a value: the three length checks and the JPEG check in source order (proved in `Container.PolyglotOutcome` and `Container.PolyglotReadBack`) |
| Container.AfterTar | gen_poly.py:231-250 | the part of the file after the tar segment: the JPEG without its SOI, the HTML segment and the zip bytes, or the reason it stops (the writes are `Container.WriteAfterTar`) |
| Container.PolyglotOutcome | gen_poly.py:217-250 | the file is complete exactly when the chunk and the tar each fit a 32767 length, the JPEG starts with FF D8 and the HTML fits; otherwise the first failing check, in source order, is the reason |
| Container.PolyglotReadBack | gen_poly.py:217-250 | a complete file reads, segment by segment, as SOI, the chunk, the tar, the JPEG after its SOI, the HTML wrapper and the zip bytes at the end |
| Container.OutputFile.constructor | gen_poly.py:217 | the temporary file starts empty |
| Container.OutputFile.Write | gen_poly.py:218 | a write appends its bytes to the file |
| Container.WriteSegment | gen_poly.py:223-225 | after the marker, writes the length and the body, leaving the whole segment in the file |
| Container.WriteAfterTar | gen_poly.py:231-250 | rejects a JPEG without SOI, else writes its remaining bytes, the HTML segment (or stops after its marker when too long) and the zip bytes |
| Container.WritePolyglot | gen_poly.py:217-250 | the writes of `main`, in order, leave in the file exactly `Polyglot` of the inputs, or the partial file and the reason when a length or the JPEG check fails |
| Container.WriteMain | gen_poly.py:210-250 | generating both programs, encoding them and writing the file leaves the same result |

## Left out

- Argument parsing, opening and reading the input files, the existence check
  and its warning (`errprint`): the file contents are parameters.
- `InMemoryZipFile`, `filelike_size` and the zip archive's construction: the
  zip bytes are an opaque parameter.
- `zip -Fv` on the temporary file, its rename to the output path and
  `os.remove`: external commands and file-system effects.
- `base64.b64encode` of the HTML file: its text is a parameter, required
  only to use the base64 alphabet.
- A missing `--tar` argument: the source then fails in `open(None)`. The
  model always has tar bytes.
- Characters outside one byte: messages are sequences of codes. For codes of
  256 or more, `bitfield` is longer than eight characters. The
  length, decoding and echo facts are stated for byte-sized codes only.
- Whitespace.GenWhitespaceProgram: the length is stated only for codes
  below 256, because a larger code gives a longer field.
- BfRun.BfProgramOutput: the interpreter's loops run on fuel. The output,
  the endless loop and the halt on a zero byte are stated for fuel of at
  least 20 (the ten outer and ten inner passes); what a smaller fuel does
  is not stated.
- BfMachine: ',' at the end of the input stores 255. This is one of several
  Brainfuck conventions; under the "store 0" and "leave unchanged" ones the
  tail stops once the input is used up, and the model does not cover them.
- WsRun: the interpreter knows only the three instructions the generator
  emits (push, output character, end program); the rest of the Whitespace
  language is not modelled.

## Findings

| source | as written | input that shows it | evidently intended | confidence | as-written member | corrected member |
|---|---|---|---|---|---|---|
| gen_poly.py:25-29 | the push is two spaces and then the 8-character field, so a Whitespace reader takes the field's first character as the sign and only the last seven as the number | message "È" (code 200): the field is tab then seven digits, read as −72 (128 − 200) instead of 200 | a sign character (a space, meaning positive) before the eight binary digits, so every byte-sized code is printed back | not executed | WsRun.HighByteCounterexample | WsRun.CorrectedWsProgramPrints |
