/**
 * The Whitespace generator of gen_poly.py: every character of the message
 * (with a newline appended) becomes a "push" of its code, written as an
 * 8-wide field of space/tab digits, followed by an "output character"
 * instruction; the program ends with three line feeds.
 *
 * Characters are modelled by their code points (`nat`); every property
 * below is stated for code points under 256, the range in which the field
 * is exactly eight characters wide.
 */
module Whitespace {
  import opened Common

  const SPACE: char := ' '
  const TAB: char := '\t'
  const LF: char := '\n'

  // ---------------------------------------------------------------------
  // bitfield(n)
  // ---------------------------------------------------------------------

  /** `bin(n)[2:]`: the binary digits of `n`, most significant first, with
      no leading zero except for `n == 0`, which is written "0". */
  function BinDigits(n: nat): (r: string)
    ensures |r| >= 1
    ensures forall i :: 0 <= i < |r| ==> r[i] == '0' || r[i] == '1'
    ensures n > 0 ==> r[0] == '1'
  {
    if n < 2 then [if n == 1 then '1' else '0']
    else BinDigits(n / 2) + [if n % 2 == 1 then '1' else '0']
  }

  /** The comprehension of bitfield: '1' becomes a tab, anything else a space. */
  function ToWsDigits(ds: string): (r: string)
    ensures |r| == |ds|
    ensures forall i :: 0 <= i < |r| ==> r[i] == (if ds[i] == '1' then TAB else SPACE)
  {
    if ds == [] then [] else [if ds[0] == '1' then TAB else SPACE] + ToWsDigits(ds[1..])
  }

  /** Python's `str.rjust(width, fill)` with a space fill: pads on the left
      and never truncates. */
  function RJust(s: string, width: nat): (r: string)
    ensures |s| >= width ==> r == s
    ensures |s| < width ==> |r| == width && r[width - |s|..] == s
                            && forall i :: 0 <= i < width - |s| ==> r[i] == SPACE
  {
    if |s| >= width then s else Rep(width - |s|, SPACE) + s
  }

  /** `bitfield(n)`, gen_poly.py:25-26. */
  function Bitfield(n: nat): string {
    RJust(ToWsDigits(BinDigits(n)), 8)
  }

  /** Reads a run of tabs and spaces as a binary number, most significant
      digit first, tab meaning 1: the decoder that Bitfield is the encoder of. */
  function FieldValue(f: string): nat {
    if f == [] then 0
    else 2 * FieldValue(f[..|f| - 1]) + (if f[|f| - 1] == TAB then 1 else 0)
  }

  /** A number below 2^k has at most k binary digits. */
  lemma {:induction false} BinDigitsLength(n: nat, k: nat)
    requires 1 <= k && n < Pow2(k)
    ensures |BinDigits(n)| <= k
  {
    if n >= 2 {
      assert Pow2(1) == 2;
      assert Pow2(k) == 2 * Pow2(k - 1);
      BinDigitsLength(n / 2, k - 1);
    }
  }

  function Pow2(k: nat): (r: nat)
    ensures r >= 1
  {
    if k == 0 then 1 else 2 * Pow2(k - 1)
  }

  /** Reading the mapped binary digits of `n` gives back `n`. */
  lemma {:induction false} FieldValueOfDigits(n: nat)
    ensures FieldValue(ToWsDigits(BinDigits(n))) == n
  {
    var w := ToWsDigits(BinDigits(n));
    if n >= 2 {
      var last := if n % 2 == 1 then '1' else '0';
      assert BinDigits(n) == BinDigits(n / 2) + [last];
      var w0 := ToWsDigits(BinDigits(n / 2));
      assert w[..|w| - 1] == w0;
      assert w[|w| - 1] == (if last == '1' then TAB else SPACE);
      FieldValueOfDigits(n / 2);
    } else {
      assert w[..0] == [];
    }
  }

  /** Leading spaces are leading zeros. */
  lemma {:induction false} FieldValueLeadingSpaces(k: nat, f: string)
    ensures FieldValue(Rep(k, SPACE) + f) == FieldValue(f)
    decreases |f|
  {
    if f == [] {
      SpacesValue(k);
      assert Rep(k, SPACE) + f == Rep(k, SPACE);
    } else {
      var g := Rep(k, SPACE) + f;
      assert g[..|g| - 1] == Rep(k, SPACE) + f[..|f| - 1];
      assert g[|g| - 1] == f[|f| - 1];
      FieldValueLeadingSpaces(k, f[..|f| - 1]);
    }
  }

  lemma {:induction false} SpacesValue(k: nat)
    ensures FieldValue(Rep(k, SPACE)) == 0
  {
    if k > 0 {
      assert Rep(k, SPACE)[..k - 1] == Rep(k - 1, SPACE);
      SpacesValue(k - 1);
    }
  }

  /** bitfield(n) is exactly eight tabs and spaces, and reading tab as 1 and
      space as 0, most significant digit first, gives back `n`. */
  lemma BitfieldRoundTrip(n: nat)
    requires n < 256
    ensures |Bitfield(n)| == 8
    ensures forall i :: 0 <= i < 8 ==> Bitfield(n)[i] == SPACE || Bitfield(n)[i] == TAB
    ensures FieldValue(Bitfield(n)) == n
  {
    assert Pow2(8) == 256;
    BinDigitsLength(n, 8);
    var w := ToWsDigits(BinDigits(n));
    FieldValueOfDigits(n);
    if |w| < 8 {
      assert Bitfield(n) == Rep(8 - |w|, SPACE) + w;
      FieldValueLeadingSpaces(8 - |w|, w);
    }
  }

  // ---------------------------------------------------------------------
  // gen_whitespace_program
  // ---------------------------------------------------------------------

  /** The push instruction's prefix, the number terminator and the
      "output character" instruction around one field. */
  const PUSH: string := "  "
  const PRINT_CHAR: string := "\t\n  "
  const TRAILER: string := "\n\n\n"

  /** What the loop body of gen_whitespace_program appends for one character. */
  function Block(c: nat): string {
    PUSH + Bitfield(c) + [LF] + PRINT_CHAR
  }

  function Blocks(d: seq<nat>): string {
    if d == [] then "" else Block(d[0]) + Blocks(d[1..])
  }

  /** gen_whitespace_program(data), gen_poly.py:22-32. */
  function WsProgram(data: seq<nat>): string {
    Blocks(data + [NEWLINE_CODE]) + TRAILER
  }

  lemma {:induction false} BlocksSnoc(d: seq<nat>, c: nat)
    ensures Blocks(d + [c]) == Blocks(d) + Block(c)
  {
    if d == [] {
      assert d + [c] == [c];
    } else {
      assert (d + [c])[1..] == d[1..] + [c];
      BlocksSnoc(d[1..], c);
    }
  }

  /** The loop of gen_whitespace_program, appending to a string accumulator. */
  method GenWhitespaceProgram(dataToPrint: seq<nat>) returns (program: string)
    ensures program == Blocks(dataToPrint + [NEWLINE_CODE]) + "\n\n\n"
    ensures IsByteString(dataToPrint) ==> |program| == 15 * (|dataToPrint| + 1) + 3
  {
    var data := dataToPrint + [NEWLINE_CODE];
    program := "";
    var i := 0;
    while i < |data|
      invariant 0 <= i <= |data|
      invariant program == Blocks(data[..i])
    {
      ghost var before := program;
      program := program + PUSH + Bitfield(data[i]) + [LF];
      program := program + PRINT_CHAR;
      AppendBlock(before, data[i]);
      assert data[..i + 1] == data[..i] + [data[i]];
      BlocksSnoc(data[..i], data[i]);
      i := i + 1;
    }
    assert data[..i] == data;
    program := program + TRAILER;
    if IsByteString(dataToPrint) {
      WsProgramLength(dataToPrint);
    }
  }

  /** The two appends of one loop pass add one block; kept apart so that
      the loop is proved without unfolding Block. */
  lemma AppendBlock(p: string, c: nat)
    ensures p + PUSH + Bitfield(c) + [LF] + PRINT_CHAR == p + Block(c)
  {
  }

  lemma {:induction false} BlocksLength(d: seq<nat>)
    requires IsByteString(d)
    ensures |Blocks(d)| == 15 * |d|
  {
    if d != [] {
      BitfieldRoundTrip(d[0]);
      BlocksLength(d[1..]);
    }
  }

  /** The program is 15 characters per message character, plus 15 for the
      appended newline, plus the three-character trailer. */
  lemma WsProgramLength(s: seq<nat>)
    requires IsByteString(s)
    ensures |WsProgram(s)| == 15 * (|s| + 1) + 3
  {
    BlocksLength(s + [NEWLINE_CODE]);
  }

  // ---------------------------------------------------------------------
  // Decoding: the partner of the generator
  // ---------------------------------------------------------------------

  /** Splits a program into 15-character blocks, checks each block's fixed
      characters and reads its field; the program must end with the trailer. */
  function DecodeWs(p: string): (r: Option<seq<nat>>)
    decreases |p|
  {
    if p == TRAILER then Some([])
    else if |p| < 15 || p[..2] != PUSH || p[10] != LF || p[11..15] != PRINT_CHAR then None
    else match DecodeWs(p[15..])
      case None => None
      case Some(rest) => Some([FieldValue(p[2..10])] + rest)
  }

  lemma {:induction false} DecodeBlocks(d: seq<nat>)
    requires IsByteString(d)
    ensures DecodeWs(Blocks(d) + TRAILER) == Some(d)
  {
    if d != [] {
      var rest := Blocks(d[1..]) + TRAILER;
      assert Blocks(d) + TRAILER == Block(d[0]) + rest;
      DecodeBlock(d[0], rest);
      DecodeBlocks(d[1..]);
      assert [d[0]] + d[1..] == d;
    }
  }

  /** One block reads back as its code, in front of whatever follows. */
  lemma DecodeBlock(c: nat, rest: string)
    requires c < 256
    ensures DecodeWs(Block(c) + rest) ==
      match DecodeWs(rest)
      case None => None
      case Some(r) => Some([c] + r)
  {
    var p := Block(c) + rest;
    BitfieldRoundTrip(c);
    assert |Block(c)| == 15;
    assert p[..2] == PUSH;
    assert p[2..10] == Bitfield(c);
    assert p[10] == LF;
    assert p[11..15] == PRINT_CHAR;
    assert p[15..] == rest;
  }

  /** Reading the program back block by block recovers the message followed
      by the newline that the generator appends. */
  lemma WsRoundTrip(s: seq<nat>)
    requires IsByteString(s)
    ensures DecodeWs(WsProgram(s)) == Some(s + [NEWLINE_CODE])
  {
    DecodeBlocks(s + [NEWLINE_CODE]);
  }

  /** Every character of the program is a space, a tab or a line feed. */
  lemma {:induction false} WsProgramAlphabet(s: seq<nat>)
    ensures forall i :: 0 <= i < |WsProgram(s)| ==> WsProgram(s)[i] in {SPACE, TAB, LF}
  {
    BlocksAlphabet(s + [NEWLINE_CODE]);
  }

  lemma {:induction false} BlocksAlphabet(d: seq<nat>)
    ensures forall i :: 0 <= i < |Blocks(d)| ==> Blocks(d)[i] in {SPACE, TAB, LF}
  {
    if d != [] {
      BlocksAlphabet(d[1..]);
      var w := ToWsDigits(BinDigits(d[0]));
      assert forall i :: 0 <= i < |Bitfield(d[0])| ==> Bitfield(d[0])[i] in {SPACE, TAB};
    }
  }

  /** The scenario of the message "hi": the first block pushes 'h'
      (0x68, binary 1101000) and prints it. */
  lemma HiExample()
    ensures WsProgram([104, 105])[..15] == "   \t\t \t   \n\t\n  "
  {
    var f := " \t\t \t   ";
    Bitfield104();
    FirstBlock([104, 105], f);
    assert PUSH + f + [LF] + PRINT_CHAR == "   \t\t \t   \n\t\n  ";
  }

  /** The program starts with the block of the first character. */
  lemma FirstBlock(data: seq<nat>, f: string)
    requires data != [] && data[0] < 256 && Bitfield(data[0]) == f
    ensures WsProgram(data)[..15] == PUSH + f + [LF] + PRINT_CHAR
  {
    var d := data + [NEWLINE_CODE];
    assert d[0] == data[0];
    BitfieldRoundTrip(data[0]);
    BlockOf(data[0], f);
    var rest := Blocks(d[1..]) + TRAILER;
    assert WsProgram(data) == Block(data[0]) + rest;
  }

  lemma BlockOf(c: nat, f: string)
    requires Bitfield(c) == f
    ensures Block(c) == PUSH + f + [LF] + PRINT_CHAR
  {
  }

  lemma Bitfield104()
    ensures Bitfield(104) == " \t\t \t   "
  {
    assert BinDigits(1) == "1";
    assert BinDigits(3) == "11";
    assert BinDigits(6) == "110";
    assert BinDigits(13) == "1101";
    assert BinDigits(26) == "11010";
    assert BinDigits(52) == "110100";
    assert BinDigits(104) == "1101000";
    Digits104();
    SevenDigitField(104, "\t\t \t   ");
  }

  lemma Digits104()
    ensures ToWsDigits("1101000") == "\t\t \t   "
  {
  }

  /** A number of seven binary digits gets one space of padding. */
  lemma SevenDigitField(n: nat, w: string)
    requires ToWsDigits(BinDigits(n)) == w && |w| == 7
    ensures Bitfield(n) == [SPACE] + w
  {
    assert Rep(1, SPACE) == [SPACE];
  }
}
