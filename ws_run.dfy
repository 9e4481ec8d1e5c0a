/**
 * The Whitespace instructions the generated program uses, and what running
 * it prints.
 *
 * A Whitespace number is a sign (space for +, tab for -) followed by binary
 * digits (space 0, tab 1) and ended by a line feed. The generator writes
 * "push" followed directly by the eight-character field of `bitfield`, so
 * the first character of the field is read as the sign and only the other
 * seven as digits: a code from 128 to 255 is pushed as a negative number.
 * `PushedValue` states what is pushed; `CorrectedWsProgram` writes an
 * explicit '+' sign before the field, and prints every byte back.
 */
module WsRun {
  import opened Common
  import opened Whitespace

  // ---------------------------------------------------------------------
  // The interpreter
  // ---------------------------------------------------------------------

  /** The digits of a number up to its line feed, and what follows it. */
  function DigitsUntilLf(p: string): (r: Option<(string, string)>)
    ensures r.Some? ==> |r.value.1| < |p|
    ensures r.Some? ==> forall i :: 0 <= i < |r.value.0| ==> r.value.0[i] in {SPACE, TAB}
  {
    if p == [] then None
    else if p[0] == LF then Some(([], p[1..]))
    else if p[0] == SPACE || p[0] == TAB then
      match DigitsUntilLf(p[1..])
      case None => None
      case Some((ds, rest)) => Some(([p[0]] + ds, rest))
    else None
  }

  /** A signed number: its value and the text after its line feed. */
  function ReadNumber(p: string): (r: Option<(int, string)>)
    ensures r.Some? ==> |r.value.1| < |p|
  {
    if p == [] || (p[0] != SPACE && p[0] != TAB) then None
    else match DigitsUntilLf(p[1..])
      case None => None
      case Some((ds, rest)) =>
        Some((if p[0] == SPACE then FieldValue(ds) else -(FieldValue(ds) as int), rest))
  }

  /** Runs a program made of "push", "output character" and "end" from the
      given stack, returning the codes printed; None for any other
      instruction, a pop from an empty stack, or a program that runs off its
      end. */
  function Exec(p: string, stack: seq<int>, out: seq<int>): Option<seq<int>>
    decreases |p|
  {
    if |p| >= 3 && p[..3] == TRAILER then Some(out)
    else if |p| >= 2 && p[..2] == PUSH then
      match ReadNumber(p[2..])
      case None => None
      case Some((n, rest)) => Exec(rest, stack + [n], out)
    else if |p| >= 4 && p[..4] == PRINT_CHAR then
      if stack == [] then None
      else Exec(p[4..], stack[..|stack| - 1], out + [stack[|stack| - 1]])
    else None
  }

  function RunWs(p: string): Option<seq<int>> {
    Exec(p, [], [])
  }

  // ---------------------------------------------------------------------
  // Reading numbers
  // ---------------------------------------------------------------------

  lemma {:induction false} DigitsUntilLfOf(ds: string, rest: string)
    requires forall i :: 0 <= i < |ds| ==> ds[i] == SPACE || ds[i] == TAB
    ensures DigitsUntilLf(ds + [LF] + rest) == Some((ds, rest))
  {
    var p := ds + [LF] + rest;
    if ds == [] {
      assert p == [LF] + rest;
      assert p[1..] == rest;
    } else {
      assert p[1..] == ds[1..] + [LF] + rest;
      DigitsUntilLfOf(ds[1..], rest);
      assert [ds[0]] + ds[1..] == ds;
    }
  }

  /** A field read as a binary number splits at any point into its high
      and its low digits. */
  lemma {:induction false} FieldValueAppend(a: string, b: string)
    ensures FieldValue(a + b) == FieldValue(a) * Pow2(|b|) + FieldValue(b)
    decreases |b|
  {
    if b == [] {
      assert a + b == a;
    } else {
      var ab := a + b;
      var b' := b[..|b| - 1];
      var bit := if b[|b| - 1] == TAB then 1 else 0;
      assert ab[..|ab| - 1] == a + b';
      assert ab[|ab| - 1] == b[|b| - 1];
      assert FieldValue(ab) == 2 * FieldValue(a + b') + bit;
      assert FieldValue(b) == 2 * FieldValue(b') + bit;
      FieldValueAppend(a, b');
      assert Pow2(|b|) == 2 * Pow2(|b'|);
      Double(FieldValue(a), Pow2(|b'|));
    }
  }

  /** Kept apart so that the nonlinear step is proved without the
      surrounding context. */
  lemma Double(x: nat, y: nat)
    ensures x * (2 * y) == 2 * (x * y)
  {
  }

  lemma {:induction false} FieldValueBound(f: string)
    ensures FieldValue(f) < Pow2(|f|)
    decreases |f|
  {
    if f != [] {
      FieldValueBound(f[..|f| - 1]);
      assert Pow2(|f|) == 2 * Pow2(|f| - 1);
    }
  }

  /** What the generator's push puts on the stack for a byte: the code
      itself below 128, and minus its low seven bits from 128 on. */
  function PushedValue(c: nat): int {
    if c < 128 then c else -(c - 128)
  }

  /** An eight-digit field is its first digit times 128 plus the other seven. */
  lemma LeadingDigit(f: string)
    requires |f| == 8
    ensures (f[0] == TAB) <==> FieldValue(f) >= 128
    ensures FieldValue(f[1..]) == FieldValue(f) % 128
  {
    var head := [f[0]];
    var low := f[1..];
    assert f == head + low;
    FieldValueAppend(head, low);
    FieldValueBound(low);
    assert head[..0] == [];
    assert Pow2(7) == 128;
    if f[0] == TAB {
      assert FieldValue(head) == 1;
      assert FieldValue(f) == 128 + FieldValue(low);
    } else {
      assert FieldValue(head) == 0;
      assert FieldValue(f) == FieldValue(low);
    }
  }

  /** The value a push of bitfield(c) reads, with its first character
      taken as the sign. */
  lemma SignedReading(c: nat)
    requires c < 256
    ensures var f := Bitfield(c);
      && |f| == 8 && (forall i :: 0 <= i < |f| ==> f[i] == SPACE || f[i] == TAB)
      && PushedValue(c) == if f[0] == SPACE then FieldValue(f[1..]) else -(FieldValue(f[1..]) as int)
  {
    BitfieldRoundTrip(c);
    SignedField(Bitfield(c), c);
  }

  lemma SignedField(f: string, c: nat)
    requires |f| == 8 && (forall i :: 0 <= i < |f| ==> f[i] == SPACE || f[i] == TAB)
    requires FieldValue(f) == c
    ensures PushedValue(c) == if f[0] == SPACE then FieldValue(f[1..]) else -(FieldValue(f[1..]) as int)
  {
    LeadingDigit(f);
    FieldValueBound(f);
    assert Pow2(8) == 256;
    if f[0] == SPACE {
      assert c < 128 && FieldValue(f[1..]) == c;
    } else {
      assert 128 <= c < 256 && FieldValue(f[1..]) == c - 128;
    }
  }

  /** A run of tabs and spaces ended by a line feed is read with its first
      character as the sign. */
  lemma ReadSignedDigits(f: string, rest: string)
    requires |f| >= 1 && forall i :: 0 <= i < |f| ==> f[i] == SPACE || f[i] == TAB
    ensures ReadNumber(f + [LF] + rest)
            == Some((if f[0] == SPACE then FieldValue(f[1..]) else -(FieldValue(f[1..]) as int), rest))
  {
    var p := f + [LF] + rest;
    assert p[1..] == f[1..] + [LF] + rest;
    DigitsUntilLfOf(f[1..], rest);
  }

  // ---------------------------------------------------------------------
  // The generated program
  // ---------------------------------------------------------------------

  /** One block pushes its value and prints it, leaving the stack as it was. */
  lemma BlockStep(c: nat, rest: string, stack: seq<int>, out: seq<int>)
    requires c < 256
    ensures Exec(Block(c) + rest, stack, out) == Exec(rest, stack, out + [PushedValue(c)])
  {
    SignedReading(c);
    PushPrint(Bitfield(c), PushedValue(c), rest, stack, out);
  }

  /** PushedValue of every code. */
  function PushedValues(d: seq<nat>): (r: seq<int>)
    ensures |r| == |d|
  {
    if d == [] then [] else [PushedValue(d[0])] + PushedValues(d[1..])
  }

  lemma {:induction false} PushedValuesAt(d: seq<nat>)
    ensures forall i :: 0 <= i < |d| ==> PushedValues(d)[i] == PushedValue(d[i])
  {
    if d != [] {
      PushedValuesAt(d[1..]);
      assert forall i :: 1 <= i < |d| ==> PushedValues(d)[i] == PushedValues(d[1..])[i - 1];
    }
  }

  lemma {:induction false} ExecBlocks(d: seq<nat>, stack: seq<int>, out: seq<int>)
    requires IsByteString(d)
    ensures Exec(Blocks(d) + TRAILER, stack, out) == Some(out + PushedValues(d))
  {
    if d == [] {
      assert out + [] == out;
    } else {
      var x := PushedValue(d[0]);
      ExecBlocks(d[1..], stack, out + [x]);
      ExecBlocksCons(d, stack, out);
    }
  }

  /** The inductive step of ExecBlocks: the first block prints its value,
      the remaining blocks print theirs. */
  lemma ExecBlocksCons(d: seq<nat>, stack: seq<int>, out: seq<int>)
    requires d != [] && IsByteString(d)
    requires Exec(Blocks(d[1..]) + TRAILER, stack, out + [PushedValue(d[0])])
             == Some(out + [PushedValue(d[0])] + PushedValues(d[1..]))
    ensures Exec(Blocks(d) + TRAILER, stack, out) == Some(out + PushedValues(d))
  {
    ExecCons(d[0], Blocks(d[1..]), PushedValues(d[1..]), stack, out);
  }

  lemma ExecCons(c: nat, later: string, ys: seq<int>, stack: seq<int>, out: seq<int>)
    requires c < 256
    requires Exec(later + TRAILER, stack, out + [PushedValue(c)]) == Some(out + [PushedValue(c)] + ys)
    ensures Exec(Block(c) + later + TRAILER, stack, out) == Some(out + ([PushedValue(c)] + ys))
  {
    assert Block(c) + later + TRAILER == Block(c) + (later + TRAILER);
    BlockStep(c, later + TRAILER, stack, out);
    assert out + [PushedValue(c)] + ys == out + ([PushedValue(c)] + ys);
  }

  /** What the program of gen_whitespace_program prints, as written: each
      code of the message and the newline, through PushedValue. */
  lemma WsProgramPrints(s: seq<nat>)
    requires IsByteString(s)
    ensures RunWs(WsProgram(s)) == Some(PushedValues(s + [NEWLINE_CODE]))
  {
    ExecBlocks(s + [NEWLINE_CODE], [], []);
    assert [] + PushedValues(s + [NEWLINE_CODE]) == PushedValues(s + [NEWLINE_CODE]);
  }

  /** The program prints the message and a newline back exactly when every
      code of the message is below 128. */
  lemma WsProgramEcho(s: seq<nat>)
    requires IsByteString(s)
    ensures RunWs(WsProgram(s)) == Some(s + [NEWLINE_CODE])
            <==> forall i :: 0 <= i < |s| ==> s[i] < 128
  {
    WsProgramPrints(s);
    var d := s + [NEWLINE_CODE];
    var printed := PushedValues(d);
    PushedValuesAt(d);
    if forall i :: 0 <= i < |s| ==> s[i] < 128 {
      assert printed == d;
    } else {
      var k :| 0 <= k < |s| && s[k] >= 128;
      assert printed[k] != d[k];
    }
  }

  /** A one-character message with a code from 128 to 255, such as 200
      (a capital E with a grave accent), prints a negative number instead of
      its code. */
  lemma HighByteCounterexample(c: nat)
    requires 128 <= c < 256
    ensures RunWs(WsProgram([c])) == Some([128 - c, NEWLINE_CODE])
    ensures RunWs(WsProgram([c])) != Some([c, NEWLINE_CODE])
  {
    WsProgramPrints([c]);
    assert PushedValues([c] + [NEWLINE_CODE]) == [128 - c, NEWLINE_CODE];
  }

  // ---------------------------------------------------------------------
  // With an explicit sign
  // ---------------------------------------------------------------------

  /** A push with a space, the positive sign, in front of the eight-digit
      field. */
  function SignedBlock(c: nat): string {
    PUSH + [SPACE] + Bitfield(c) + [LF] + PRINT_CHAR
  }

  function SignedBlocks(d: seq<nat>): string {
    if d == [] then "" else SignedBlock(d[0]) + SignedBlocks(d[1..])
  }

  function CorrectedWsProgram(data: seq<nat>): string {
    SignedBlocks(data + [NEWLINE_CODE]) + TRAILER
  }

  lemma SignedBlockStep(c: nat, rest: string, stack: seq<int>, out: seq<int>)
    requires c < 256
    ensures Exec(SignedBlock(c) + rest, stack, out) == Exec(rest, stack, out + [c])
  {
    var f := Bitfield(c);
    var field := [SPACE] + f;
    BitfieldRoundTrip(c);
    assert field[1..] == f;
    PushPrint(field, c, rest, stack, out);
    assert SignedBlock(c) + rest == PUSH + field + [LF] + PRINT_CHAR + rest;
  }

  /** "push", a number field, its line feed and "output character": when
      the field reads as `n`, the block prints `n` and leaves the stack as
      it was. */
  lemma PushPrint(field: string, n: int, rest: string, stack: seq<int>, out: seq<int>)
    requires |field| >= 1 && forall i :: 0 <= i < |field| ==> field[i] == SPACE || field[i] == TAB
    requires n == if field[0] == SPACE then FieldValue(field[1..]) else -(FieldValue(field[1..]) as int)
    ensures Exec(PUSH + field + [LF] + PRINT_CHAR + rest, stack, out) == Exec(rest, stack, out + [n])
  {
    var tail := PRINT_CHAR + rest;
    var p := PUSH + field + [LF] + PRINT_CHAR + rest;
    assert p == PUSH + (field + [LF] + tail);
    assert p[..2] == PUSH && p[..3][0] != TRAILER[0];
    assert p[2..] == field + [LF] + tail;
    ReadSignedDigits(field, tail);
    var s := stack + [n];
    assert tail[..3][0] != TRAILER[0] && tail[..2][0] != PUSH[0] && tail[..4] == PRINT_CHAR;
    assert tail[4..] == rest;
    assert s[..|s| - 1] == stack;
  }

  lemma {:induction false} ExecSignedBlocks(d: seq<nat>, stack: seq<int>, out: seq<int>)
    requires IsByteString(d)
    ensures Exec(SignedBlocks(d) + TRAILER, stack, out) == Some(out + d)
  {
    if d == [] {
      assert out + d == out;
    } else {
      assert SignedBlocks(d) + TRAILER == SignedBlock(d[0]) + (SignedBlocks(d[1..]) + TRAILER);
      SignedBlockStep(d[0], SignedBlocks(d[1..]) + TRAILER, stack, out);
      ExecSignedBlocks(d[1..], stack, out + [d[0]]);
      assert out + [d[0]] + d[1..] == out + d;
    }
  }

  /** With the sign written out, every byte string is printed back, followed
      by the newline. */
  lemma CorrectedWsProgramPrints(s: seq<nat>)
    requires IsByteString(s)
    ensures RunWs(CorrectedWsProgram(s)) == Some(s + [NEWLINE_CODE])
  {
    ExecSignedBlocks(s + [NEWLINE_CODE], [], []);
    assert [] + (s + [NEWLINE_CODE]) == s + [NEWLINE_CODE];
  }
}
