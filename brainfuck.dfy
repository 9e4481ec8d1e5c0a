/**
 * The Brainfuck generator of gen_poly.py (gen_bf_program). For every code
 * `c` of the message (with a newline appended) the program keeps one tape
 * cell. Cell 0 counts ten passes of an outer loop and cell 1 ten passes of
 * an inner loop; the inner loop adds the (possibly borrowed) hundreds digit
 * to every character cell, so that ten by ten passes build 100 times it;
 * the outer loop also adds the signed tens adjustment, ten times over; a
 * final sweep adds the signed ones adjustment and prints each cell.
 * A digit above 5 is written as 10 - d decrements and borrows one unit
 * from the next-higher place.
 */
module Brainfuck {
  import opened Common

  // ---------------------------------------------------------------------
  // Digit decomposition and fix-up (gen_poly.py:47-59)
  // ---------------------------------------------------------------------

  function Hundreds(c: nat): nat { c / 100 }

  /** `(c - (c//100)*100)//10`, the tens digit. */
  function TensDigit(c: nat): (t: nat)
    ensures t < 10
  {
    (c - Hundreds(c) * 100) / 10
  }

  function OnesDigit(c: nat): (o: nat)
    ensures o < 10
  {
    c % 10
  }

  /** The hundreds written by the inner loop: one more when the tens digit
      is above 5 and borrows from it. */
  function HundredsNet(c: nat): nat {
    Hundreds(c) + (if TensDigit(c) > 5 then 1 else 0)
  }

  /** The signed tens adjustment: the digit, or the digit minus ten when it
      is above 5, plus one when the ones digit borrows from it. */
  function TensNet(c: nat): int {
    (if TensDigit(c) <= 5 then TensDigit(c) else TensDigit(c) - 10)
      + (if OnesDigit(c) > 5 then 1 else 0)
  }

  function OnesNet(c: nat): int {
    if OnesDigit(c) <= 5 then OnesDigit(c) else OnesDigit(c) - 10
  }

  /** The three adjusted places rebuild the code exactly, for every code. */
  lemma DigitFixup(c: nat)
    ensures 100 * HundredsNet(c) + 10 * TensNet(c) + OnesNet(c) == c
  {
    assert c == 100 * Hundreds(c) + 10 * TensDigit(c) + OnesDigit(c);
  }

  /** The run of '+' or '-' written for one decimal digit. */
  function DigitRun(x: nat): string
    requires x < 10
  {
    if x <= 5 then Rep(x, '+') else Rep(10 - x, '-')
  }

  /** A digit costs at most five increments or at most four decrements,
      and the run's signed value is the digit or the digit minus ten. */
  lemma DigitRunCost(x: nat)
    requires x < 10
    ensures (x <= 5 && |DigitRun(x)| == x && forall i :: 0 <= i < x ==> DigitRun(x)[i] == '+')
         || (x > 5 && 1 <= |DigitRun(x)| == 10 - x <= 4
             && forall i :: 0 <= i < 10 - x ==> DigitRun(x)[i] == '-')
  {
  }

  // ---------------------------------------------------------------------
  // The generated text (gen_poly.py:34-71)
  // ---------------------------------------------------------------------

  /** What one character adds to `program` inside the loop. */
  function HundredsPart(c: nat): string {
    ">" + Rep(Hundreds(c), '+') + (if TensDigit(c) <= 5 then "" else "+")
  }

  /** What one character adds to `tens`. */
  function TensPart(c: nat): string {
    ">" + DigitRun(TensDigit(c)) + (if OnesDigit(c) <= 5 then "" else "+")
  }

  /** What one character adds to `singles`. */
  function OnesPart(c: nat): string {
    ">" + DigitRun(OnesDigit(c)) + "."
  }

  /** The three strings the loop accumulates, one piece per character. */
  datatype Sweep = HundredsSweep | TensSweep | OnesSweep

  function Part(s: Sweep, c: nat): string {
    match s
    case HundredsSweep => HundredsPart(c)
    case TensSweep => TensPart(c)
    case OnesSweep => OnesPart(c)
  }

  function Join(d: seq<nat>, s: Sweep): string {
    if d == [] then "" else Part(s, d[0]) + Join(d[1..], s)
  }

  /** `goBack`: one '<' per character, then '-'. */
  function GoBack(n: nat): string {
    Rep(n, '<') + "-"
  }

  /** Ten increments of cell 0, then ten of cell 1, opening both loops. */
  const HEAD: string := Rep(10, '+') + "[>" + Rep(10, '+') + "["

  /** Back to cell 1, decrement it and close the inner loop. */
  function InnerClose(n: nat): string {
    GoBack(n) + "]"
  }

  /** Back to cell 0, decrement it, close the outer loop and step to the
      first character cell. */
  function OuterClose(n: nat): string {
    "<" + GoBack(n) + "]>"
  }

  /** Set a cell, then move right reading input for as long as cells are
      non-zero: with no input this loops forever. */
  const TAIL: string := ">>>+[>,]"

  /** gen_bf_program(data). */
  function BfProgram(data: seq<nat>): string {
    var d := data + [NEWLINE_CODE];
    HEAD + Join(d, HundredsSweep) + InnerClose(|d|) + Join(d, TensSweep)
      + OuterClose(|d|) + Join(d, OnesSweep) + TAIL
  }

  lemma HeadText()
    ensures HEAD == "++++++++++[>++++++++++["
  {
  }

  lemma {:induction false} JoinSnoc(d: seq<nat>, c: nat, s: Sweep)
    ensures Join(d + [c], s) == Join(d, s) + Part(s, c)
  {
    if d == [] {
      assert d + [c] == [c];
    } else {
      assert (d + [c])[1..] == d[1..] + [c];
      JoinSnoc(d[1..], c, s);
    }
  }

  lemma JoinStep(d: seq<nat>, i: nat, s: Sweep)
    requires i < |d|
    ensures Join(d[..i + 1], s) == Join(d[..i], s) + Part(s, d[i])
  {
    assert d[..i + 1] == d[..i] + [d[i]];
    JoinSnoc(d[..i], d[i], s);
  }

  lemma PrefixedJoinStep(d: seq<nat>, i: nat, prefix: string, s: Sweep)
    requires i < |d|
    ensures prefix + Join(d[..i + 1], s) == prefix + Join(d[..i], s) + Part(s, d[i])
  {
    JoinStep(d, i, s);
  }

  /** gen_bf_program: the fixed loop headers, the loop over the characters,
      then the accumulated pieces in order. */
  method GenBfProgram(dataToPrint: seq<nat>) returns (program: string)
    ensures program == BfProgram(dataToPrint)
  {
    var data := dataToPrint + [NEWLINE_CODE];
    program := Rep(10, '+');
    program := program + "[>";
    program := program + Rep(10, '+');
    program := program + "[";
    var tens, singles, goBack;
    program, tens, singles, goBack := CharacterLoop(data, program);
    goBack := goBack + "-";
    ProgramAssembly(dataToPrint, program, goBack, tens, singles);
    program := program + goBack;
    program := program + "]";
    program := program + tens;
    program := program + "<";
    program := program + goBack;
    program := program + "]>";
    program := program + singles;
    program := program + TAIL;
  }

  /** The `for` loop of gen_bf_program with its four string accumulators. */
  method CharacterLoop(data: seq<nat>, program0: string)
    returns (program: string, tens: string, singles: string, goBack: string)
    ensures program == program0 + Join(data, HundredsSweep)
    ensures tens == Join(data, TensSweep) && singles == Join(data, OnesSweep)
    ensures goBack == Rep(|data|, '<')
  {
    program, tens, singles, goBack := program0, "", "", "";
    var i := 0;
    while i < |data|
      invariant 0 <= i <= |data|
      invariant program == program0 + Join(data[..i], HundredsSweep)
      invariant tens == Join(data[..i], TensSweep)
      invariant singles == Join(data[..i], OnesSweep)
      invariant goBack == Rep(i, '<')
    {
      var c := data[i];
      program, tens, singles := AppendCharacter(c, program, tens, singles);
      goBack := goBack + "<";
      RepSnoc(i, '<');
      PrefixedJoinStep(data, i, program0, HundredsSweep);
      JoinStep(data, i, TensSweep);
      JoinStep(data, i, OnesSweep);
      i := i + 1;
    }
    assert data[..i] == data;
  }

  /** The statements after the loop of gen_bf_program put the accumulated
      pieces in place. */
  lemma ProgramAssembly(dataToPrint: seq<nat>, program: string, goBack: string,
                        tens: string, singles: string)
    requires var d := dataToPrint + [NEWLINE_CODE];
      && program == Rep(10, '+') + "[>" + Rep(10, '+') + "[" + Join(d, HundredsSweep)
      && goBack == Rep(|d|, '<') + "-"
      && tens == Join(d, TensSweep) && singles == Join(d, OnesSweep)
    ensures program + goBack + "]" + tens + "<" + goBack + "]>" + singles + TAIL
      == BfProgram(dataToPrint)
  {
    var d := dataToPrint + [NEWLINE_CODE];
    var n := |d|;
    assert program == HEAD + Join(d, HundredsSweep);
    assert program + goBack + "]" == program + (goBack + "]");
    var y := program + goBack + "]" + tens;
    assert y + "<" + goBack + "]>" == y + ("<" + goBack + "]>");
  }

  /** One pass of the loop body of gen_bf_program for the code `c`. */
  method AppendCharacter(c: nat, program0: string, tens0: string, singles0: string)
    returns (program: string, tens: string, singles: string)
    ensures program == program0 + HundredsPart(c)
    ensures tens == tens0 + TensPart(c)
    ensures singles == singles0 + OnesPart(c)
  {
    program, tens, singles := program0, tens0, singles0;
    program := program + ">";
    program := program + Rep(c / 100, '+');
    tens := tens + ">";
    if (c - (c / 100) * 100) / 10 <= 5 {
      tens := tens + Rep((c - (c / 100) * 100) / 10, '+');
    } else {
      program := program + "+";
      tens := tens + Rep(10 - (c - (c / 100) * 100) / 10, '-');
    }
    ghost var tensRun := tens;
    assert tensRun == tens0 + (">" + DigitRun(TensDigit(c)));
    singles := singles + ">";
    if c % 10 <= 5 {
      singles := singles + Rep(c % 10, '+');
    } else {
      tens := tens + "+";
      singles := singles + Rep(10 - c % 10, '-');
    }
    singles := singles + ".";
    assert tens == tensRun + (if OnesDigit(c) <= 5 then "" else "+");
  }

  // ---------------------------------------------------------------------
  // Structure of the text
  // ---------------------------------------------------------------------

  /** A string without '.', '[' or ']' counts none of them. */
  lemma NoMarks(s: string)
    requires forall i :: 0 <= i < |s| ==> s[i] != '.' && s[i] != '[' && s[i] != ']'
    ensures Count(s, '.') == 0 && Count(s, '[') == 0 && Count(s, ']') == 0
  {
    CountAbsent(s, '.');
    CountAbsent(s, '[');
    CountAbsent(s, ']');
  }

  /** A piece of the ones sweep holds one '.', the others none; no piece
      holds a bracket. */
  lemma PartCounts(s: Sweep, c: nat)
    ensures Count(Part(s, c), '.') == (if s == OnesSweep then 1 else 0)
    ensures Count(Part(s, c), '[') == 0 && Count(Part(s, c), ']') == 0
  {
    if s == OnesSweep {
      var run := ">" + DigitRun(OnesDigit(c));
      assert OnesPart(c) == run + ".";
      NoMarks(run);
      CountAppend(run, ".", '.');
      CountAppend(run, ".", '[');
      CountAppend(run, ".", ']');
    } else {
      NoMarks(Part(s, c));
    }
  }

  /** Occurrences in a text made of seven pieces. */
  lemma CountSeven(a: string, b: string, c: string, e: string, f: string, g: string,
                   h: string, ch: char)
    ensures Count(a + b + c + e + f + g + h, ch) ==
      Count(a, ch) + Count(b, ch) + Count(c, ch) + Count(e, ch)
      + Count(f, ch) + Count(g, ch) + Count(h, ch)
  {
    CountFour(a, b, c, e, ch);
    CountThree(a + b + c + e, f, g, ch);
    CountAppend(a + b + c + e + f + g, h, ch);
  }

  lemma CountThree(a: string, b: string, c: string, ch: char)
    ensures Count(a + b + c, ch) == Count(a, ch) + Count(b, ch) + Count(c, ch)
  {
    CountAppend(a, b, ch);
    CountAppend(a + b, c, ch);
  }

  lemma CountFour(a: string, b: string, c: string, e: string, ch: char)
    ensures Count(a + b + c + e, ch) == Count(a, ch) + Count(b, ch) + Count(c, ch) + Count(e, ch)
  {
    CountThree(a, b, c, ch);
    CountAppend(a + b + c, e, ch);
  }

  /** The fixed text before the first sweep: two '[' and nothing else counted. */
  lemma HeadCounts()
    ensures Count(HEAD, '.') == 0 && Count(HEAD, '[') == 2 && Count(HEAD, ']') == 0
  {
    var plus := Rep(10, '+');
    NoMarks(plus);
    CountFour(plus, "[>", plus, "[", '.');
    CountFour(plus, "[>", plus, "[", '[');
    CountFour(plus, "[>", plus, "[", ']');
  }

  /** The text that closes each loop: one ']' and nothing else counted. */
  lemma CloseCounts(n: nat)
    ensures Count(InnerClose(n), '.') == 0 && Count(InnerClose(n), '[') == 0
    ensures Count(InnerClose(n), ']') == 1
    ensures Count(OuterClose(n), '.') == 0 && Count(OuterClose(n), '[') == 0
    ensures Count(OuterClose(n), ']') == 1
  {
    var g := GoBack(n);
    NoMarks(g);
    CountAppend(g, "]", '.');
    CountAppend(g, "]", '[');
    CountAppend(g, "]", ']');
    CountThree("<", g, "]>", '.');
    CountThree("<", g, "]>", '[');
    CountThree("<", g, "]>", ']');
  }

  /** Each sweep holds one '.' per character for the ones sweep and none
      otherwise, and no bracket. */
  lemma {:induction false} SweepCounts(d: seq<nat>, s: Sweep)
    ensures Count(Join(d, s), '.') == (if s == OnesSweep then |d| else 0)
    ensures Count(Join(d, s), '[') == 0 && Count(Join(d, s), ']') == 0
  {
    if d != [] {
      PartCounts(s, d[0]);
      CountAppend(Part(s, d[0]), Join(d[1..], s), '.');
      CountAppend(Part(s, d[0]), Join(d[1..], s), '[');
      CountAppend(Part(s, d[0]), Join(d[1..], s), ']');
      SweepCounts(d[1..], s);
    }
  }

  /** One '.' per character of the message and one for the newline; three
      '[' and three ']'. */
  lemma BfProgramCounts(data: seq<nat>)
    ensures Count(BfProgram(data), '.') == |data| + 1
    ensures Count(BfProgram(data), '[') == 3 && Count(BfProgram(data), ']') == 3
  {
    var d := data + [NEWLINE_CODE];
    SweepCounts(d, HundredsSweep);
    SweepCounts(d, TensSweep);
    SweepCounts(d, OnesSweep);
    HeadCounts();
    CloseCounts(|d|);
    TailCounts();
    ProgramCount(data, '.');
    ProgramCount(data, '[');
    ProgramCount(data, ']');
  }

  /** A character's count in the program, piece by piece. */
  lemma ProgramCount(data: seq<nat>, ch: char)
    ensures var d := data + [NEWLINE_CODE];
      Count(BfProgram(data), ch) == Count(HEAD, ch) + Count(Join(d, HundredsSweep), ch)
        + Count(InnerClose(|d|), ch) + Count(Join(d, TensSweep), ch)
        + Count(OuterClose(|d|), ch) + Count(Join(d, OnesSweep), ch) + Count(TAIL, ch)
  {
    var d := data + [NEWLINE_CODE];
    CountSeven(HEAD, Join(d, HundredsSweep), InnerClose(|d|), Join(d, TensSweep),
      OuterClose(|d|), Join(d, OnesSweep), TAIL, ch);
  }

  lemma TailCounts()
    ensures Count(TAIL, '.') == 0 && Count(TAIL, '[') == 1 && Count(TAIL, ']') == 1
  {
    var moves, loop := ">>>+", "[>,]";
    assert TAIL == moves + loop;
    NoMarks(moves);
    CountAppend(moves, loop, '.');
    CountAppend(moves, loop, '[');
    CountAppend(moves, loop, ']');
  }

  /** Appending keeps the first |HEAD| characters. */
  lemma PrefixOfAppend(x: string, y: string)
    requires |x| >= |HEAD| && x[..|HEAD|] == HEAD
    ensures |x + y| >= |HEAD| && (x + y)[..|HEAD|] == HEAD
  {
    assert (x + y)[..|HEAD|] == x[..|HEAD|];
  }

  /** The program opens with the two loop headers and ends with the
      read loop. */
  lemma BfProgramEnds(data: seq<nat>)
    ensures |BfProgram(data)| >= |HEAD| + |TAIL|
    ensures BfProgram(data)[..|HEAD|] == HEAD
    ensures BfProgram(data)[|BfProgram(data)| - |TAIL|..] == TAIL
  {
    var d := data + [NEWLINE_CODE];
    var x5 := HEAD + Join(d, HundredsSweep) + InnerClose(|d|) + Join(d, TensSweep)
      + OuterClose(|d|) + Join(d, OnesSweep);
    assert BfProgram(data) == x5 + TAIL;
    PrefixOfAppend(HEAD, Join(d, HundredsSweep));
    PrefixOfAppend(HEAD + Join(d, HundredsSweep), InnerClose(|d|));
    PrefixOfAppend(HEAD + Join(d, HundredsSweep) + InnerClose(|d|), Join(d, TensSweep));
    PrefixOfAppend(HEAD + Join(d, HundredsSweep) + InnerClose(|d|) + Join(d, TensSweep),
      OuterClose(|d|));
    PrefixOfAppend(HEAD + Join(d, HundredsSweep) + InnerClose(|d|) + Join(d, TensSweep)
      + OuterClose(|d|), Join(d, OnesSweep));
    PrefixOfAppend(x5, TAIL);
  }
}
