/**
 * What the program of gen_bf_program does when run: the text parses to a
 * fixed tree of instructions, and on a machine with wrapping byte cells it
 * writes every code of the message, then a newline, before it reaches the
 * final read loop, which writes nothing.
 */
module BfRun {
  import opened Common
  import opened BfMachine
  import opened Brainfuck

  // ---------------------------------------------------------------------
  // The instruction tree of the generated program
  // ---------------------------------------------------------------------

  function DigitOps(x: nat): seq<Op>
    requires x < 10
  {
    if x <= 5 then Rep(x, Inc) else Rep(10 - x, Dec)
  }

  function PartOps(s: Sweep, c: nat): seq<Op> {
    match s
    case HundredsSweep =>
      [Right] + Rep(Hundreds(c), Inc) + (if TensDigit(c) <= 5 then [] else [Inc])
    case TensSweep =>
      [Right] + DigitOps(TensDigit(c)) + (if OnesDigit(c) <= 5 then [] else [Inc])
    case OnesSweep =>
      [Right] + DigitOps(OnesDigit(c)) + [Out]
  }

  function SweepOps(d: seq<nat>, s: Sweep): seq<Op> {
    if d == [] then [] else PartOps(s, d[0]) + SweepOps(d[1..], s)
  }

  /** Body of the inner loop: the hundreds sweep, back to cell 1, decrement. */
  function InnerBody(d: seq<nat>): seq<Op> {
    SweepOps(d, HundredsSweep) + Rep(|d|, Left) + [Dec]
  }

  /** Body of the outer loop: refill cell 1, run the inner loop, the tens
      sweep, back to cell 0, decrement. */
  function OuterBody(d: seq<nat>): seq<Op> {
    RefillOps(d) + AdjustOps(d)
  }

  function RefillOps(d: seq<nat>): seq<Op> {
    [Right] + Rep(10, Inc) + [Loop(InnerBody(d))]
  }

  function AdjustOps(d: seq<nat>): seq<Op> {
    SweepOps(d, TensSweep) + [Left] + Rep(|d|, Left) + [Dec]
  }

  const TAIL_OPS: seq<Op> := [Right, Right, Right, Inc, Loop([Right, In])]

  function BfOps(data: seq<nat>): seq<Op> {
    var d := data + [NEWLINE_CODE];
    Rep(10, Inc) + [Loop(OuterBody(d))] + [Right] + SweepOps(d, OnesSweep) + TAIL_OPS
  }

  // ---------------------------------------------------------------------
  // The tree prints as the generated text
  // ---------------------------------------------------------------------

  lemma {:induction false} PrintRep(k: nat, op: Op, ch: char)
    requires PrintOp(op) == [ch]
    ensures PrintOps(Rep(k, op)) == Rep(k, ch)
  {
    if k > 0 {
      assert Rep(k, op)[1..] == Rep(k - 1, op);
      PrintRep(k - 1, op, ch);
      assert Rep(k, ch) == [ch] + Rep(k - 1, ch);
    }
  }

  lemma PrintDigit(x: nat)
    requires x < 10
    ensures PrintOps(DigitOps(x)) == DigitRun(x)
  {
    if x <= 5 {
      PrintRep(x, Inc, '+');
    } else {
      PrintRep(10 - x, Dec, '-');
    }
  }

  lemma PrintSingle(op: Op)
    requires !op.Loop?
    ensures PrintOps([op]) == PrintOp(op)
  {
  }

  lemma PrintPart(s: Sweep, c: nat)
    ensures PrintOps(PartOps(s, c)) == Part(s, c)
  {
    match s {
      case HundredsSweep =>
        var tail: seq<Op> := if TensDigit(c) <= 5 then [] else [Inc];
        PrintOpsAppend([Right] + Rep(Hundreds(c), Inc), tail);
        PrintOpsAppend([Right], Rep(Hundreds(c), Inc));
        PrintRep(Hundreds(c), Inc, '+');
        assert PrintOps(tail) == (if TensDigit(c) <= 5 then "" else "+");
      case TensSweep =>
        var tail: seq<Op> := if OnesDigit(c) <= 5 then [] else [Inc];
        PrintOpsAppend([Right] + DigitOps(TensDigit(c)), tail);
        PrintOpsAppend([Right], DigitOps(TensDigit(c)));
        PrintDigit(TensDigit(c));
        assert PrintOps(tail) == (if OnesDigit(c) <= 5 then "" else "+");
      case OnesSweep =>
        PrintOpsAppend([Right] + DigitOps(OnesDigit(c)), [Out]);
        PrintOpsAppend([Right], DigitOps(OnesDigit(c)));
        PrintDigit(OnesDigit(c));
        PrintSingle(Out);
    }
  }

  lemma {:induction false} PrintSweep(d: seq<nat>, s: Sweep)
    ensures PrintOps(SweepOps(d, s)) == Join(d, s)
  {
    if d != [] {
      PrintOpsAppend(PartOps(s, d[0]), SweepOps(d[1..], s));
      PrintPart(s, d[0]);
      PrintSweep(d[1..], s);
    }
  }

  lemma PrintInner(d: seq<nat>)
    ensures PrintOps(InnerBody(d)) == Join(d, HundredsSweep) + Rep(|d|, '<') + "-"
  {
    PrintOpsAppend(SweepOps(d, HundredsSweep) + Rep(|d|, Left), [Dec]);
    PrintOpsAppend(SweepOps(d, HundredsSweep), Rep(|d|, Left));
    PrintSweep(d, HundredsSweep);
    PrintRep(|d|, Left, '<');
    PrintSingle(Dec);
  }

  lemma PrintThree(a: seq<Op>, b: seq<Op>, c: seq<Op>)
    ensures PrintOps(a + b + c) == PrintOps(a) + PrintOps(b) + PrintOps(c)
  {
    PrintOpsAppend(a, b);
    PrintOpsAppend(a + b, c);
  }

  lemma PrintLoop(body: seq<Op>)
    ensures PrintOps([Loop(body)]) == "[" + PrintOps(body) + "]"
  {
    assert [Loop(body)][1..] == [];
  }

  lemma PrintOuter(d: seq<nat>)
    ensures PrintOps(OuterBody(d)) ==
      ">" + Rep(10, '+') + ("[" + PrintOps(InnerBody(d)) + "]")
        + (Join(d, TensSweep) + "<" + Rep(|d|, '<') + "-")
  {
    var a, b, c := [Right], Rep(10, Inc), [Loop(InnerBody(d))];
    var e, f, g := SweepOps(d, TensSweep), [Left], Rep(|d|, Left);
    PrintOpsAppend(RefillOps(d), AdjustOps(d));
    PrintThree(a, b, c);
    PrintThree(e, f, g);
    PrintOpsAppend(e + f + g, [Dec]);
    PrintRep(10, Inc, '+');
    PrintRep(|d|, Left, '<');
    PrintSweep(d, TensSweep);
    PrintLoop(InnerBody(d));
    PrintSingle(Right);
    PrintSingle(Left);
    PrintSingle(Dec);
  }

  lemma PrintTail()
    ensures PrintOps(TAIL_OPS) == TAIL
  {
    PrintLoop([Right, In]);
    assert TAIL_OPS == [Right, Right, Right, Inc] + [Loop([Right, In])];
    PrintOpsAppend([Right, Right, Right, Inc], [Loop([Right, In])]);
  }

  /** Regrouping of the printed pieces into the order gen_bf_program appends
      them; kept apart so that it is proved over plain string variables. */
  lemma Regroup(p: string, jh: string, g: string, jt: string, jo: string, t: string)
    ensures p + ("[" + (">" + p + ("[" + (jh + g + "-") + "]") + (jt + "<" + g + "-")) + "]")
              + ">" + jo + t
         == p + "[>" + p + "[" + jh + (g + "-" + "]") + jt + ("<" + (g + "-") + "]>") + jo + t
  {
  }

  /** The instruction tree prints as exactly the text gen_bf_program builds. */
  lemma PrintBf(data: seq<nat>)
    ensures PrintOps(BfOps(data)) == BfProgram(data)
  {
    var d := data + [NEWLINE_CODE];
    var a, b := Rep(10, Inc), [Loop(OuterBody(d))];
    assert BfOps(data) == (a + b + [Right]) + SweepOps(d, OnesSweep) + TAIL_OPS;
    PrintThree(a + b + [Right], SweepOps(d, OnesSweep), TAIL_OPS);
    PrintThree(a, b, [Right]);
    PrintRep(10, Inc, '+');
    PrintLoop(OuterBody(d));
    PrintOuter(d);
    PrintInner(d);
    PrintSweep(d, OnesSweep);
    PrintTail();
    PrintSingle(Right);
    Regroup(Rep(10, '+'), Join(d, HundredsSweep), Rep(|d|, '<'), Join(d, TensSweep),
      Join(d, OnesSweep), TAIL);
  }

  /** The generated text parses, its brackets properly nested, into the tree. */
  lemma BfParse(data: seq<nat>)
    ensures Parse(BfProgram(data)) == Some(BfOps(data))
    ensures BfChars(BfProgram(data))
  {
    PrintBf(data);
    ParsePrint(BfOps(data));
    PrintOpsAlphabet(BfOps(data));
  }

  // ---------------------------------------------------------------------
  // Running straight-line pieces
  // ---------------------------------------------------------------------

  /** Adds `v` to the current cell, wrapping around. */
  function Add(m: Machine, v: int): Machine {
    SetCell(m, m.ptr, Wrap(Cell(m, m.ptr) + v))
  }

  lemma AddAdd(m: Machine, a: int, b: int)
    ensures Add(Add(m, a), b) == Add(m, a + b)
  {
    WrapAdd(Cell(m, m.ptr) + a, b);
  }

  lemma AddZero(m: Machine)
    ensures Add(m, 0) == m
  {
    assert Add(m, 0).tape == m.tape;
  }

  lemma RunSingle(op: Op, m: Machine, fuel: nat)
    requires !op.Loop?
    ensures ExecSeq([op], m, fuel) == Done(Step(op, m))
  {
    assert [op][1..] == [];
  }

  /** `a` then `b`, both running to completion. */
  lemma ExecDone(a: seq<Op>, b: seq<Op>, m: Machine, m1: Machine, m2: Machine, fuel: nat)
    requires ExecSeq(a, m, fuel) == Done(m1) && ExecSeq(b, m1, fuel) == Done(m2)
    ensures ExecSeq(a + b, m, fuel) == Done(m2)
  {
    ExecAppend(a, b, m, fuel);
  }

  lemma {:induction false} RunIncs(k: nat, m: Machine, fuel: nat)
    ensures ExecSeq(Rep(k, Inc), m, fuel) == Done(Add(m, k))
  {
    if k == 0 {
      AddZero(m);
    } else {
      assert Rep(k, Inc)[1..] == Rep(k - 1, Inc);
      RunIncs(k - 1, Add(m, 1), fuel);
      AddAdd(m, 1, k - 1);
    }
  }

  lemma {:induction false} RunDecs(k: nat, m: Machine, fuel: nat)
    ensures ExecSeq(Rep(k, Dec), m, fuel) == Done(Add(m, -(k as int)))
  {
    if k == 0 {
      AddZero(m);
    } else {
      assert Rep(k, Dec)[1..] == Rep(k - 1, Dec);
      RunDecs(k - 1, Add(m, -1), fuel);
      AddAdd(m, -1, -(k - 1));
    }
  }

  lemma {:induction false} RunLefts(k: nat, m: Machine, fuel: nat)
    ensures ExecSeq(Rep(k, Left), m, fuel) == Done(m.(ptr := m.ptr - k))
  {
    if k > 0 {
      assert Rep(k, Left)[1..] == Rep(k - 1, Left);
      RunLefts(k - 1, m.(ptr := m.ptr - 1), fuel);
    }
  }

  /** The signed amount a digit's run adds to its cell. */
  function DigitNet(x: nat): int
    requires x < 10
  {
    if x <= 5 then x else x - 10
  }

  lemma RunDigit(x: nat, m: Machine, fuel: nat)
    requires x < 10
    ensures ExecSeq(DigitOps(x), m, fuel) == Done(Add(m, DigitNet(x)))
  {
    if x <= 5 {
      RunIncs(x, m, fuel);
    } else {
      RunDecs(10 - x, m, fuel);
    }
  }

  /** What one character's piece of a sweep adds to its cell. */
  function Net(s: Sweep, c: nat): int {
    match s
    case HundredsSweep => HundredsNet(c)
    case TensSweep => TensNet(c)
    case OnesSweep => OnesNet(c)
  }

  /** Step right, adjust the cell and, in the ones sweep, print it. */
  function PartResult(s: Sweep, c: nat, m: Machine): Machine {
    var m1 := Add(m.(ptr := m.ptr + 1), Net(s, c));
    if s == OnesSweep then m1.(out := m1.out + [Cell(m1, m1.ptr)]) else m1
  }

  lemma RunPart(s: Sweep, c: nat, m: Machine, fuel: nat)
    ensures ExecSeq(PartOps(s, c), m, fuel) == Done(PartResult(s, c, m))
  {
    match s {
      case HundredsSweep =>
        var carry := TensDigit(c) > 5;
        RunCount(Hundreds(c), carry, m, fuel);
        assert PartOps(s, c) == [Right] + Rep(Hundreds(c), Inc) + (if carry then [Inc] else []);
      case TensSweep =>
        var carry := OnesDigit(c) > 5;
        RunDigitCarry(TensDigit(c), carry, m, fuel);
        assert PartOps(s, c) == [Right] + DigitOps(TensDigit(c)) + (if carry then [Inc] else []);
      case OnesSweep =>
        RunDigitOut(OnesDigit(c), m, fuel);
    }
  }

  /** `>`, `k` times `+`, and one more `+` when the next digit carries. */
  lemma RunCount(k: nat, carry: bool, m: Machine, fuel: nat)
    ensures ExecSeq([Right] + Rep(k, Inc) + (if carry then [Inc] else []), m, fuel)
            == Done(Add(m.(ptr := m.ptr + 1), k + if carry then 1 else 0))
  {
    var m1 := m.(ptr := m.ptr + 1);
    RunIncs(k, m1, fuel);
    RunCarry(carry, Add(m1, k), fuel);
    AddAdd(m1, k, if carry then 1 else 0);
    RunPiece(Rep(k, Inc), if carry then [Inc] else [], m, Add(m1, k),
      Add(m1, k + if carry then 1 else 0), fuel);
  }

  /** `>`, a digit's run, and one more `+` when the next digit carries. */
  lemma RunDigitCarry(x: nat, carry: bool, m: Machine, fuel: nat)
    requires x < 10
    ensures ExecSeq([Right] + DigitOps(x) + (if carry then [Inc] else []), m, fuel)
            == Done(Add(m.(ptr := m.ptr + 1), DigitNet(x) + if carry then 1 else 0))
  {
    var m1 := m.(ptr := m.ptr + 1);
    RunDigit(x, m1, fuel);
    RunCarry(carry, Add(m1, DigitNet(x)), fuel);
    AddAdd(m1, DigitNet(x), if carry then 1 else 0);
    RunPiece(DigitOps(x), if carry then [Inc] else [], m, Add(m1, DigitNet(x)),
      Add(m1, DigitNet(x) + if carry then 1 else 0), fuel);
  }

  /** `>`, a digit's run, and `.`. */
  lemma RunDigitOut(x: nat, m: Machine, fuel: nat)
    requires x < 10
    ensures var m2 := Add(m.(ptr := m.ptr + 1), DigitNet(x));
      ExecSeq([Right] + DigitOps(x) + [Out], m, fuel) == Done(m2.(out := m2.out + [Cell(m2, m2.ptr)]))
  {
    var m2 := Add(m.(ptr := m.ptr + 1), DigitNet(x));
    RunDigit(x, m.(ptr := m.ptr + 1), fuel);
    RunSingle(Out, m2, fuel);
    RunPiece(DigitOps(x), [Out], m, m2, Step(Out, m2), fuel);
  }

  /** `>`, then `mid`, then `last`. */
  lemma RunPiece(mid: seq<Op>, last: seq<Op>, m: Machine, m2: Machine, m3: Machine, fuel: nat)
    requires ExecSeq(mid, m.(ptr := m.ptr + 1), fuel) == Done(m2)
    requires ExecSeq(last, m2, fuel) == Done(m3)
    ensures ExecSeq([Right] + mid + last, m, fuel) == Done(m3)
  {
    RunSingle(Right, m, fuel);
    ExecThree([Right], mid, last, m, m.(ptr := m.ptr + 1), m2, m3, fuel);
  }

  /** The extra `+` a digit above 5 carries into the digit before it. */
  lemma RunCarry(carry: bool, m: Machine, fuel: nat)
    ensures ExecSeq(if carry then [Inc] else [], m, fuel) == Done(Add(m, if carry then 1 else 0))
  {
    if carry {
      RunSingle(Inc, m, fuel);
    } else {
      AddZero(m);
    }
  }

  function SweepResult(d: seq<nat>, s: Sweep, m: Machine): Machine {
    if d == [] then m else SweepResult(d[1..], s, PartResult(s, d[0], m))
  }

  lemma {:induction false} RunSweep(d: seq<nat>, s: Sweep, m: Machine, fuel: nat)
    ensures ExecSeq(SweepOps(d, s), m, fuel) == Done(SweepResult(d, s, m))
  {
    if d != [] {
      RunPart(s, d[0], m, fuel);
      RunSweep(d[1..], s, PartResult(s, d[0], m), fuel);
      ExecDone(PartOps(s, d[0]), SweepOps(d[1..], s), m, PartResult(s, d[0], m),
        SweepResult(d, s, m), fuel);
    }
  }

  // ---------------------------------------------------------------------
  // What a sweep does to the tape
  // ---------------------------------------------------------------------

  lemma CellOfAdd(m: Machine, v: int, j: int)
    ensures Cell(Add(m, v), j) == if j == m.ptr then Wrap(Cell(m, j) + v) else Cell(m, j)
  {
  }

  /** The codes the ones sweep prints, starting one cell right of the pointer. */
  function Printed(d: seq<nat>, m: Machine): seq<Byte> {
    seq(|d|, i requires 0 <= i < |d| => Wrap(Cell(m, m.ptr + 1 + i) + OnesNet(d[i])))
  }

  lemma PartMoves(s: Sweep, c: nat, m: Machine)
    ensures PartResult(s, c, m).ptr == m.ptr + 1 && PartResult(s, c, m).input == m.input
  {
  }

  lemma PartCell(s: Sweep, c: nat, m: Machine, j: int)
    ensures Cell(PartResult(s, c, m), j) ==
      if j == m.ptr + 1 then Wrap(Cell(m, j) + Net(s, c)) else Cell(m, j)
  {
    CellOfAdd(m.(ptr := m.ptr + 1), Net(s, c), j);
  }

  lemma PartOut(s: Sweep, c: nat, m: Machine)
    ensures PartResult(s, c, m).out ==
      m.out + (if s == OnesSweep then [Wrap(Cell(m, m.ptr + 1) + Net(s, c))] else [])
  {
    PartCell(s, c, m, m.ptr + 1);
  }

  /** A sweep ends |d| cells to the right and reads no input. */
  lemma {:induction false} SweepMoves(d: seq<nat>, s: Sweep, m: Machine)
    ensures SweepResult(d, s, m).ptr == m.ptr + |d|
    ensures SweepResult(d, s, m).input == m.input
  {
    if d != [] {
      PartMoves(s, d[0], m);
      SweepMoves(d[1..], s, PartResult(s, d[0], m));
    }
  }

  /** A sweep from pointer p adjusts cells p+1 .. p+|d| by the nets of the
      codes and leaves every other cell alone. */
  lemma {:induction false} SweepCells(d: seq<nat>, s: Sweep, m: Machine, j: int)
    ensures Cell(SweepResult(d, s, m), j) ==
      if m.ptr < j <= m.ptr + |d| then Wrap(Cell(m, j) + Net(s, d[j - m.ptr - 1]))
      else Cell(m, j)
  {
    if d != [] {
      var m1 := PartResult(s, d[0], m);
      var rest := SweepResult(d[1..], s, m1);
      assert SweepResult(d, s, m) == rest;
      PartMoves(s, d[0], m);
      PartCell(s, d[0], m, j);
      SweepCells(d[1..], s, m1, j);
      if j == m.ptr + 1 {
        assert Cell(rest, j) == Cell(m1, j);
      } else if m.ptr + 1 < j <= m.ptr + |d| {
        assert Cell(m1, j) == Cell(m, j);
        assert d[1..][j - m1.ptr - 1] == d[j - m.ptr - 1];
      } else {
        assert Cell(rest, j) == Cell(m1, j) == Cell(m, j);
      }
    }
  }

  /** The ones sweep prints the adjusted cells in order; the others print
      nothing. */
  lemma {:induction false} SweepOut(d: seq<nat>, s: Sweep, m: Machine)
    ensures SweepResult(d, s, m).out == m.out + (if s == OnesSweep then Printed(d, m) else [])
  {
    if d == [] {
      assert Printed(d, m) == [];
    } else {
      var m1 := PartResult(s, d[0], m);
      SweepOut(d[1..], s, m1);
      assert SweepResult(d, s, m) == SweepResult(d[1..], s, m1);
      if s == OnesSweep {
        PrintingStep(d, m, m1, SweepResult(d[1..], s, m1).out);
      } else {
        PartOut(s, d[0], m);
      }
    }
  }

  /** The inductive step of SweepOut for the ones sweep: the first cell's
      code, then what the rest of the sweep prints. */
  lemma PrintingStep(d: seq<nat>, m: Machine, m1: Machine, rest: seq<Byte>)
    requires d != [] && m1 == PartResult(OnesSweep, d[0], m)
    requires rest == m1.out + Printed(d[1..], m1)
    ensures rest == m.out + Printed(d, m)
  {
    var x := Wrap(Cell(m, m.ptr + 1) + OnesNet(d[0]));
    PartOut(OnesSweep, d[0], m);
    PrintedStep(d, m, m1);
    assert m.out + [x] + Printed(d[1..], m1) == m.out + ([x] + Printed(d[1..], m1));
  }

  lemma PrintedStep(d: seq<nat>, m: Machine, m1: Machine)
    requires d != [] && m1 == PartResult(OnesSweep, d[0], m)
    ensures [Wrap(Cell(m, m.ptr + 1) + OnesNet(d[0]))] + Printed(d[1..], m1) == Printed(d, m)
  {
    PartMoves(OnesSweep, d[0], m);
    forall i | 0 <= i < |d| - 1
      ensures Printed(d[1..], m1)[i] == Printed(d, m)[i + 1]
    {
      PartCell(OnesSweep, d[0], m, m.ptr + 2 + i);
      assert m1.ptr + 1 + i == m.ptr + 1 + (i + 1);
    }
  }

  // ---------------------------------------------------------------------
  // The two counting loops
  // ---------------------------------------------------------------------

  /** The cell of code `c` after `a` passes of the outer loop and `b`
      passes of the inner loop within the current one. */
  function Expected(c: nat, a: int, b: int): Byte {
    Wrap(a * (10 * HundredsNet(c) + TensNet(c)) + b * HundredsNet(c))
  }

  lemma ExpectedInner(c: nat, a: int, b: int)
    ensures Wrap(Expected(c, a, b) + HundredsNet(c)) == Expected(c, a, b + 1)
  {
    var x, h := 10 * HundredsNet(c) + TensNet(c), HundredsNet(c);
    WrapAdd(a * x + b * h, h);
    assert a * x + b * h + h == a * x + (b + 1) * h;
  }

  lemma ExpectedOuter(c: nat, a: int)
    ensures Wrap(Expected(c, a, 10) + TensNet(c)) == Expected(c, a + 1, 0)
  {
    var x, h := 10 * HundredsNet(c) + TensNet(c), HundredsNet(c);
    WrapAdd(a * x + 10 * h, TensNet(c));
    assert a * x + 10 * h + TensNet(c) == (a + 1) * x + 0 * h;
  }

  /** After ten passes of each loop the ones adjustment lands on the code. */
  lemma ExpectedFinal(c: nat)
    ensures Wrap(Expected(c, 10, 0) + OnesNet(c)) == Wrap(c)
  {
    var x := 10 * HundredsNet(c) + TensNet(c);
    WrapAdd(10 * x + 0 * HundredsNet(c), OnesNet(c));
    DigitFixup(c);
  }

  /** The character cells 2 .. |d|+1 hold what `a` outer and `b` inner
      passes put there, and no cell right of them has been touched. */
  ghost predicate Cells(m: Machine, d: seq<nat>, a: int, b: int) {
    && (forall j :: 2 <= j < |d| + 2 ==> Cell(m, j) == Expected(d[j - 2], a, b))
    && Clear(m, |d| + 2)
  }

  /** Every cell from `k` on holds 0. */
  ghost predicate Clear(m: Machine, k: int) {
    forall j :: k <= j ==> Cell(m, j) == 0
  }

  lemma RunLoopOnly(body: seq<Op>, m: Machine, fuel: nat)
    ensures ExecSeq([Loop(body)], m, fuel) == ExecLoop(body, m, fuel)
  {
    assert [Loop(body)][1..] == [];
  }

  /** The machine after one pass of the inner loop body. */
  function InnerResult(d: seq<nat>, m: Machine): Machine {
    Add(SweepResult(d, HundredsSweep, m).(ptr := m.ptr), -1)
  }

  lemma RunInner(d: seq<nat>, m: Machine, fuel: nat)
    ensures ExecSeq(InnerBody(d), m, fuel) == Done(InnerResult(d, m))
  {
    var n := |d|;
    var m1 := SweepResult(d, HundredsSweep, m);
    RunSweep(d, HundredsSweep, m, fuel);
    SweepMoves(d, HundredsSweep, m);
    var m2 := m1.(ptr := m.ptr);
    RunLefts(n, m1, fuel);
    ExecDone(SweepOps(d, HundredsSweep), Rep(n, Left), m, m1, m2, fuel);
    RunSingle(Dec, m2, fuel);
    ExecDone(SweepOps(d, HundredsSweep) + Rep(n, Left), [Dec], m, m2, Add(m2, -1), fuel);
  }

  /** One inner pass adds the hundreds to every character cell and counts
      cell 1 down. */
  lemma InnerStep(d: seq<nat>, m: Machine, a: int, b: int)
    requires m.ptr == 1 && Cells(m, d, a, b)
    ensures var r := InnerResult(d, m);
      && r.ptr == 1 && r.out == m.out && r.input == m.input
      && Cell(r, 0) == Cell(m, 0) && Cell(r, 1) == Wrap(Cell(m, 1) - 1)
      && Cells(r, d, a, b + 1)
  {
    var m2 := SweepResult(d, HundredsSweep, m).(ptr := m.ptr);
    SweepMoves(d, HundredsSweep, m);
    SweepOut(d, HundredsSweep, m);
    forall j | 2 <= j < |d| + 2
      ensures Cell(InnerResult(d, m), j) == Expected(d[j - 2], a, b + 1)
    {
      CellOfAdd(m2, -1, j);
      SweepCells(d, HundredsSweep, m, j);
      ExpectedInner(d[j - 2], a, b);
    }
    forall j | |d| + 2 <= j
      ensures Cell(InnerResult(d, m), j) == 0
    {
      CellOfAdd(m2, -1, j);
      SweepCells(d, HundredsSweep, m, j);
    }
    CellOfAdd(m2, -1, 0);
    SweepCells(d, HundredsSweep, m, 0);
    CellOfAdd(m2, -1, 1);
    SweepCells(d, HundredsSweep, m, 1);
  }

  /** What one pass of the inner loop body leaves: cell 1 counted down and
      the hundreds added to every character cell. */
  ghost predicate InnerPassed(m: Machine, o: Outcome, d: seq<nat>, a: int, b: int) {
    && o.Done? && o.m.ptr == 1 && o.m.out == m.out && o.m.input == m.input
    && Cell(o.m, 0) == Cell(m, 0) && Cell(o.m, 1) == Wrap(Cell(m, 1) - 1)
    && Cells(o.m, d, a, b + 1)
  }

  /** What one pass of the inner loop body does, for every machine it can
      start from. */
  ghost predicate InnerPasses(body: seq<Op>, d: seq<nat>) {
    forall m: Machine, a: int, b: int, f: nat {:trigger ExecSeq(body, m, f), Cells(m, d, a, b)} ::
      m.ptr == 1 && Cells(m, d, a, b) ==> InnerPassed(m, ExecSeq(body, m, f), d, a, b)
  }

  lemma InnerBodyPasses(d: seq<nat>)
    ensures InnerPasses(InnerBody(d), d)
  {
    forall m: Machine, a: int, b: int, f: nat | m.ptr == 1 && Cells(m, d, a, b)
      ensures InnerPassed(m, ExecSeq(InnerBody(d), m, f), d, a, b)
    {
      InnerPass(d, m, a, b, f);
    }
  }

  lemma InnerPass(d: seq<nat>, m: Machine, a: int, b: int, fuel: nat)
    requires m.ptr == 1 && Cells(m, d, a, b)
    ensures InnerPassed(m, ExecSeq(InnerBody(d), m, fuel), d, a, b)
  {
    RunInner(d, m, fuel);
    InnerStep(d, m, a, b);
  }

  /** The inner loop with `r` passes left runs them all and empties cell 1. */
  lemma {:induction false} InnerLoop(body: seq<Op>, d: seq<nat>, m: Machine, r: nat, a: int, b: int, fuel: nat)
    requires InnerPasses(body, d)
    requires m.ptr == 1 && Cell(m, 1) == r && r + b == 10 && fuel >= r
    requires Cells(m, d, a, b)
    ensures var o := ExecLoop(body, m, fuel);
      && o.Done? && o.m.ptr == 1 && o.m.out == m.out && o.m.input == m.input
      && Cell(o.m, 0) == Cell(m, 0) && Cell(o.m, 1) == 0 && Cells(o.m, d, a, 10)
    decreases r
  {
    if r > 0 {
      var o := ExecSeq(body, m, fuel - 1);
      assert o.Done? && Cells(o.m, d, a, b + 1);
      InnerLoop(body, d, o.m, r - 1, a, b + 1, fuel - 1);
    }
  }

  /** First half of an outer pass: refill cell 1 and run the inner loop. */
  lemma OuterRefill(d: seq<nat>, m: Machine, a: int, fuel: nat)
    requires m.ptr == 0 && Cell(m, 1) == 0 && Cells(m, d, a, 0) && fuel >= 10
    ensures var o := ExecSeq(RefillOps(d), m, fuel);
      && o.Done? && o.m.ptr == 1 && o.m.out == m.out && o.m.input == m.input
      && Cell(o.m, 0) == Cell(m, 0) && Cell(o.m, 1) == 0 && Cells(o.m, d, a, 10)
  {
    var m1 := m.(ptr := 1);
    RunSingle(Right, m, fuel);
    var m2 := Add(m1, 10);
    RunIncs(10, m1, fuel);
    ExecDone([Right], Rep(10, Inc), m, m1, m2, fuel);
    CellOfAdd(m1, 10, 0);
    CellOfAdd(m1, 10, 1);
    forall j | 2 <= j < |d| + 2
      ensures Cell(m2, j) == Expected(d[j - 2], a, 0)
    {
      CellOfAdd(m1, 10, j);
      assert Cell(m1, j) == Cell(m, j);
    }
    forall j | |d| + 2 <= j
      ensures Cell(m2, j) == 0
    {
      CellOfAdd(m1, 10, j);
      assert Cell(m1, j) == Cell(m, j);
    }
    InnerBodyPasses(d);
    InnerLoop(InnerBody(d), d, m2, 10, a, 0, fuel);
    RunLoopOnly(InnerBody(d), m2, fuel);
    ExecDone([Right] + Rep(10, Inc), [Loop(InnerBody(d))], m, m2,
      ExecLoop(InnerBody(d), m2, fuel).m, fuel);
  }

  /** The machine after the second half of an outer pass: the tens sweep,
      back to cell 0, decrement. */
  function AdjustResult(d: seq<nat>, m: Machine): Machine {
    Add(SweepResult(d, TensSweep, m).(ptr := m.ptr - 1), -1)
  }

  lemma RunAdjust(d: seq<nat>, m: Machine, fuel: nat)
    ensures ExecSeq(AdjustOps(d), m, fuel) == Done(AdjustResult(d, m))
  {
    var n := |d|;
    var m1 := SweepResult(d, TensSweep, m);
    RunSweep(d, TensSweep, m, fuel);
    SweepMoves(d, TensSweep, m);
    RunBack(n, m1, m.ptr - 1, fuel);
    var back := [Left] + Rep(n, Left) + [Dec];
    ExecDone(SweepOps(d, TensSweep), back, m, m1, AdjustResult(d, m), fuel);
    assert SweepOps(d, TensSweep) + [Left] + Rep(n, Left) + [Dec] == SweepOps(d, TensSweep) + back;
  }

  /** `<` once and `n` more times, then `-`. */
  lemma RunBack(n: nat, m: Machine, p: int, fuel: nat)
    requires p == m.ptr - 1 - n
    ensures ExecSeq([Left] + Rep(n, Left) + [Dec], m, fuel) == Done(Add(m.(ptr := p), -1))
  {
    var m1 := m.(ptr := m.ptr - 1);
    var m2 := m.(ptr := p);
    RunSingle(Left, m, fuel);
    RunLefts(n, m1, fuel);
    assert m1.(ptr := m1.ptr - n) == m2;
    RunSingle(Dec, m2, fuel);
    ExecThree([Left], Rep(n, Left), [Dec], m, m1, m2, Add(m2, -1), fuel);
  }

  /** Three pieces, each running to completion from where the last stopped. */
  lemma ExecThree(a: seq<Op>, b: seq<Op>, c: seq<Op>,
                  m: Machine, m1: Machine, m2: Machine, m3: Machine, fuel: nat)
    requires ExecSeq(a, m, fuel) == Done(m1) && ExecSeq(b, m1, fuel) == Done(m2)
    requires ExecSeq(c, m2, fuel) == Done(m3)
    ensures ExecSeq(a + b + c, m, fuel) == Done(m3)
  {
    ExecDone(a, b, m, m1, m2, fuel);
    ExecDone(a + b, c, m, m2, m3, fuel);
  }

  /** The second half adds the tens to every character cell and counts
      cell 0 down. */
  lemma AdjustStep(d: seq<nat>, m: Machine, a: int)
    requires m.ptr == 1 && Cells(m, d, a, 10)
    ensures var r := AdjustResult(d, m);
      && r.ptr == 0 && r.out == m.out && r.input == m.input
      && Cell(r, 0) == Wrap(Cell(m, 0) - 1) && Cell(r, 1) == Cell(m, 1)
      && Cells(r, d, a + 1, 0)
  {
    var m3 := SweepResult(d, TensSweep, m).(ptr := 0);
    SweepMoves(d, TensSweep, m);
    SweepOut(d, TensSweep, m);
    forall j | 2 <= j < |d| + 2
      ensures Cell(AdjustResult(d, m), j) == Expected(d[j - 2], a + 1, 0)
    {
      CellOfAdd(m3, -1, j);
      SweepCells(d, TensSweep, m, j);
      ExpectedOuter(d[j - 2], a);
    }
    forall j | |d| + 2 <= j
      ensures Cell(AdjustResult(d, m), j) == 0
    {
      CellOfAdd(m3, -1, j);
      SweepCells(d, TensSweep, m, j);
    }
    CellOfAdd(m3, -1, 0);
    SweepCells(d, TensSweep, m, 0);
    CellOfAdd(m3, -1, 1);
    SweepCells(d, TensSweep, m, 1);
  }

  /** One pass of the outer loop body, from cell 0. */
  lemma OuterPass(d: seq<nat>, m: Machine, a: int, fuel: nat)
    requires m.ptr == 0 && Cell(m, 1) == 0 && Cells(m, d, a, 0) && fuel >= 10
    ensures OuterPassed(m, ExecSeq(OuterBody(d), m, fuel), d, a)
  {
    OuterRefill(d, m, a, fuel);
    var m1 := ExecSeq(RefillOps(d), m, fuel).m;
    RunAdjust(d, m1, fuel);
    AdjustStep(d, m1, a);
    ExecDone(RefillOps(d), AdjustOps(d), m, m1, AdjustResult(d, m1), fuel);
  }

  /** What one pass of the outer loop body leaves: cell 0 counted down,
      cell 1 empty, and the tens added to every character cell. */
  ghost predicate OuterPassed(m: Machine, o: Outcome, d: seq<nat>, a: int) {
    && o.Done? && o.m.ptr == 0 && o.m.out == m.out && o.m.input == m.input
    && Cell(o.m, 0) == Wrap(Cell(m, 0) - 1) && Cell(o.m, 1) == 0 && Cells(o.m, d, a + 1, 0)
  }

  /** What one pass of the outer loop body does, for every machine it can
      start from: the loop is proved from this alone. */
  ghost predicate OuterPasses(body: seq<Op>, d: seq<nat>) {
    forall m: Machine, a: int, f: nat {:trigger ExecSeq(body, m, f), Cells(m, d, a, 0)} ::
      m.ptr == 0 && Cell(m, 1) == 0 && Cells(m, d, a, 0) && f >= 10 ==>
        OuterPassed(m, ExecSeq(body, m, f), d, a)
  }

  lemma OuterBodyPasses(d: seq<nat>)
    ensures OuterPasses(OuterBody(d), d)
  {
    forall m: Machine, a: int, f: nat | m.ptr == 0 && Cell(m, 1) == 0 && Cells(m, d, a, 0) && f >= 10
      ensures OuterPassed(m, ExecSeq(OuterBody(d), m, f), d, a)
    {
      OuterPass(d, m, a, f);
    }
  }

  /** The outer loop with `r` passes left runs them all. */
  lemma {:induction false} OuterLoop(body: seq<Op>, d: seq<nat>, m: Machine, r: nat, a: int, fuel: nat)
    requires OuterPasses(body, d)
    requires m.ptr == 0 && Cell(m, 0) == r && r + a == 10 && Cell(m, 1) == 0 && fuel >= r + 10
    requires Cells(m, d, a, 0)
    ensures var o := ExecLoop(body, m, fuel);
      && o.Done? && o.m.ptr == 0 && o.m.out == m.out && o.m.input == m.input
      && Cell(o.m, 1) == 0 && Cells(o.m, d, 10, 0)
    decreases r
  {
    if r > 0 {
      var o := ExecSeq(body, m, fuel - 1);
      assert o.Done? && Cells(o.m, d, a + 1, 0);
      OuterLoop(body, d, o.m, r - 1, a + 1, fuel - 1);
    }
  }

  // ---------------------------------------------------------------------
  // The whole program
  // ---------------------------------------------------------------------

  /** Codes as the bytes a wrapping cell holds. */
  function Bytes(d: seq<nat>): seq<Byte> {
    seq(|d|, i requires 0 <= i < |d| => Wrap(d[i]))
  }

  /** Everything before the final read loop. */
  function PrintingOps(d: seq<nat>): seq<Op> {
    Rep(10, Inc) + [Loop(OuterBody(d))] + [Right] + SweepOps(d, OnesSweep)
  }

  /** Both counting loops, run from a fresh machine. */
  lemma RunLoops(d: seq<nat>, input: seq<Byte>, fuel: nat)
    requires fuel >= 20
    ensures var o := ExecSeq(Rep(10, Inc) + [Loop(OuterBody(d))], Init(input), fuel);
      && o.Done? && o.m.ptr == 0 && o.m.out == [] && o.m.input == input && Cells(o.m, d, 10, 0)
  {
    OuterBodyPasses(d);
    RunCounting(OuterBody(d), d, input, fuel);
  }

  /** Ten `+` and the outer loop, from a fresh machine, given only what one
      pass of the loop body does. */
  lemma RunCounting(body: seq<Op>, d: seq<nat>, input: seq<Byte>, fuel: nat)
    requires fuel >= 20 && OuterPasses(body, d)
    ensures var o := ExecSeq(Rep(10, Inc) + [Loop(body)], Init(input), fuel);
      && o.Done? && o.m.ptr == 0 && o.m.out == [] && o.m.input == input && Cells(o.m, d, 10, 0)
  {
    var m0 := Init(input);
    var m1 := Add(m0, 10);
    RunIncs(10, m0, fuel);
    CellOfAdd(m0, 10, 0);
    CellOfAdd(m0, 10, 1);
    forall j | 2 <= j < |d| + 2
      ensures Cell(m1, j) == Expected(d[j - 2], 0, 0)
    {
      CellOfAdd(m0, 10, j);
    }
    forall j | |d| + 2 <= j
      ensures Cell(m1, j) == 0
    {
      CellOfAdd(m0, 10, j);
    }
    OuterLoop(body, d, m1, 10, 0, fuel);
    RunLoopOnly(body, m1, fuel);
    ExecDone(Rep(10, Inc), [Loop(body)], m0, m1, ExecLoop(body, m1, fuel).m, fuel);
  }

  /** Before the read loop the program has printed exactly the codes, as
      bytes, read nothing, and stands on the last character cell with only
      empty cells right of it. */
  lemma RunPrinting(d: seq<nat>, input: seq<Byte>, fuel: nat)
    requires fuel >= 20
    ensures var o := ExecSeq(PrintingOps(d), Init(input), fuel);
      && o.Done? && o.m.out == Bytes(d) && o.m.input == input
      && o.m.ptr == |d| + 1 && Clear(o.m, |d| + 2)
  {
    var loops := Rep(10, Inc) + [Loop(OuterBody(d))];
    RunLoops(d, input, fuel);
    var m1 := ExecSeq(loops, Init(input), fuel).m;
    var m2 := m1.(ptr := 1);
    RunSingle(Right, m1, fuel);
    ExecDone(loops, [Right], Init(input), m1, m2, fuel);
    RunSweep(d, OnesSweep, m2, fuel);
    SweepOut(d, OnesSweep, m2);
    SweepMoves(d, OnesSweep, m2);
    ExecDone(loops + [Right], SweepOps(d, OnesSweep), Init(input), m2,
      SweepResult(d, OnesSweep, m2), fuel);
    CellsMove(m1, 1, d, 10, 0);
    PrintedFinal(d, m2);
    SweepClear(d, OnesSweep, m2);
  }

  /** A sweep from cell 1 touches no cell right of the character cells. */
  lemma SweepClear(d: seq<nat>, s: Sweep, m: Machine)
    requires m.ptr == 1 && Clear(m, |d| + 2)
    ensures Clear(SweepResult(d, s, m), |d| + 2)
  {
    forall j | |d| + 2 <= j
      ensures Cell(SweepResult(d, s, m), j) == 0
    {
      SweepCells(d, s, m, j);
    }
  }

  lemma CellsMove(m: Machine, p: int, d: seq<nat>, a: int, b: int)
    requires Cells(m, d, a, b)
    ensures Cells(m.(ptr := p), d, a, b)
  {
    forall j | 2 <= j < |d| + 2
      ensures Cell(m.(ptr := p), j) == Expected(d[j - 2], a, b)
    {
      assert Cell(m.(ptr := p), j) == Cell(m, j);
    }
    forall j | |d| + 2 <= j
      ensures Cell(m.(ptr := p), j) == 0
    {
      assert Cell(m.(ptr := p), j) == Cell(m, j);
    }
  }

  lemma PrintedFinal(d: seq<nat>, m: Machine)
    requires m.ptr == 1 && Cells(m, d, 10, 0)
    ensures Printed(d, m) == Bytes(d)
  {
    forall i | 0 <= i < |d|
      ensures Printed(d, m)[i] == Bytes(d)[i]
    {
      PrintedAt(d, m, i);
    }
  }

  lemma PrintedAt(d: seq<nat>, m: Machine, i: nat)
    requires m.ptr == 1 && Cells(m, d, 10, 0) && i < |d|
    ensures Printed(d, m)[i] == Wrap(d[i])
  {
    assert Cell(m, i + 2) == Expected(d[i], 10, 0);
    ExpectedFinal(d[i]);
  }

  /** `>>>+` and then the loop `[>,]`, entered three cells to the right
      with that cell incremented. */
  lemma TailRun(m: Machine, fuel: nat)
    ensures ExecSeq(TAIL_OPS, m, fuel)
            == ExecLoop([Right, In], Add(m.(ptr := m.ptr + 3), 1), fuel)
  {
    var m1 := Step(Right, m);
    var m2 := Step(Right, m1);
    var m3 := Step(Right, m2);
    var m4 := Step(Inc, m3);
    RunSingle(Right, m, fuel);
    RunSingle(Right, m1, fuel);
    RunSingle(Right, m2, fuel);
    RunSingle(Inc, m3, fuel);
    ExecDone([Right], [Right], m, m1, m2, fuel);
    ExecDone([Right] + [Right], [Right], m, m2, m3, fuel);
    ExecDone([Right] + [Right] + [Right], [Inc], m, m3, m4, fuel);
    assert TAIL_OPS == [Right] + [Right] + [Right] + [Inc] + [Loop([Right, In])];
    ExecAppend([Right] + [Right] + [Right] + [Inc], [Loop([Right, In])], m, fuel);
    RunLoopOnly([Right, In], m4, fuel);
    assert m3 == m.(ptr := m.ptr + 3);
  }

  /** `>>>+[>,]` adds nothing to the output, however much it reads. */
  lemma TailSilent(m: Machine, fuel: nat)
    ensures ExecSeq(TAIL_OPS, m, fuel).m.out == m.out
  {
    TailRun(m, fuel);
    ReadLoopSilent(Add(m.(ptr := m.ptr + 3), 1), fuel);
  }

  /** On an empty cell three to the right, and with no zero byte left to
      read, `>>>+[>,]` never stops: at the end of the input each read
      stores 255. */
  lemma TailLoops(m: Machine, fuel: nat)
    requires Cell(m, m.ptr + 3) == 0 && 0 !in m.input
    ensures ExecSeq(TAIL_OPS, m, fuel).OutOfFuel?
  {
    var m4 := Add(m.(ptr := m.ptr + 3), 1);
    TailRun(m, fuel);
    CellOfAdd(m.(ptr := m.ptr + 3), 1, m.ptr + 3);
    ReadLoopForever(m4, fuel);
  }

  /** A zero byte in the input stops `>>>+[>,]` once it is read. */
  lemma TailHalts(m: Machine, fuel: nat)
    requires 0 in m.input && fuel > |m.input|
    ensures ExecSeq(TAIL_OPS, m, fuel).Done?
  {
    TailRun(m, fuel);
    ReadLoopHalts(Add(m.(ptr := m.ptr + 3), 1), fuel);
  }

  /** The generated program runs as its printing part followed by the tail. */
  lemma BfProgramRun(data: seq<nat>, input: seq<Byte>, fuel: nat)
    requires fuel >= 20
    ensures var d := data + [NEWLINE_CODE];
      var m := ExecSeq(PrintingOps(d), Init(input), fuel).m;
      && Run(BfProgram(data), input, fuel) == Some(ExecSeq(TAIL_OPS, m, fuel))
      && m.out == Bytes(d) && m.input == input && m.ptr == |d| + 1 && Clear(m, |d| + 2)
  {
    var d := data + [NEWLINE_CODE];
    BfParse(data);
    assert BfOps(data) == PrintingOps(d) + TAIL_OPS;
    ExecAppend(PrintingOps(d), TAIL_OPS, Init(input), fuel);
    RunPrinting(d, input, fuel);
  }

  /** Run on a machine with wrapping byte cells, the program of
      gen_bf_program writes every code of the message, then a newline, each
      reduced to a byte; whatever its input, and however long the final
      read loop runs. */
  lemma BfProgramOutput(data: seq<nat>, input: seq<Byte>, fuel: nat)
    requires fuel >= 20
    ensures Run(BfProgram(data), input, fuel).Some?
    ensures Run(BfProgram(data), input, fuel).value.m.out == Bytes(data + [NEWLINE_CODE])
  {
    var d := data + [NEWLINE_CODE];
    BfProgramRun(data, input, fuel);
    TailSilent(ExecSeq(PrintingOps(d), Init(input), fuel).m, fuel);
  }

  /** As its final comment says, the program loops forever at the end: run
      with an empty input, or any input without a zero byte, it is still
      running whatever fuel it is given beyond the counting loops. */
  lemma BfProgramLoopsForever(data: seq<nat>, input: seq<Byte>, fuel: nat)
    requires fuel >= 20 && 0 !in input
    ensures Run(BfProgram(data), input, fuel).Some?
    ensures Run(BfProgram(data), input, fuel).value.OutOfFuel?
  {
    var d := data + [NEWLINE_CODE];
    BfProgramRun(data, input, fuel);
    var m := ExecSeq(PrintingOps(d), Init(input), fuel).m;
    assert Cell(m, m.ptr + 3) == 0;
    TailLoops(m, fuel);
  }

  /** A zero byte in the input ends the program, given a pass of the read
      loop per input byte. */
  lemma BfProgramHaltsOnZero(data: seq<nat>, input: seq<Byte>, fuel: nat)
    requires fuel >= 20 && fuel > |input| && 0 in input
    ensures Run(BfProgram(data), input, fuel).Some?
    ensures Run(BfProgram(data), input, fuel).value.Done?
  {
    var d := data + [NEWLINE_CODE];
    BfProgramRun(data, input, fuel);
    TailHalts(ExecSeq(PrintingOps(d), Init(input), fuel).m, fuel);
  }

  /** For a message of byte-sized codes the output is the message and a
      newline. */
  lemma BfProgramPrints(data: seq<nat>, input: seq<Byte>, fuel: nat)
    requires fuel >= 20 && IsByteString(data)
    ensures Run(BfProgram(data), input, fuel).Some?
    ensures Run(BfProgram(data), input, fuel).value.m.out == data + [NEWLINE_CODE]
  {
    BfProgramOutput(data, input, fuel);
    BytesOfCodes(data + [NEWLINE_CODE]);
  }

  /** Byte-sized codes are their own bytes. */
  lemma BytesOfCodes(d: seq<nat>)
    requires IsByteString(d)
    ensures Bytes(d) == d
  {
  }
}
