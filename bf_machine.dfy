/**
 * A Brainfuck machine with byte cells that wrap around: the execution model
 * the generated program is written for. Program text is parsed into a tree
 * of instructions (characters other than the eight instructions are
 * comments); loops run with a fuel bound, and running out of fuel keeps the
 * machine state reached so far, so the output written before that point
 * can still be inspected.
 */
module BfMachine {
  import opened Common

  datatype Op = Inc | Dec | Left | Right | Out | In | Loop(body: seq<Op>)

  /** Size measure for termination of the mutually recursive definitions. */
  function OpSize(op: Op): (r: nat)
    ensures r >= 1
  {
    match op
    case Loop(b) => 1 + SeqSize(b)
    case _ => 1
  }

  function SeqSize(ops: seq<Op>): (r: nat)
    ensures ops != [] ==> r > SeqSize(ops[1..])
    ensures ops != [] && ops[0].Loop? ==> r > SeqSize(ops[0].body)
  {
    if ops == [] then 0 else OpSize(ops[0]) + SeqSize(ops[1..])
  }

  // ---------------------------------------------------------------------
  // Program text
  // ---------------------------------------------------------------------

  function PrintOp(op: Op): string
    decreases OpSize(op), 0
  {
    match op
    case Inc => "+"
    case Dec => "-"
    case Left => "<"
    case Right => ">"
    case Out => "."
    case In => ","
    case Loop(b) => "[" + PrintOps(b) + "]"
  }

  function PrintOps(ops: seq<Op>): string
    decreases SeqSize(ops), 1
  {
    if ops == [] then "" else PrintOp(ops[0]) + PrintOps(ops[1..])
  }

  /** The instruction a character stands for, when it is not a bracket. */
  function Simple(ch: char): Option<Op> {
    match ch
    case '+' => Some(Inc)
    case '-' => Some(Dec)
    case '<' => Some(Left)
    case '>' => Some(Right)
    case '.' => Some(Out)
    case ',' => Some(In)
    case _ => None
  }

  /** Parses instructions up to the end of the text or an unmatched ']',
      returning them with the unparsed remainder; None for a '[' that is
      never closed. */
  function ParseSeq(p: string): (r: Option<(seq<Op>, string)>)
    ensures r.Some? ==> |r.value.1| <= |p|
    ensures r.Some? ==> r.value.1 == [] || r.value.1[0] == ']'
    decreases |p|
  {
    if p == [] || p[0] == ']' then Some(([], p))
    else if p[0] == '[' then
      match ParseSeq(p[1..])
      case None => None
      case Some((body, rest)) =>
        if rest == [] then None
        else match ParseSeq(rest[1..])
          case None => None
          case Some((more, rest')) => Some(([Loop(body)] + more, rest'))
    else
      match ParseSeq(p[1..])
      case None => None
      case Some((more, rest)) =>
        match Simple(p[0])
        case Some(op) => Some(([op] + more, rest))
        case None => Some((more, rest))
  }

  /** A whole program: every '[' closed and no ']' left over. */
  function Parse(p: string): Option<seq<Op>> {
    match ParseSeq(p)
    case Some((ops, rest)) => if rest == [] then Some(ops) else None
    case None => None
  }

  lemma {:induction false} PrintOpsAppend(a: seq<Op>, b: seq<Op>)
    ensures PrintOps(a + b) == PrintOps(a) + PrintOps(b)
    decreases |a|
  {
    if a == [] {
      assert a + b == b;
    } else {
      assert (a + b)[0] == a[0];
      assert (a + b)[1..] == a[1..] + b;
      PrintOpsAppend(a[1..], b);
    }
  }

  /** Parsing printed instructions gives them back, whatever follows them,
      as long as it is the end of the text or a closing bracket. */
  lemma {:induction false} ParsePrintOps(ops: seq<Op>, rest: string)
    requires rest == [] || rest[0] == ']'
    ensures ParseSeq(PrintOps(ops) + rest) == Some((ops, rest))
    decreases SeqSize(ops)
  {
    if ops == [] {
      assert PrintOps(ops) + rest == rest;
    } else {
      var tail := PrintOps(ops[1..]) + rest;
      ParsePrintOps(ops[1..], rest);
      assert PrintOps(ops) + rest == PrintOp(ops[0]) + tail;
      assert [ops[0]] + ops[1..] == ops;
      if ops[0].Loop? {
        var b := ops[0].body;
        ParsePrintOps(b, "]" + tail);
        ParseLoopStep(b, tail, ops[1..], rest);
      } else {
        ParseSimpleStep(ops[0], tail, ops[1..], rest);
      }
    }
  }

  lemma ParseLoopStep(b: seq<Op>, tail: string, more: seq<Op>, rest: string)
    requires ParseSeq(PrintOps(b) + ("]" + tail)) == Some((b, "]" + tail))
    requires ParseSeq(tail) == Some((more, rest))
    ensures ParseSeq(PrintOp(Loop(b)) + tail) == Some(([Loop(b)] + more, rest))
  {
    ParseWrapped(PrintOps(b), tail, b, more, rest);
    assert PrintOp(Loop(b)) + tail == "[" + PrintOps(b) + "]" + tail;
  }

  /** A bracketed text whose inside parses up to its closing bracket. */
  lemma ParseWrapped(x: string, tail: string, b: seq<Op>, more: seq<Op>, rest: string)
    requires ParseSeq(x + ("]" + tail)) == Some((b, "]" + tail))
    requires ParseSeq(tail) == Some((more, rest))
    ensures ParseSeq("[" + x + "]" + tail) == Some(([Loop(b)] + more, rest))
  {
    var p := "[" + x + "]" + tail;
    var close := "]" + tail;
    assert p[0] == '[';
    assert p[1..] == x + close;
    assert close[1..] == tail;
  }

  lemma ParseSimpleStep(op: Op, tail: string, more: seq<Op>, rest: string)
    requires !op.Loop?
    requires ParseSeq(tail) == Some((more, rest))
    ensures ParseSeq(PrintOp(op) + tail) == Some(([op] + more, rest))
  {
    var p := PrintOp(op) + tail;
    assert p[1..] == tail;
    assert Simple(p[0]) == Some(op);
  }

  /** A printed program parses back to itself. */
  lemma ParsePrint(ops: seq<Op>)
    ensures Parse(PrintOps(ops)) == Some(ops)
  {
    ParsePrintOps(ops, []);
    assert PrintOps(ops) + [] == PrintOps(ops);
  }

  /** Only the eight Brainfuck characters. */
  predicate BfChars(s: string) {
    forall i :: 0 <= i < |s| ==> s[i] in "+-<>[].,"
  }

  lemma BfCharsAppend(a: string, b: string)
    requires BfChars(a) && BfChars(b)
    ensures BfChars(a + b)
  {
    assert forall i :: 0 <= i < |a + b| ==> (a + b)[i] == if i < |a| then a[i] else b[i - |a|];
  }

  /** Printed instructions use only the eight Brainfuck characters. */
  lemma {:induction false} PrintOpsAlphabet(ops: seq<Op>)
    ensures BfChars(PrintOps(ops))
    decreases SeqSize(ops)
  {
    if ops != [] {
      PrintOpsAlphabet(ops[1..]);
      if ops[0].Loop? {
        PrintOpsAlphabet(ops[0].body);
        BfCharsAppend("[", PrintOps(ops[0].body));
        BfCharsAppend("[" + PrintOps(ops[0].body), "]");
      }
      BfCharsAppend(PrintOp(ops[0]), PrintOps(ops[1..]));
    }
  }

  // ---------------------------------------------------------------------
  // Execution
  // ---------------------------------------------------------------------

  /** The non-zero cells of a tape; every other cell holds 0, so two tapes
      are equal exactly when all their cells are. */
  type Tape = t: map<int, Byte> | forall i :: i in t ==> t[i] != 0 witness map[]

  /** `input` is what ',' still has to read. */
  datatype Machine = Machine(tape: Tape, ptr: int, out: seq<Byte>, input: seq<Byte>)

  datatype Outcome = Done(m: Machine) | OutOfFuel(m: Machine)

  function Init(input: seq<Byte>): Machine {
    Machine(map[], 0, [], input)
  }

  function Cell(m: Machine, i: int): Byte {
    if i in m.tape then m.tape[i] else 0
  }

  function SetCell(m: Machine, i: int, v: Byte): Machine {
    m.(tape := if v == 0 then m.tape - {i} else m.tape[i := v])
  }

  /** Byte-cell arithmetic. */
  function Wrap(v: int): Byte {
    v % 256
  }

  lemma WrapAdd(a: int, b: int)
    ensures Wrap(Wrap(a) + b) == Wrap(a + b)
  {
    var q := a / 256;
    assert a == 256 * q + Wrap(a);
    assert a + b == 256 * q + (Wrap(a) + b);
  }

  /** One instruction other than a loop. ',' at the end of the input
      stores 255, that is -1 in a signed byte. */
  function Step(op: Op, m: Machine): Machine
    requires !op.Loop?
  {
    match op
    case Inc => SetCell(m, m.ptr, Wrap(Cell(m, m.ptr) + 1))
    case Dec => SetCell(m, m.ptr, Wrap(Cell(m, m.ptr) - 1))
    case Left => m.(ptr := m.ptr - 1)
    case Right => m.(ptr := m.ptr + 1)
    case Out => m.(out := m.out + [Cell(m, m.ptr)])
    case In => if m.input == [] then SetCell(m, m.ptr, 255)
               else SetCell(m, m.ptr, m.input[0]).(input := m.input[1..])
  }

  function ExecSeq(ops: seq<Op>, m: Machine, fuel: nat): Outcome
    decreases fuel, SeqSize(ops), 1
  {
    if ops == [] then Done(m)
    else match ops[0]
      case Loop(b) =>
        (match ExecLoop(b, m, fuel)
         case Done(m') => ExecSeq(ops[1..], m', fuel)
         case OutOfFuel(m') => OutOfFuel(m'))
      case _ => ExecSeq(ops[1..], Step(ops[0], m), fuel)
  }

  /** `[body]`: every iteration spends one unit of fuel. */
  function ExecLoop(body: seq<Op>, m: Machine, fuel: nat): Outcome
    decreases fuel, SeqSize(body), 2
  {
    if Cell(m, m.ptr) == 0 then Done(m)
    else if fuel == 0 then OutOfFuel(m)
    else match ExecSeq(body, m, fuel - 1)
      case Done(m') => ExecLoop(body, m', fuel - 1)
      case OutOfFuel(m') => OutOfFuel(m')
  }

  /** Runs program text on the given input; None when its brackets do not match. */
  function Run(p: string, input: seq<Byte>, fuel: nat): Option<Outcome> {
    match Parse(p)
    case Some(ops) => Some(ExecSeq(ops, Init(input), fuel))
    case None => None
  }

  // ---------------------------------------------------------------------
  // Facts about execution
  // ---------------------------------------------------------------------

  /** Running `a + b` runs `a`, then `b` from where `a` stopped. */
  lemma {:induction false} ExecAppend(a: seq<Op>, b: seq<Op>, m: Machine, fuel: nat)
    ensures ExecSeq(a + b, m, fuel) ==
      match ExecSeq(a, m, fuel)
      case Done(m') => ExecSeq(b, m', fuel)
      case OutOfFuel(m') => OutOfFuel(m')
    decreases |a|
  {
    if a == [] {
      assert a + b == b;
    } else {
      assert (a + b)[0] == a[0];
      assert (a + b)[1..] == a[1..] + b;
      match a[0] {
        case Loop(body) =>
          match ExecLoop(body, m, fuel) {
            case Done(m') => ExecAppend(a[1..], b, m', fuel);
            case OutOfFuel(m') =>
          }
        case _ =>
          ExecAppend(a[1..], b, Step(a[0], m), fuel);
      }
    }
  }

  /** One pass of the body `>,`. */
  lemma ReadStep(m: Machine, fuel: nat)
    ensures ExecSeq([Right, In], m, fuel) == Done(Step(In, Step(Right, m)))
  {
    var m1 := Step(Right, m);
    assert [Right, In][1..] == [In];
    assert [In][1..] == [];
    assert ExecSeq([], Step(In, m1), fuel) == Done(Step(In, m1));
    assert ExecSeq([In], m1, fuel) == Done(Step(In, m1));
  }

  /** A loop whose body only moves right and reads never writes output. */
  lemma {:induction false} ReadLoopSilent(m: Machine, fuel: nat)
    ensures ExecLoop([Right, In], m, fuel).m.out == m.out
    decreases fuel
  {
    if Cell(m, m.ptr) != 0 && fuel > 0 {
      ReadStep(m, fuel - 1);
      ReadLoopSilent(Step(In, Step(Right, m)), fuel - 1);
    }
  }

  /** Entered on a non-zero cell, the loop `[>,]` never leaves while
      every byte still to be read is non-zero: each pass stores either
      such a byte or, at the end of the input, 255. */
  lemma {:induction false} ReadLoopForever(m: Machine, fuel: nat)
    requires Cell(m, m.ptr) != 0 && 0 !in m.input
    ensures ExecLoop([Right, In], m, fuel).OutOfFuel?
    decreases fuel
  {
    if fuel > 0 {
      var m2 := Step(In, Step(Right, m));
      ReadStep(m, fuel - 1);
      if m.input != [] {
        assert m.input == [m.input[0]] + m.input[1..];
      }
      ReadLoopForever(m2, fuel - 1);
    }
  }

  /** With a zero byte in the input, the loop `[>,]` stops once it reads
      it, given one pass of fuel per byte. */
  lemma {:induction false} ReadLoopHalts(m: Machine, fuel: nat)
    requires 0 in m.input && fuel > |m.input|
    ensures ExecLoop([Right, In], m, fuel).Done?
    decreases fuel
  {
    if Cell(m, m.ptr) != 0 {
      var m2 := Step(In, Step(Right, m));
      ReadStep(m, fuel - 1);
      assert m.input == [m.input[0]] + m.input[1..];
      if m.input[0] != 0 {
        ReadLoopHalts(m2, fuel - 1);
      }
    }
  }
}
