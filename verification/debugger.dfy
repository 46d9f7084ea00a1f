/** The debugger around `convert`: `run` executes lines from the current
    `pc` until the program ends, an error or a breakpoint; `step` executes
    one line and ignores breakpoints; breakpoints are set and cleared by
    line number; the call stack records, for each active function, its
    name and the line it is at, and is shown bottom first. */
module Debugger {
  import opened Arith
  import opened Parse
  import opened Engine

  /** The loaded program: its code lines indexed by `pc / 4`, what
      `convert` needs of it, the label that names each address, and
      whether the cache is in use. */
  datatype Code = Code(lines: seq<string>, program: Program, inverseLabel: map<int, string>, cacheEnabled: bool)

  /** The debugger's state: the program counter and the machine. */
  datatype Session = Session(pc: int, m: Machine)

  /** How `run` ended: past the last line (the stack is emptied), at a
      breakpoint, on an error (the stack is emptied), started past the end
      (nothing happens), or with its fuel used up. */
  datatype Status = Completed | Breakpoint | Error | PastEnd | OutOfFuel

  /** One iteration of `run`'s loop, or the work of `step`: the loop either
      goes on from a new session or halts. */
  datatype Cycle = Continue(next: Session) | Halt(status: Status, last: Session)

  ghost predicate Valid(c: Code, s: Session) {
    Ready(s.m, c.cacheEnabled)
  }

  /** The label of an address, or the empty name `inverseLabel[pc]`
      yields for an address without one. */
  function LabelAt(c: Code, pc: int): string {
    if pc in c.inverseLabel then c.inverseLabel[pc] else ""
  }

  /** Whether `pc` indexes a line: `pc / 4` truncated, as in C. */
  predicate InCode(c: Code, pc: int) {
    0 <= CDiv(pc, 4) < |c.lines|
  }

  /** The stack with its top frame moved to line `n`, the name kept. An
      empty stack gains a frame with the empty name. */
  function Retop(stack: seq<Frame>, n: int): (s: seq<Frame>)
    ensures |s| == if |stack| == 0 then 1 else |stack|
    ensures s[..|s| - 1] == Pop(stack)
    ensures s[|s| - 1] == Frame(Top(stack).name, n)
  {
    Pop(stack) + [Frame(Top(stack).name, n)]
  }

  /** The bookkeeping after a line at `pc` whose outcome `r` neither stops
      nor fails. A transfer moves `pc` to the target: after `jalr`, whose
      frame was already popped, nothing else happens; otherwise the top
      frame is moved to the line after `pc`, and after `jal` the callee's
      frame is pushed. A fall-through moves the top frame to the next line
      and `pc` on by 4. */
  function Advance(c: Code, pc: int, r: Outcome): (s: Session)
    // where control goes
    ensures s.pc == if r.transfer || r.value != 0 then r.value else Wrap32(pc + 4)
    // the instruction's effect on data is kept
    ensures && s.m.regs == r.m.regs && s.m.mem == r.m.mem && s.m.cache == r.m.cache
            && s.m.timer == r.m.timer && s.m.rands == r.m.rands
    // a transfer consumes the pending flag; a fall-through leaves the flags alone
    ensures (r.transfer || r.value != 0) ==> !s.m.funcReturn
    ensures (r.transfer || r.value != 0) && !r.m.funcReturn ==> !s.m.funcCall
    ensures (r.transfer || r.value != 0) && r.m.funcReturn ==> s.m.funcCall == r.m.funcCall
    ensures !(r.transfer || r.value != 0) ==> s.m.funcCall == r.m.funcCall && s.m.funcReturn == r.m.funcReturn
    // after a return the popped stack stands
    ensures (r.transfer || r.value != 0) && r.m.funcReturn ==> s.m.stack == r.m.stack
    // otherwise the frames below the top are kept, and the top keeps its name and moves to the line of `pc`
    ensures !((r.transfer || r.value != 0) && r.m.funcReturn) ==>
      var d := if |r.m.stack| == 0 then 1 else |r.m.stack|;
      && |s.m.stack| >= d
      && s.m.stack[..d - 1] == Pop(r.m.stack)
      && s.m.stack[d - 1] == Frame(Top(r.m.stack).name, LineNumber(c.program, pc))
      // a call pushes exactly one frame, the callee's, named by the target's label
      && |s.m.stack| == (if (r.transfer || r.value != 0) && r.m.funcCall then d + 1 else d)
      && ((r.transfer || r.value != 0) && r.m.funcCall ==>
            s.m.stack[d] == Frame(LabelAt(c, r.value), CDiv(r.value, 4) + c.program.memLines))
  {
    var lineAfter := LineNumber(c.program, pc);
    if r.transfer || r.value != 0 then
      if r.m.funcReturn then Session(r.value, r.m.(funcReturn := false))
      else
        var stack := Retop(r.m.stack, lineAfter);
        if r.m.funcCall then
          Session(r.value, r.m.(funcCall := false, stack := stack + [Frame(LabelAt(c, r.value), CDiv(r.value, 4) + c.program.memLines)]))
        else Session(r.value, r.m.(stack := stack))
    else Session(Wrap32(pc + 4), r.m.(stack := Retop(r.m.stack, lineAfter)))
  }

  /** The line at `pc` executed once, with `step` telling `convert` whether
      breakpoints are ignored. An empty line is skipped; a breakpoint halts
      with the machine `convert` returns; an error empties the stack. */
  function Execute1(c: Code, bps: map<int, bool>, s: Session, step: bool): (y: Cycle)
    requires Valid(c, s) && InCode(c, s.pc)
    ensures y.Continue? ==> Valid(c, y.next) && KeepsZero(s.m, y.next.m)
    ensures y.Halt? ==> Valid(c, y.last) && KeepsZero(s.m, y.last.m) && y.last.pc == s.pc
    ensures y.Halt? ==> y.status == Breakpoint || (y.status == Error && y.last.m.stack == [])
    ensures At(c.lines[CDiv(s.pc, 4)], 0) != '\0' && Breaks(c.program, bps, s.pc, step) ==> y == Halt(Breakpoint, s)
  {
    var line := c.lines[CDiv(s.pc, 4)];
    if At(line, 0) == '\0' then Continue(Session(Wrap32(s.pc + 4), s.m))
    else Finish(c, s.pc, Convert(c.program, bps, line, s.pc, step, c.cacheEnabled, s.m))
  }

  /** What the loop does with the outcome `r` of the line at `pc`: `-2`
      stops it, `-1` ends it with an empty stack, and any other outcome is
      followed by the bookkeeping of `Advance`. */
  function Finish(c: Code, pc: int, r: Outcome): (y: Cycle)
    ensures y.Halt? <==> Stops(r)
    ensures y.Halt? ==> y.last.pc == pc
    ensures r.value == -2 ==> y == Halt(Breakpoint, Session(pc, r.m))
    ensures r.value == -1 ==> y == Halt(Error, Session(pc, r.m.(stack := [])))
  {
    if r.value == -2 then Halt(Breakpoint, Session(pc, r.m))
    else if r.value == -1 then Halt(Error, Session(pc, r.m.(stack := [])))
    else Continue(Advance(c, pc, r))
  }

  /** `run`'s loop, for at most `fuel` iterations: while `pc` indexes a
      line and is not negative. Leaving the loop empties the stack. */
  function Loop(c: Code, bps: map<int, bool>, s: Session, fuel: nat): (o: (Status, Session))
    requires Valid(c, s)
    ensures Valid(c, o.1) && KeepsZero(s.m, o.1.m)
    ensures o.0 == Completed || o.0 == Error ==> o.1.m.stack == []
    ensures o.0 != PastEnd
    ensures o.0 == Completed ==> !(CDiv(o.1.pc, 4) < |c.lines| && o.1.pc >= 0)
    ensures o.0 == Breakpoint || o.0 == Error || o.0 == OutOfFuel ==> InCode(c, o.1.pc) && o.1.pc >= 0
    decreases fuel
  {
    if !(CDiv(s.pc, 4) < |c.lines| && s.pc >= 0) then (Completed, s.(m := s.m.(stack := [])))
    else if fuel == 0 then (OutOfFuel, s)
    else
      match Execute1(c, bps, s, false)
      case Halt(status, last) => (status, last)
      case Continue(next) =>
        var o := Loop(c, bps, next, fuel - 1);
        (o.0, o.1)
  }

  /** `run`: nothing happens when `pc` is already past the last line;
      otherwise the loop runs. */
  function Run(c: Code, bps: map<int, bool>, s: Session, fuel: nat): (o: (Status, Session))
    requires Valid(c, s)
    ensures Valid(c, o.1) && KeepsZero(s.m, o.1.m)
    ensures CDiv(s.pc, 4) >= |c.lines| <==> o == (PastEnd, s)
    ensures o.0 == Completed || o.0 == Error ==> o.1.m.stack == []
  {
    if CDiv(s.pc, 4) >= |c.lines| then (PastEnd, s)
    else Loop(c, bps, s, fuel)
  }

  /** `step`: a `pc` outside the code empties the stack; otherwise the line
      at `pc` is executed once, breakpoints ignored. The index is compared
      unsigned, so a negative `pc / 4` is outside the code. */
  function Step(c: Code, bps: map<int, bool>, s: Session): (s': Session)
    requires Valid(c, s)
    ensures Valid(c, s') && KeepsZero(s.m, s'.m)
    ensures !InCode(c, s.pc) ==> s' == s.(m := s.m.(stack := []))
  {
    if !InCode(c, s.pc) then s.(m := s.m.(stack := []))
    else
      match Execute1(c, bps, s, true)
      case Continue(next) => next
      case Halt(_, last) => last
  }

  /** `updateStatus`: `pc / 4` steps from the current state, none for a
      negative count. */
  function Steps(c: Code, bps: map<int, bool>, s: Session, n: int): (s': Session)
    requires Valid(c, s)
    ensures Valid(c, s') && KeepsZero(s.m, s'.m)
    ensures n <= 0 ==> s' == s
    decreases if n <= 0 then 0 else n
  {
    if n <= 0 then s else Steps(c, bps, Step(c, bps, s), n - 1)
  }

  function UpdateStatus(c: Code, bps: map<int, bool>, pc: int, s: Session): (s': Session)
    requires Valid(c, s)
    ensures Valid(c, s') && KeepsZero(s.m, s'.m)
    ensures pc < 4 ==> s' == s
  {
    Steps(c, bps, s, CDiv(pc, 4))
  }

  /** One step more is one `step` after the others. */
  lemma {:induction false} StepsLast(c: Code, bps: map<int, bool>, s: Session, n: nat)
    requires Valid(c, s)
    ensures Steps(c, bps, s, n + 1) == Step(c, bps, Steps(c, bps, s, n))
    decreases n
  {
    if n > 0 {
      StepsLast(c, bps, Step(c, bps, s), n - 1);
    }
  }

  /** `updateStatus` to the next instruction's address is `updateStatus` to
      this one followed by one `step`. */
  lemma UpdateStatusStep(c: Code, bps: map<int, bool>, pc: int, s: Session)
    requires Valid(c, s) && pc >= 0
    ensures UpdateStatus(c, bps, pc + 4, s) == Step(c, bps, UpdateStatus(c, bps, pc, s))
  {
    assert CDiv(pc + 4, 4) == CDiv(pc, 4) + 1;
    StepsLast(c, bps, s, CDiv(pc, 4));
  }

  /** `addBreakpoint` and `removeBreakpoint`: the line's flag set or
      cleared, every other line's kept. */
  function AddBreakpoint(bps: map<int, bool>, line: int): (b: map<int, bool>)
    ensures line in b && b[line]
    ensures forall l :: l in bps && l != line ==> l in b && b[l] == bps[l]
    ensures b.Keys == bps.Keys + {line}
  {
    bps[line := true]
  }

  function RemoveBreakpoint(bps: map<int, bool>, line: int): (b: map<int, bool>)
    ensures line in b && !b[line]
    ensures forall l :: l in bps && l != line ==> l in b && b[l] == bps[l]
    ensures b.Keys == bps.Keys + {line}
  {
    bps[line := false]
  }

  // ---------------------------------------------------------------------
  // The call stack, shown bottom first
  // ---------------------------------------------------------------------

  /** `showStack`: the stack is copied and reversed onto a second stack by
      popping, and the second stack popped in turn, which yields the frames
      from the bottom (`main`) to the top. `empty` reports the message for
      an empty stack, which lists nothing. */
  method ShowStack(stack: seq<Frame>) returns (empty: bool, shown: seq<Frame>)
    ensures empty <==> |stack| == 0
    ensures shown == stack
  {
    if |stack| == 0 {
      return true, [];
    }
    var temp, reversed := stack, [];
    while |temp| > 0
      invariant |temp| <= |stack| && temp == stack[..|temp|]
      invariant |reversed| == |stack| - |temp|
      invariant forall i :: 0 <= i < |reversed| ==> reversed[i] == stack[|stack| - 1 - i]
      decreases |temp|
    {
      reversed := reversed + [temp[|temp| - 1]];
      temp := temp[..|temp| - 1];
    }
    shown := [];
    while |reversed| > 0
      invariant |shown| + |reversed| == |stack|
      invariant forall i :: 0 <= i < |reversed| ==> reversed[i] == stack[|stack| - 1 - i]
      invariant shown == stack[..|shown|]
      decreases |reversed|
    {
      shown := shown + [reversed[|reversed| - 1]];
      reversed := reversed[..|reversed| - 1];
    }
    return false, shown;
  }

  // ---------------------------------------------------------------------
  // Properties of run and step
  // ---------------------------------------------------------------------

  /** Neither call flag is pending: the state between two lines. */
  predicate Settles(m: Machine) {
    !m.funcCall && !m.funcReturn
  }

  /** The bookkeeping keeps the call discipline when `r` is the outcome of
      an instruction: see `CallDiscipline`. */
  lemma AdvanceDiscipline(c: Code, pc: int, instr: string, m: Machine, r: Outcome)
    requires Effect(instr, m, r) && Settles(m) && |m.stack| > 0 && !Stops(r)
    ensures var n := Advance(c, pc, r).m;
      var d := |m.stack|;
      && Settles(n)
      && d - 1 <= |n.stack| <= d + 1
      && n.stack[..d - 1] == m.stack[..d - 1]
  {
    var d := |m.stack|;
    var below := m.stack[..d - 1];
    assert Pop(m.stack) == below;
    var n := Advance(c, pc, r).m;
    if r.m.funcReturn && (r.transfer || r.value != 0) {
      assert r.m.stack == below;
    } else {
      assert r.m.stack == m.stack;
      var top := Retop(r.m.stack, LineNumber(c.program, pc));
      assert top[..d - 1] == below;
      if r.m.funcCall && (r.transfer || r.value != 0) {
        assert n.stack[..d] == top;
      }
    }
  }

  /** One line keeps the call discipline: no call flag is left pending,
      the frames below the top are never touched, a call pushes exactly
      one frame, for the callee, and a return pops exactly one. */
  lemma CallDiscipline(c: Code, bps: map<int, bool>, s: Session, step: bool)
    requires Valid(c, s) && InCode(c, s.pc) && Settles(s.m) && |s.m.stack| > 0
    ensures var y := Execute1(c, bps, s, step);
      var d := |s.m.stack|;
      y.Continue? ==>
        && Settles(y.next.m)
        && d - 1 <= |y.next.m.stack| <= d + 1
        && y.next.m.stack[..d - 1] == s.m.stack[..d - 1]
  {
    var line := c.lines[CDiv(s.pc, 4)];
    if At(line, 0) != '\0' {
      var r := Convert(c.program, bps, line, s.pc, step, c.cacheEnabled, s.m);
      if !Stops(r) {
        var instr := if At(line, 0) == ';' then "" else Decode(CutComment(c.program, s.pc, line)).instr;
        assert Effect(instr, s.m, r);
        AdvanceDiscipline(c, s.pc, instr, s.m, r);
      }
    }
  }

  /** A line without a breakpoint executes alike in `run` and in `step`. */
  lemma UnsetBreakpointIgnored(c: Code, bps: map<int, bool>, s: Session)
    requires Valid(c, s) && InCode(c, s.pc)
    requires !(LineNumber(c.program, s.pc) in bps && bps[LineNumber(c.program, s.pc)])
    ensures Execute1(c, bps, s, false) == Execute1(c, bps, s, true)
  {
    var line := c.lines[CDiv(s.pc, 4)];
    if At(line, 0) != '\0' {
      assert Convert(c.program, bps, line, s.pc, false, c.cacheEnabled, s.m)
          == Convert(c.program, bps, line, s.pc, true, c.cacheEnabled, s.m);
    }
  }

  /** `step` ignores every breakpoint: it behaves as with none set. */
  lemma StepIgnoresBreakpoints(c: Code, bps: map<int, bool>, s: Session)
    requires Valid(c, s)
    ensures Step(c, bps, s) == Step(c, map[], s)
  {
    if InCode(c, s.pc) {
      var line := c.lines[CDiv(s.pc, 4)];
      if At(line, 0) != '\0' {
        assert Convert(c.program, bps, line, s.pc, true, c.cacheEnabled, s.m)
            == Convert(c.program, map[], line, s.pc, true, c.cacheEnabled, s.m);
      }
    }
  }

  /** Running from a line without a breakpoint is stepping it and running
      on: one iteration of the loop is one `step`. */
  lemma RunIsStepThenRun(c: Code, bps: map<int, bool>, s: Session, fuel: nat)
    requires Valid(c, s) && InCode(c, s.pc) && s.pc >= 0 && fuel > 0
    requires !(LineNumber(c.program, s.pc) in bps && bps[LineNumber(c.program, s.pc)])
    requires Execute1(c, bps, s, false).Continue?
    ensures Loop(c, bps, s, fuel) == Loop(c, bps, Step(c, bps, s), fuel - 1)
  {
    UnsetBreakpointIgnored(c, bps, s);
  }

  /** With a breakpoint on the line at `pc`, `run` stops at once and
      leaves everything as it was, so a second `run` stops there again;
      once the breakpoint is removed, `run` executes the line as `step`
      does. */
  lemma RunStopsAtBreakpoint(c: Code, bps: map<int, bool>, s: Session, fuel: nat)
    requires Valid(c, s) && InCode(c, s.pc) && s.pc >= 0 && fuel > 0
    requires At(c.lines[CDiv(s.pc, 4)], 0) != '\0'
    requires LineNumber(c.program, s.pc) in bps && bps[LineNumber(c.program, s.pc)]
    ensures Run(c, bps, s, fuel) == (Breakpoint, s)
    ensures Execute1(c, RemoveBreakpoint(bps, LineNumber(c.program, s.pc)), s, false) == Execute1(c, bps, s, true)
  {
    var bps' := RemoveBreakpoint(bps, LineNumber(c.program, s.pc));
    UnsetBreakpointIgnored(c, bps', s);
    var line := c.lines[CDiv(s.pc, 4)];
    assert Convert(c.program, bps', line, s.pc, true, c.cacheEnabled, s.m)
        == Convert(c.program, bps, line, s.pc, true, c.cacheEnabled, s.m);
  }
}
