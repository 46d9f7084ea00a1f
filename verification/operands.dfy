/** The simulator's operand reader (`getArguments`): it cuts an operand
    list at spaces, commas and brackets, keeps track of the brackets it
    passes, and reports an error for a wrong number of operands or badly
    nested brackets. */
module Operands {
  import opened Wrappers
  import opened Tokens

  /** Characters that separate operands: `ld x1, 8(x2)` has the operands
      `x1`, `8` and `x2`. */
  const ArgSeps: set<char> := {' ', ',', '(', ')'}

  /** The bracket nesting after one more character; `None` once a `)`
      arrives at any depth other than one (the reader allows exactly one
      pair of brackets around an operand). */
  function BracketStep(depth: Option<nat>, c: char): Option<nat> {
    match depth
    case None => None
    case Some(d) =>
      if c == '(' then Some(d + 1)
      else if c == ')' then (if d == 1 then Some(0) else None)
      else Some(d)
  }

  /** The bracket nesting after the first `n` characters of `s`. */
  function Depth(s: string, n: nat): Option<nat>
    requires n <= |s|
  {
    if n == 0 then Some(0) else BracketStep(Depth(s, n - 1), s[n - 1])
  }

  /** Brackets in `s` come in single, non-nested pairs. */
  predicate BracketsOk(s: string) {
    Depth(s, |s|) == Some(0)
  }

  /** Once a bracket error has happened it persists. */
  lemma {:induction false} DepthNoneStays(s: string, n: nat, m: nat)
    requires n <= m <= |s| && Depth(s, n) == None
    ensures Depth(s, m) == None
    decreases m
  {
    if n < m {
      DepthNoneStays(s, n, m - 1);
    }
  }

  /** The reader's state: position, index of the character before the
      operand being read, operands read so far (and their count), bracket
      depth, and the error flag. */
  datatype Scan = Scan(index: nat, prev: int, curr: nat, depth: nat, arguments: seq<string>, err: bool)

  /** The depth after one separator character, as the reader's stack of
      open brackets changes. */
  function NextDepth(depth: nat, c: char): nat {
    if c == '(' then depth + 1 else if c == ')' then 0 else depth
  }

  /** First loop of `getArguments`: read up to `count` operands. A `)` that
      does not close exactly one `(` stops the loop with an error. */
  function ReadOperands(count: nat, args: string, s: Scan): (r: Scan)
    requires s.index <= |args| && -1 <= s.prev && s.prev + 1 <= s.index
    ensures r.index <= |args|
    decreases |args| - s.index
  {
    if s.curr == count || s.index >= |args| then s
    else
      var c := args[s.index];
      if c in ArgSeps then
        if c == ')' && s.depth != 1 then s.(err := true)
        else ReadOperands(count, args, s.(index := s.index + 1, prev := s.prev + 1, depth := NextDepth(s.depth, c)))
      else if s.index + 1 < |args| && args[s.index + 1] in ArgSeps then
        ReadOperands(count, args, s.(index := s.index + 1, prev := s.index, curr := s.curr + 1,
                                     arguments := s.arguments + [args[s.prev + 1..s.index + 1]]))
      else if s.index == |args| - 1 then
        ReadOperands(count, args, s.(index := s.index + 1, curr := s.curr + 1,
                                     arguments := s.arguments + [args[s.prev + 1..]]))
      else
        ReadOperands(count, args, s.(index := s.index + 1))
  }

  /** Second loop: pass the separators after the last operand read, with
      the same bracket checks. */
  function SkipSeparators(args: string, s: Scan): (r: Scan)
    requires s.index <= |args|
    ensures r.index <= |args|
    decreases |args| - s.index
  {
    if s.index < |args| && args[s.index] in ArgSeps then
      var c := args[s.index];
      if c == ')' && s.depth != 1 then s.(err := true)
      else SkipSeparators(args, s.(index := s.index + 1, depth := NextDepth(s.depth, c)))
    else s
  }

  /** The check after the loops: a `)` still at the current position closes
      a bracket (and is an error when none is open). Popping the empty stack
      is undefined in the source; here it leaves the depth at zero. */
  function CloseBracket(args: string, s: Scan): (r: Scan)
    requires s.index <= |args|
    ensures r.index <= |args|
  {
    if s.index < |args| && args[s.index] == ')' then
      s.(index := s.index + 1, err := s.err || s.depth == 0, depth := if s.depth > 0 then s.depth - 1 else 0)
    else s
  }

  /** Last loop: pass spaces and commas. */
  function SkipBlanks(args: string, s: Scan): (r: Scan)
    requires s.index <= |args|
    ensures r.index <= |args|
    decreases |args| - s.index
  {
    if s.index < |args| && (args[s.index] == ' ' || args[s.index] == ',') then
      SkipBlanks(args, s.(index := s.index + 1))
    else s
  }

  datatype ArgsResult = ArgsResult(arguments: seq<string>, err: bool)

  /** `getArguments`: the operands of `args` and whether the list is
      malformed. The list is accepted exactly when it has `count` operands
      and its brackets pair up, and then the operands are its tokens. When
      it is rejected, the operands read before the reader stopped are
      still returned (callers that ignore the flag use them). */
  function GetArguments(count: nat, args: string): (r: ArgsResult)
    ensures !r.err <==> |Runs(args, ArgSeps)| == count && BracketsOk(args)
    ensures !r.err ==> r.arguments == Runs(args, ArgSeps)
    ensures r.arguments <= Runs(args, ArgSeps) && |r.arguments| <= count
  {
    var s0 := Scan(0, -1, 0, 0, [], false);
    var s1 := ReadOperands(count, args, s0);
    var s2 := SkipSeparators(args, s1);
    var s3 := CloseBracket(args, s2);
    var s4 := SkipBlanks(args, s3);
    var err := s4.err || s4.depth != 0 || |s4.arguments| != count || s4.index < |args|;
    GetArgumentsCorrect(count, args);
    ArgsResult(s4.arguments, err)
  }

  /** What holds at the head of the first loop. */
  ghost predicate ReadingInv(count: nat, args: string, s: Scan) {
    && s.index <= |args| && -1 <= s.prev && s.prev + 1 <= s.index
    && !s.err
    && s.curr == |s.arguments| <= count
    && (forall j :: s.prev + 1 <= j < s.index ==> args[j] !in ArgSeps)
    && (s.prev + 1 < s.index && s.index < |args| ==> args[s.index] !in ArgSeps)
    && Depth(args, s.index) == Some(s.depth)
    && (if s.index == |args| && s.prev + 1 < s.index then s.arguments == Runs(args, ArgSeps)
        else s.arguments + RunsFrom(args, s.prev + 1, ArgSeps) == Runs(args, ArgSeps))
    && (s.curr == count && s.index < |args| ==> s.prev + 1 == s.index)
  }

  /** What holds at the head of the second loop. */
  ghost predicate SkippingInv(count: nat, args: string, s: Scan) {
    && s.index <= |args|
    && s.arguments <= Runs(args, ArgSeps) && |s.arguments| <= count
    && (s.err ==> s.index < |args| && args[s.index] == ')' && s.depth != 1 && Depth(args, s.index) == Some(s.depth))
    && (!s.err ==>
          && Depth(args, s.index) == Some(s.depth)
          && (s.index == |args| ==> s.arguments == Runs(args, ArgSeps))
          && (s.index < |args| ==>
                |s.arguments| == count && s.arguments + RunsFrom(args, s.index, ArgSeps) == Runs(args, ArgSeps)))
  }

  /** What holds after the second loop. */
  ghost predicate SkippedPost(count: nat, args: string, s: Scan) {
    && SkippingInv(count, args, s)
    && (!s.err ==> s.index == |args| || args[s.index] !in ArgSeps)
  }

  lemma {:induction false} ReadOperandsCorrect(count: nat, args: string, s: Scan)
    requires ReadingInv(count, args, s)
    ensures SkippingInv(count, args, ReadOperands(count, args, s))
    decreases |args| - s.index
  {
    if s.curr == count || s.index >= |args| {
      assert ReadOperands(count, args, s) == s;
      ReadingStops(count, args, s);
    } else {
      var c := args[s.index];
      if c in ArgSeps {
        if c == ')' && s.depth != 1 {
          assert ReadOperands(count, args, s) == s.(err := true);
          ReadingBadBracket(count, args, s);
        } else {
          var t := s.(index := s.index + 1, prev := s.prev + 1, depth := NextDepth(s.depth, c));
          assert ReadOperands(count, args, s) == ReadOperands(count, args, t);
          ReadingSeparator(count, args, s);
          ReadOperandsCorrect(count, args, t);
        }
      } else if s.index + 1 < |args| && args[s.index + 1] in ArgSeps {
        var t := s.(index := s.index + 1, prev := s.index, curr := s.curr + 1,
                    arguments := s.arguments + [args[s.prev + 1..s.index + 1]]);
        assert ReadOperands(count, args, s) == ReadOperands(count, args, t);
        ReadingTokenEnd(count, args, s);
        ReadOperandsCorrect(count, args, t);
      } else if s.index == |args| - 1 {
        var t := s.(index := s.index + 1, curr := s.curr + 1, arguments := s.arguments + [args[s.prev + 1..]]);
        assert ReadOperands(count, args, s) == ReadOperands(count, args, t);
        ReadingLastToken(count, args, s);
        ReadOperandsCorrect(count, args, t);
      } else {
        var t := s.(index := s.index + 1);
        assert ReadOperands(count, args, s) == ReadOperands(count, args, t);
        ReadingInside(count, args, s);
        ReadOperandsCorrect(count, args, t);
      }
    }
  }

  lemma ReadingStops(count: nat, args: string, s: Scan)
    requires ReadingInv(count, args, s)
    requires s.curr == count || s.index >= |args|
    ensures SkippingInv(count, args, s)
  {
    if s.index == |args| && s.prev + 1 == s.index {
      assert RunsFrom(args, s.index, ArgSeps) == [];
    }
    if s.index < |args| {
      assert s.prev + 1 == s.index;
    }
    assert s.arguments <= Runs(args, ArgSeps);
  }

  lemma ReadingBadBracket(count: nat, args: string, s: Scan)
    requires ReadingInv(count, args, s)
    requires s.curr != count && s.index < |args| && args[s.index] == ')' && s.depth != 1
    ensures SkippingInv(count, args, s.(err := true))
  {
    assert s.prev + 1 == s.index;
    assert s.arguments <= Runs(args, ArgSeps);
  }

  lemma ReadingSeparator(count: nat, args: string, s: Scan)
    requires ReadingInv(count, args, s)
    requires s.curr != count && s.index < |args| && args[s.index] in ArgSeps
    requires !(args[s.index] == ')' && s.depth != 1)
    ensures ReadingInv(count, args, s.(index := s.index + 1, prev := s.prev + 1, depth := NextDepth(s.depth, args[s.index])))
  {
    assert s.prev + 1 == s.index;
    assert RunsFrom(args, s.index, ArgSeps) == RunsFrom(args, s.index + 1, ArgSeps);
  }

  lemma ReadingTokenEnd(count: nat, args: string, s: Scan)
    requires ReadingInv(count, args, s)
    requires s.curr != count && s.index + 1 < |args| && args[s.index] !in ArgSeps && args[s.index + 1] in ArgSeps
    ensures ReadingInv(count, args, s.(index := s.index + 1, prev := s.index, curr := s.curr + 1,
                                       arguments := s.arguments + [args[s.prev + 1..s.index + 1]]))
  {
    var token := args[s.prev + 1..s.index + 1];
    RunsFirstToken(args, s.prev + 1, s.index + 1, ArgSeps);
    assert s.arguments + RunsFrom(args, s.prev + 1, ArgSeps)
        == (s.arguments + [token]) + RunsFrom(args, s.index + 1, ArgSeps);
  }

  lemma ReadingLastToken(count: nat, args: string, s: Scan)
    requires ReadingInv(count, args, s)
    requires s.curr != count && s.index == |args| - 1 && args[s.index] !in ArgSeps
    ensures ReadingInv(count, args, s.(index := s.index + 1, curr := s.curr + 1, arguments := s.arguments + [args[s.prev + 1..]]))
  {
    var token := args[s.prev + 1..];
    assert forall j :: s.prev + 1 <= j < |args| ==> args[j] !in ArgSeps;
    RunsFirstToken(args, s.prev + 1, |args|, ArgSeps);
    assert RunsFrom(args, |args|, ArgSeps) == [];
    assert args[s.prev + 1..|args|] == token;
    assert RunsFrom(args, s.prev + 1, ArgSeps) == [token];
    assert s.arguments + [token] == Runs(args, ArgSeps);
    assert Depth(args, |args|) == Some(s.depth);
  }

  lemma ReadingInside(count: nat, args: string, s: Scan)
    requires ReadingInv(count, args, s)
    requires s.curr != count && s.index + 1 < |args| && args[s.index] !in ArgSeps && args[s.index + 1] !in ArgSeps
    ensures ReadingInv(count, args, s.(index := s.index + 1))
  {
  }

  lemma {:induction false} SkipSeparatorsCorrect(count: nat, args: string, s: Scan)
    requires SkippingInv(count, args, s)
    ensures SkippedPost(count, args, SkipSeparators(args, s))
    decreases |args| - s.index
  {
    if s.index < |args| && args[s.index] in ArgSeps {
      var c := args[s.index];
      if c == ')' && s.depth != 1 {
      } else {
        var t := s.(index := s.index + 1, depth := NextDepth(s.depth, c));
        if s.index + 1 < |args| {
          assert RunsFrom(args, s.index, ArgSeps) == RunsFrom(args, s.index + 1, ArgSeps);
        } else {
          assert RunsFrom(args, s.index, ArgSeps) == RunsFrom(args, s.index + 1, ArgSeps) == [];
        }
        assert SkippingInv(count, args, t);
        SkipSeparatorsCorrect(count, args, t);
      }
    }
  }

  lemma GetArgumentsCorrect(count: nat, args: string)
    ensures
      var s4 := SkipBlanks(args, CloseBracket(args, SkipSeparators(args, ReadOperands(count, args, Scan(0, -1, 0, 0, [], false)))));
      var err := s4.err || s4.depth != 0 || |s4.arguments| != count || s4.index < |args|;
      && (!err <==> |Runs(args, ArgSeps)| == count && BracketsOk(args))
      && (!err ==> s4.arguments == Runs(args, ArgSeps))
      && s4.arguments <= Runs(args, ArgSeps) && |s4.arguments| <= count
  {
    var R := Runs(args, ArgSeps);
    var s0 := Scan(0, -1, 0, 0, [], false);
    assert ReadingInv(count, args, s0);
    ReadOperandsCorrect(count, args, s0);
    var s1 := ReadOperands(count, args, s0);
    SkipSeparatorsCorrect(count, args, s1);
    var s2 := SkipSeparators(args, s1);
    var s3 := CloseBracket(args, s2);
    var s4 := SkipBlanks(args, s3);
    if s2.err {
      assert Depth(args, s2.index + 1) == BracketStep(Some(s2.depth), ')') == None;
      DepthNoneStays(args, s2.index + 1, |args|);
      SkipBlanksKeeps(args, s3);
    } else {
      assert s3 == s2;
      assert s4 == s2;
      if s2.index < |args| {
        assert |RunsFrom(args, s2.index, ArgSeps)| >= 1;
        assert |R| > count;
      }
    }
  }

  /** Passing blanks changes nothing but the position. */
  lemma {:induction false} SkipBlanksKeeps(args: string, s: Scan)
    requires s.index <= |args|
    ensures SkipBlanks(args, s) == s.(index := SkipBlanks(args, s).index)
    decreases |args| - s.index
  {
    if s.index < |args| && (args[s.index] == ' ' || args[s.index] == ',') {
      SkipBlanksKeeps(args, s.(index := s.index + 1));
    }
  }
}
