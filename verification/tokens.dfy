/** Splitting a line of assembly text into tokens. Both the data-section
    reader and the operand reader cut their input at separator characters
    and keep the maximal runs between them; this module gives that
    reference definition and the data-section reader's loop. */
module Tokens {

  /** Separators of a `.data` directive's operand list. */
  const DataSeps: set<char> := {' ', ','}

  /** The end of the separator-free stretch of `s` that starts at `i`. */
  function TokenEnd(s: string, i: nat, seps: set<char>): (e: nat)
    requires i <= |s|
    ensures i <= e <= |s|
    decreases |s| - i
  {
    if i == |s| || s[i] in seps then i else TokenEnd(s, i + 1, seps)
  }

  /** `TokenEnd` stops exactly at the first separator at or after `i`. */
  lemma {:induction false} TokenEndStops(s: string, i: nat, seps: set<char>)
    requires i <= |s|
    ensures forall j :: i <= j < TokenEnd(s, i, seps) ==> s[j] !in seps
    ensures TokenEnd(s, i, seps) == |s| || s[TokenEnd(s, i, seps)] in seps
    decreases |s| - i
  {
    if i < |s| && s[i] !in seps {
      TokenEndStops(s, i + 1, seps);
    }
  }

  /** The maximal non-empty runs of non-separator characters of `s` from
      position `i` on, left to right. */
  function RunsFrom(s: string, i: nat, seps: set<char>): seq<string>
    requires i <= |s|
    decreases |s| - i
  {
    if i == |s| then []
    else if s[i] in seps then RunsFrom(s, i + 1, seps)
    else
      var e := TokenEnd(s, i, seps);
      [s[i..e]] + RunsFrom(s, e, seps)
  }

  /** The tokens of `s`: the reference meaning of both tokenizers. */
  function Runs(s: string, seps: set<char>): seq<string> {
    RunsFrom(s, 0, seps)
  }

  /** A separator-free stretch from `i` up to `e`, ended by a separator or
      the end of `s`, is the first token from `i` on. */
  lemma RunsFirstToken(s: string, i: nat, e: nat, seps: set<char>)
    requires i < e <= |s|
    requires forall j :: i <= j < e ==> s[j] !in seps
    requires e == |s| || s[e] in seps
    ensures RunsFrom(s, i, seps) == [s[i..e]] + RunsFrom(s, e, seps)
  {
    TokenEndStops(s, i, seps);
  }

  /** Every token is non-empty and free of separators. */
  lemma {:induction false} RunsWellFormed(s: string, i: nat, seps: set<char>)
    requires i <= |s|
    ensures forall t :: t in RunsFrom(s, i, seps) ==> |t| > 0 && forall c :: c in t ==> c !in seps
    decreases |s| - i
  {
    if i < |s| {
      if s[i] in seps {
        RunsWellFormed(s, i + 1, seps);
      } else {
        var e := TokenEnd(s, i, seps);
        TokenEndStops(s, i, seps);
        RunsWellFormed(s, e, seps);
        assert forall c :: c in s[i..e] ==> c !in seps;
      }
    }
  }

  /** What holds at the head of the data splitter's loop: `arguments` are
      the tokens before `prev + 1`, and the characters from there up to `i`
      belong to the token being read. */
  ghost predicate SplitInv(args: string, prev: int, i: nat, arguments: seq<string>) {
    && i <= |args| && -1 <= prev && prev + 1 <= i
    && (forall j :: prev + 1 <= j < i ==> args[j] !in DataSeps)
    && (prev + 1 < i && i < |args| ==> args[i] !in DataSeps)
    && (if i == |args| && prev + 1 < i then arguments == Runs(args, DataSeps)
        else arguments + RunsFrom(args, prev + 1, DataSeps) == Runs(args, DataSeps))
  }

  /** The operand splitter of a `.data` directive. `prev` is the index of the
      last character before the token being read, and a token is cut when
      its last character is followed by a separator or ends the text. */
  method DataArguments(args: string) returns (arguments: seq<string>)
    ensures arguments == Runs(args, DataSeps)
  {
    arguments := [];
    var prev := -1;
    var i := 0;
    while i < |args|
      invariant SplitInv(args, prev, i, arguments)
    {
      if args[i] == ' ' || args[i] == ',' {
        SplitSeparator(args, prev, i, arguments);
        prev := prev + 1;
      } else if i + 1 < |args| && (args[i + 1] == ' ' || args[i + 1] == ',') {
        SplitTokenEnd(args, prev, i, arguments);
        arguments := arguments + [args[prev + 1..i + 1]];
        prev := i;
      } else if i == |args| - 1 {
        SplitLastToken(args, prev, i, arguments);
        arguments := arguments + [args[prev + 1..]];
      } else {
        SplitInside(args, prev, i, arguments);
      }
      i := i + 1;
    }
    if prev + 1 == |args| {
      assert RunsFrom(args, |args|, DataSeps) == [];
    }
  }

  lemma SplitSeparator(args: string, prev: int, i: nat, arguments: seq<string>)
    requires SplitInv(args, prev, i, arguments) && i < |args| && args[i] in DataSeps
    ensures SplitInv(args, prev + 1, i + 1, arguments)
  {
    assert RunsFrom(args, i, DataSeps) == RunsFrom(args, i + 1, DataSeps);
  }

  lemma SplitTokenEnd(args: string, prev: int, i: nat, arguments: seq<string>)
    requires SplitInv(args, prev, i, arguments) && i + 1 < |args|
    requires args[i] !in DataSeps && args[i + 1] in DataSeps
    ensures prev + 1 <= i + 1 && SplitInv(args, i, i + 1, arguments + [args[prev + 1..i + 1]])
  {
    RunsFirstToken(args, prev + 1, i + 1, DataSeps);
    assert arguments + RunsFrom(args, prev + 1, DataSeps)
        == (arguments + [args[prev + 1..i + 1]]) + RunsFrom(args, i + 1, DataSeps);
  }

  lemma SplitLastToken(args: string, prev: int, i: nat, arguments: seq<string>)
    requires SplitInv(args, prev, i, arguments) && i == |args| - 1 && args[i] !in DataSeps
    ensures SplitInv(args, prev, i + 1, arguments + [args[prev + 1..]])
  {
    RunsFirstToken(args, prev + 1, |args|, DataSeps);
    assert RunsFrom(args, |args|, DataSeps) == [];
    assert args[prev + 1..|args|] == args[prev + 1..];
  }

  lemma SplitInside(args: string, prev: int, i: nat, arguments: seq<string>)
    requires SplitInv(args, prev, i, arguments) && i + 1 < |args|
    requires args[i] !in DataSeps && args[i + 1] !in DataSeps
    ensures SplitInv(args, prev, i + 1, arguments)
  {
  }
}
