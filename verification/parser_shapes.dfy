/**
 * The parser on the shapes of expression the repository's demo program parses: calls with
 * plain arguments, calls without arguments, calls joined by an operator; and on text
 * whose last character is not the closing bracket.
 */
module ParserShapes {
  import opened Wrappers
  import opened JavaStrings
  import opened CharConstants
  import opened Ast
  import opened Parser
  import opened ParserScans
  import ParserProperties

  /** An ORIGIN argument. */
  function Word(name: string): Arg {
    Arg(Text(name), Origin)
  }

  /** A call without arguments: `noArg()`. */
  lemma ParsedNoArg()
    ensures Parsed("noArg()") == Ok(FuncResult("noArg", []))
  {
    ParserProperties.ParsedCall("noArg", "");
    assert "noArg" + [BRACKETS_LEFT_CHAR] + "" + [BRACKETS_RIGHT_CHAR] == "noArg()";
  }

  /** A plain argument: no blank, no comma, no quote, no bracket. */
  predicate Bare(w: string) {
    && |w| > 0
    && forall k :: 0 <= k < |w| ==>
         w[k] > ' ' && w[k] != COMMA_CHAR && w[k] != APOSTROPHE_CHAR && w[k] != BRACKETS_LEFT_CHAR && w[k] != BRACKETS_RIGHT_CHAR
  }

  /** The words written one after the other with a comma between each two. */
  function CommaJoined(words: seq<string>): string {
    if |words| == 0 then ""
    else if |words| == 1 then words[0]
    else words[0] + [COMMA_CHAR] + CommaJoined(words[1..])
  }

  /** One ORIGIN argument per word, in order. */
  function WordArgs(words: seq<string>): (r: seq<Arg>)
    ensures |r| == |words|
    ensures forall k :: 0 <= k < |words| ==> r[k] == Word(words[k])
  {
    if |words| == 0 then [] else [Word(words[0])] + WordArgs(words[1..])
  }

  /** Bare words joined by commas are plain text that ends in an argument. */
  lemma {:induction false} JoinedPlain(words: seq<string>)
    requires forall k :: 0 <= k < |words| ==> Bare(words[k])
    ensures Plain(CommaJoined(words)) && EndsInArgument(CommaJoined(words))
  {
    if |words| == 1 {
      assert Bare(words[0]);
    } else if |words| > 1 {
      var w, rest := words[0], CommaJoined(words[1..]);
      JoinedPlain(words[1..]);
      assert Bare(w) && Bare(words[1]);
      var s := w + [COMMA_CHAR] + rest;
      forall k | 0 <= k < |s|
        ensures s[k] != APOSTROPHE_CHAR && s[k] != BRACKETS_LEFT_CHAR && s[k] != BRACKETS_RIGHT_CHAR
      {
        if k > |w| {
          assert s[k] == rest[k - |w| - 1];
        }
      }
      assert |rest| > 0 by {
        assert |CommaJoined(words[1..])| >= |words[1]| by { JoinedLength(words[1..]); }
      }
      assert s[|s| - 1] == rest[|rest| - 1];
    }
  }

  lemma {:induction false} JoinedLength(words: seq<string>)
    requires |words| > 0
    ensures |CommaJoined(words)| >= |words[0]|
  {
  }

  /** A piece with no blank in it is one argument, as written. */
  lemma PieceWord(p: string)
    requires |p| > 0 && forall k :: 0 <= k < |p| ==> p[k] > ' '
    ensures PieceArg(p) == [Word(p)]
  {
    assert p[0] != SPACE_CHAR;
  }

  /** A bare word and a comma in front of the rest give the word's argument in front of the rest's. */
  lemma PlainArgsWord(w: string, rest: string)
    requires Bare(w)
    ensures PlainArgs(w + [COMMA_CHAR] + rest) == [Word(w)] + PlainArgs(rest)
  {
    var s := w + [COMMA_CHAR] + rest;
    var i := |w|;
    assert s[0..i] == w && s[i + 1..] == rest && s[0..] == s;
    assert COMMA_CHAR !in w by {
      forall k | 0 <= k < |w|
        ensures w[k] != COMMA_CHAR
      {
      }
    }
    PlainArgsAt(s, 0, i);
    PieceWord(w);
  }

  /** Split at the commas, bare words joined by commas give back the words. */
  lemma {:induction false} PlainArgsJoined(words: seq<string>)
    requires forall k :: 0 <= k < |words| ==> Bare(words[k])
    ensures PlainArgs(CommaJoined(words)) == WordArgs(words)
  {
    if |words| == 1 {
      var w := words[0];
      assert Bare(w);
      assert COMMA_CHAR !in w by {
        forall k | 0 <= k < |w|
          ensures w[k] != COMMA_CHAR
        {
        }
      }
      PieceWord(w);
      assert PlainArgs(w) == PieceArg(w);
    } else if |words| > 1 {
      assert Bare(words[0]);
      PlainArgsWord(words[0], CommaJoined(words[1..]));
      PlainArgsJoined(words[1..]);
    }
  }

  /**
   * A call whose arguments are bare words separated by commas, as in
   * `ifs(a>b-a,c,a1>b1,c1)`: one ORIGIN argument per word, operators inside a word
   * left as text.
   */
  lemma ParsedWords(name: string, words: seq<string>)
    requires |name| > 0 && BRACKETS_LEFT_CHAR !in name
    requires forall k :: 0 <= k < |words| ==> Bare(words[k])
    ensures Parsed(name + [BRACKETS_LEFT_CHAR] + CommaJoined(words) + [BRACKETS_RIGHT_CHAR]) == Ok(FuncResult(name, WordArgs(words)))
  {
    JoinedPlain(words);
    ArgsOfPlain(CommaJoined(words));
    PlainArgsJoined(words);
    ParserProperties.ParsedCall(name, CommaJoined(words));
  }

  /**
   * `parse` drops the last character without looking at it: in `g(f(a)` the one ')' is
   * taken for the end of `g(`, and the call `f(a` inside never closes.
   */
  lemma ParsedDropsLast()
    ensures Parsed("g(f(a)") == Err(EndCharMiss(BRACKETS_RIGHT_CHAR))
  {
    var inner := "a";
    assert NeverUnder(inner) by {
      forall k | 0 <= k <= |inner|
        ensures Depth(inner[..k]) >= 0
      {
        assert inner[..k] == [] || inner[..k] == "a";
      }
    }
    ArgsOfUnclosed("f", inner);
    var e := "g(f(a)";
    IndexOfAt(e, BRACKETS_LEFT_CHAR, 1);
    assert e[2..|e| - 1] == "f" + [BRACKETS_LEFT_CHAR] + inner;
  }

  // ---------------------------------------------------------------------------
  // Two calls joined by an operator

  /** `name(inner)`. */
  function CallOf(name: string, inner: string): string {
    name + [BRACKETS_LEFT_CHAR] + inner + [BRACKETS_RIGHT_CHAR]
  }

  /** The FUNC argument a call segment `name(inner)` becomes. */
  function CallArg(name: string, inner: string): Arg
    requires ArgsOf(inner).Ok?
  {
    Arg(Nested(FuncResult(name, ArgsOf(inner).value)), Func)
  }

  /** The head `op name` of an operator-prefixed call matches OPERATOR_START_PATTERN. */
  lemma OperatorHeadShape(op: char, name: string)
    requires IsOperator(op) && Name(name)
    ensures var head := [op] + name;
      Trim(head) == head && !AllOperators(head) && OperatorsThenName(head)
  {
    var head := [op] + name;
    assert IsNameChar(name[0]) && head[1..] == name;
    assert head[0] > ' ' && head[|head| - 1] > ' ' by {
      assert IsNameChar(name[|name| - 1]);
    }
    assert TrimLeft(head) == head;
    assert OperatorRun(head[1..]) == 0;
    forall k | 1 <= k < |head|
      ensures IsNameChar(head[k])
    {
      assert head[k] == name[k - 1];
    }
  }

  /** `extractOperators` on `op name`: the one operator token, and the name starts at index 1. */
  lemma OperatorHeadTokens(op: char, name: string)
    requires IsOperator(op) && Name(name)
    ensures OperatorsOf([op] + name) == ([Single(op)], 1)
  {
    var head := [op] + name;
    assert IsNameChar(head[1]);
    assert ExtractFrom(head, 1, Some(op), []) == ([] + [Single(op)], 1);
    assert [] + [Single(op)] == [Single(op)];
  }

  /** `Trim` keeps a call `name(inner)` as it is. */
  lemma CallTrimmed(name: string, inner: string)
    requires Name(name)
    ensures Trim(CallOf(name, inner)) == CallOf(name, inner)
  {
    var call := CallOf(name, inner);
    assert IsNameChar(name[0]);
    assert call[0] > ' ' && call[|call| - 1] > ' ';
    assert TrimLeft(call) == call;
  }

  /** The head `op name` of `op name(inner)` is what comes before its first '('. */
  lemma OperatorCallHead(op: char, name: string, inner: string)
    requires IsOperator(op) && Name(name)
    ensures var text := [op] + CallOf(name, inner);
      BRACKETS_LEFT_CHAR in text && text[..IndexOf(text, BRACKETS_LEFT_CHAR)] == [op] + name
  {
    var text := [op] + CallOf(name, inner);
    var p := 1 + |name|;
    var head := [op] + name;
    assert text[p] == BRACKETS_LEFT_CHAR && text[..p] == head;
    assert BRACKETS_LEFT_CHAR !in head by {
      forall k | 0 <= k < |head|
        ensures head[k] != BRACKETS_LEFT_CHAR
      {
        if k > 0 {
          assert IsNameChar(name[k - 1]);
        }
      }
    }
    IndexOfAt(text, BRACKETS_LEFT_CHAR, p);
  }

  /**
   * `createArg` on `op name(inner)` as FUNC: the call after the operator, parsed, fused
   * with the operator into the group's previous argument.
   */
  lemma ClassifiedOperatorCall(args: seq<Arg>, grouped: bool, op: char, name: string, inner: string)
    requires (grouped ==> |args| > 0) && IsOperator(op) && Name(name) && ArgsOf(inner).Ok?
    ensures var text := [op] + CallOf(name, inner);
      && BRACKETS_LEFT_CHAR in text
      && Classified(args, grouped, text, Func) == Fused(args, grouped, [Arg(Text(Single(op)), Operator)], CallArg(name, inner))
  {
    var text := [op] + CallOf(name, inner);
    OperatorCallShape(op, name, inner);
    CallAfterOperator(op, name, inner);
    ClassifiedFused(args, grouped, text, [op] + name, [Single(op)], 1, FuncResult(name, ArgsOf(inner).value));
    assert OperatorArgs([Single(op)]) == [Arg(Text(Single(op)), Operator)];
  }

  /** The head of `op name(inner)` is the operator and the name, read as one operator token. */
  lemma OperatorCallShape(op: char, name: string, inner: string)
    requires IsOperator(op) && Name(name)
    ensures var text := [op] + CallOf(name, inner);
      && BRACKETS_LEFT_CHAR in text
      && Trim(text[..IndexOf(text, BRACKETS_LEFT_CHAR)]) == [op] + name
      && !AllOperators([op] + name) && OperatorsThenName([op] + name)
      && OperatorsOf([op] + name) == ([Single(op)], 1)
  {
    OperatorCallHead(op, name, inner);
    OperatorHeadShape(op, name);
    OperatorHeadTokens(op, name);
  }

  /** After the operator of `op name(inner)` comes the call, which `parse` reads. */
  lemma CallAfterOperator(op: char, name: string, inner: string)
    requires Name(name) && ArgsOf(inner).Ok?
    ensures var text := [op] + CallOf(name, inner);
      Parsed(Trim(text[1..])) == Ok(FuncResult(name, ArgsOf(inner).value))
  {
    var text, call := [op] + CallOf(name, inner), CallOf(name, inner);
    assert text[1..] == call;
    CallTrimmed(name, inner);
    assert Trim(text[1..]) == call;
    NameCall(name, inner);
  }

  /** `parse` on `name(inner)`. */
  lemma NameCall(name: string, inner: string)
    requires Name(name) && ArgsOf(inner).Ok?
    ensures Parsed(CallOf(name, inner)) == Ok(FuncResult(name, ArgsOf(inner).value))
  {
    assert |name| > 0 && BRACKETS_LEFT_CHAR !in name;
    ParserProperties.ParsedCall(name, inner);
  }

  /** `createArg` on a call whose head matches OPERATOR_START_PATTERN: the call after the operators, fused. */
  lemma ClassifiedFused(args: seq<Arg>, grouped: bool, text: string, head: string, ops: seq<string>, index: nat, p: ParseResult)
    requires (grouped ==> |args| > 0) && BRACKETS_LEFT_CHAR in text
    requires head == Trim(text[..IndexOf(text, BRACKETS_LEFT_CHAR)])
    requires !AllOperators(head) && OperatorsThenName(head) && OperatorsOf(head) == (ops, index)
    requires index <= |text| && Parsed(Trim(text[index..])) == Ok(p)
    ensures Classified(args, grouped, text, Func) == Fused(args, grouped, OperatorArgs(ops), Arg(Nested(p), Func))
  {
  }

  /** A call `name(inner)` at the start of `s`: the head, the bracket at `|name|` and the bracket that closes it. */
  lemma CallAtStart(name: string, inner: string, s: string)
    requires Name(name) && Balanced(inner)
    requires |CallOf(name, inner)| <= |s| && s[..|CallOf(name, inner)|] == CallOf(name, inner)
    ensures CallAt(s, 0, |name|, |CallOf(name, inner)| - 1)
    ensures s[0..|CallOf(name, inner)|] == CallOf(name, inner)
  {
    var call := CallOf(name, inner);
    var p, e := |name|, |call| - 1;
    assert s[p] == call[p] && s[e] == call[e];
    assert s[p + 1..e] == call[p + 1..e] == inner;
    BalancedCloses(s, p, e);
    forall k | 0 <= k < p
      ensures IsNameChar(s[k])
    {
      assert s[k] == call[k] == name[k];
    }
    assert s[0..e + 1] == s[..|call|];
  }

  /** The first call of a fusion is one FUNC argument, and the comma group stays open after it. */
  lemma FirstCall(name: string, inner: string, s: string)
    requires Name(name) && Balanced(inner) && ArgsOf(inner).Ok?
    requires |CallOf(name, inner)| < |s| && s[..|CallOf(name, inner)|] == CallOf(name, inner)
    ensures ScanFrom(s, 0, Idle, [], false) == ScanFrom(s, |CallOf(name, inner)|, Idle, [CallArg(name, inner)], true)
  {
    var call := CallOf(name, inner);
    var p, e := |name|, |call| - 1;
    CallAtStart(name, inner, s);
    CallScan(s, 0, p, e, [], false);
    assert s[0..e + 1] == call;
    CallClassified(name, inner);
    assert CallOutcome(s, e, Ok([CallArg(name, inner)])) == ScanFrom(s, e + 1, Idle, [CallArg(name, inner)], true);
  }

  /** `createArg` on a call segment `name(inner)` at the start of a group. */
  lemma CallClassified(name: string, inner: string)
    requires Name(name) && Balanced(inner) && ArgsOf(inner).Ok?
    ensures BRACKETS_LEFT_CHAR in CallOf(name, inner)
    ensures Classified([], false, CallOf(name, inner), Func) == Ok([CallArg(name, inner)])
  {
    CallSegment(name, inner);
    ArgsOfCall(name, inner);
  }

  /** An operator-prefixed call `op name(inner)` ending `s` at `j`: the head, its bracket and the bracket that closes it. */
  lemma OperatorCallAtEnd(name: string, inner: string, op: char, s: string, j: nat)
    requires Name(name) && Balanced(inner) && IsOperator(op)
    requires j < |s| && s[j..] == [op] + CallOf(name, inner)
    ensures CallAt(s, j, j + 1 + |name|, |s| - 1)
  {
    var text := s[j..];
    var p, e := j + 1 + |name|, |s| - 1;
    assert s[p] == text[p - j] && s[e] == text[e - j];
    assert s[p + 1..e] == text[p + 1 - j..e - j] == inner;
    BalancedCloses(s, p, e);
    forall k | j < k < p
      ensures IsNameChar(s[k])
    {
      assert s[k] == text[k - j] == name[k - j - 1];
    }
    assert s[j] == text[0];
  }

  /** The operator-prefixed call that ends the text goes to `createArg` whole. */
  lemma SecondCall(s: string, j: nat, p: nat, e: nat, args: seq<Arg>, grouped: bool)
    requires CallAt(s, j, p, e) && e + 1 == |s| && (grouped ==> |args| > 0)
    ensures BRACKETS_LEFT_CHAR in s[j..]
    ensures ScanFrom(s, j, Idle, args, grouped) == CallOutcome(s, e, Classified(args, grouped, s[j..], Func))
  {
    CallScan(s, j, p, e, args, grouped);
    assert s[j..e + 1] == s[j..];
  }

  /**
   * `parseArg` on `name1(inner1) op name2(inner2)`: the two calls and the operator between
   * them become one OPERATOR_FUNC argument holding the first call, the operator and the
   * second call, in that order.
   */
  lemma ArgsOfFusion(name1: string, inner1: string, op: char, name2: string, inner2: string)
    requires Name(name1) && Balanced(inner1) && ArgsOf(inner1).Ok?
    requires Name(name2) && Balanced(inner2) && ArgsOf(inner2).Ok?
    requires IsOperator(op)
    ensures ArgsOf(CallOf(name1, inner1) + [op] + CallOf(name2, inner2)) ==
      Ok([Arg(Chain([CallArg(name1, inner1), Arg(Text(Single(op)), Operator), CallArg(name2, inner2)]), OperatorFunc)])
  {
    var first := CallOf(name1, inner1);
    var s := first + [op] + CallOf(name2, inner2);
    var j := |first|;
    var f1, f2 := CallArg(name1, inner1), CallArg(name2, inner2);
    var opArg := Arg(Text(Single(op)), Operator);
    assert s[..j] == first && s[j..] == [op] + CallOf(name2, inner2) && s[0..] == s;
    FirstCall(name1, inner1, s);
    OperatorCallAtEnd(name2, inner2, op, s, j);
    SecondCall(s, j, j + 1 + |name2|, |s| - 1, [f1], true);
    ClassifiedOperatorCall([f1], true, op, name2, inner2);
    FusedOntoCall(f1, opArg, f2);
  }

  /**
   * Fusing one operator and a call into a group whose previous argument is a call turns
   * that argument into the chain of the call, the operator and the new call.
   */
  lemma FusedOntoCall(call: Arg, op: Arg, f: Arg)
    requires call.value.Nested?
    ensures Fused([call], true, [op], f) == Ok([Arg(Chain([call, op, f]), OperatorFunc)])
  {
    var chain := Arg(Chain([call] + [op] + [f]), OperatorFunc);
    assert Fused([call], true, [op], f) == Ok([call][..0] + [chain]);
    assert [call][..0] + [chain] == [chain];
    assert [call] + [op] + [f] == [call, op, f];
  }

  /**
   * `parse` on `outer(name1(inner1) op name2(inner2))`, the shape of
   * `print(toJson(a)+toJson(2))`: a FUNC result `outer` with one OPERATOR_FUNC argument.
   */
  lemma ParsedFusion(outer: string, name1: string, inner1: string, op: char, name2: string, inner2: string)
    requires |outer| > 0 && BRACKETS_LEFT_CHAR !in outer
    requires Name(name1) && Balanced(inner1) && ArgsOf(inner1).Ok?
    requires Name(name2) && Balanced(inner2) && ArgsOf(inner2).Ok?
    requires IsOperator(op)
    ensures Parsed(CallOf(outer, CallOf(name1, inner1) + [op] + CallOf(name2, inner2))) ==
      Ok(FuncResult(outer, [Arg(Chain([CallArg(name1, inner1), Arg(Text(Single(op)), Operator), CallArg(name2, inner2)]), OperatorFunc)]))
  {
    ArgsOfFusion(name1, inner1, op, name2, inner2);
    ParserProperties.ParsedCall(outer, CallOf(name1, inner1) + [op] + CallOf(name2, inner2));
  }
}
