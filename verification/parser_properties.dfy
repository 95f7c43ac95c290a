/**
 * Properties of the parser, proved about the functions of module Parser (and so, through
 * the methods' postconditions, about the source's procedures).
 */
module ParserProperties {
  import opened Wrappers
  import opened JavaStrings
  import opened CharConstants
  import opened Ast
  import opened Parser

  // ---------------------------------------------------------------------------
  // extractOperators

  /** The characters of `s` other than spaces, in order. */
  function NoSpaces(s: string): string {
    if s == [] then []
    else NoSpaces(s[..|s| - 1]) + (if s[|s| - 1] == SPACE_CHAR then [] else [s[|s| - 1]])
  }

  /** The tokens written one after the other. */
  function Concat(ts: seq<string>): string {
    if ts == [] then [] else Concat(ts[..|ts| - 1]) + ts[|ts| - 1]
  }

  function PendingText(pending: Option<char>): string {
    if pending.Some? then [pending.value] else []
  }

  /** Every token is one or two operator characters, and a two-character token is a fusing pair. */
  predicate WellFormedTokens(ops: seq<string>) {
    forall k :: 0 <= k < |ops| ==> IsOperatorToken(ops[k]) && (|ops[k]| == 2 ==> Fuses(ops[k][0], ops[k][1]))
  }

  lemma ConcatSnoc(ts: seq<string>, t: string)
    ensures Concat(ts + [t]) == Concat(ts) + t
  {
    assert (ts + [t])[..|ts + [t]| - 1] == ts;
  }

  /** The length of the run of operator characters that `s` ends with. */
  function OperatorSuffix(s: string): nat {
    if s == [] || !IsOperator(s[|s| - 1]) then 0 else OperatorSuffix(s[..|s| - 1]) + 1
  }

  /** Whether `s` ends with a run of operator characters of odd length, counted without arithmetic. */
  predicate EndsInOddRun(s: string) {
    s != [] && IsOperator(s[|s| - 1]) && !EndsInOddRun(s[..|s| - 1])
  }

  lemma {:induction false} EndsInOddRunParity(s: string)
    ensures EndsInOddRun(s) <==> OperatorSuffix(s) % 2 == 1
  {
    if s != [] && IsOperator(s[|s| - 1]) {
      EndsInOddRunParity(s[..|s| - 1]);
    }
  }

  lemma OddRunSnoc(s: string, i: nat, j: nat)
    requires i < |s| && j == i + 1
    ensures EndsInOddRun(s[..j]) <==> IsOperator(s[i]) && !EndsInOddRun(s[..i])
  {
    assert s[..j][..i] == s[..i];
  }

  lemma NoSpacesSnoc(s: string, i: nat, j: nat)
    requires i < |s| && j == i + 1
    ensures NoSpaces(s[..j]) == NoSpaces(s[..i]) + (if s[i] == SPACE_CHAR then [] else [s[i]])
  {
    assert s[..j][..i] == s[..i];
  }

  /** The scan of `extractOperators` stops at the first character that is neither an operator nor a space. */
  lemma {:induction false} ExtractFromSpan(s: string, i: nat, pending: Option<char>, ops: seq<string>)
    requires i <= |s|
    requires forall k :: 0 <= k < i ==> IsOperator(s[k]) || s[k] == SPACE_CHAR
    ensures var index := ExtractFrom(s, i, pending, ops).1;
      && (forall k :: 0 <= k < index ==> IsOperator(s[k]) || s[k] == SPACE_CHAR)
      && (index < |s| ==> !IsOperator(s[index]) && s[index] != SPACE_CHAR)
    decreases |s| - i
  {
    if i < |s| {
      var c := s[i];
      if IsOperator(c) {
        if pending.None? {
          ExtractFromSpan(s, i + 1, Some(c), ops);
        } else if Fuses(pending.value, c) {
          ExtractFromSpan(s, i + 1, None, ops + [[pending.value, c]]);
        } else {
          ExtractFromSpan(s, i + 1, None, ops + [Single(pending.value), Single(c)]);
        }
      } else if c == SPACE_CHAR {
        var flushed := if pending.Some? then ops + [Single(pending.value)] else ops;
        ExtractFromSpan(s, i + 1, None, flushed);
      }
    }
  }

  /** Every token the scan emits is an operator character or a fusing pair. */
  lemma {:induction false} ExtractFromTokens(s: string, i: nat, pending: Option<char>, ops: seq<string>)
    requires i <= |s|
    requires WellFormedTokens(ops)
    requires pending.Some? ==> IsOperator(pending.value)
    ensures WellFormedTokens(ExtractFrom(s, i, pending, ops).0)
    decreases |s| - i
  {
    if i < |s| {
      var c := s[i];
      if IsOperator(c) {
        if pending.None? {
          ExtractFromTokens(s, i + 1, Some(c), ops);
        } else if Fuses(pending.value, c) {
          ExtractFromTokens(s, i + 1, None, ops + [[pending.value, c]]);
        } else {
          ExtractFromTokens(s, i + 1, None, ops + [Single(pending.value), Single(c)]);
        }
      } else {
        var flushed := if pending.Some? then ops + [Single(pending.value)] else ops;
        if c == SPACE_CHAR {
          ExtractFromTokens(s, i + 1, None, flushed);
        }
      }
    }
  }

  /** Reading operator `c` after pending `p` keeps the spelling, fused or not. */
  lemma SpellingOfPair(s: string, i: nat, j: nat, ops: seq<string>, p: char)
    requires i < |s| && j == i + 1 && s[i] != SPACE_CHAR
    requires Concat(ops) + [p] == NoSpaces(s[..i])
    ensures Concat(ops + [[p, s[i]]]) == NoSpaces(s[..j])
    ensures Concat(ops + [Single(p), Single(s[i])]) == NoSpaces(s[..j])
  {
    NoSpacesSnoc(s, i, j);
    ConcatSnoc(ops, [p, s[i]]);
    ConcatSnoc(ops, Single(p));
    ConcatSnoc(ops + [Single(p)], Single(s[i]));
    assert ops + [Single(p), Single(s[i])] == ops + [Single(p)] + [Single(s[i])];
  }

  /** Reading a non-operator flushes the pending operator without changing the spelling. */
  lemma SpellingOfFlush(s: string, i: nat, j: nat, ops: seq<string>, pending: Option<char>)
    requires i < |s| && j == i + 1 && !IsOperator(s[i])
    requires Concat(ops) + PendingText(pending) == NoSpaces(s[..i])
    ensures var flushed := if pending.Some? then ops + [Single(pending.value)] else ops;
      Concat(flushed) == NoSpaces(s[..i]) && (s[i] == SPACE_CHAR ==> Concat(flushed) == NoSpaces(s[..j]))
  {
    NoSpacesSnoc(s, i, j);
    if pending.Some? {
      ConcatSnoc(ops, Single(pending.value));
    }
  }

  /**
   * The tokens spell the non-space characters before the end index; when the scan reads
   * the whole input, they miss its last character exactly when the input ends with a run
   * of operators of odd length, whose last one is still pending.
   */
  predicate Spelled(s: string, r: (seq<string>, nat))
    requires r.1 <= |s|
  {
    && (r.1 < |s| ==> Concat(r.0) == NoSpaces(s[..r.1]))
    && (r.1 == |s| && !EndsInOddRun(s) ==> Concat(r.0) == NoSpaces(s))
    && (r.1 == |s| && EndsInOddRun(s) ==> Concat(r.0) + [s[|s| - 1]] == NoSpaces(s))
  }

  /** From any state whose tokens and pending operator spell what was read, the tokens spell the input up to the end index. */
  lemma {:induction false} ExtractFromSpelling(s: string, i: nat, pending: Option<char>, ops: seq<string>)
    requires i <= |s|
    requires pending.Some? ==> i > 0 && s[i - 1] == pending.value
    requires pending.Some? <==> EndsInOddRun(s[..i])
    requires Concat(ops) + PendingText(pending) == NoSpaces(s[..i])
    ensures Spelled(s, ExtractFrom(s, i, pending, ops))
    decreases |s| - i
  {
    if i == |s| {
      assert s[..i] == s;
      return;
    }
    var c := s[i];
    var j := i + 1;
    OddRunSnoc(s, i, j);
    if IsOperator(c) {
      if pending.None? {
        NoSpacesSnoc(s, i, j);
        assert ExtractFrom(s, i, pending, ops) == ExtractFrom(s, j, Some(c), ops);
        assert s[j - 1] == c;
        ExtractFromSpelling(s, j, Some(c), ops);
      } else {
        SpellingOfPair(s, i, j, ops, pending.value);
        if Fuses(pending.value, c) {
          var next := ops + [[pending.value, c]];
          assert ExtractFrom(s, i, pending, ops) == ExtractFrom(s, j, None, next);
          ExtractFromSpelling(s, j, None, next);
        } else {
          var next := ops + [Single(pending.value), Single(c)];
          assert ExtractFrom(s, i, pending, ops) == ExtractFrom(s, j, None, next);
          ExtractFromSpelling(s, j, None, next);
        }
      }
    } else {
      SpellingOfFlush(s, i, j, ops, pending);
      var flushed := if pending.Some? then ops + [Single(pending.value)] else ops;
      if c == SPACE_CHAR {
        assert ExtractFrom(s, i, pending, ops) == ExtractFrom(s, j, None, flushed);
        ExtractFromSpelling(s, j, None, flushed);
      } else {
        assert ExtractFrom(s, i, pending, ops) == (flushed, i);
      }
    }
  }

  /**
   * `extractOperators(s)` returns the index of the first character that is neither an
   * operator nor a space, every token is an operator or a fusing pair, and the tokens
   * spell the non-space characters before that index. When the input holds only
   * operators and spaces, its last character is lost exactly when the input ends with a
   * run of operators of odd length: that operator is still pending and is not emitted.
   */
  lemma ExtractOperatorsSpec(s: string)
    ensures var (ops, index) := OperatorsOf(s);
      && index <= |s|
      && (forall k :: 0 <= k < index ==> IsOperator(s[k]) || s[k] == SPACE_CHAR)
      && (index < |s| ==> !IsOperator(s[index]) && s[index] != SPACE_CHAR)
      && WellFormedTokens(ops)
      && (index < |s| ==> Concat(ops) == NoSpaces(s[..index]))
      && (index == |s| && OperatorSuffix(s) % 2 == 0 ==> Concat(ops) == NoSpaces(s))
      && (index == |s| && OperatorSuffix(s) % 2 == 1 ==> Concat(ops) + [s[|s| - 1]] == NoSpaces(s))
  {
    assert s[..0] == [];
    ExtractFromSpan(s, 0, None, []);
    ExtractFromTokens(s, 0, None, []);
    ExtractFromSpelling(s, 0, None, []);
    assert Spelled(s, OperatorsOf(s));
    EndsInOddRunParity(s);
  }

  lemma NoSpacesNonEmpty(s: string, k: nat)
    requires k < |s| && s[k] != SPACE_CHAR
    ensures |NoSpaces(s)| > 0
    decreases |s|
  {
    if k < |s| - 1 {
      NoSpacesNonEmpty(s[..|s| - 1], k);
    }
  }

  /**
   * On a head that matches OPERATOR_START_PATTERN, `extractOperators` stops exactly where
   * the name starts and yields at least one token.
   */
  lemma ExtractOperatorsOnOperatorHead(head: string)
    requires OperatorsThenName(head)
    ensures OperatorsOf(head).1 == OperatorRun(head)
    ensures |OperatorsOf(head).0| >= 1 && WellFormedTokens(OperatorsOf(head).0)
  {
    ExtractOperatorsSpec(head);
    var (ops, index) := OperatorsOf(head);
    var n := OperatorRun(head);
    if index < n {
      assert false;
    } else if n < index {
      assert false;
    }
    assert index < |head|;
    NoSpacesNonEmpty(head[..index], 0);
    if ops == [] {
      assert false;
    }
  }

  /**
   * Two operator characters read with nothing pending: a fusing pair (a doubled
   * character, or `=` after `<` or `>`) becomes one two-character token, any other pair
   * two one-character tokens, and nothing is left pending.
   */
  lemma ExtractFromPair(s: string, i: nat, ops: seq<string>)
    requires i + 1 < |s| && IsOperator(s[i]) && IsOperator(s[i + 1])
    ensures Fuses(s[i], s[i + 1]) ==>
      ExtractFrom(s, i, None, ops) == ExtractFrom(s, i + 2, None, ops + [s[i..i + 2]])
    ensures !Fuses(s[i], s[i + 1]) ==>
      ExtractFrom(s, i, None, ops) == ExtractFrom(s, i + 2, None, ops + [s[i..i + 1], s[i + 1..i + 2]])
  {
    var next := i + 1;
    assert ExtractFrom(s, i, None, ops) == ExtractFrom(s, next, Some(s[i]), ops);
    assert s[i..i + 2] == [s[i], s[next]];
    assert s[i..i + 1] == Single(s[i]) && s[next..i + 2] == Single(s[next]);
  }

  /** An input of exactly two operators: one token if they fuse, two if not. */
  lemma ExtractOperatorsPair(a: char, b: char)
    requires IsOperator(a) && IsOperator(b)
    ensures Fuses(a, b) ==> OperatorsOf([a, b]) == ([[a, b]], 2)
    ensures !Fuses(a, b) ==> OperatorsOf([a, b]) == ([[a], [b]], 2)
  {
    var s := [a, b];
    assert s[0] == a && s[1] == b;
    assert OperatorsOf(s) == ExtractFrom(s, 1, Some(a), []);
    var c := s[1];
    if Fuses(a, b) {
      assert ExtractFrom(s, 1, Some(a), []) == ExtractFrom(s, 1 + 1, None, [] + [[a, c]]);
      assert [] + [[a, c]] == [[a, b]];
    } else {
      assert ExtractFrom(s, 1, Some(a), []) == ExtractFrom(s, 1 + 1, None, [] + [Single(a), Single(c)]);
      assert [] + [Single(a), Single(c)] == [[a], [b]];
    }
  }

  /** A head of two operators followed by a name: one token if they fuse, two if not. */
  lemma ExtractOperatorsPairHead(a: char, b: char, rest: string)
    requires IsOperator(a) && IsOperator(b)
    requires |rest| > 0 && !IsOperator(rest[0]) && rest[0] != SPACE_CHAR
    ensures Fuses(a, b) ==> OperatorsOf([a, b] + rest) == ([[a, b]], 2)
    ensures !Fuses(a, b) ==> OperatorsOf([a, b] + rest) == ([[a], [b]], 2)
  {
    var s := [a, b] + rest;
    assert s[0] == a && s[1] == b && s[2] == rest[0];
    assert OperatorsOf(s) == ExtractFrom(s, 1, Some(a), []);
    var c := s[1];
    if Fuses(a, b) {
      assert ExtractFrom(s, 1, Some(a), []) == ExtractFrom(s, 1 + 1, None, [] + [[a, c]]);
      assert [] + [[a, c]] == [[a, b]];
    } else {
      assert ExtractFrom(s, 1, Some(a), []) == ExtractFrom(s, 1 + 1, None, [] + [Single(a), Single(c)]);
      assert [] + [Single(a), Single(c)] == [[a], [b]];
    }
  }

  /** The pairs `extractOperators` is written for each become one token; `=` before `>` does not fuse. */
  lemma ExtractOperatorsPairs()
    ensures OperatorsOf(">=") == ([">="], 2) && OperatorsOf("<=") == (["<="], 2)
    ensures OperatorsOf("==") == (["=="], 2) && OperatorsOf("&&") == (["&&"], 2) && OperatorsOf("||") == (["||"], 2)
    ensures OperatorsOf("=>") == (["=", ">"], 2)
  {
    assert IsOperator('&') && IsOperator('|') && IsOperator('>') && IsOperator('<') && IsOperator('=') by {
      assert OPERATORS[1] == '&' && OPERATORS[2] == '|' && OPERATORS[3] == '>' && OPERATORS[4] == '<' && OPERATORS[5] == '=';
    }
    ExtractOperatorsPair('>', '=');
    ExtractOperatorsPair('<', '=');
    ExtractOperatorsPair('=', '=');
    ExtractOperatorsPair('&', '&');
    ExtractOperatorsPair('|', '|');
    ExtractOperatorsPair('=', '>');
  }

  /**
   * A space flushes the pending operator, so `& &f` gives two tokens; an operator still
   * pending when the input ends is dropped, so `& &` gives one and `-` none.
   */
  lemma ExtractOperatorsSpaced()
    ensures OperatorsOf("& &f") == (["&", "&"], 3)
    ensures OperatorsOf("& &") == (["&"], 3)
    ensures OperatorsOf("-") == ([], 1)
  {
    assert IsOperator('&') && IsOperator('-') by {
      assert OPERATORS[1] == '&' && OPERATORS[6] == '-';
    }
    assert !IsOperator(' ') && !IsOperator('f');
    var s := "& &f";
    assert s[0] == '&' && s[1] == ' ' && s[2] == '&' && s[3] == 'f';
    assert OperatorsOf(s) == ExtractFrom(s, 0 + 1, Some('&'), []);
    assert ExtractFrom(s, 1, Some('&'), []) == ExtractFrom(s, 1 + 1, None, [] + [Single('&')]);
    assert [] + [Single('&')] == ["&"];
    assert ExtractFrom(s, 2, None, ["&"]) == ExtractFrom(s, 2 + 1, Some('&'), ["&"]);
    assert ExtractFrom(s, 3, Some('&'), ["&"]) == (["&"] + [Single('&')], 3);
    assert ["&"] + [Single('&')] == ["&", "&"];
    var t := "& &";
    assert t[0] == '&' && t[1] == ' ' && t[2] == '&';
    assert OperatorsOf(t) == ExtractFrom(t, 0 + 1, Some('&'), []);
    assert ExtractFrom(t, 1, Some('&'), []) == ExtractFrom(t, 1 + 1, None, [] + [Single('&')]);
    assert ExtractFrom(t, 2, None, ["&"]) == ExtractFrom(t, 2 + 1, Some('&'), ["&"]);
    assert OperatorsOf("-") == ExtractFrom("-", 0 + 1, Some('-'), []);
  }

  /** The head of `&&contains(b,'b')`, as in the demo expression `print(contains(a,'x') && contains(b,'b') ...)`. */
  lemma ExtractOperatorsAndCall()
    ensures OperatorsOf("&&contains(b,'b')") == (["&&"], 2)
  {
    ExtractOperatorsPairHead('&', '&', "contains(b,'b')");
    assert ['&', '&'] + "contains(b,'b')" == "&&contains(b,'b')";
  }

  // ---------------------------------------------------------------------------
  // Well-formedness of what the parser builds

  /** A chain under construction: empty, or ending with a FUNC, in the shape of WellFormedChain. */
  predicate ChainPrefix(c: seq<Arg>) {
    && (|c| > 0 ==> c[|c| - 1].kind == Func)
    && (forall k :: 0 <= k < |c| ==> (c[k].kind == Func || c[k].kind == Operator) && WellFormedArg(c[k]))
    && (forall k :: 0 <= k < |c| - 1 ==> c[k].kind == Func ==> c[k + 1].kind == Operator)
  }

  /** The OPERATOR arguments built from well-formed tokens are well formed. */
  lemma OperatorArgsWellFormed(ops: seq<string>)
    requires WellFormedTokens(ops)
    ensures forall k :: 0 <= k < |ops| ==> OperatorArgs(ops)[k].kind == Operator && WellFormedArg(OperatorArgs(ops)[k])
  {
  }

  /** Appending at least one operator and then a FUNC to a chain prefix gives a well-formed chain. */
  lemma ChainExtended(c: seq<Arg>, ops: seq<string>, funcArg: Arg)
    requires ChainPrefix(c)
    requires |ops| >= 1 && WellFormedTokens(ops)
    requires funcArg.kind == Func && WellFormedArg(funcArg)
    ensures WellFormedChain(c + OperatorArgs(ops) + [funcArg])
  {
    OperatorArgsWellFormed(ops);
    ChainElements(c, OperatorArgs(ops), funcArg);
    ChainAlternates(c, OperatorArgs(ops), funcArg);
  }

  lemma ChainElements(c: seq<Arg>, opArgs: seq<Arg>, funcArg: Arg)
    requires forall k :: 0 <= k < |c| ==> (c[k].kind == Func || c[k].kind == Operator) && WellFormedArg(c[k])
    requires forall k :: 0 <= k < |opArgs| ==> opArgs[k].kind == Operator && WellFormedArg(opArgs[k])
    requires funcArg.kind == Func && WellFormedArg(funcArg)
    ensures var r := c + opArgs + [funcArg];
      forall k :: 0 <= k < |r| ==> (r[k].kind == Func || r[k].kind == Operator) && WellFormedArg(r[k])
  {
    var r := c + opArgs + [funcArg];
    var n, m := |c|, |opArgs|;
    forall k | 0 <= k < |r|
      ensures (r[k].kind == Func || r[k].kind == Operator) && WellFormedArg(r[k])
    {
      if k < n {
        assert r[k] == c[k];
      } else if k < n + m {
        assert r[k] == opArgs[k - n];
      } else {
        assert r[k] == funcArg;
      }
    }
  }

  lemma ChainAlternates(c: seq<Arg>, opArgs: seq<Arg>, funcArg: Arg)
    requires |c| > 0 ==> c[|c| - 1].kind == Func
    requires forall k :: 0 <= k < |c| - 1 ==> c[k].kind == Func ==> c[k + 1].kind == Operator
    requires |opArgs| >= 1 && forall k :: 0 <= k < |opArgs| ==> opArgs[k].kind == Operator
    ensures var r := c + opArgs + [funcArg];
      forall k :: 0 <= k < |r| - 1 ==> r[k].kind == Func ==> r[k + 1].kind == Operator
  {
    var r := c + opArgs + [funcArg];
    var n := |c|;
    forall k | 0 <= k < |r| - 1
      ensures r[k].kind == Func ==> r[k + 1].kind == Operator
    {
      if k < n - 1 {
        assert r[k] == c[k] && r[k + 1] == c[k + 1];
      } else if k == n - 1 {
        assert r[k + 1] == opArgs[0];
      } else {
        assert r[k] == opArgs[k - n];
      }
    }
  }

  lemma AppendWellFormed(args: seq<Arg>, a: Arg)
    requires WellFormedArgs(args) && a.kind != Operator && WellFormedArg(a)
    ensures WellFormedArgs(args + [a])
  {
    var r := args + [a];
    forall k | 0 <= k < |r|
      ensures r[k].kind != Operator && WellFormedArg(r[k])
    {
      if k < |args| {
        assert r[k] == args[k];
      }
    }
  }

  lemma ReplaceLastWellFormed(args: seq<Arg>, a: Arg)
    requires |args| > 0 && WellFormedArgs(args) && a.kind != Operator && WellFormedArg(a)
    ensures WellFormedArgs(args[..|args| - 1] + [a])
  {
    AppendWellFormed(args[..|args| - 1], a);
  }

  /**
   * A step emits only CONSTANT, FUNC and ORIGIN segments, a FUNC segment ends with its
   * closing bracket, and a step fails only on an unmatched quote or bracket.
   */
  lemma StepShape(s: string, i: nat, seg: Segment)
    requires i < |s| && SegmentInv(s, i, seg)
    ensures var r := Step(s, i, seg);
      && (r.Ok? && r.value.emit.EmitArg? ==> r.value.emit.kind in {Constant, Func, Origin})
      && (r.Ok? && r.value.emit.EmitArg? && r.value.emit.kind == Func ==>
            |r.value.emit.text| > 0 && r.value.emit.text[|r.value.emit.text| - 1] == BRACKETS_RIGHT_CHAR)
      && (r.Err? ==> r.error.EndCharMiss?)
  {
  }

  /** The errors `parseArg` can report: an unmatched quote or bracket, or operators after a quoted or plain argument. */
  predicate ArgsError(err: ParseError) {
    err.EndCharMiss? || err.ErrorTypeOfLastArg?
  }

  /**
   * Whatever `parse` returns is well formed: a FUNC result has a non-empty name without
   * '(' and arguments whose kinds agree with their values, chains alternate FUNC and
   * OPERATOR and end with a FUNC. EmptyExpression is reported only for the empty string
   * and an index error only when the first '(' is the last character; every other
   * error comes from the arguments.
   */
  lemma {:induction false} ParsedWellFormed(e: string)
    ensures Parsed(e).Ok? ==> WellFormedResult(Parsed(e).value)
    ensures Parsed(e).Err? ==>
      || (Parsed(e).error == EmptyExpression && |e| == 0)
      || (Parsed(e).error == IndexOutOfBounds && 0 < IndexOf(e, BRACKETS_LEFT_CHAR) == |e| - 1)
      || ArgsError(Parsed(e).error)
    decreases |e|, 0, 0
  {
    if |e| > 0 {
      var start := IndexOf(e, BRACKETS_LEFT_CHAR);
      if start > 0 && start + 1 <= |e| - 1 {
        ScanWellFormed(e[start + 1..|e| - 1], 0, Idle, [], false);
      }
    }
  }

  /** A call segment: it holds a '(' before its last character, a ')'. */
  predicate CallText(text: string) {
    |text| > 0 && text[|text| - 1] == BRACKETS_RIGHT_CHAR && BRACKETS_LEFT_CHAR in text
  }

  /** `parse` on a call segment fails only in its arguments. */
  lemma ParsedCallText(text: string)
    requires CallText(text)
    ensures Parsed(text).Ok? ==> WellFormedResult(Parsed(text).value)
    ensures Parsed(text).Err? ==> ArgsError(Parsed(text).error)
    decreases |text|, 0, 1
  {
    ParsedWellFormed(text);
  }

  lemma {:induction false} ScanWellFormed(s: string, i: nat, seg: Segment, args: seq<Arg>, grouped: bool)
    requires SegmentInv(s, i, seg) && (grouped ==> |args| > 0) && WellFormedArgs(args)
    ensures ScanFrom(s, i, seg, args, grouped).Ok? ==> WellFormedArgs(ScanFrom(s, i, seg, args, grouped).value)
    ensures ScanFrom(s, i, seg, args, grouped).Err? ==> ArgsError(ScanFrom(s, i, seg, args, grouped).error)
    decreases |s|, 2, |s| - i + 1
  {
    if i < |s| {
      AdvanceWellFormed(s, i, seg, args, grouped);
      match Advance(s, i, seg, args, grouped)
      case Err(_) =>
      case Ok((seg', args', grouped')) => ScanWellFormed(s, i + 1, seg', args', grouped');
    }
  }

  lemma {:induction false} AdvanceWellFormed(s: string, i: nat, seg: Segment, args: seq<Arg>, grouped: bool)
    requires i < |s| && SegmentInv(s, i, seg) && (grouped ==> |args| > 0) && WellFormedArgs(args)
    ensures Advance(s, i, seg, args, grouped).Ok? ==> WellFormedArgs(Advance(s, i, seg, args, grouped).value.1)
    ensures Advance(s, i, seg, args, grouped).Err? ==> ArgsError(Advance(s, i, seg, args, grouped).error)
    decreases |s|, 2, 0
  {
    StepShape(s, i, seg);
    match Step(s, i, seg)
    case Err(_) =>
    case Ok(out) =>
      if out.emit.EmitArg? {
        ClassifiedWellFormed(args, grouped, out.emit.text, out.emit.kind);
      }
  }

  lemma {:induction false} ClassifiedWellFormed(args: seq<Arg>, grouped: bool, text: string, kind: ArgKind)
    requires grouped ==> |args| > 0
    requires kind == Func ==> CallText(text)
    requires kind == Constant || kind == Func || kind == Origin
    requires WellFormedArgs(args)
    ensures Classified(args, grouped, text, kind).Ok? ==> WellFormedArgs(Classified(args, grouped, text, kind).value)
    ensures Classified(args, grouped, text, kind).Err? ==> ArgsError(Classified(args, grouped, text, kind).error)
    decreases |text|, 1, 0
  {
    if kind != Func {
      AppendWellFormed(args, Arg(Text(if kind == Constant then text else Trim(text)), kind));
      return;
    }
    var head := Trim(text[..IndexOf(text, BRACKETS_LEFT_CHAR)]);
    if AllOperators(head) {
      AppendWellFormed(args, Arg(Text(Trim(text)), Origin));
    } else if OperatorsThenName(head) {
      OperatorCallWellFormed(args, grouped, text);
    } else {
      ParsedCallText(text);
      if Parsed(text).Ok? {
        AppendWellFormed(args, Arg(Nested(Parsed(text).value), Func));
      }
    }
  }

  /** The rest of a call segment after its leading operators is again a call segment. */
  lemma OperatorCallRest(text: string, head: string, index: nat)
    requires CallText(text)
    requires head == Trim(text[..IndexOf(text, BRACKETS_LEFT_CHAR)])
    requires index <= |head|
    ensures index <= |text| && |Trim(text[index..])| <= |text| && CallText(Trim(text[index..]))
  {
    var open := IndexOf(text, BRACKETS_LEFT_CHAR);
    HeadBeforeBracket(text, head);
    RestOfCall(text, open, index);
  }

  lemma HeadBeforeBracket(text: string, head: string)
    requires BRACKETS_LEFT_CHAR in text && head == Trim(text[..IndexOf(text, BRACKETS_LEFT_CHAR)])
    ensures |head| <= IndexOf(text, BRACKETS_LEFT_CHAR)
  {
  }

  lemma RestOfCall(text: string, open: nat, index: nat)
    requires index <= open < |text| && text[open] == BRACKETS_LEFT_CHAR && text[|text| - 1] == BRACKETS_RIGHT_CHAR
    ensures CallText(Trim(text[index..]))
  {
    var x := text[index..];
    assert x[open - index] == text[open] && x[|x| - 1] == text[|text| - 1];
    TrimmedCall(x, open - index);
  }

  /** Trimming text that holds a '(' and ends with ')' keeps both. */
  lemma TrimmedCall(x: string, k: nat)
    requires k < |x| && x[k] == BRACKETS_LEFT_CHAR && x[|x| - 1] == BRACKETS_RIGHT_CHAR
    ensures CallText(Trim(x))
  {
    TrimLeftKeeps(x, k);
    var t := TrimLeft(x);
    var d := |x| - |t|;
    assert t == x[d..];
    assert t[k - d] == x[k] && t[|t| - 1] == x[|x| - 1];
    assert TrimRight(t) == t;
    assert Trim(x) == t;
  }

  /** The branch of `createArg` for a call preceded by operators. */
  lemma {:induction false} OperatorCallWellFormed(args: seq<Arg>, grouped: bool, text: string)
    requires grouped ==> |args| > 0
    requires CallText(text)
    requires OperatorsThenName(Trim(text[..IndexOf(text, BRACKETS_LEFT_CHAR)]))
    requires WellFormedArgs(args)
    ensures Classified(args, grouped, text, Func).Ok? ==> WellFormedArgs(Classified(args, grouped, text, Func).value)
    ensures Classified(args, grouped, text, Func).Err? ==> ArgsError(Classified(args, grouped, text, Func).error)
    decreases |text|, 0, 2
  {
    var head := Trim(text[..IndexOf(text, BRACKETS_LEFT_CHAR)]);
    assert !AllOperators(head) by {
      assert !IsOperator(head[OperatorRun(head)]);
    }
    var ops := OperatorsOf(head).0;
    var index := OperatorsOf(head).1;
    ExtractOperatorsOnOperatorHead(head);
    OperatorCallRest(text, head, index);
    var rest := Trim(text[index..]);
    ParsedCallText(rest);
    match Parsed(rest)
    case Err(e) =>
      assert Classified(args, grouped, text, Func) == Err(e);
    case Ok(p) =>
      var funcArg := Arg(Nested(p), Func);
      assert Classified(args, grouped, text, Func) == Fused(args, grouped, OperatorArgs(ops), funcArg);
      FusedWellFormed(args, grouped, ops, funcArg);
  }

  lemma FusedWellFormed(args: seq<Arg>, grouped: bool, ops: seq<string>, funcArg: Arg)
    requires grouped ==> |args| > 0
    requires WellFormedArgs(args) && |ops| >= 1 && WellFormedTokens(ops)
    requires funcArg.kind == Func && WellFormedArg(funcArg)
    ensures Fused(args, grouped, OperatorArgs(ops), funcArg).Ok? ==> WellFormedArgs(Fused(args, grouped, OperatorArgs(ops), funcArg).value)
    ensures Fused(args, grouped, OperatorArgs(ops), funcArg).Err? ==> Fused(args, grouped, OperatorArgs(ops), funcArg).error.ErrorTypeOfLastArg?
  {
    if grouped {
      var last := args[|args| - 1];
      LastPrefix(args);
      if last.value.Chain? {
        ChainExtended(last.value.chain, ops, funcArg);
        ReplaceLastWellFormed(args, Arg(Chain(last.value.chain + OperatorArgs(ops) + [funcArg]), OperatorFunc));
      } else if last.value.Nested? {
        ChainExtended([last], ops, funcArg);
        ReplaceLastWellFormed(args, Arg(Chain([last] + OperatorArgs(ops) + [funcArg]), OperatorFunc));
      }
    } else {
      ChainExtended([], ops, funcArg);
      assert [] + OperatorArgs(ops) + [funcArg] == OperatorArgs(ops) + [funcArg];
      AppendWellFormed(args, Arg(Chain(OperatorArgs(ops) + [funcArg]), OperatorFunc));
    }
  }

  /** The group's previous argument is either a chain to extend or a call to start a chain with. */
  lemma LastPrefix(args: seq<Arg>)
    requires |args| > 0 && WellFormedArgs(args)
    ensures var last := args[|args| - 1];
      && (last.value.Chain? ==> ChainPrefix(last.value.chain))
      && (last.value.Nested? ==> ChainPrefix([last]))
  {
    var last := args[|args| - 1];
    assert WellFormedArg(last);
    if last.value.Chain? {
      assert last.kind == OperatorFunc;
      assert WellFormedChain(last.value.chain);
    } else if last.value.Nested? {
      assert last.kind == Func;
    }
  }

  // ---------------------------------------------------------------------------
  // parse: the split at the first '('

  /** `parse` yields ORIGIN exactly when the expression is not empty and has no '(' or starts with one. */
  lemma ParsedOrigin(e: string)
    ensures Parsed(e) == Ok(OriginResult) <==> |e| > 0 && (BRACKETS_LEFT_CHAR !in e || e[0] == BRACKETS_LEFT_CHAR)
  {
    if |e| > 0 && BRACKETS_LEFT_CHAR in e && e[0] != BRACKETS_LEFT_CHAR && IndexOf(e, BRACKETS_LEFT_CHAR) < |e| - 1 {
      ParsedFunc(e);
    }
  }

  /**
   * `parse` fails with EmptyExpression exactly on the empty string, and with an index
   * error exactly when the first '(' is the last character of an expression that does
   * not start with it: the last character is dropped unchecked.
   */
  lemma ParsedErrors(e: string)
    ensures Parsed(e) == Err(EmptyExpression) <==> |e| == 0
    ensures Parsed(e) == Err(IndexOutOfBounds) <==> |e| > 0 && 0 < IndexOf(e, BRACKETS_LEFT_CHAR) == |e| - 1
  {
    if |e| > 0 {
      var start := IndexOf(e, BRACKETS_LEFT_CHAR);
      if start == -1 || start == 0 {
        assert Parsed(e) == Ok(OriginResult);
      } else if start + 1 > |e| - 1 {
        assert Parsed(e) == Err(IndexOutOfBounds);
      } else {
        ParsedFunc(e);
        ArgsErrorKinds(e[start + 1..|e| - 1]);
      }
    }
  }

  /** `parseArg` reports only the errors of ArgsError. */
  lemma ArgsErrorKinds(s: string)
    ensures ArgsOf(s).Err? ==> ArgsError(ArgsOf(s).error)
  {
    ScanWellFormed(s, 0, Idle, [], false);
  }

  /**
   * Otherwise `parse` yields FUNC: the name is everything before the first '(' and the
   * arguments are those of the text between that '(' and the last character.
   */
  lemma ParsedFunc(e: string)
    requires |e| > 0 && BRACKETS_LEFT_CHAR in e && e[0] != BRACKETS_LEFT_CHAR
    requires IndexOf(e, BRACKETS_LEFT_CHAR) < |e| - 1
    ensures var start := IndexOf(e, BRACKETS_LEFT_CHAR);
      && (ArgsOf(e[start + 1..|e| - 1]).Ok? ==> Parsed(e) == Ok(FuncResult(e[..start], ArgsOf(e[start + 1..|e| - 1]).value)))
      && (ArgsOf(e[start + 1..|e| - 1]).Err? ==> Parsed(e) == Err(ArgsOf(e[start + 1..|e| - 1]).error))
  {
  }

  /** A call written out in full: `name(body)` with no '(' in the name parses to FUNC `name` with the arguments of `body`. */
  lemma ParsedCall(name: string, body: string)
    requires |name| > 0 && BRACKETS_LEFT_CHAR !in name
    ensures ArgsOf(body).Ok? ==>
      Parsed(name + [BRACKETS_LEFT_CHAR] + body + [BRACKETS_RIGHT_CHAR]) == Ok(FuncResult(name, ArgsOf(body).value))
    ensures ArgsOf(body).Err? ==>
      Parsed(name + [BRACKETS_LEFT_CHAR] + body + [BRACKETS_RIGHT_CHAR]) == Err(ArgsOf(body).error)
  {
    var e := name + [BRACKETS_LEFT_CHAR] + body + [BRACKETS_RIGHT_CHAR];
    assert e[|name|] == BRACKETS_LEFT_CHAR;
    assert e[..|name|] == name;
    assert IndexOf(e, BRACKETS_LEFT_CHAR) == |name|;
    assert e[|name| + 1..|e| - 1] == body;
  }

  // ---------------------------------------------------------------------------
  // parseArg: a closed comma group is never changed again

  /** The list after a `createArg` call: the previous one with one argument appended, or with the group's last argument replaced. */
  predicate AppendsOrReplaces(args: seq<Arg>, grouped: bool, r: seq<Arg>)
    requires grouped ==> |args| > 0
  {
    && Settled(args, grouped) <= r
    && |args| <= |r| <= |args| + 1
    && (!grouped ==> |r| == |args| + 1)
  }

  lemma FusedKeepsSettled(args: seq<Arg>, grouped: bool, operatorArgs: seq<Arg>, funcArg: Arg)
    requires grouped ==> |args| > 0
    ensures Fused(args, grouped, operatorArgs, funcArg).Ok? ==>
      AppendsOrReplaces(args, grouped, Fused(args, grouped, operatorArgs, funcArg).value)
  {
    if grouped {
      var r := Fused(args, grouped, operatorArgs, funcArg);
      if r.Ok? {
        assert r.value[..|args| - 1] == args[..|args| - 1];
      }
    }
  }

  lemma AppendKeepsSettled(args: seq<Arg>, grouped: bool, a: Arg)
    requires grouped ==> |args| > 0
    ensures AppendsOrReplaces(args, grouped, args + [a])
  {
  }

  /** `createArg` appends one argument, or replaces the last one when it fuses into the group's previous argument. */
  lemma ClassifiedKeepsSettled(args: seq<Arg>, grouped: bool, text: string, kind: ArgKind)
    requires grouped ==> |args| > 0
    requires kind == Func ==> BRACKETS_LEFT_CHAR in text
    ensures Classified(args, grouped, text, kind).Ok? ==> AppendsOrReplaces(args, grouped, Classified(args, grouped, text, kind).value)
  {
    if kind != Func {
      var a := Arg(Text(if kind == Constant then text else Trim(text)), kind);
      assert Classified(args, grouped, text, kind) == Ok(args + [a]);
      AppendKeepsSettled(args, grouped, a);
      return;
    }
    var head := Trim(text[..IndexOf(text, BRACKETS_LEFT_CHAR)]);
    if AllOperators(head) {
      var a := Arg(Text(Trim(text)), Origin);
      assert Classified(args, grouped, text, kind) == Ok(args + [a]);
      AppendKeepsSettled(args, grouped, a);
    } else if OperatorsThenName(head) {
      var ops := OperatorsOf(head).0;
      var index := OperatorsOf(head).1;
      match Parsed(Trim(text[index..]))
      case Err(e) =>
        assert Classified(args, grouped, text, kind) == Err(e);
      case Ok(p) =>
        assert Classified(args, grouped, text, kind) == Fused(args, grouped, OperatorArgs(ops), Arg(Nested(p), Func));
        FusedKeepsSettled(args, grouped, OperatorArgs(ops), Arg(Nested(p), Func));
    } else {
      match Parsed(text)
      case Err(e) =>
        assert Classified(args, grouped, text, kind) == Err(e);
      case Ok(p) =>
        var a := Arg(Nested(p), Func);
        assert Classified(args, grouped, text, kind) == Ok(args + [a]);
        AppendKeepsSettled(args, grouped, a);
    }
  }

  lemma {:induction false} ScanKeepsSettled(s: string, i: nat, seg: Segment, args: seq<Arg>, grouped: bool)
    requires SegmentInv(s, i, seg) && (grouped ==> |args| > 0)
    ensures ScanFrom(s, i, seg, args, grouped).Ok? ==> Settled(args, grouped) <= ScanFrom(s, i, seg, args, grouped).value
    decreases |s| - i
  {
    if i < |s| {
      match Advance(s, i, seg, args, grouped)
      case Err(_) =>
      case Ok((seg', args', grouped')) =>
        ArgsOfExtends(s, i, seg, args, grouped);
        ScanKeepsSettled(s, i + 1, seg', args', grouped');
    }
  }

  /**
   * Every argument `parseArg` has finished with a comma stays in the result unchanged:
   * reading more input only appends, or rewrites the last argument while it is still the
   * current group's previous argument.
   */
  lemma ArgsOfExtends(s: string, i: nat, seg: Segment, args: seq<Arg>, grouped: bool)
    requires i < |s| && SegmentInv(s, i, seg) && (grouped ==> |args| > 0)
    requires Advance(s, i, seg, args, grouped).Ok?
    ensures Settled(args, grouped) <= Settled(Advance(s, i, seg, args, grouped).value.1, Advance(s, i, seg, args, grouped).value.2)
  {
    match Step(s, i, seg)
    case Err(_) =>
    case Ok(out) =>
      if out.emit.EmitArg? {
        ClassifiedKeepsSettled(args, grouped, out.emit.text, out.emit.kind);
      }
  }
}
