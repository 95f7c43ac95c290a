/**
 * `BaseExpressionParser`: `parse`, `parseArg`, `createArg` and `extractOperators`.
 *
 * Each operation is given twice: as a function that defines what it computes
 * (`Parsed`, `ArgsOf`/`ScanFrom`/`Step`, `Classified`, `OperatorsOf`/`ExtractFrom`) and as
 * the method that computes it the way the source does, by updating local state in a
 * loop (`Parse`, `ParseArg`, `CreateArg`, `ExtractOperators`). Every method is proved to
 * return exactly what its function defines; the properties of the parser are proved
 * about the functions, in module ParserProperties.
 */
module Parser {
  import opened Wrappers
  import opened JavaStrings
  import opened CharConstants
  import opened Ast

  /** The exceptions the parser can raise. */
  datatype ParseError =
    | EmptyExpression            // "expression can not be empty"
    | EndCharMiss(endCheck: char) // "end char miss"
    | ErrorTypeOfLastArg(last: string) // "error type of last Arg:"
    | IndexOutOfBounds           // a `substring` call with bounds outside the string

  // ---------------------------------------------------------------------------
  // extractOperators

  /** The token for a non-operator flush or a non-fusing pair: one character. */
  function Single(c: char): string {
    [c]
  }

  /** Whether `current` following the pending character `last` forms one two-character token. */
  predicate Fuses(last: char, current: char) {
    last == current || (current == EQUAL && (last == LE || last == GE))
  }

  /**
   * The scan of `extractOperators` from index `i`, with `pending` the operator character
   * waiting for a partner and `ops` the tokens so far. Returns the tokens and the index
   * where the scan stopped.
   */
  function ExtractFrom(s: string, i: nat, pending: Option<char>, ops: seq<string>): (r: (seq<string>, nat))
    requires i <= |s|
    ensures i <= r.1 <= |s|
    decreases |s| - i
  {
    if i == |s| then (ops, i)
    else
      var c := s[i];
      if IsOperator(c) then
        if pending.None? then ExtractFrom(s, i + 1, Some(c), ops)
        else if Fuses(pending.value, c) then ExtractFrom(s, i + 1, None, ops + [[pending.value, c]])
        else ExtractFrom(s, i + 1, None, ops + [Single(pending.value), Single(c)])
      else
        var flushed := if pending.Some? then ops + [Single(pending.value)] else ops;
        if c != SPACE_CHAR then (flushed, i)
        else ExtractFrom(s, i + 1, None, flushed)
  }

  /** `extractOperators(expression)`: the leading operator tokens and the end index. */
  function OperatorsOf(s: string): (seq<string>, nat) {
    ExtractFrom(s, 0, None, [])
  }

  /** The OPERATOR arguments built from the tokens. */
  function OperatorArgs(ops: seq<string>): (r: seq<Arg>)
    ensures |r| == |ops|
    ensures forall k :: 0 <= k < |ops| ==> r[k] == Arg(Text(ops[k]), Operator)
  {
    if ops == [] then [] else [Arg(Text(ops[0]), Operator)] + OperatorArgs(ops[1..])
  }

  // ---------------------------------------------------------------------------
  // parseArg: the segmenter

  /** `startIndex`, `endCheck` and `count` of `parseArg`. */
  datatype Segment = Segment(start: Option<nat>, endCheck: Option<char>, count: int)

  /** The state between segments. */
  const Idle: Segment := Segment(None, None, 0)

  /** The `createArg` call a step makes, if any. */
  datatype Emit = NoEmit | EmitArg(text: string, kind: ArgKind)

  /** What one step of `parseArg` does: the new state, the call it makes, whether a comma ended the group. */
  datatype StepOut = StepOut(next: Segment, emit: Emit, closesGroup: bool)

  /** What holds of the segmenter state before it reads `s[i]`. */
  predicate SegmentInv(s: string, i: nat, seg: Segment) {
    && i <= |s|
    && (seg.start.Some? ==> seg.start.value < i)
    && (seg.endCheck.None? ==> seg.count == 0)
    && (seg.endCheck.Some? ==> seg.start.Some?)
    && (seg.endCheck.Some? ==> seg.endCheck.value == APOSTROPHE_CHAR || seg.endCheck.value == BRACKETS_RIGHT_CHAR)
    && (seg.endCheck == Some(APOSTROPHE_CHAR) ==> seg.count == 1)
    && (seg.endCheck == Some(BRACKETS_RIGHT_CHAR) ==>
          seg.count >= 1 && seg.start.Some? && BRACKETS_LEFT_CHAR in s[seg.start.value..i])
  }

  /** The end of a closing step: with no open quote or bracket left, the segment ends. */
  function Close(c: char, seg: Segment, emit: Emit): StepOut {
    if seg.count == 0 then StepOut(Idle, emit, c == COMMA_CHAR)
    else StepOut(seg, emit, false)
  }

  /**
   * The first half of an iteration of `parseArg` on a non-space character `c` at index
   * `i`: a segment starts at the first character that is not a comma, an apostrophe
   * opens or counts a quote, an opening bracket opens or counts a bracket.
   */
  function Open(c: char, i: nat, seg: Segment): Segment {
    var start := if seg.start.None? && c != COMMA_CHAR then Some(i) else seg.start;
    if c == APOSTROPHE_CHAR && (seg.endCheck.None? || seg.endCheck == Some(APOSTROPHE_CHAR)) then
      Segment(start, Some(APOSTROPHE_CHAR), seg.count + 1)
    else if c == BRACKETS_LEFT_CHAR && (seg.endCheck.None? || seg.endCheck == Some(BRACKETS_RIGHT_CHAR)) then
      Segment(start, Some(BRACKETS_RIGHT_CHAR), seg.count + 1)
    else
      Segment(start, seg.endCheck, seg.count)
  }

  /**
   * The second half: on a closing character (END_CHAR) or at the last index, a segment
   * that is open is closed when its quote or bracket is matched (or it has none), and an
   * unmatched one at the last index is an error.
   */
  function Finish(s: string, i: nat, seg: Segment): (r: Result<StepOut, ParseError>)
    requires i < |s|
    requires seg.start.Some? ==> seg.start.value <= i
    requires seg.endCheck == Some(APOSTROPHE_CHAR) && seg.count == 2 ==> seg.start.Some? && seg.start.value < i
  {
    var c := s[i];
    var end := i == |s| - 1;
    if !((c in END_CHAR || end) && seg.start.Some?) then
      Ok(StepOut(seg, NoEmit, false))
    else if seg.endCheck.Some? then
      var endCheck, count := seg.endCheck.value, seg.count;
      var emit :=
        if c != endCheck then NoEmit
        else if endCheck == APOSTROPHE_CHAR then
          if count == 2 then EmitArg(s[seg.start.value + 1..i], Constant) else NoEmit
        else if count == 1 then EmitArg(s[seg.start.value..i + 1], Func)
        else NoEmit;
      var count' :=
        if c != endCheck then count
        else if endCheck == APOSTROPHE_CHAR then (if count == 2 then 0 else count)
        else count - 1;
      if end && count' != 0 then Err(EndCharMiss(endCheck))
      else Ok(Close(c, Segment(seg.start, seg.endCheck, count'), emit))
    else if !end && seg.start.value == i then
      // the source's `continue`: a lone closing character opens the segment
      Ok(StepOut(seg, NoEmit, false))
    else
      var stop := if end then i + 1 else i;
      Ok(Close(c, seg, EmitArg(s[seg.start.value..stop], Origin)))
  }

  /** One iteration of the loop of `parseArg`, at index `i`. */
  function Step(s: string, i: nat, seg: Segment): (r: Result<StepOut, ParseError>)
    requires i < |s| && SegmentInv(s, i, seg)
    ensures r.Ok? ==> SegmentInv(s, i + 1, r.value.next)
    ensures r.Ok? && r.value.emit.EmitArg? ==> |r.value.emit.text| <= |s|
    ensures r.Ok? && r.value.emit.EmitArg? && r.value.emit.kind == Func ==> BRACKETS_LEFT_CHAR in r.value.emit.text
    ensures r.Err? ==> i == |s| - 1
  {
    if s[i] == SPACE_CHAR then Ok(StepOut(seg, NoEmit, false))
    else Finish(s, i, Open(s[i], i, seg))
  }

  /** The arguments of a comma group that no later step can change. */
  function Settled(args: seq<Arg>, grouped: bool): seq<Arg>
    requires grouped ==> |args| > 0
  {
    if grouped then args[..|args| - 1] else args
  }

  /**
   * The `createArg` call of a step, if it makes one; afterwards the group's previous
   * argument is the last element of the list, unless a comma ended the group.
   */
  function Apply(args: seq<Arg>, grouped: bool, out: StepOut): (r: Result<(seq<Arg>, bool), ParseError>)
    requires grouped ==> |args| > 0
    requires out.emit.EmitArg? && out.emit.kind == Func ==> BRACKETS_LEFT_CHAR in out.emit.text
    ensures r.Ok? && r.value.1 ==> |r.value.0| > 0
    decreases if out.emit.EmitArg? then |out.emit.text| else 0, 1, 1
  {
    match out.emit
    case NoEmit => Ok((args, grouped && !out.closesGroup))
    case EmitArg(text, kind) =>
      match Classified(args, grouped, text, kind)
      case Err(e) => Err(e)
      case Ok(args') => Ok((args', !out.closesGroup))
  }

  /**
   * One iteration of `parseArg` at index `i`, with `grouped` standing for
   * `partLast != null`: the new state, argument list and grouping.
   */
  function Advance(s: string, i: nat, seg: Segment, args: seq<Arg>, grouped: bool)
    : (r: Result<(Segment, seq<Arg>, bool), ParseError>)
    requires i < |s| && SegmentInv(s, i, seg) && (grouped ==> |args| > 0)
    ensures r.Ok? ==> SegmentInv(s, i + 1, r.value.0) && (r.value.2 ==> |r.value.1| > 0)
    decreases |s|, 2, 0
  {
    match Step(s, i, seg)
    case Err(e) => Err(e)
    case Ok(out) =>
      match Apply(args, grouped, out)
      case Err(e) => Err(e)
      case Ok((args', grouped')) => Ok((out.next, args', grouped'))
  }

  /**
   * The loop of `parseArg` from index `i` on. `partLast` is always the same object as
   * the last element of the result list, so `grouped` (`partLast != null`) says whether
   * that last element is the current comma group's previous argument, and fusing into
   * `partLast` replaces the last element.
   */
  function ScanFrom(s: string, i: nat, seg: Segment, args: seq<Arg>, grouped: bool): (r: Result<seq<Arg>, ParseError>)
    requires SegmentInv(s, i, seg) && (grouped ==> |args| > 0)
    decreases |s|, 2, |s| - i + 1
  {
    if i == |s| then Ok(args)
    else
      match Advance(s, i, seg, args, grouped)
      case Err(e) => Err(e)
      case Ok((seg', args', grouped')) => ScanFrom(s, i + 1, seg', args', grouped')
  }

  /** `parseArg(expression)`. */
  function ArgsOf(s: string): Result<seq<Arg>, ParseError>
    decreases |s|, 3, 0
  {
    ScanFrom(s, 0, Idle, [], false)
  }

  // ---------------------------------------------------------------------------
  // createArg: the classifier

  /**
   * `createArg(argResult, partLast, value, type)`: the argument list afterwards. It either
   * appends one argument or, when fusing into the group's previous argument, replaces
   * the last one; in both cases the last element is the new `partLast`.
   */
  function Classified(args: seq<Arg>, grouped: bool, text: string, kind: ArgKind): (r: Result<seq<Arg>, ParseError>)
    requires grouped ==> |args| > 0
    requires kind == Func ==> BRACKETS_LEFT_CHAR in text
    ensures r.Ok? ==> |r.value| > 0
    decreases |text|, 1, 0
  {
    if kind == Func then
      var head := Trim(text[..IndexOf(text, BRACKETS_LEFT_CHAR)]);
      if AllOperators(head) then
        Ok(args + [Arg(Text(Trim(text)), Origin)])
      else if OperatorsThenName(head) then
        var (ops, index) := OperatorsOf(head);
        match Parsed(Trim(text[index..]))
        case Err(e) => Err(e)
        case Ok(p) => Fused(args, grouped, OperatorArgs(ops), Arg(Nested(p), Func))
      else
        match Parsed(text)
        case Err(e) => Err(e)
        case Ok(p) => Ok(args + [Arg(Nested(p), Func)])
    else if kind != Constant then
      Ok(args + [Arg(Text(Trim(text)), kind)])
    else
      Ok(args + [Arg(Text(text), Constant)])
  }

  /**
   * The OPERATOR_FUNC branch of `createArg`: the operators and the call found after them
   * extend the group's previous chain, start a chain with the group's previous call, or
   * start a new chain when the group has no previous argument.
   */
  function Fused(args: seq<Arg>, grouped: bool, operatorArgs: seq<Arg>, funcArg: Arg): (r: Result<seq<Arg>, ParseError>)
    requires grouped ==> |args| > 0
    ensures r.Ok? ==> |r.value| > 0
  {
    if grouped then
      var last := args[|args| - 1];
      match last.value
      case Chain(chain) =>
        Ok(args[..|args| - 1] + [Arg(Chain(chain + operatorArgs + [funcArg]), OperatorFunc)])
      case Nested(_) =>
        Ok(args[..|args| - 1] + [Arg(Chain([last] + operatorArgs + [funcArg]), OperatorFunc)])
      case Text(t) =>
        Err(ErrorTypeOfLastArg(t))
    else
      Ok(args + [Arg(Chain(operatorArgs + [funcArg]), OperatorFunc)])
  }

  // ---------------------------------------------------------------------------
  // parse

  /** `parse(expression)`. */
  function Parsed(e: string): (r: Result<ParseResult, ParseError>)
    decreases |e|, 0, 0
  {
    if |e| == 0 then Err(EmptyExpression)
    else
      var start := IndexOf(e, BRACKETS_LEFT_CHAR);
      if start == -1 || start == 0 then Ok(OriginResult)
      else if start + 1 > |e| - 1 then Err(IndexOutOfBounds)
      else
        match ArgsOf(e[start + 1..|e| - 1])
        case Err(err) => Err(err)
        case Ok(args) => Ok(FuncResult(e[..start], args))
  }

  // ---------------------------------------------------------------------------
  // The source's procedures

  /** `extractOperators`: scans the head with a pending operator character. */
  method ExtractOperators(expression: string) returns (operators: seq<string>, index: nat)
    ensures (operators, index) == OperatorsOf(expression)
  {
    operators := [];
    index := 0;
    var lastChar: Option<char> := None;
    while index < |expression|
      invariant index <= |expression|
      invariant ExtractFrom(expression, index, lastChar, operators) == OperatorsOf(expression)
    {
      var currentChar := expression[index];
      if IsOperator(currentChar) {
        if lastChar.None? {
          lastChar := Some(currentChar);
        } else {
          if Fuses(lastChar.value, currentChar) {
            operators := operators + [[lastChar.value, currentChar]];
          } else {
            operators := operators + [Single(lastChar.value), Single(currentChar)];
          }
          lastChar := None;
        }
      } else {
        if lastChar.Some? {
          operators := operators + [Single(lastChar.value)];
          lastChar := None;
        }
        if currentChar != SPACE_CHAR {
          break;
        }
      }
      index := index + 1;
    }
  }

  /** `parse`. */
  method Parse(expression: string) returns (r: Result<ParseResult, ParseError>)
    ensures r == Parsed(expression)
    decreases |expression|, 0, 0
  {
    if |expression| == 0 {
      return Err(EmptyExpression);
    }
    var start := IndexOf(expression, BRACKETS_LEFT_CHAR);
    var length := |expression|;
    if start == -1 || start == 0 {
      return Ok(OriginResult);
    }
    if start + 1 > length - 1 {
      return Err(IndexOutOfBounds);
    }
    var args := ParseArg(expression[start + 1..length - 1]);
    if args.Err? {
      return Err(args.error);
    }
    return Ok(FuncResult(expression[..start], args.value));
  }

  /**
   * `parseArg`: one pass over the characters. `partLast` is true when the last element of
   * `result` is the previous argument of the current comma group.
   */
  method ParseArg(expression: string) returns (r: Result<seq<Arg>, ParseError>)
    ensures r == ArgsOf(expression)
    decreases |expression|, 3, 0
  {
    var length := |expression|;
    var endIndex := length - 1;
    var startIndex: Option<nat> := None;
    var endCheck: Option<char> := None;
    var count := 0;
    var result: seq<Arg> := [];
    var partLast := false;
    var i := 0;
    while i < length
      invariant i <= length
      invariant SegmentInv(expression, i, Segment(startIndex, endCheck, count))
      invariant partLast ==> |result| > 0
      invariant ScanFrom(expression, i, Segment(startIndex, endCheck, count), result, partLast) == ArgsOf(expression)
    {
      ghost var before, result0, partLast0 := Segment(startIndex, endCheck, count), result, partLast;
      var c := expression[i];
      if c != SPACE_CHAR {
        if startIndex.None? && c != COMMA_CHAR {
          startIndex := Some(i);
        }
        if c == APOSTROPHE_CHAR && (endCheck.None? || endCheck == Some(APOSTROPHE_CHAR)) {
          endCheck := Some(APOSTROPHE_CHAR);
          count := count + 1;
        }
        if c == BRACKETS_LEFT_CHAR && (endCheck.None? || endCheck == Some(BRACKETS_RIGHT_CHAR)) {
          if endCheck.None? {
            endCheck := Some(BRACKETS_RIGHT_CHAR);
          }
          count := count + 1;
        }
        assert Segment(startIndex, endCheck, count) == Open(c, i, before);
        var end := i == endIndex;
        if (c in END_CHAR || end) && startIndex.Some? {
          var closed := CloseSegment(expression, i, Segment(startIndex, endCheck, count), result, partLast, before);
          if closed.Err? {
            return Err(closed.error);
          }
          var (next, args, grouped) := closed.value;
          startIndex, endCheck, count := next.start, next.endCheck, next.count;
          result, partLast := args, grouped;
        } else {
          assert Step(expression, i, before) == Ok(StepOut(Segment(startIndex, endCheck, count), NoEmit, false));
        }
      } else {
        assert Step(expression, i, before) == Ok(StepOut(before, NoEmit, false));
      }
      assert Advance(expression, i, before, result0, partLast0) == Ok((Segment(startIndex, endCheck, count), result, partLast));
      i := i + 1;
    }
    return Ok(result);
  }

  /**
   * The block of `parseArg` that runs on a closing character (END_CHAR) or at the last
   * index once a segment has started: it closes a quoted segment on its second
   * apostrophe, a bracketed one on the bracket that matches its first, a plain one on
   * any closing character, and reports a quote or bracket still open at the last index.
   * `before` is the state before the character was read, `seg` the state after.
   */
  method CloseSegment(expression: string, i: nat, seg: Segment, result: seq<Arg>, partLast: bool, ghost before: Segment)
    returns (r: Result<(Segment, seq<Arg>, bool), ParseError>)
    requires i < |expression| && expression[i] != SPACE_CHAR
    requires SegmentInv(expression, i, before) && seg == Open(expression[i], i, before)
    requires partLast ==> |result| > 0
    ensures r == Advance(expression, i, before, result, partLast)
    decreases |expression|, 2, 1
  {
    var c := expression[i];
    var end := i == |expression| - 1;
    if !((c in END_CHAR || end) && seg.start.Some?) {
      assert Step(expression, i, before) == Ok(StepOut(seg, NoEmit, false));
      return Ok((seg, result, partLast));
    }
    if seg.endCheck.Some? {
      r := CloseEnclosed(expression, i, seg, result, partLast, before);
    } else {
      r := ClosePlain(expression, i, seg, result, partLast, before);
    }
  }

  /** The closing block for a quoted or bracketed segment. */
  method CloseEnclosed(expression: string, i: nat, seg: Segment, result: seq<Arg>, partLast: bool, ghost before: Segment)
    returns (r: Result<(Segment, seq<Arg>, bool), ParseError>)
    requires i < |expression| && expression[i] != SPACE_CHAR
    requires SegmentInv(expression, i, before) && seg == Open(expression[i], i, before)
    requires partLast ==> |result| > 0
    requires (expression[i] in END_CHAR || i == |expression| - 1) && seg.start.Some? && seg.endCheck.Some?
    ensures r == Advance(expression, i, before, result, partLast)
    decreases |expression|, 2, 0
  {
    var c := expression[i];
    var end := i == |expression| - 1;
    var startIndex, endCheck, count := seg.start.value, seg.endCheck.value, seg.count;
    if c != endCheck {
      if end && count != 0 {
        return Err(EndCharMiss(endCheck));
      }
      assert Step(expression, i, before) == Ok(StepOut(seg, NoEmit, false));
      return Ok((seg, result, partLast));
    }
    var emit := NoEmit;
    if endCheck == APOSTROPHE_CHAR {
      if count == 2 {
        emit := EmitArg(expression[startIndex + 1..i], Constant);
        count := 0;
      }
    } else {
      if count == 1 {
        emit := EmitArg(expression[startIndex..i + 1], Func);
      }
      count := count - 1;
    }
    if end && count != 0 {
      return Err(EndCharMiss(endCheck));
    }
    var out := Close(c, Segment(Some(startIndex), Some(endCheck), count), emit);
    assert Step(expression, i, before) == Ok(out);
    if emit.NoEmit? {
      return Ok((out.next, result, partLast && !out.closesGroup));
    }
    var created := CreateArg(result, partLast, emit.text, emit.kind);
    if created.Err? {
      return Err(created.error);
    }
    return Ok((out.next, created.value, !out.closesGroup));
  }

  /** The closing block for a plain segment. */
  method ClosePlain(expression: string, i: nat, seg: Segment, result: seq<Arg>, partLast: bool, ghost before: Segment)
    returns (r: Result<(Segment, seq<Arg>, bool), ParseError>)
    requires i < |expression| && expression[i] != SPACE_CHAR
    requires SegmentInv(expression, i, before) && seg == Open(expression[i], i, before)
    requires partLast ==> |result| > 0
    requires (expression[i] in END_CHAR || i == |expression| - 1) && seg.start.Some? && seg.endCheck.None?
    ensures r == Advance(expression, i, before, result, partLast)
    decreases |expression|, 2, 0
  {
    var c := expression[i];
    var end := i == |expression| - 1;
    var startIndex := seg.start.value;
    if !end && startIndex == i {
      // the source's `continue`
      assert Step(expression, i, before) == Ok(StepOut(seg, NoEmit, false));
      return Ok((seg, result, partLast));
    }
    var stop := if end then i + 1 else i;
    var created := CreateArg(result, partLast, expression[startIndex..stop], Origin);
    if created.Err? {
      return Err(created.error);
    }
    assert Step(expression, i, before) == Ok(Close(c, seg, EmitArg(expression[startIndex..stop], Origin)));
    return Ok((Idle, created.value, c != COMMA_CHAR));
  }

  /** `createArg`: classifies one segment and appends it to, or fuses it into, the list. */
  method CreateArg(argResult: seq<Arg>, partLast: bool, value: string, kind: ArgKind)
    returns (r: Result<seq<Arg>, ParseError>)
    requires partLast ==> |argResult| > 0
    requires kind == Func ==> BRACKETS_LEFT_CHAR in value
    ensures r == Classified(argResult, partLast, value, kind)
    decreases |value|, 1, 0
  {
    if kind == Func {
      var funcName := Trim(value[..IndexOf(value, BRACKETS_LEFT_CHAR)]);
      if AllOperators(funcName) {
        return Ok(argResult + [Arg(Text(Trim(value)), Origin)]);
      } else if OperatorsThenName(funcName) {
        var operators, index := ExtractOperators(funcName);
        var operatorArgs := OperatorArgs(operators);
        var func := Parse(Trim(value[index..]));
        if func.Err? {
          return Err(func.error);
        }
        var funcArg := Arg(Nested(func.value), Func);
        if partLast {
          var last := argResult[|argResult| - 1];
          var args: seq<Arg>;
          if last.value.Chain? {
            args := last.value.chain;
          } else if last.value.Nested? {
            args := [Arg(last.value, last.kind)];
          } else {
            return Err(ErrorTypeOfLastArg(last.value.text));
          }
          args := args + operatorArgs;
          args := args + [funcArg];
          return Ok(argResult[..|argResult| - 1] + [Arg(Chain(args), OperatorFunc)]);
        } else {
          return Ok(argResult + [Arg(Chain(operatorArgs + [funcArg]), OperatorFunc)]);
        }
      } else {
        var func := Parse(value);
        if func.Err? {
          return Err(func.error);
        }
        return Ok(argResult + [Arg(Nested(func.value), Func)]);
      }
    } else if kind != Constant {
      return Ok(argResult + [Arg(Text(Trim(value)), kind)]);
    }
    return Ok(argResult + [Arg(Text(value), Constant)]);
  }
}
