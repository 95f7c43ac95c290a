/**
 * The parser's output: `ParseResult` and `Arg`. In the source an argument's value is an
 * untyped object told apart by its runtime class; here it is a sum type with one variant
 * per runtime class the parser stores (a string, a nested result, a list of arguments).
 */
module Ast {
  import opened Wrappers
  import opened CharConstants

  /** `Arg.type`. */
  datatype ArgKind = Constant | Func | Origin | OperatorFunc | Operator {
    /** The `short` code the source uses for this kind. */
    function Code(): int {
      match this
      case Constant => 0
      case Func => 1
      case Origin => 2
      case OperatorFunc => 3
      case Operator => 4
    }
  }

  /** `Arg.value`: a String, a nested ParseResult, or an ArrayList of Arg. */
  datatype ArgValue =
    | Text(text: string)
    | Nested(result: ParseResult)
    | Chain(chain: seq<Arg>)

  datatype Arg = Arg(value: ArgValue, kind: ArgKind)

  /**
   * `ParseResult`, one variant per `type`: ORIGIN (`origin()`, name and args null),
   * FUNC (`func(funcName, args)`) and OPERATOR_FUNC (`funcOperator(arg)`).
   */
  datatype ParseResult =
    | OriginResult
    | FuncResult(name: string, funcArgs: seq<Arg>)
    | OperatorFuncResult(arg: Arg)
  {
    /** The `short` code of the result's type. */
    function Code(): int {
      match this
      case FuncResult(_, _) => 1
      case OriginResult => 2
      case OperatorFuncResult(_) => 3
    }

    /** `getFuncName()`: null except for FUNC. */
    function FuncName(): Option<string> {
      if FuncResult? then Some(name) else None
    }

    /** `getArgs()`: null for ORIGIN. */
    function Args(): Option<seq<Arg>> {
      match this
      case OriginResult => None
      case FuncResult(_, args) => Some(args)
      case OperatorFuncResult(a) => Some([a])
    }
  }

  /** A token `extractOperators` can produce: one or two operator characters. */
  predicate IsOperatorToken(t: string) {
    1 <= |t| <= 2 && forall k :: 0 <= k < |t| ==> IsOperator(t[k])
  }

  /** The kind of an argument agrees with the runtime class of its value. */
  predicate WellFormedArg(a: Arg)
    decreases a, 2
  {
    match a.kind
    case Constant => a.value.Text?
    case Origin => a.value.Text?
    case Operator => a.value.Text? && IsOperatorToken(a.value.text)
    case Func => a.value.Nested? && WellFormedResult(a.value.result)
    case OperatorFunc => a.value.Chain? && WellFormedChain(a.value.chain)
  }

  /**
   * An operator chain: at least two elements, only FUNC and OPERATOR elements, a FUNC at
   * the end, and every FUNC except the last followed by an OPERATOR.
   */
  predicate WellFormedChain(c: seq<Arg>)
    decreases c, 1
  {
    && |c| >= 2
    && c[|c| - 1].kind == Func
    && (forall k :: 0 <= k < |c| ==> (c[k].kind == Func || c[k].kind == Operator) && WellFormedArg(c[k]))
    && (forall k :: 0 <= k < |c| - 1 ==> c[k].kind == Func ==> c[k + 1].kind == Operator)
  }

  /** Top-level arguments of a call: well formed, and never a bare operator. */
  predicate WellFormedArgs(args: seq<Arg>)
    decreases args, 1
  {
    forall k :: 0 <= k < |args| ==> args[k].kind != Operator && WellFormedArg(args[k])
  }

  predicate WellFormedResult(p: ParseResult)
    decreases p, 1
  {
    match p
    case OriginResult => true
    case FuncResult(name, args) => |name| > 0 && BRACKETS_LEFT_CHAR !in name && WellFormedArgs(args)
    case OperatorFuncResult(a) => a.kind == OperatorFunc && WellFormedArg(a)
  }
}
