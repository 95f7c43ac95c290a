/**
 * `ExpressionExecutor`: the state an executor is built with, and `loadArgs`, which turns
 * the arguments of a call into values against an environment. The executor's own
 * `executeFunc` is abstract in the source; here it is a function parameter, the hook.
 */
module Executor {
  import opened Wrappers
  import opened Ast

  /** A Java object as `loadArgs` sees it. */
  datatype Value =
    | Null
    | Stored(stored: ArgValue)  // an argument's own value, handed back unchanged
    | Object(id: nat)           // any other object: an environment entry, a hook's result

  /** `Map<String, Object> env`. */
  type Env = map<string, Value>

  /** `executeFunc(functionName, args, env)`: the subclass's dispatch, given the call's name and arguments. */
  type Hook = (Option<string>, Option<seq<Arg>>, Env) -> Value

  /** The exception a cast inside `loadArgs` throws. */
  datatype LoadError = ClassCast(value: ArgValue)

  /** The state the constructor stores: the expression, the function name and the arguments, each of which may be null. */
  datatype ExpressionExecutor = ExpressionExecutor(express: Option<string>, functionName: Option<string>, args: Option<seq<Arg>>)

  /** `Map.get`: the value stored under `key`, or null. */
  function Get(env: Env, key: string): (v: Value)
    ensures key in env ==> v == env[key]
    ensures key !in env ==> v == Null
  {
    if key in env then env[key] else Null
  }

  /**
   * The lambda `loadArgs` maps over the arguments: a CONSTANT gives back its value, a FUNC
   * is handed to the hook as a call, and anything else is a key of the environment. The
   * two casts fail on a value of the wrong runtime class.
   */
  function LoadArg(a: Arg, env: Env, hook: Hook): (r: Result<Value, LoadError>)
    ensures a.kind == Constant ==> r == Ok(Stored(a.value))
    ensures a.kind == Func && a.value.Nested? ==>
      r == Ok(hook(a.value.result.FuncName(), a.value.result.Args(), env))
    ensures a.kind != Constant && a.kind != Func && a.value.Text? ==> r == Ok(Get(env, a.value.text))
    ensures r.Err? <==> (a.kind == Func && !a.value.Nested?) || (a.kind != Constant && a.kind != Func && !a.value.Text?)
    ensures r.Err? ==> r.error == ClassCast(a.value)
  {
    if a.kind == Constant then
      Ok(Stored(a.value))
    else if a.kind == Func then
      match a.value
      case Nested(p) => Ok(hook(p.FuncName(), p.Args(), env))
      case _ => Err(ClassCast(a.value))
    else
      match a.value
      case Text(key) => Ok(Get(env, key))
      case _ => Err(ClassCast(a.value))
  }

  /** The stream `map(...).toArray()`: the values in order, or the first exception. */
  function LoadAll(args: seq<Arg>, env: Env, hook: Hook): (r: Result<seq<Value>, LoadError>)
    ensures r.Ok? ==> |r.value| == |args|
    ensures |args| > 0 && LoadArg(args[0], env, hook).Err? ==> r == Err(LoadArg(args[0], env, hook).error)
  {
    if |args| == 0 then Ok([])
    else
      match LoadArg(args[0], env, hook)
      case Err(e) => Err(e)
      case Ok(v) =>
        match LoadAll(args[1..], env, hook)
        case Err(e) => Err(e)
        case Ok(vs) => Ok([v] + vs)
  }

  /**
   * One value per argument, in order, each the lambda's value on that argument; or the
   * exception of the first argument whose lambda throws.
   */
  lemma {:induction false} LoadAllElements(args: seq<Arg>, env: Env, hook: Hook)
    ensures LoadAll(args, env, hook).Ok? <==> forall k :: 0 <= k < |args| ==> LoadArg(args[k], env, hook).Ok?
    ensures LoadAll(args, env, hook).Ok? ==>
      forall k :: 0 <= k < |args| ==> LoadArg(args[k], env, hook) == Ok(LoadAll(args, env, hook).value[k])
    ensures LoadAll(args, env, hook).Err? ==>
      exists k :: && 0 <= k < |args|
                  && LoadArg(args[k], env, hook) == Err(LoadAll(args, env, hook).error)
                  && forall m :: 0 <= m < k ==> LoadArg(args[m], env, hook).Ok?
  {
    if |args| > 0 {
      var rest := args[1..];
      LoadAllElements(rest, env, hook);
      assert forall k :: 1 <= k < |args| ==> args[k] == rest[k - 1];
      if LoadArg(args[0], env, hook).Ok? && LoadAll(rest, env, hook).Err? {
        var k :| && 0 <= k < |rest|
                 && LoadArg(rest[k], env, hook) == Err(LoadAll(rest, env, hook).error)
                 && forall m :: 0 <= m < k ==> LoadArg(rest[m], env, hook).Ok?;
        assert LoadArg(args[k + 1], env, hook) == Err(LoadAll(args, env, hook).error);
      }
    }
  }

  /** `loadArgs(args, env)`: null for a null or empty list, the loaded values otherwise. */
  function LoadArgs(args: Option<seq<Arg>>, env: Env, hook: Hook): (r: Result<Option<seq<Value>>, LoadError>)
    ensures r == Ok(None) <==> args.None? || |args.value| == 0
    ensures args.Some? && |args.value| > 0 ==>
      (r.Ok? <==> LoadAll(args.value, env, hook).Ok?) &&
      (r.Ok? ==> r.value == Some(LoadAll(args.value, env, hook).value)) &&
      (r.Err? ==> r.error == LoadAll(args.value, env, hook).error)
  {
    if args.None? || |args.value| == 0 then Ok(None)
    else
      match LoadAll(args.value, env, hook)
      case Err(e) => Err(e)
      case Ok(values) => Ok(Some(values))
  }

  // ---------------------------------------------------------------------------
  // Properties

  /** Two loads one after the other: the first exception, or both value lists joined. */
  function Joined(first: Result<seq<Value>, LoadError>, second: Result<seq<Value>, LoadError>): Result<seq<Value>, LoadError> {
    match first
    case Err(e) => Err(e)
    case Ok(x) =>
      match second
      case Err(e) => Err(e)
      case Ok(y) => Ok(x + y)
  }

  /** Loading a concatenation loads the two parts one after the other. */
  lemma {:induction false} LoadAllAppend(a: seq<Arg>, b: seq<Arg>, env: Env, hook: Hook)
    ensures LoadAll(a + b, env, hook) == Joined(LoadAll(a, env, hook), LoadAll(b, env, hook))
  {
    if |a| == 0 {
      assert a + b == b;
      if LoadAll(b, env, hook).Ok? {
        assert [] + LoadAll(b, env, hook).value == LoadAll(b, env, hook).value;
      }
    } else {
      assert (a + b)[0] == a[0];
      assert (a + b)[1..] == a[1..] + b;
      LoadAllAppend(a[1..], b, env, hook);
      if LoadArg(a[0], env, hook).Ok? && LoadAll(a[1..], env, hook).Ok? && LoadAll(b, env, hook).Ok? {
        var v, x, y := LoadArg(a[0], env, hook).value, LoadAll(a[1..], env, hook).value, LoadAll(b, env, hook).value;
        assert [v] + (x + y) == [v] + x + y;
      }
    }
  }

  /** Constants alone: the values are the arguments' own values, whatever the environment and the hook. */
  lemma LoadAllConstants(args: seq<Arg>, env: Env, hook: Hook)
    requires forall k :: 0 <= k < |args| ==> args[k].kind == Constant
    ensures LoadAll(args, env, hook).Ok?
    ensures forall k :: 0 <= k < |args| ==> LoadAll(args, env, hook).value[k] == Stored(args[k].value)
  {
    LoadAllElements(args, env, hook);
  }

  /**
   * What the loaded list depends on: two environments that agree on every key the
   * arguments name, and on what the hook makes of every call in them, load the same values.
   */
  lemma {:induction false} LoadAllFrame(args: seq<Arg>, env: Env, env': Env, hook: Hook)
    requires forall k :: 0 <= k < |args| ==> Reads(args[k], env, env', hook)
    ensures LoadAll(args, env, hook) == LoadAll(args, env', hook)
  {
    if |args| > 0 {
      assert Reads(args[0], env, env', hook);
      LoadAllFrame(args[1..], env, env', hook);
    }
  }

  /** The two environments agree on what loading `a` looks at. */
  predicate Reads(a: Arg, env: Env, env': Env, hook: Hook) {
    match a.kind
    case Constant => true
    case Func =>
      a.value.Nested? ==>
        hook(a.value.result.FuncName(), a.value.result.Args(), env) == hook(a.value.result.FuncName(), a.value.result.Args(), env')
    case _ => a.value.Text? ==> Get(env, a.value.text) == Get(env', a.value.text)
  }

  /**
   * On a list the parser produced, only an OPERATOR_FUNC argument fails: a FUNC holds a
   * nested result and every other kind holds a string.
   */
  lemma LoadWellFormed(args: seq<Arg>, env: Env, hook: Hook)
    requires WellFormedArgs(args)
    ensures LoadAll(args, env, hook).Ok? <==> forall k :: 0 <= k < |args| ==> args[k].kind != OperatorFunc
  {
    LoadAllElements(args, env, hook);
    forall k | 0 <= k < |args|
      ensures LoadArg(args[k], env, hook).Ok? <==> args[k].kind != OperatorFunc
    {
      assert WellFormedArg(args[k]);
    }
  }

  /** `loadArgs` on `[a, 'x', f(b)]` with `a` bound and `b` free. */
  lemma LoadArgsExample(hook: Hook)
    ensures var env := map["a" := Object(1)];
      var call := FuncResult("f", [Arg(Text("b"), Origin)]);
      var args := [Arg(Text("a"), Origin), Arg(Text("x"), Constant), Arg(Nested(call), Func)];
      LoadArgs(Some(args), env, hook) ==
        Ok(Some([Object(1), Stored(Text("x")), hook(Some("f"), Some([Arg(Text("b"), Origin)]), env)]))
  {
    var env := map["a" := Object(1)];
    var call := FuncResult("f", [Arg(Text("b"), Origin)]);
    var args := [Arg(Text("a"), Origin), Arg(Text("x"), Constant), Arg(Nested(call), Func)];
    LoadAllElements(args, env, hook);
    assert LoadArg(args[0], env, hook) == Ok(Object(1));
    assert LoadArg(args[1], env, hook) == Ok(Stored(Text("x")));
    assert LoadArg(args[2], env, hook) == Ok(hook(Some("f"), Some([Arg(Text("b"), Origin)]), env));
    assert LoadAll(args, env, hook).Ok?;
    assert LoadAll(args, env, hook).value == [Object(1), Stored(Text("x")), hook(Some("f"), Some([Arg(Text("b"), Origin)]), env)];
  }
}
