/**
 * `BaseMethodHolder`: a table of a class's methods by name, and `invoke`, which looks a
 * method up, decides from its arity whether trailing arguments are varargs, packs them
 * into one array if so, and calls the method. The reflective call itself is a function
 * parameter.
 */
module MethodHolder {
  import opened Wrappers

  /** A Java object as `invoke` sees it; `Packed` is an array built by `castToObjectArray`. */
  datatype Value =
    | Null
    | Packed(items: seq<Value>)
    | Object(id: nat)

  /** `java.lang.reflect.Method`: its name, its parameter count, and whether its last parameter type is an array type. */
  datatype Method = Method(name: string, parameterCount: nat, lastParameterIsArray: bool)

  /** The exceptions `invoke` catches and wraps. */
  datatype Cause =
    | ParameterIndexOutOfBounds  // `getParameterTypes()[parameterCount - 1]` with no parameters
    | IllegalArgument(message: string)
    | InvocationFailed(reason: string)

  /** What `invoke` throws. */
  datatype InvokeError =
    | NoSuchMethod(methodName: string)
    | MethodHolderInvoke(holdClass: string, methodName: string, cause: Cause)

  /** `Method.invoke(obj, args)`: the method's result or the reason it threw. */
  type Call = (Method, Value, Option<seq<Value>>) -> Result<Value, string>

  const ERROR_ARGS_NUM: string := "error args num"

  // ---------------------------------------------------------------------------
  // The method table

  /** Every method is stored under its own name. */
  predicate Keyed(table: map<string, Method>) {
    forall n :: n in table ==> table[n].name == n
  }

  /** `Optional.ofNullable(methodMap.get(name))`. */
  function Lookup(table: map<string, Method>, name: string): (r: Option<Method>)
    ensures r.Some? <==> name in table
    ensures r.Some? ==> r.value == table[name]
    ensures Keyed(table) && r.Some? ==> r.value.name == name
  {
    if name in table then Some(table[name]) else None
  }

  /**
   * The table after `cacheMethod(method)`: a null method changes nothing; otherwise the
   * method is found under its name, replacing any before it, and every other name finds
   * what it found before.
   */
  function Cached(table: map<string, Method>, m: Option<Method>): (r: map<string, Method>)
    ensures m.None? ==> r == table
    ensures m.Some? ==> Lookup(r, m.value.name) == m
    ensures forall n :: m.None? || n != m.value.name ==> Lookup(r, n) == Lookup(table, n)
    ensures r.Keys == table.Keys + (if m.Some? then {m.value.name} else {})
    ensures Keyed(table) ==> Keyed(r)
  {
    if m.None? then table else table[m.value.name := m.value]
  }

  /** Caching a second method under the same name forgets the first. */
  lemma CachedReplaces(table: map<string, Method>, first: Method, second: Method)
    requires first.name == second.name
    ensures Cached(Cached(table, Some(first)), Some(second)) == Cached(table, Some(second))
  {
    assert Cached(Cached(table, Some(first)), Some(second)).Keys == Cached(table, Some(second)).Keys;
  }

  /** Caching methods of different names in either order gives the same table. */
  lemma CachedCommutes(table: map<string, Method>, first: Method, second: Method)
    requires first.name != second.name
    ensures Cached(Cached(table, Some(first)), Some(second)) == Cached(Cached(table, Some(second)), Some(first))
  {
    var a, b := Cached(Cached(table, Some(first)), Some(second)), Cached(Cached(table, Some(second)), Some(first));
    assert a.Keys == b.Keys;
    forall n | n in a
      ensures a[n] == b[n]
    {
      assert Lookup(a, n) == Lookup(b, n);
    }
  }

  // ---------------------------------------------------------------------------
  // Varargs repacking

  /**
   * The arguments `castToObjectArray` builds: the first `parameterCount - 1` unchanged,
   * then one array holding all the rest.
   */
  function Repacked(args: seq<Value>, parameterCount: nat): (r: seq<Value>)
    requires 1 <= parameterCount <= |args| + 1
    ensures |r| == parameterCount
    ensures r[..parameterCount - 1] == args[..parameterCount - 1]
    ensures r[parameterCount - 1] == Packed(args[parameterCount - 1..])
    ensures |r[parameterCount - 1].items| == |args| - parameterCount + 1
  {
    args[..parameterCount - 1] + [Packed(args[parameterCount - 1..])]
  }

  /**
   * Spreading the last array back out: what a varargs call sees. The leading values stay
   * where they are and the array's items follow them, in order.
   */
  function Unpacked(fixArgs: seq<Value>): (r: seq<Value>)
    requires |fixArgs| > 0 && fixArgs[|fixArgs| - 1].Packed?
    ensures |r| == |fixArgs| - 1 + |fixArgs[|fixArgs| - 1].items|
    ensures forall k :: 0 <= k < |fixArgs| - 1 ==> r[k] == fixArgs[k]
    ensures forall k :: |fixArgs| - 1 <= k < |r| ==> r[k] == fixArgs[|fixArgs| - 1].items[k - (|fixArgs| - 1)]
  {
    fixArgs[..|fixArgs| - 1] + fixArgs[|fixArgs| - 1].items
  }

  /** Repacking loses nothing and reorders nothing. */
  lemma UnpackedRepacked(args: seq<Value>, parameterCount: nat)
    requires 1 <= parameterCount <= |args| + 1
    ensures Unpacked(Repacked(args, parameterCount)) == args
  {
    var r := Repacked(args, parameterCount);
    assert r[..|r| - 1] == args[..parameterCount - 1];
    assert args[..parameterCount - 1] + args[parameterCount - 1..] == args;
  }

  /** Different argument lists never repack to the same array. */
  lemma RepackedUnique(args: seq<Value>, other: seq<Value>, parameterCount: nat)
    requires 1 <= parameterCount <= |args| + 1 && 1 <= parameterCount <= |other| + 1
    requires Repacked(args, parameterCount) == Repacked(other, parameterCount)
    ensures args == other
  {
    UnpackedRepacked(args, parameterCount);
    UnpackedRepacked(other, parameterCount);
  }

  /**
   * The arity decision of `invoke`: with no more arguments than parameters (or a null
   * array) the arguments go through unchanged; with more, the last parameter must be an
   * array type and the trailing arguments are packed into it.
   */
  function Arity(m: Method, args: Option<seq<Value>>): (r: Result<Option<seq<Value>>, Cause>)
    ensures args.None? || |args.value| <= m.parameterCount ==> r == Ok(args)
    ensures args.Some? && |args.value| > m.parameterCount ==>
      && (m.parameterCount == 0 ==> r == Err(ParameterIndexOutOfBounds))
      && (m.parameterCount > 0 && !m.lastParameterIsArray ==> r == Err(IllegalArgument(ERROR_ARGS_NUM)))
      && (m.parameterCount > 0 && m.lastParameterIsArray ==>
            r.Ok? && r.value.Some? && |r.value.value| == m.parameterCount &&
            r.value.value[m.parameterCount - 1].Packed? && Unpacked(r.value.value) == args.value)
  {
    var pc := m.parameterCount;
    if args.Some? && |args.value| > pc then
      if pc == 0 then Err(ParameterIndexOutOfBounds)
      else if !m.lastParameterIsArray then Err(IllegalArgument(ERROR_ARGS_NUM))
      else
        UnpackedRepacked(args.value, pc);
        Ok(Some(Repacked(args.value, pc)))
    else
      Ok(args)
  }

  // ---------------------------------------------------------------------------
  // The holder

  class BaseMethodHolder {
    /** `holdClass.getSimpleName()`: the only use `invoke` makes of the held class. */
    var holdClass: string
    var methodMap: map<string, Method>

    predicate Valid()
      reads this
    {
      Keyed(methodMap)
    }

    constructor (clazz: string)
      ensures Valid()
      ensures holdClass == clazz && methodMap == map[]
    {
      holdClass := clazz;
      methodMap := map[];
    }

    /** `hasMethod(methodName)`. */
    function HasMethod(methodName: string): (b: bool)
      reads this
      ensures b <==> GetMethod(methodName).Some?
    {
      methodName in methodMap
    }

    /** `getMethod(name)`: the method cached under `name`, which carries that name, or empty. */
    function GetMethod(name: string): (m: Option<Method>)
      reads this
      ensures m == Lookup(methodMap, name)
      ensures Valid() && m.Some? ==> m.value.name == name
    {
      if name in methodMap then Some(methodMap[name]) else None
    }

    /** `cacheMethod(method)`. */
    method CacheMethod(m: Option<Method>)
      requires Valid()
      modifies this
      ensures Valid()
      ensures methodMap == Cached(old(methodMap), m) && holdClass == old(holdClass)
      ensures m.Some? ==> HasMethod(m.value.name) && GetMethod(m.value.name) == m
      ensures forall n :: m.None? || n != m.value.name ==> GetMethod(n) == old(GetMethod(n))
    {
      if m.None? {
        return;
      }
      methodMap := methodMap[m.value.name := m.value];
    }

    /**
     * `castToObjectArray(args, type, parameterCount)`: a new array of `parameterCount`
     * entries, the first `parameterCount - 1` copied from `args`, the last a new array
     * holding the rest of `args` in order.
     */
    static method CastToObjectArray(args: array<Value>, parameterCount: nat) returns (fixArgs: array<Value>)
      requires 1 <= parameterCount <= args.Length + 1
      ensures fresh(fixArgs)
      ensures fixArgs[..] == Repacked(args[..], parameterCount)
    {
      fixArgs := new Value[parameterCount](_ => Null);
      var defineNum := parameterCount - 1;
      forall k | 0 <= k < defineNum {
        fixArgs[k] := args[k];
      }
      assert fixArgs[..defineNum] == args[..defineNum];
      var packed := new Value[args.Length - parameterCount + 1](_ => Null);
      var index := 0;
      var i := defineNum;
      while i < args.Length
        invariant defineNum <= i <= args.Length
        invariant index == i - defineNum
        invariant packed[..index] == args[defineNum..i]
        invariant fixArgs[..defineNum] == args[..defineNum]
      {
        packed[index] := args[i];
        index := index + 1;
        i := i + 1;
      }
      assert packed[..] == packed[..index] == args[defineNum..];
      fixArgs[defineNum] := Packed(packed[..]);
    }

    /**
     * `invoke(methodName, obj, args)`: an unknown name throws NoSuchMethodException as is;
     * every later failure, including the method's own, is wrapped with the held class
     * and the method name.
     */
    method Invoke(methodName: string, obj: Value, args: Option<array<Value>>, call: Call) returns (r: Result<Value, InvokeError>)
      ensures methodName !in methodMap ==> r == Err(NoSuchMethod(methodName))
      ensures methodName in methodMap ==>
        var m := methodMap[methodName];
        var decided := Arity(m, if args.None? then None else Some(args.value[..]));
        && (decided.Err? ==> r == Err(MethodHolderInvoke(holdClass, methodName, decided.error)))
        && (decided.Ok? && call(m, obj, decided.value).Ok? ==> r == Ok(call(m, obj, decided.value).value))
        && (decided.Ok? && call(m, obj, decided.value).Err? ==>
              r == Err(MethodHolderInvoke(holdClass, methodName, InvocationFailed(call(m, obj, decided.value).error))))
    {
      var found := GetMethod(methodName);
      if found.None? {
        return Err(NoSuchMethod(methodName));
      }
      var m := found.value;
      var parameterCount := m.parameterCount;
      var passed: Option<seq<Value>>;
      if args.Some? && args.value.Length > parameterCount {
        if parameterCount == 0 {
          return Err(MethodHolderInvoke(holdClass, methodName, ParameterIndexOutOfBounds));
        }
        if !m.lastParameterIsArray {
          return Err(MethodHolderInvoke(holdClass, methodName, IllegalArgument(ERROR_ARGS_NUM)));
        }
        var fixArgs := CastToObjectArray(args.value, parameterCount);
        passed := Some(fixArgs[..]);
      } else {
        passed := if args.None? then None else Some(args.value[..]);
      }
      match call(m, obj, passed)
      case Ok(v) =>
        r := Ok(v);
      case Err(reason) =>
        r := Err(MethodHolderInvoke(holdClass, methodName, InvocationFailed(reason)));
    }
  }
}
