/**
 * `FuncResolver`: resolves a request for `Func<T1, ..., Tn, TResult>` by resolving the
 * wrapped type `TResult` and wrapping the result in a lambda over one parameter per
 * input type. Expressions, and the resolution strategy that builds the inner ones, are
 * opaque.
 */
module FuncResolution {
  import opened Wrappers
  import opened Types

  /** A `ParameterExpression`: its type and its name. */
  datatype Parameter = Parameter(parameterType: ClrType, name: string)

  /** An expression tree: one built elsewhere (opaque), or a lambda over parameters. */
  datatype Expression = Built(id: nat) | Lambda(body: Expression, parameters: seq<Parameter>)

  /** The exception `Enumerable.Last` throws on an empty sequence. */
  datatype InvalidOperation = InvalidOperation(message: string)

  type ParameterLog = seq<(ClrType, seq<Parameter>)>

  /** The part of `ResolutionContext` the resolver touches: the lambda parameters it has registered. */
  class ResolutionContext {
    var parameterExpressions: ParameterLog

    constructor ()
      ensures parameterExpressions == []
    {
      parameterExpressions := [];
    }

    /** `AddParameterExpressions` (not part of this model beyond recording the call). */
    method AddParameterExpressions(scopeType: ClrType, parameters: seq<Parameter>)
      modifies this
      ensures parameterExpressions == old(parameterExpressions) + [(scopeType, parameters)]
    {
      parameterExpressions := parameterExpressions + [(scopeType, parameters)];
    }

    /** The registrations a strategy makes in this context while it runs, replayed in order. */
    method RunStrategyEffects(registered: ParameterLog)
      modifies this
      ensures parameterExpressions == old(parameterExpressions) + registered
    {
      for i := 0 to |registered|
        invariant parameterExpressions == old(parameterExpressions) + registered[..i]
      {
        AddParameterExpressions(registered[i].0, registered[i].1);
        assert registered[..i + 1] == registered[..i] + [registered[i]];
      }
      assert registered[..|registered|] == registered;
    }
  }

  /**
   * What the resolution strategy produces: its answer, and the parameter registrations it
   * made in the shared context on the way (a nested `Func` dependency registers its own).
   */
  datatype StrategyResult<T> = StrategyResult(answer: T, registered: ParameterLog)

  /**
   * The resolution strategy's `BuildResolutionExpression(s)`: an opaque function of the
   * retargeted request and of the parameters registered in the context when it is asked.
   */
  type Strategy = (TypeInformation, ParameterLog) -> StrategyResult<Option<Expression>>
  type MultiStrategy = (TypeInformation, ParameterLog) -> StrategyResult<Option<seq<Expression>>>

  function DigitChar(d: nat): char
    requires d < 10
  {
    "0123456789"[d]
  }

  /** `int.ToString()` of a non-negative number. */
  function NatToString(n: nat): (s: string)
    ensures |s| >= 1 && s[|s| - 1] == DigitChar(n % 10)
  {
    if n < 10 then [DigitChar(n)] else NatToString(n / 10) + [DigitChar(n % 10)]
  }

  /** The open definition of `Func` with `arity` type parameters (`Func<>` has one: the result). */
  function FuncDefinition(arity: nat): ClrType {
    TypeDef("Func`" + NatToString(arity), "System.Func`" + NatToString(arity), arity)
  }

  /** `SupportedTypes`: `Func<>` up to `Func<,,,,,,,>`. */
  const SupportedTypes: set<ClrType> := set arity: nat | 1 <= arity <= 8 :: FuncDefinition(arity)

  /**
   * `IsFuncType()`: a closed generic type built from one of the supported definitions,
   * that is, from the `Func` definition of an arity between 1 and 8.
   */
  predicate IsFuncType(t: ClrType)
    ensures IsFuncType(t) <==>
      && t.Constructed? && t.definition.TypeDef? && 1 <= t.definition.arity <= 8
      && t.definition == FuncDefinition(t.definition.arity)
  {
    t.Constructed? && t.definition in SupportedTypes
  }

  /**
   * `CanUseForResolution`: the request is for a `Func` type; a well-formed one has one to
   * eight generic arguments, so its last argument (the wrapped type) exists.
   */
  predicate CanUseForResolution(info: TypeInformation)
    ensures CanUseForResolution(info) && WellFormed(info.serviceType) ==>
      1 <= |GenericArguments(info.serviceType)| <= 8
  {
    IsFuncType(info.serviceType)
  }

  /** The name of the `i`-th lambda parameter: wrapped type name, argument type name, index. */
  function ParameterName(wrappedType: ClrType, argType: ClrType, i: nat): string {
    Name(wrappedType) + Name(argType) + NatToString(i)
  }

  /** One parameter per input type of the `Func`: every generic argument but the last. */
  function ExtraParameters(wrappedType: ClrType, args: seq<ClrType>): (ps: seq<Parameter>)
    requires |args| >= 1
    ensures |ps| == |args| - 1
    ensures forall i :: 0 <= i < |ps| ==> ps[i].parameterType == args[i]
  {
    seq(|args| - 1, i requires 0 <= i < |args| - 1 => Parameter(args[i], ParameterName(wrappedType, args[i], i)))
  }

  /**
   * `PrepareExtraParameters`: fill an array with the parameters and, when there is at
   * least one, register them in the context under the wrapped type.
   */
  method PrepareExtraParameters(wrappedType: ClrType, context: ResolutionContext, args: seq<ClrType>)
    returns (parameters: seq<Parameter>)
    requires |args| >= 1
    modifies context
    ensures parameters == ExtraParameters(wrappedType, args)
    ensures forall i :: 0 <= i < |parameters| ==>
      parameters[i] == Parameter(args[i], Name(wrappedType) + Name(args[i]) + NatToString(i))
    ensures context.parameterExpressions ==
      if |parameters| > 0 then old(context.parameterExpressions) + [(wrappedType, parameters)]
      else old(context.parameterExpressions)
  {
    var length := |args| - 1;
    var ps := new Parameter[length];
    if length <= 0 {
      assert ps[..] == [] == ExtraParameters(wrappedType, args);
      return ps[..];
    }
    for i := 0 to length
      modifies ps
      invariant forall j :: 0 <= j < i ==> ps[j] == Parameter(args[j], ParameterName(wrappedType, args[j], j))
    {
      var argType := args[i];
      var argName := Name(wrappedType) + Name(argType) + NatToString(i);
      ps[i] := Parameter(argType, argName);
    }
    parameters := ps[..];
    assert parameters == ExtraParameters(wrappedType, args);
    context.AddParameterExpressions(wrappedType, parameters);
  }

  /** The loop of `GetExpressions`: wrap every inner expression in a lambda over the same parameters. */
  method LambdaArray(expressions: seq<Expression>, parameters: seq<Parameter>) returns (funcExpressions: seq<Expression>)
    ensures |funcExpressions| == |expressions|
    ensures forall i :: 0 <= i < |expressions| ==> funcExpressions[i] == Lambda(expressions[i], parameters)
  {
    var length := |expressions|;
    var a := new Expression[length];
    for i := 0 to length
      invariant forall j :: 0 <= j < i ==> a[j] == Lambda(expressions[j], parameters)
    {
      a[i] := Lambda(expressions[i], parameters);
    }
    funcExpressions := a[..];
  }

  /**
   * `GetExpression`: the wrapped type is the last generic argument; it is resolved through
   * the request retargeted to it, after the parameters are registered. Null inner
   * expression gives null; otherwise a lambda over the parameters. A type without
   * generic arguments makes `Last()` throw.
   */
  method GetExpression(info: TypeInformation, context: ResolutionContext, strategy: Strategy)
    returns (r: Result<Option<Expression>, InvalidOperation>)
    modifies context
    ensures var args := GenericArguments(info.serviceType);
      args == [] ==> r.Failure? && context.parameterExpressions == old(context.parameterExpressions)
    ensures var args := GenericArguments(info.serviceType);
      args != [] ==>
        var wrappedType := args[|args| - 1];
        var parameters := ExtraParameters(wrappedType, args);
        var prepared := old(context.parameterExpressions) + (if parameters == [] then [] else [(wrappedType, parameters)]);
        var inner := strategy(info.Clone(wrappedType), prepared);
        && context.parameterExpressions == prepared + inner.registered
        && r == Success(
             match inner.answer
             case None => None
             case Some(e) => Some(Lambda(e, parameters)))
  {
    var args := GenericArguments(info.serviceType);
    if args == [] {
      return Failure(InvalidOperation("Sequence contains no elements"));
    }
    var wrappedType := args[|args| - 1];
    var funcArgumentInfo := info.Clone(wrappedType);
    var parameters := PrepareExtraParameters(wrappedType, context, args);
    assert context.parameterExpressions ==
      old(context.parameterExpressions) + (if parameters == [] then [] else [(wrappedType, parameters)]);
    var inner := strategy(funcArgumentInfo, context.parameterExpressions);
    context.RunStrategyEffects(inner.registered);
    var expression := inner.answer;
    r := Success(if expression.None? then None else Some(Lambda(expression.value, parameters)));
  }

  /**
   * `GetExpressions`: as `GetExpression` for every inner expression; null when the
   * strategy gives null, otherwise an array of the same length whose element `i` is the
   * lambda of inner element `i` over the same parameters.
   */
  method GetExpressions(info: TypeInformation, context: ResolutionContext, strategy: MultiStrategy)
    returns (r: Result<Option<seq<Expression>>, InvalidOperation>)
    modifies context
    ensures var args := GenericArguments(info.serviceType);
      args == [] ==> r.Failure? && context.parameterExpressions == old(context.parameterExpressions)
    ensures var args := GenericArguments(info.serviceType);
      args != [] ==>
        var wrappedType := args[|args| - 1];
        var parameters := ExtraParameters(wrappedType, args);
        var prepared := old(context.parameterExpressions) + (if parameters == [] then [] else [(wrappedType, parameters)]);
        var built := strategy(info.Clone(wrappedType), prepared);
        var inner := built.answer;
        && context.parameterExpressions == prepared + built.registered
        && r.Success?
        && (inner.None? <==> r.value.None?)
        && (inner.Some? ==>
              && |r.value.value| == |inner.value|
              && forall i :: 0 <= i < |inner.value| ==> r.value.value[i] == Lambda(inner.value[i], parameters))
  {
    var args := GenericArguments(info.serviceType);
    if args == [] {
      return Failure(InvalidOperation("Sequence contains no elements"));
    }
    var wrappedType := args[|args| - 1];
    var funcArgumentInfo := info.Clone(wrappedType);
    var parameters := PrepareExtraParameters(wrappedType, context, args);
    assert context.parameterExpressions ==
      old(context.parameterExpressions) + (if parameters == [] then [] else [(wrappedType, parameters)]);
    var built := strategy(funcArgumentInfo, context.parameterExpressions);
    context.RunStrategyEffects(built.registered);
    var expressions := built.answer;
    if expressions.None? {
      return Success(None);
    }
    var funcExpressions := LambdaArray(expressions.value, parameters);
    r := Success(Some(funcExpressions));
  }

  /** Distinct arities give distinct definitions, so a set of arities has as many definitions. */
  lemma {:induction false} FuncDefinitionsCount(arities: set<nat>)
    ensures |set n | n in arities :: FuncDefinition(n)| == |arities|
  {
    if arities != {} {
      var a :| a in arities;
      var rest := arities - {a};
      FuncDefinitionsCount(rest);
      var restImage := set n | n in rest :: FuncDefinition(n);
      assert (set n | n in arities :: FuncDefinition(n)) == restImage + {FuncDefinition(a)};
      assert FuncDefinition(a) !in restImage;
    }
  }

  /** `SupportedTypes` has exactly eight members. */
  lemma SupportedTypesCount()
    ensures |SupportedTypes| == 8
  {
    var arities: set<nat> := {1, 2, 3, 4, 5, 6, 7, 8};
    FuncDefinitionsCount(arities);
    assert SupportedTypes == set n | n in arities :: FuncDefinition(n);
  }

  /**
   * A well-formed `Func` type has between one and eight generic arguments, so
   * `GetExpression` never fails on a type the resolver accepts; it prepares zero to seven
   * parameters, and their names are pairwise distinct.
   */
  lemma {:induction false} FuncTypeParameters(info: TypeInformation)
    requires CanUseForResolution(info) && WellFormed(info.serviceType)
    ensures var args := GenericArguments(info.serviceType);
      var ps := ExtraParameters(Last(args), args);
      && |ps| <= 7
      && forall i, j :: 0 <= i < j < |ps| ==> ps[i].name != ps[j].name
  {
    var args := GenericArguments(info.serviceType);
    ParameterNamesDistinct(Last(args), args);
  }

  function Last(args: seq<ClrType>): ClrType
    requires args != []
  {
    args[|args| - 1]
  }

  /**
   * The parameter names of a lambda are pairwise distinct as long as there are at most
   * ten of them (the index's last digit tells them apart) - in particular for every
   * supported `Func` type.
   */
  lemma {:induction false} ParameterNamesDistinct(wrappedType: ClrType, args: seq<ClrType>)
    requires 1 <= |args| <= 11
    ensures var ps := ExtraParameters(wrappedType, args);
      forall i, j :: 0 <= i < j < |ps| ==> ps[i].name != ps[j].name
  {
    var ps := ExtraParameters(wrappedType, args);
    forall i, j | 0 <= i < j < |ps| ensures ps[i].name != ps[j].name {
      var ni := ps[i].name;
      var nj := ps[j].name;
      assert ni[|ni| - 1] == DigitChar(i);
      assert nj[|nj| - 1] == DigitChar(j);
    }
  }
}
