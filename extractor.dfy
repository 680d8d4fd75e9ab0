/** Extraction of the arguments of TRY calls from a row-expression tree, in post-order. */
module TryExpressionExtractor {
  import opened RowExpressions

  /** The two shape checks a TRY call must pass. */
  datatype ExtractError =
    | NotSingleArgument   // "try call expressions must have a single argument"
    | ArgumentNotCall     // "try call expression argument must be a call expression"

  /** Outcome of an extraction: a failure carries no partial list. */
  datatype Result<T> = Ok(value: T) | Err(error: ExtractError)

  /** The shape check made on a call node before its arguments are visited. */
  function ShapeViolation(e: Expr): (v: Option<ExtractError>)
    ensures v.Some? ==> IsTry(e)
    ensures v == Some(NotSingleArgument) <==> IsTry(e) && |e.args| != 1
    ensures v == Some(ArgumentNotCall) <==> IsTry(e) && |e.args| == 1 && !e.args[0].Call?
  {
    if !IsTry(e) then None
    else if |e.args| != 1 then Some(NotSingleArgument)
    else if !e.args[0].Call? then Some(ArgumentNotCall)
    else None
  }

  /** The payloads of the TRY calls of `e` in post-order, or the first shape
      violation met in pre-order. */
  function Extract(e: Expr): (r: Result<seq<Expr>>)
    ensures r.Ok? ==> forall x :: x in r.value ==> x.Call?
    decreases e, 1
  {
    match e
    case Constant => Ok([])
    case InputReference(_) => Ok([])
    case Call(name, args) =>
      match ShapeViolation(e)
      case Some(k) => Err(k)
      case None =>
        match ExtractArgs(args)
        case Err(k) => Err(k)
        case Ok(xs) => Ok(if name == TRY then xs + [args[0]] else xs)
  }

  /** Extraction over an argument list, left to right: the first failing
      argument decides the error, and payloads are concatenated in order. */
  function ExtractArgs(args: seq<Expr>): (r: Result<seq<Expr>>)
    ensures r.Ok? ==> forall x :: x in r.value ==> x.Call?
    decreases args, 0
  {
    if args == [] then Ok([])
    else
      match ExtractArgs(args[..|args| - 1])
      case Err(k) => Err(k)
      case Ok(xs) =>
        match Extract(args[|args| - 1])
        case Err(k) => Err(k)
        case Ok(ys) => Ok(xs + ys)
  }

  /** Once a prefix of the arguments fails, the whole argument list fails with
      the same error: later arguments cannot change it. */
  lemma {:induction false} PrefixErrorIsFinal(args: seq<Expr>, k: nat)
    requires k <= |args|
    requires ExtractArgs(args[..k]).Err?
    ensures ExtractArgs(args) == ExtractArgs(args[..k])
    decreases |args| - k
  {
    if k < |args| {
      assert args[..k + 1][..k] == args[..k];
      PrefixErrorIsFinal(args, k + 1);
    } else {
      assert args[..k] == args;
    }
  }

  /** The stateful traversal: `tryExpressions` is the builder the visitor
      appends payloads to as it unwinds. A shape violation aborts the walk;
      it is returned instead of thrown. */
  class Visitor {
    var tryExpressions: seq<Expr>

    constructor ()
      ensures tryExpressions == []
    {
      tryExpressions := [];
    }

    /** Dispatch on the variant of `e`. On success exactly the payloads of
        `e` are appended; on failure the builder has only grown. */
    method Accept(e: Expr) returns (err: Option<ExtractError>)
      modifies this
      ensures Extract(e).Ok? ==> err == None && tryExpressions == old(tryExpressions) + Extract(e).value
      ensures Extract(e).Err? ==> err == Some(Extract(e).error) && old(tryExpressions) <= tryExpressions
      decreases e, 1
    {
      match e
      case Constant =>
        err := VisitConstant(e);
      case InputReference(_) =>
        err := VisitInputReference(e);
      case Call(_, _) =>
        err := VisitCall(e);
    }

    /** An input reference is a leaf: nothing is appended and nothing fails. */
    method VisitInputReference(node: Expr) returns (err: Option<ExtractError>)
      requires node.InputReference?
      ensures err == None
    {
      err := None;
    }

    /** A constant is a leaf: nothing is appended and nothing fails. */
    method VisitConstant(literal: Expr) returns (err: Option<ExtractError>)
      requires literal.Constant?
      ensures err == None
    {
      err := None;
    }

    /** Check the TRY shape, visit every argument left to right, then append
        the payload of a TRY call. */
    method VisitCall(call: Expr) returns (err: Option<ExtractError>)
      requires call.Call?
      modifies this
      ensures Extract(call).Ok? ==> err == None && tryExpressions == old(tryExpressions) + Extract(call).value
      ensures Extract(call).Err? ==> err == Some(Extract(call).error) && old(tryExpressions) <= tryExpressions
      decreases call, 0
    {
      var isTry := call.name == TRY;
      if isTry {
        if |call.args| != 1 {
          return Some(NotSingleArgument);
        }
        if !call.args[0].Call? {
          return Some(ArgumentNotCall);
        }
      }
      var args := call.args;
      var i := 0;
      while i < |args|
        invariant 0 <= i <= |args|
        invariant ExtractArgs(args[..i]).Ok?
        invariant tryExpressions == old(tryExpressions) + ExtractArgs(args[..i]).value
      {
        assert args[i] in args;
        var argErr := Accept(args[i]);
        assert args[..i + 1][..i] == args[..i];
        if argErr.Some? {
          PrefixErrorIsFinal(args, i + 1);
          return argErr;
        }
        i := i + 1;
      }
      assert args[..i] == args;
      if isTry {
        tryExpressions := tryExpressions + [args[0]];
      }
      err := None;
    }

    /** The builder's contents, as the caller reads them back. */
    method GetTryExpressionsPostOrder() returns (r: seq<Expr>)
      ensures r == tryExpressions
    {
      r := tryExpressions;
    }
  }

  /** Entry point: run a fresh visitor over `expression` and read back its
      list, or report the shape violation that aborted the walk. */
  method ExtractTryExpressions(expression: Expr) returns (r: Result<seq<Expr>>)
    ensures r == Extract(expression)
  {
    var visitor := new Visitor();
    var err := visitor.Accept(expression);
    if err.Some? {
      return Err(err.value);
    }
    var list := visitor.GetTryExpressionsPostOrder();
    assert [] + Extract(expression).value == Extract(expression).value;
    r := Ok(list);
  }
}
