/** Row expressions as the code generator sees them, and the TRY marker name. */
module RowExpressions {

  datatype Option<T> = None | Some(value: T)

  /** A row expression is a tree of three variants. Literal values and types
      play no part in TRY extraction, so a constant carries nothing. */
  datatype Expr =
    | Constant
    | InputReference(field: nat)
    | Call(name: string, args: seq<Expr>)

  /** The name of the TRY function signature that marks a fallible call. */
  const TRY: string := "TRY"

  /** A call whose signature name is the TRY marker. */
  predicate IsTry(e: Expr) {
    e.Call? && e.name == TRY
  }
}
