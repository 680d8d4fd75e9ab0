# TRY expression extraction

A model of Presto's `TryExpressionExtractor`: the pass that walks a row-expression
tree before code generation and returns the argument of every `TRY` call, in
post-order, so that each can be compiled as its own recoverable unit. A `TRY`
call must have exactly one argument, and that argument must be a call; the walk
checks this at each `TRY` node before visiting its arguments and aborts on the
first violation.

- `row_expressions.dfy` (module `RowExpressions`): the three expression
  variants (`Constant`, `InputReference`, `Call`) and the `TRY` marker name.
- `extractor.dfy` (module `TryExpressionExtractor`): the specification function
  `Extract` (with `ExtractArgs` for argument lists), the stateful `Visitor`
  class, whose `tryExpressions` field is the builder that payloads are appended
  to, and the entry point `ExtractTryExpressions`. `Visitor.Accept`,
  `Visitor.VisitCall` and `ExtractTryExpressions` are proved against `Extract`;
  the leaf visits are proved never to fail and cannot touch the builder.
- `properties.dfy` (module `ExtractionProperties`): independent reference
  definitions (pre-order and post-order node lists, the first shape violation in
  a node list, the payloads of the `TRY` nodes in a node list), the proof that
  `Extract` equals them, and the properties that follow from it.

The `checkState` exceptions become the `ExtractError` values
`NotSingleArgument` and `ArgumentNotCall`. The visitor methods return them
instead of throwing. The entry point returns `Err(k)`, which carries no list.

## Model

| member | source | states |
|---|---|---|
| TryExpressionExtractor.ShapeViolation | presto-main/src/main/java/com/facebook/presto/sql/gen/TryExpressionExtractor.java:57-61 | only a `TRY` call can be rejected; the arity error is reported exactly when a `TRY` call has other than one argument; the call-argument error exactly when its single argument is not a call |
| TryExpressionExtractor.Extract | presto-main/src/main/java/com/facebook/presto/sql/gen/TryExpressionExtractor.java:47-78 | on success every extracted expression is a call |
| TryExpressionExtractor.ExtractArgs | presto-main/src/main/java/com/facebook/presto/sql/gen/TryExpressionExtractor.java:63-65 | on success every expression extracted from an argument list is a call |
| TryExpressionExtractor.PrefixErrorIsFinal | presto-main/src/main/java/com/facebook/presto/sql/gen/TryExpressionExtractor.java:63-65 | once an earlier argument fails, the remaining arguments cannot change the outcome: the whole call fails with that error |
| TryExpressionExtractor.Visitor.constructor | presto-main/src/main/java/com/facebook/presto/sql/gen/TryExpressionExtractor.java:37-45 | a fresh visitor starts with an empty builder |
| TryExpressionExtractor.Visitor.Accept | presto-main/src/main/java/com/facebook/presto/sql/gen/TryExpressionExtractor.java:38-38 | dispatching on any node appends exactly that subtree's payloads on success, and on failure returns `Extract`'s error while the builder has only grown |
| TryExpressionExtractor.Visitor.VisitInputReference | presto-main/src/main/java/com/facebook/presto/sql/gen/TryExpressionExtractor.java:47-52 | an input reference never fails and, with no `modifies` clause, leaves the builder unchanged |
| TryExpressionExtractor.Visitor.VisitConstant | presto-main/src/main/java/com/facebook/presto/sql/gen/TryExpressionExtractor.java:74-78 | a constant never fails and leaves the builder unchanged |
| TryExpressionExtractor.Visitor.VisitCall | presto-main/src/main/java/com/facebook/presto/sql/gen/TryExpressionExtractor.java:54-72 | shape check first, then the arguments left to right, then the `TRY` payload: on success the builder grows by exactly `Extract(call)`; on failure the error is `Extract(call)`'s |
| TryExpressionExtractor.Visitor.GetTryExpressionsPostOrder | presto-main/src/main/java/com/facebook/presto/sql/gen/TryExpressionExtractor.java:80-83 | returns the builder's contents |
| TryExpressionExtractor.ExtractTryExpressions | presto-main/src/main/java/com/facebook/presto/sql/gen/TryExpressionExtractor.java:35-40 | running a fresh visitor and reading back its list gives exactly `Extract(expression)`, and a failure returns no partial list |
| ExtractionProperties.ExtractIsReference | presto-main/src/main/java/com/facebook/presto/sql/gen/TryExpressionExtractor.java:54-72 | extraction fails with the first shape violation in the pre-order node list, and otherwise returns the payloads of the `TRY` nodes in the post-order node list |
| ExtractionProperties.ExtractArgsIsReference | presto-main/src/main/java/com/facebook/presto/sql/gen/TryExpressionExtractor.java:63-65 | the same characterisation for an argument list visited left to right |
| ExtractionProperties.SameNodes | presto-main/src/main/java/com/facebook/presto/sql/gen/TryExpressionExtractor.java:63-65 | the pre-order and post-order lists hold the same nodes, each the same number of times |
| ExtractionProperties.FirstViolationIsLeftmost | presto-main/src/main/java/com/facebook/presto/sql/gen/TryExpressionExtractor.java:58-61 | the violation reported for a node list is that of its leftmost failing node, in both directions |
| ExtractionProperties.SucceedsIffWellShaped | presto-main/src/main/java/com/facebook/presto/sql/gen/TryExpressionExtractor.java:57-61 | extraction succeeds if and only if every `TRY` call in the tree has one argument and that argument is a call |
| ExtractionProperties.OnePayloadPerTry | presto-main/src/main/java/com/facebook/presto/sql/gen/TryExpressionExtractor.java:57-68 | on success the result has one entry per `TRY` node, in post-order; each entry is that node's sole argument and is a call |
| ExtractionProperties.NoTryYieldsEmpty | presto-main/src/main/java/com/facebook/presto/sql/gen/TryExpressionExtractor.java:35-40 | a tree without `TRY` calls yields an empty list |
| ExtractionProperties.FailsWithFirstViolationInPreOrder | presto-main/src/main/java/com/facebook/presto/sql/gen/TryExpressionExtractor.java:58-65 | extraction fails with error `k` if and only if `k` is the violation of the first badly shaped `TRY` node in pre-order: outer before inner, left before right |
| ExtractionProperties.TryArityChecked | presto-main/src/main/java/com/facebook/presto/sql/gen/TryExpressionExtractor.java:59-59 | a `TRY` call with zero or several arguments fails with the arity error, whatever its arguments contain |
| ExtractionProperties.TryArgumentKindChecked | presto-main/src/main/java/com/facebook/presto/sql/gen/TryExpressionExtractor.java:60-60 | a `TRY` call whose single argument is a constant or an input reference fails with the call-argument error |
| ExtractionProperties.NestedPayloadsFirst | presto-main/src/main/java/com/facebook/presto/sql/gen/TryExpressionExtractor.java:63-69 | the payload of a `TRY` call comes last, after every payload extracted from inside it |
| ExtractionProperties.ExtractArgsConcat | presto-main/src/main/java/com/facebook/presto/sql/gen/TryExpressionExtractor.java:63-65 | payloads of earlier arguments come before those of later arguments, and a failure in an earlier argument wins |
| ExtractionProperties.NestedExample | presto-main/src/main/java/com/facebook/presto/sql/gen/TryExpressionExtractor.java:63-69 | `TRY(g(TRY(h(x))))` yields `[h(x), g(...)]` |
| ExtractionProperties.SiblingExample | presto-main/src/main/java/com/facebook/presto/sql/gen/TryExpressionExtractor.java:63-65 | `combine(TRY(p()), TRY(q()))` yields `[p(), q()]` |

## Left out

- TryExpressionExtractor.Visitor.Accept: on failure the model states only that the builder has grown. The thrown exception discards the visitor, so its exact partial contents are never observed.
- TryExpressionExtractor.Visitor.VisitCall: on failure it states only that the builder has grown, for the same reason.
- Name resolution: the `TRY` signature is external. The marker is the string constant `"TRY"`, compared by equality.
- Types and literal values of row expressions play no part in this logic, so `Constant` carries no value.
- Visitor double dispatch (`accept`, `RowExpressionVisitor`) becomes a `match` in `Visitor.Accept`.
- The empty `Context` class carries no data and is passed as `null` to arguments, so it is not modelled.
- The input-dependency tracking mentioned in a TODO at line 50 is not implemented in the source and is not modelled.
- Object identity of the returned nodes: the tree is never mutated, so datatype value equality stands in for it. The input tree cannot change because it is a value.
- Exceptions and their message strings become `ExtractError` values.
