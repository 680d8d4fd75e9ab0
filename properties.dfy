/** Reference traversals of a row-expression tree, and what the extractor
    promises stated against them. */
module ExtractionProperties {
  import opened RowExpressions
  import opened TryExpressionExtractor

  /** Every node of `e`, each before its arguments, arguments left to right. */
  function PreOrder(e: Expr): (nodes: seq<Expr>)
    decreases e, 1
  {
    match e
    case Call(_, args) => [e] + PreOrderArgs(args)
    case _ => [e]
  }

  function PreOrderArgs(args: seq<Expr>): (nodes: seq<Expr>)
    decreases args, 0
  {
    if args == [] then []
    else PreOrderArgs(args[..|args| - 1]) + PreOrder(args[|args| - 1])
  }

  /** Every node of `e`, each after its arguments, arguments left to right. */
  function PostOrder(e: Expr): (nodes: seq<Expr>)
    decreases e, 1
  {
    match e
    case Call(_, args) => PostOrderArgs(args) + [e]
    case _ => [e]
  }

  function PostOrderArgs(args: seq<Expr>): (nodes: seq<Expr>)
    decreases args, 0
  {
    if args == [] then []
    else PostOrderArgs(args[..|args| - 1]) + PostOrder(args[|args| - 1])
  }

  /** The first shape violation among `nodes`, scanning left to right. */
  function FirstViolation(nodes: seq<Expr>): (v: Option<ExtractError>) {
    if nodes == [] then None
    else if ShapeViolation(nodes[0]).Some? then ShapeViolation(nodes[0])
    else FirstViolation(nodes[1..])
  }

  /** The TRY calls among `nodes`, in their order. */
  function Tries(nodes: seq<Expr>): (t: seq<Expr>)
    ensures forall i :: 0 <= i < |t| ==> t[i] in nodes && IsTry(t[i])
  {
    if nodes == [] then []
    else (if IsTry(nodes[0]) then [nodes[0]] else []) + Tries(nodes[1..])
  }

  /** The sole argument of each single-argument TRY call among `nodes`. */
  function Payloads(nodes: seq<Expr>): (ps: seq<Expr>) {
    if nodes == [] then []
    else (if IsTry(nodes[0]) && |nodes[0].args| == 1 then [nodes[0].args[0]] else []) + Payloads(nodes[1..])
  }

  /** The outcome read off the two traversals: the first violation in
      pre-order, otherwise the payloads in post-order. */
  function Reference(pre: seq<Expr>, post: seq<Expr>): (r: Result<seq<Expr>>) {
    match FirstViolation(pre)
    case Some(k) => Err(k)
    case None => Ok(Payloads(post))
  }

  lemma {:induction false} FirstViolationAppend(a: seq<Expr>, b: seq<Expr>)
    ensures FirstViolation(a + b) == if FirstViolation(a).Some? then FirstViolation(a) else FirstViolation(b)
  {
    if a != [] {
      assert (a + b)[1..] == a[1..] + b;
      FirstViolationAppend(a[1..], b);
    } else {
      assert a + b == b;
    }
  }

  lemma {:induction false} PayloadsAppend(a: seq<Expr>, b: seq<Expr>)
    ensures Payloads(a + b) == Payloads(a) + Payloads(b)
  {
    if a != [] {
      assert (a + b)[1..] == a[1..] + b;
      PayloadsAppend(a[1..], b);
    } else {
      assert a + b == b;
    }
  }

  lemma {:induction false} TriesAppend(a: seq<Expr>, b: seq<Expr>)
    ensures Tries(a + b) == Tries(a) + Tries(b)
  {
    if a != [] {
      assert (a + b)[1..] == a[1..] + b;
      TriesAppend(a[1..], b);
    } else {
      assert a + b == b;
    }
  }

  /** A single node contributes its own shape check and its own payload. */
  lemma SingleNode(n: Expr)
    ensures FirstViolation([n]) == ShapeViolation(n)
    ensures Payloads([n]) == if IsTry(n) && |n.args| == 1 then [n.args[0]] else []
  {
  }

  /** The extractor's outcome is exactly the reference outcome: it fails with
      the first violation in pre-order, and otherwise returns the payloads of
      the TRY calls in post-order. */
  lemma {:induction false} ExtractIsReference(e: Expr)
    ensures Extract(e) == Reference(PreOrder(e), PostOrder(e))
    decreases e, 1
  {
    SingleNode(e);
    match e
    case Constant =>
      assert PreOrder(e) == [e] && PostOrder(e) == [e];
    case InputReference(_) =>
      assert PreOrder(e) == [e] && PostOrder(e) == [e];
    case Call(name, args) =>
      ExtractArgsIsReference(args);
      FirstViolationAppend([e], PreOrderArgs(args));
      assert PreOrder(e) == [e] + PreOrderArgs(args);
      if ShapeViolation(e) == None {
        PayloadsAppend(PostOrderArgs(args), [e]);
        assert PostOrder(e) == PostOrderArgs(args) + [e];
        assert FirstViolation(PreOrder(e)) == FirstViolation(PreOrderArgs(args));
        match ExtractArgs(args)
        case Err(k) =>
        case Ok(xs) =>
          assert Extract(e) == Ok(if name == TRY then xs + [args[0]] else xs);
          assert Payloads(PostOrder(e)) == if name == TRY then xs + [args[0]] else xs + [];
          assert xs + [] == xs;
      }
  }

  lemma {:induction false} ExtractArgsIsReference(args: seq<Expr>)
    ensures ExtractArgs(args) == Reference(PreOrderArgs(args), PostOrderArgs(args))
    decreases args, 0
  {
    if args != [] {
      var init, last := args[..|args| - 1], args[|args| - 1];
      ExtractArgsIsReference(init);
      ExtractIsReference(last);
      FirstViolationAppend(PreOrderArgs(init), PreOrder(last));
      PayloadsAppend(PostOrderArgs(init), PostOrder(last));
    }
  }

  /** Both traversals list the same nodes, each as often: every node of the
      tree is visited exactly once either way. */
  lemma {:induction false} SameNodes(e: Expr)
    ensures multiset(PreOrder(e)) == multiset(PostOrder(e))
    decreases e, 1
  {
    match e
    case Constant =>
    case InputReference(_) =>
    case Call(_, args) =>
      SameNodesArgs(args);
  }

  lemma {:induction false} SameNodesArgs(args: seq<Expr>)
    ensures multiset(PreOrderArgs(args)) == multiset(PostOrderArgs(args))
    decreases args, 0
  {
    if args != [] {
      SameNodesArgs(args[..|args| - 1]);
      SameNodes(args[|args| - 1]);
    }
  }

  /** No violation is found exactly when every node passes its shape check. */
  lemma {:induction false} NoViolationIffAllPass(nodes: seq<Expr>)
    ensures FirstViolation(nodes) == None <==> forall n :: n in nodes ==> ShapeViolation(n) == None
  {
    if nodes != [] {
      NoViolationIffAllPass(nodes[1..]);
      assert forall n :: n in nodes <==> n == nodes[0] || n in nodes[1..];
    }
  }

  /** The violation reported is that of the leftmost failing node. */
  lemma {:induction false} FirstViolationIsLeftmost(nodes: seq<Expr>, k: ExtractError)
    ensures FirstViolation(nodes) == Some(k) <==>
      exists i :: 0 <= i < |nodes| && ShapeViolation(nodes[i]) == Some(k) &&
        forall j :: 0 <= j < i ==> ShapeViolation(nodes[j]) == None
  {
    if nodes != [] {
      FirstViolationIsLeftmost(nodes[1..], k);
      if FirstViolation(nodes) == Some(k) {
        if ShapeViolation(nodes[0]).Some? {
          assert ShapeViolation(nodes[0]) == Some(k);
        } else {
          var i :| 0 <= i < |nodes[1..]| && ShapeViolation(nodes[1..][i]) == Some(k) &&
            forall j :: 0 <= j < i ==> ShapeViolation(nodes[1..][j]) == None;
          assert forall j :: 0 <= j < i + 1 ==> ShapeViolation(nodes[j]) == None by {
            forall j | 0 <= j < i + 1
              ensures ShapeViolation(nodes[j]) == None
            {
              if j > 0 {
                assert nodes[j] == nodes[1..][j - 1];
              }
            }
          }
          assert ShapeViolation(nodes[i + 1]) == Some(k);
        }
      }
      if exists i :: 0 <= i < |nodes| && ShapeViolation(nodes[i]) == Some(k) &&
          forall j :: 0 <= j < i ==> ShapeViolation(nodes[j]) == None {
        var i :| 0 <= i < |nodes| && ShapeViolation(nodes[i]) == Some(k) &&
          forall j :: 0 <= j < i ==> ShapeViolation(nodes[j]) == None;
        if i > 0 {
          assert ShapeViolation(nodes[1..][i - 1]) == Some(k);
          assert forall j :: 0 <= j < i - 1 ==> ShapeViolation(nodes[1..][j]) == None by {
            forall j | 0 <= j < i - 1
              ensures ShapeViolation(nodes[1..][j]) == None
            {
              assert nodes[1..][j] == nodes[j + 1];
            }
          }
        }
      }
    }
  }

  /** Where every node passes its shape check, the payloads are the sole
      arguments of the TRY calls, one for one and in the same order. */
  lemma {:induction false} PayloadsOfTries(nodes: seq<Expr>)
    requires forall n :: n in nodes ==> ShapeViolation(n) == None
    ensures |Payloads(nodes)| == |Tries(nodes)|
    ensures forall i :: 0 <= i < |Tries(nodes)| ==> Tries(nodes)[i].args == [Payloads(nodes)[i]]
  {
    if nodes != [] {
      var n, rest := nodes[0], nodes[1..];
      assert forall m :: m in rest ==> m in nodes;
      PayloadsOfTries(rest);
      var ts, ps := Tries(rest), Payloads(rest);
      if IsTry(n) {
        assert ShapeViolation(n) == None;
        assert Tries(nodes) == [n] + ts;
        assert Payloads(nodes) == [n.args[0]] + ps;
        forall i | 0 <= i < |Tries(nodes)|
          ensures Tries(nodes)[i].args == [Payloads(nodes)[i]]
        {
          if i > 0 {
            assert Tries(nodes)[i] == ts[i - 1];
            assert Payloads(nodes)[i] == ps[i - 1];
          }
        }
      } else {
        assert Tries(nodes) == [] + ts;
        assert Payloads(nodes) == [] + ps;
      }
    }
  }

  /** Extraction succeeds exactly when every TRY call in the tree has a single
      argument and that argument is a call. */
  lemma SucceedsIffWellShaped(e: Expr)
    ensures Extract(e).Ok? <==>
      forall n :: n in PreOrder(e) && IsTry(n) ==> |n.args| == 1 && n.args[0].Call?
  {
    ExtractIsReference(e);
    NoViolationIffAllPass(PreOrder(e));
  }

  /** On success the result holds one entry per TRY call of the tree, in
      post-order; each entry is the sole argument of its TRY call, and a call. */
  lemma OnePayloadPerTry(e: Expr, r: seq<Expr>)
    requires Extract(e) == Ok(r)
    ensures |r| == |Tries(PostOrder(e))|
    ensures forall i :: 0 <= i < |r| ==> Tries(PostOrder(e))[i].args == [r[i]] && r[i].Call?
  {
    ExtractIsReference(e);
    NoViolationIffAllPass(PreOrder(e));
    SameNodes(e);
    assert forall n :: n in PostOrder(e) ==> n in multiset(PreOrder(e));
    PayloadsOfTries(PostOrder(e));
  }

  /** A tree without TRY calls yields the empty list. */
  lemma NoTryYieldsEmpty(e: Expr)
    requires forall n :: n in PreOrder(e) ==> !IsTry(n)
    ensures Extract(e) == Ok([])
  {
    SucceedsIffWellShaped(e);
    OnePayloadPerTry(e, Extract(e).value);
    SameNodes(e);
    assert forall n :: n in PostOrder(e) ==> n in multiset(PreOrder(e));
    NoTriesAmong(PostOrder(e));
  }

  lemma {:induction false} NoTriesAmong(nodes: seq<Expr>)
    requires forall n :: n in nodes ==> !IsTry(n)
    ensures Tries(nodes) == []
  {
    if nodes != [] {
      assert forall n :: n in nodes[1..] ==> n in nodes;
      NoTriesAmong(nodes[1..]);
    }
  }

  /** Extraction fails with error `k` exactly when `k` is the violation of
      the first badly shaped TRY call in pre-order: outer before inner, left
      before right. */
  lemma FailsWithFirstViolationInPreOrder(e: Expr, k: ExtractError)
    ensures Extract(e) == Err(k) <==>
      exists i :: 0 <= i < |PreOrder(e)| && ShapeViolation(PreOrder(e)[i]) == Some(k) &&
        forall j :: 0 <= j < i ==> ShapeViolation(PreOrder(e)[j]) == None
  {
    ExtractIsReference(e);
    FirstViolationIsLeftmost(PreOrder(e), k);
  }

  /** A TRY call with other than one argument fails with the arity error,
      whatever its arguments hold: it is checked before they are visited. */
  lemma TryArityChecked(args: seq<Expr>)
    requires |args| != 1
    ensures Extract(Call(TRY, args)) == Err(NotSingleArgument)
  {
  }

  /** A TRY call whose single argument is a constant or an input reference
      fails with the shape error. */
  lemma TryArgumentKindChecked(a: Expr)
    requires !a.Call?
    ensures Extract(Call(TRY, [a])) == Err(ArgumentNotCall)
  {
  }

  /** Post-order nesting: the payload of a TRY call comes last, after every
      payload extracted from inside it. */
  lemma NestedPayloadsFirst(p: Expr, r: seq<Expr>)
    requires Extract(Call(TRY, [p])) == Ok(r)
    ensures |r| >= 1 && r[|r| - 1] == p
    ensures Extract(p) == Ok(r[..|r| - 1])
  {
    assert [p][..0] == [];
    assert ExtractArgs([p]) == match Extract(p) case Err(k) => Err(k) case Ok(ys) => Ok([] + ys);
    var ys := Extract(p).value;
    assert [] + ys == ys;
    assert r == ys + [p];
    assert r[..|r| - 1] == ys;
  }

  /** Sibling order: the payloads of earlier arguments precede those of later
      ones, and a failure in an earlier argument wins. */
  lemma {:induction false} ExtractArgsConcat(a: seq<Expr>, b: seq<Expr>)
    ensures ExtractArgs(a + b) ==
      match ExtractArgs(a)
      case Err(k) => Err(k)
      case Ok(xs) =>
        match ExtractArgs(b)
        case Err(k) => Err(k)
        case Ok(ys) => Ok(xs + ys)
    decreases |b|
  {
    if b == [] {
      assert a + b == a;
      match ExtractArgs(a)
      case Err(_) =>
      case Ok(xs) => assert xs + [] == xs;
    } else {
      var init := b[..|b| - 1];
      assert (a + b)[..|a + b| - 1] == a + init;
      assert (a + b)[|a + b| - 1] == b[|b| - 1];
      ExtractArgsConcat(a, init);
      match ExtractArgs(a)
      case Err(_) =>
      case Ok(xs) =>
        match ExtractArgs(init)
        case Err(_) =>
        case Ok(ys) =>
          match Extract(b[|b| - 1])
          case Err(_) =>
          case Ok(zs) => assert xs + ys + zs == xs + (ys + zs);
    }
  }

  /** A single argument contributes exactly its own extraction. */
  lemma SingleArgument(a: Expr)
    ensures ExtractArgs([a]) == Extract(a)
  {
    assert [a][..0] == [];
    match Extract(a)
    case Err(_) =>
    case Ok(ys) => assert [] + ys == ys;
  }

  /** A TRY call nested in another's payload: the inner payload comes first. */
  lemma NestedExample()
    ensures
      var h := Call("h", [InputReference(0)]);
      var g := Call("g", [Call(TRY, [h])]);
      Extract(Call(TRY, [g])) == Ok([h, g])
  {
    var h := Call("h", [InputReference(0)]);
    var inner := Call(TRY, [h]);
    var g := Call("g", [inner]);
    SingleArgument(InputReference(0));
    assert Extract(h) == Ok([]);
    SingleArgument(h);
    assert Extract(inner) == Ok([] + [h]);
    SingleArgument(inner);
    assert "g" != TRY by { assert |"g"| != |TRY|; }
    assert ShapeViolation(g) == None;
    assert [] + [h] == [h];
    assert ExtractArgs(g.args) == Ok([h]);
    assert Extract(g) == Ok([h]);
    SingleArgument(g);
    assert [h] + [g] == [h, g];
  }

  /** Two sibling TRY calls: payloads in left-to-right argument order. */
  lemma SiblingExample()
    ensures
      var p, q := Call("p", []), Call("q", []);
      Extract(Call("combine", [Call(TRY, [p]), Call(TRY, [q])])) == Ok([p, q])
  {
    var p, q := Call("p", []), Call("q", []);
    var tp, tq := Call(TRY, [p]), Call(TRY, [q]);
    SingleArgument(p);
    SingleArgument(q);
    assert Extract(tp) == Ok([] + [p]);
    assert Extract(tq) == Ok([] + [q]);
    assert [] + [p] == [p] && [] + [q] == [q];
    SingleArgument(tp);
    SingleArgument(tq);
    ExtractArgsConcat([tp], [tq]);
    assert [tp] + [tq] == [tp, tq];
    assert "combine" != TRY by { assert |"combine"| != |TRY|; }
    assert [p] + [q] == [p, q];
  }
}
