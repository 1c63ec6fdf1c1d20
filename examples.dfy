/**
 * Small expressions built through the engine's own operations, with the
 * gradients a backward pass over them leaves behind.
 */
module Examples {
  import opened EngineSpec
  import opened Engine
  import opened ChainRule

  /** On freshly built nodes (no gradient yet on anything the output
      reaches), one backward pass leaves in every reachable node the
      derivative of the output with respect to that node. */
  method FreshBackward(graph: Graph, root: nat)
    requires graph.Valid() && root < |graph.nodes|
    requires forall v :: v in Reach(graph.nodes, root) ==> graph.grads[v] == 0.0
    modifies graph`grads
    ensures graph.Valid()
    ensures forall u :: u in Reach(graph.nodes, root) ==> graph.grads[u] == Tangent(graph.nodes, root, u)
  {
    ghost var g := graph.grads;
    graph.Backward(root);
    forall u | u in Reach(graph.nodes, root)
      ensures graph.grads[u] == Tangent(graph.nodes, root, u)
    {
      FreshBackwardIsDerivative(graph.nodes, g, root, u);
    }
  }

  /** The graph of `c = a + b; d = a * 2; out = c + d`: a reaches the output
      along two paths, so its gradient is the sum 1 + 2. */
  lemma CommentedGraphGradient(xa: real, xb: real)
    ensures var nodes := [Node(xa, Leaf), Node(xb, Leaf), Node(xa + xb, Op.Add(0, 1)),
                          Node(2.0, Leaf), Node(xa * 2.0, Op.Mul(0, 3)),
                          Node(xa + xb + xa * 2.0, Op.Add(2, 4))];
            WellFormed(nodes) && Gradient(nodes, 5, 0) == 3.0 && Gradient(nodes, 5, 1) == 1.0
  {
    var nodes := [Node(xa, Leaf), Node(xb, Leaf), Node(xa + xb, Op.Add(0, 1)),
                  Node(2.0, Leaf), Node(xa * 2.0, Op.Mul(0, 3)),
                  Node(xa + xb + xa * 2.0, Op.Add(2, 4))];
    var g := seq(6, _ => 0.0);
    assert Reach(nodes, 2) == {0, 1, 2};
    assert Reach(nodes, 4) == {0, 3, 4};
    var R := Reach(nodes, 5);
    assert R == {0, 1, 2, 3, 4, 5};
    assert Adjoint(nodes, g, 5, 5) == 1.0;
    assert Adjoint(nodes, g, 5, 4) == 1.0;
    assert Adjoint(nodes, g, 5, 2) == 1.0;
    assert ConsumerSum(nodes, g, 5, R, 0, 5) == 0.0;
    assert ConsumerSum(nodes, g, 5, R, 0, 4) == 2.0;
    assert ConsumerSum(nodes, g, 5, R, 0, 3) == 2.0;
    assert ConsumerSum(nodes, g, 5, R, 0, 2) == 3.0;
    assert ConsumerSum(nodes, g, 5, R, 1, 3) == 0.0;
  }

  /** Builds the commented expression from two fresh leaves and runs the
      intended backward pass on it. */
  method CommentedExample(xa: real, xb: real) returns (ga: real, gb: real)
    ensures ga == 3.0 && gb == 1.0
  {
    var graph := new Graph();
    var a := graph.Init(xa, Leaf);
    var b := graph.Init(xb, Leaf);
    var c := graph.Add(a, Ref(b));
    var d := graph.Mul(a, Lit(2.0));
    var out := graph.Add(c, Ref(d));
    assert graph.nodes == [Node(xa, Leaf), Node(xb, Leaf), Node(xa + xb, Op.Add(0, 1)),
                           Node(2.0, Leaf), Node(xa * 2.0, Op.Mul(0, 3)),
                           Node(xa + xb + xa * 2.0, Op.Add(2, 4))];
    assert graph.grads == seq(6, _ => 0.0);
    CommentedGraphGradient(xa, xb);
    graph.Backward(out);
    ga, gb := graph.grads[a], graph.grads[b];
  }

  /** `y = x + x`: the add rule adds y's gradient to x once per operand. */
  method SelfAddExample(x: real) returns (gx: real)
    ensures gx == 2.0
  {
    var graph := new Graph();
    var a := graph.Init(x, Leaf);
    var y := graph.Add(a, Ref(a));
    ghost var nodes := [Node(x, Leaf), Node(x + x, Op.Add(0, 0))];
    assert graph.nodes == nodes;
    assert graph.grads == seq(2, _ => 0.0);
    assert Reach(nodes, 1) == {0, 1};
    graph.Backward(y);
    gx := graph.grads[a];
  }

  /** The same `y = x + x`, built with `__add__` returning its output, under
      `backward` as written: only y's gradient is set, x keeps 0 where the
      intended pass gives 2. */
  method SelfAddAsWritten(x: real) returns (gx: real, gy: real)
    ensures gx == 0.0 && gy == 1.0
  {
    var graph := new Graph();
    var a := graph.Init(x, Leaf);
    var y := graph.Add(a, Ref(a));
    graph.BackwardAsWritten(y);
    gx, gy := graph.grads[a], graph.grads[y];
  }

  /** `b = a * 2; c = a * 3; d = b + c`: the two paths from a add up to 5. */
  method DiamondExample(x: real) returns (ga: real)
    ensures ga == 5.0
  {
    var graph := new Graph();
    var a := graph.Init(x, Leaf);
    var b := graph.Mul(a, Lit(2.0));
    var c := graph.Mul(a, Lit(3.0));
    var d := graph.Add(b, Ref(c));
    ghost var nodes := [Node(x, Leaf), Node(2.0, Leaf), Node(x * 2.0, Op.Mul(0, 1)),
                        Node(3.0, Leaf), Node(x * 3.0, Op.Mul(0, 3)),
                        Node(x * 2.0 + x * 3.0, Op.Add(2, 4))];
    assert graph.nodes == nodes;
    ghost var g := seq(6, _ => 0.0);
    assert graph.grads == g;
    assert Reach(nodes, 2) == {0, 1, 2};
    assert Reach(nodes, 4) == {0, 3, 4};
    ghost var R := Reach(nodes, 5);
    assert R == {0, 1, 2, 3, 4, 5};
    assert Adjoint(nodes, g, 5, 4) == 1.0;
    assert Adjoint(nodes, g, 5, 2) == 1.0;
    assert ConsumerSum(nodes, g, 5, R, 0, 3) == 3.0;
    assert ConsumerSum(nodes, g, 5, R, 0, 2) == 5.0;
    assert ConsumerSum(nodes, g, 5, R, 0, 1) == 5.0;
    graph.Backward(d);
    ga := graph.grads[a];
  }

  /** Two losses built on one parameter w, each followed by a backward pass
      without resetting: w's gradient is the sum of both passes'. */
  method AccumulateExample(w: real, x1: real, x2: real) returns (gw: real)
    ensures gw == x1 + x2
  {
    var graph := new Graph();
    var p := graph.Init(w, Leaf);
    var loss1 := graph.Mul(p, Lit(x1));
    ghost var nodes1 := [Node(w, Leaf), Node(x1, Leaf), Node(w * x1, Op.Mul(0, 1))];
    assert |graph.nodes| == 3;
    assert graph.nodes[0] == nodes1[0];
    assert graph.nodes[1] == nodes1[1];
    assert graph.nodes[2] == nodes1[2];
    assert graph.nodes == nodes1;
    graph.Backward(loss1);
    assert Reach(nodes1, 2) == {0, 1, 2};
    assert graph.grads[p] == x1;
    var loss2 := graph.Mul(p, Lit(x2));
    ghost var nodes2 := nodes1 + [Node(x2, Leaf), Node(w * x2, Op.Mul(0, 3))];
    assert |graph.nodes| == 5 && graph.nodes[..3] == nodes1;
    assert graph.nodes[3] == nodes2[3] && graph.nodes[4] == nodes2[4];
    assert graph.nodes == nodes2;
    ghost var g := graph.grads;
    assert Reach(nodes2, 4) == {0, 3, 4};
    assert ConsumerSum(nodes2, g, 4, {0, 3, 4}, 0, 1) == x2;
    graph.Backward(loss2);
    gw := graph.grads[p];
  }
}
