/**
 * What the gradients mean: the derivative of the output with respect to each
 * node, by the chain rule applied forward through each node's operands. The
 * gradient the backward pass computes (sum over a node's consumers) is shown
 * to equal it.
 */
module ChainRule {
  import opened EngineSpec

  /** The sum of f over the integers lo, lo + 1, ..., hi - 1. */
  ghost function Sum(lo: int, hi: int, f: int -> real): real
    decreases hi - lo
  {
    if lo >= hi then 0.0 else f(lo) + Sum(lo + 1, hi, f)
  }

  lemma {:induction false} SumCongruent(lo: int, hi: int, f: int -> real, h: int -> real)
    requires forall x :: lo <= x < hi ==> f(x) == h(x)
    ensures Sum(lo, hi, f) == Sum(lo, hi, h)
    decreases hi - lo
  {
    if lo < hi {
      SumCongruent(lo + 1, hi, f, h);
    }
  }

  lemma {:induction false} SumZero(lo: int, hi: int, f: int -> real)
    requires forall x :: lo <= x < hi ==> f(x) == 0.0
    ensures Sum(lo, hi, f) == 0.0
    decreases hi - lo
  {
    if lo < hi {
      SumZero(lo + 1, hi, f);
    }
  }

  lemma {:induction false} SumLinear(lo: int, hi: int, f: int -> real, h: int -> real, k: int -> real, a: real, b: real)
    requires forall x :: lo <= x < hi ==> k(x) == Scale(a, f(x)) + Scale(b, h(x))
    ensures Sum(lo, hi, k) == Scale(a, Sum(lo, hi, f)) + Scale(b, Sum(lo, hi, h))
    decreases hi - lo
  {
    if lo < hi {
      SumLinear(lo + 1, hi, f, h, k, a, b);
    }
  }

  lemma {:induction false} SumSplit(lo: int, mid: int, hi: int, f: int -> real)
    requires lo <= mid <= hi
    ensures Sum(lo, hi, f) == Sum(lo, mid, f) + Sum(mid, hi, f)
    decreases mid - lo
  {
    if lo < mid {
      SumSplit(lo + 1, mid, hi, f);
    }
  }

  /** k times t. The chain rule's products are written through this one
      function, so that two products with equal factors are the same term. */
  function Scale(k: real, t: real): real
  {
    k * t
  }

  /** The partial derivative of node v's value with respect to its left
      operand: 1 for a sum, the right operand's data for a product. */
  function LhsPartial(nodes: seq<Node>, v: nat): real
    requires WellFormed(nodes) && v < |nodes|
  {
    match nodes[v].op
    case Leaf => 0.0
    case Add(_, _) => 1.0
    case Mul(_, j) => nodes[j].data
  }

  /** The partial derivative of node v's value with respect to its right
      operand: 1 for a sum, the left operand's data for a product. */
  function RhsPartial(nodes: seq<Node>, v: nat): real
    requires WellFormed(nodes) && v < |nodes|
  {
    match nodes[v].op
    case Leaf => 0.0
    case Add(_, _) => 1.0
    case Mul(i, _) => nodes[i].data
  }

  /** The backward rules' local derivative is the sum of the partials of the
      operand positions u fills. */
  lemma LocalIsPartials(nodes: seq<Node>, v: nat, u: nat)
    requires WellFormed(nodes) && v < |nodes| && !nodes[v].op.Leaf?
    ensures Local(nodes, v, u) ==
      Scale(LhsPartial(nodes, v), if u == nodes[v].op.lhs then 1.0 else 0.0) +
      Scale(RhsPartial(nodes, v), if u == nodes[v].op.rhs then 1.0 else 0.0)
  {
  }

  /** The derivative of node v's value with respect to node u, by the chain
      rule through v's operands: d(a + b) = da + db, d(a * b) = b da + a db. */
  ghost function Tangent(nodes: seq<Node>, v: nat, u: nat): real
    requires WellFormed(nodes) && v < |nodes|
    decreases v
  {
    if v == u then 1.0
    else match nodes[v].op
      case Leaf => 0.0
      case Add(i, j) => Scale(LhsPartial(nodes, v), Tangent(nodes, i, u)) + Scale(RhsPartial(nodes, v), Tangent(nodes, j, u))
      case Mul(i, j) => Scale(LhsPartial(nodes, v), Tangent(nodes, i, u)) + Scale(RhsPartial(nodes, v), Tangent(nodes, j, u))
  }

  /** The forward derivative of a sum and of a product, written out. */
  lemma TangentRules(nodes: seq<Node>, v: nat, u: nat)
    requires WellFormed(nodes) && v < |nodes| && u != v
    ensures nodes[v].op.Add? ==>
              Tangent(nodes, v, u) == Tangent(nodes, nodes[v].op.lhs, u) + Tangent(nodes, nodes[v].op.rhs, u)
    ensures nodes[v].op.Mul? ==>
              Tangent(nodes, v, u) == Scale(nodes[nodes[v].op.rhs].data, Tangent(nodes, nodes[v].op.lhs, u)) +
                                      Scale(nodes[nodes[v].op.lhs].data, Tangent(nodes, nodes[v].op.rhs, u))
  {
    if nodes[v].op.Add? {
      TangentThroughOperands(nodes, v, u);
      Unscale(Tangent(nodes, v, u), LhsPartial(nodes, v), RhsPartial(nodes, v),
              Tangent(nodes, nodes[v].op.lhs, u), Tangent(nodes, nodes[v].op.rhs, u));
    }
  }

  lemma Unscale(t: real, a: real, b: real, ti: real, tj: real)
    requires t == Scale(a, ti) + Scale(b, tj) && a == 1.0 && b == 1.0
    ensures t == ti + tj
  {
  }

  /** A node's value does not depend on nodes it cannot reach. */
  lemma {:induction false} TangentUnreached(nodes: seq<Node>, v: nat, u: nat)
    requires WellFormed(nodes) && v < |nodes| && u !in Reach(nodes, v)
    ensures Tangent(nodes, v, u) == 0.0
    decreases v
  {
    match nodes[v].op
    case Leaf =>
    case Add(i, j) =>
      TangentUnreached(nodes, i, u);
      TangentUnreached(nodes, j, u);
    case Mul(i, j) =>
      TangentUnreached(nodes, i, u);
      TangentUnreached(nodes, j, u);
  }

  /** Below r, the derivative of r is the partial-weighted sum of its
      operands' derivatives. */
  lemma TangentThroughOperands(nodes: seq<Node>, r: nat, x: nat)
    requires WellFormed(nodes) && r < |nodes| && x != r && !nodes[r].op.Leaf?
    ensures Tangent(nodes, r, x) ==
      Scale(LhsPartial(nodes, r), Tangent(nodes, nodes[r].op.lhs, x)) +
      Scale(RhsPartial(nodes, r), Tangent(nodes, nodes[r].op.rhs, x))
  {
  }

  /** The term for node x of the last-edge form of Tangent(r, u): the local
      derivative of x with respect to u times the derivative of r with
      respect to x, for the nodes x above u that r reaches. */
  ghost function LastEdgeTerm(nodes: seq<Node>, r: nat, u: nat, x: int): real
    requires WellFormed(nodes) && r < |nodes|
  {
    if u < x <= r && x in Reach(nodes, r) then Scale(Local(nodes, x, u), Tangent(nodes, r, x)) else 0.0
  }

  ghost function LastEdgeTerms(nodes: seq<Node>, r: nat, u: nat): int -> real
    requires WellFormed(nodes) && r < |nodes|
  {
    x => LastEdgeTerm(nodes, r, u, x)
  }

  /** The chain rule read from the other end: the derivative of r with
      respect to u is the sum, over the nodes x that consume u, of x's local
      derivative with respect to u times the derivative of r with respect to x. */
  lemma {:induction false} LastEdge(nodes: seq<Node>, r: nat, u: nat)
    requires WellFormed(nodes) && r < |nodes| && u < r
    ensures Tangent(nodes, r, u) == Sum(u + 1, r + 1, LastEdgeTerms(nodes, r, u))
    decreases r, 2
  {
    var f := LastEdgeTerms(nodes, r, u);
    if nodes[r].op.Leaf? {
      forall x | u + 1 <= x < r + 1
        ensures f(x) == 0.0
      {
        assert Reach(nodes, r) == {r};
      }
      SumZero(u + 1, r + 1, f);
    } else {
      LastEdgeThroughOperands(nodes, r, u);
    }
  }

  /** The step of LastEdge for a node r with operands. */
  lemma {:induction false} LastEdgeThroughOperands(nodes: seq<Node>, r: nat, u: nat)
    requires WellFormed(nodes) && r < |nodes| && u < r && !nodes[r].op.Leaf?
    ensures Tangent(nodes, r, u) == Sum(u + 1, r + 1, LastEdgeTerms(nodes, r, u))
    decreases r, 1
  {
    var i, j := nodes[r].op.lhs, nodes[r].op.rhs;
    var a, b := LhsPartial(nodes, r), RhsPartial(nodes, r);
    var f, fi, fj := LastEdgeTerms(nodes, r, u), LastEdgeTerms(nodes, i, u), LastEdgeTerms(nodes, j, u);
    forall x | u + 1 <= x < r
      ensures f(x) == Scale(a, fi(x)) + Scale(b, fj(x))
    {
      TermThroughOperands(nodes, r, u, x);
    }
    SumLinear(u + 1, r, fi, fj, f, a, b);
    OperandPart(nodes, i, u, r);
    OperandPart(nodes, j, u, r);
    SumSplit(u + 1, r, r + 1, f);
    var di := if u == i then 1.0 else 0.0;
    var dj := if u == j then 1.0 else 0.0;
    LocalIsPartials(nodes, r, u);
    assert f(r) == Scale(Local(nodes, r, u), 1.0);
    TangentThroughOperands(nodes, r, u);
    Regroup(Tangent(nodes, r, u), a, b, Tangent(nodes, i, u), Tangent(nodes, j, u), di, dj,
            Sum(u + 1, r, f), Local(nodes, r, u), f(r));
  }

  lemma Regroup(t: real, a: real, b: real, ti: real, tj: real, di: real, dj: real, s: real, l: real, last: real)
    requires t == Scale(a, ti) + Scale(b, tj)
    requires s == Scale(a, ti - di) + Scale(b, tj - dj)
    requires l == Scale(a, di) + Scale(b, dj) && last == Scale(l, 1.0)
    ensures t == s + last
  {
  }

  lemma Distribute(l: real, tr: real, a: real, b: real, ti: real, tj: real)
    requires tr == Scale(a, ti) + Scale(b, tj)
    ensures Scale(l, tr) == Scale(a, Scale(l, ti)) + Scale(b, Scale(l, tj))
  {
  }

  /** One term of the last-edge sum of r splits along r's two operands. */
  lemma TermThroughOperands(nodes: seq<Node>, r: nat, u: nat, x: nat)
    requires WellFormed(nodes) && r < |nodes| && u < x < r && !nodes[r].op.Leaf?
    ensures LastEdgeTerm(nodes, r, u, x) ==
      Scale(LhsPartial(nodes, r), LastEdgeTerm(nodes, nodes[r].op.lhs, u, x)) +
      Scale(RhsPartial(nodes, r), LastEdgeTerm(nodes, nodes[r].op.rhs, u, x))
  {
    var i, j := nodes[r].op.lhs, nodes[r].op.rhs;
    OperandTerm(nodes, i, u, x);
    OperandTerm(nodes, j, u, x);
    OperandTerm(nodes, r, u, x);
    TangentThroughOperands(nodes, r, x);
    Distribute(Local(nodes, x, u), Tangent(nodes, r, x), LhsPartial(nodes, r), RhsPartial(nodes, r),
               Tangent(nodes, i, x), Tangent(nodes, j, x));
  }

  /** A term of a node's last-edge sum, whether or not the node reaches x. */
  lemma OperandTerm(nodes: seq<Node>, c: nat, u: nat, x: nat)
    requires WellFormed(nodes) && c < |nodes| && u < x < |nodes|
    ensures LastEdgeTerm(nodes, c, u, x) == Scale(Local(nodes, x, u), Tangent(nodes, c, x))
  {
    if x !in Reach(nodes, c) {
      TangentUnreached(nodes, c, x);
    }
  }

  /** The sum over one operand c's last-edge terms, as far as r, is the
      derivative of c with respect to u, less 1 when u is c itself. */
  lemma OperandPart(nodes: seq<Node>, c: nat, u: nat, r: nat)
    requires WellFormed(nodes) && c < r < |nodes| && u < r
    ensures Sum(u + 1, r, LastEdgeTerms(nodes, c, u)) == Tangent(nodes, c, u) - (if u == c then 1.0 else 0.0)
    decreases c, 3
  {
    var fc := LastEdgeTerms(nodes, c, u);
    if u < c {
      SumSplit(u + 1, c + 1, r, fc);
      SumZero(c + 1, r, fc);
      LastEdge(nodes, c, u);
    } else {
      SumZero(u + 1, r, fc);
      if u > c {
        TangentUnreached(nodes, c, u);
      }
    }
  }

  /** The contributions a consumer sum adds up, as a term function. */
  ghost function ContributionTerms(nodes: seq<Node>, g: seq<real>, root: nat, F: set<nat>, u: nat): int -> real
    requires WellFormed(nodes) && |g| == |nodes| && root < |nodes|
  {
    x => ContributionTerm(nodes, g, root, F, u, x)
  }

  ghost function ContributionTerm(nodes: seq<Node>, g: seq<real>, root: nat, F: set<nat>, u: nat, x: int): real
    requires WellFormed(nodes) && |g| == |nodes| && root < |nodes|
  {
    if u < x <= root then Contribution(nodes, g, root, F, u, x) else 0.0
  }

  lemma {:induction false} ConsumerSumIsSum(nodes: seq<Node>, g: seq<real>, root: nat, F: set<nat>, u: nat, v: nat)
    requires WellFormed(nodes) && |g| == |nodes| && root < |nodes| && u < v
    ensures ConsumerSum(nodes, g, root, F, u, v) == Sum(v, root + 1, ContributionTerms(nodes, g, root, F, u))
    decreases if v <= root then root + 1 - v else 0
  {
    if v <= root {
      ConsumerSumIsSum(nodes, g, root, F, u, v + 1);
    }
  }

  /** The gradient a backward pass over fresh nodes leaves in u is the
      derivative of the output with respect to u. */
  lemma {:induction false} GradientIsDerivative(nodes: seq<Node>, root: nat, u: nat)
    requires WellFormed(nodes) && root < |nodes| && u < |nodes|
    ensures Gradient(nodes, root, u) == Tangent(nodes, root, u)
    decreases if u <= root then root - u else 0
  {
    var zero := Zeros(|nodes|);
    if u > root {
      TangentUnreached(nodes, root, u);
    } else if u < root {
      var R := Reach(nodes, root);
      var c := ContributionTerms(nodes, zero, root, R, u);
      var t := LastEdgeTerms(nodes, root, u);
      forall x | u + 1 <= x < root + 1
        ensures c(x) == t(x)
      {
        if x in R {
          GradientIsDerivative(nodes, root, x);
          ScaleEqual(Local(nodes, x, u), Gradient(nodes, root, x), Tangent(nodes, root, x));
        }
      }
      ConsumerSumIsSum(nodes, zero, root, R, u, u + 1);
      SumCongruent(u + 1, root + 1, c, t);
      LastEdge(nodes, root, u);
    } else {
      AdjointRoot(nodes, zero, root);
    }
  }

  lemma ScaleEqual(l: real, a: real, t: real)
    requires a == t
    ensures l * a == Scale(l, t)
  {
  }

  /** After a backward pass over nodes that held no gradient, every node the
      output reaches holds the derivative of the output with respect to it. */
  lemma FreshBackwardIsDerivative(nodes: seq<Node>, g: seq<real>, root: nat, u: nat)
    requires WellFormed(nodes) && |g| == |nodes| && root < |nodes|
    requires forall v :: v in Reach(nodes, root) ==> g[v] == 0.0
    requires u in Reach(nodes, root)
    ensures Adjoint(nodes, g, root, u) == Tangent(nodes, root, u)
  {
    if u == root {
      AdjointRoot(nodes, g, root);
    } else {
      AdjointAccumulates(nodes, g, root, u);
      GradientIsDerivative(nodes, root, u);
    }
  }
}
