/**
 * The scalar expression graph of micrograd's `Value` engine, as values:
 * the shape of a node, the local derivative each operation's backward rule
 * applies, the set of nodes reachable from an output, and the gradient a
 * backward pass is meant to leave in every node.
 *
 * Nodes live in an arena (a sequence) and are named by their index. Every
 * operand index is smaller than the index of the node that uses it, so the
 * graph is acyclic by construction.
 */
module EngineSpec {

  /** How a node was made. The tag replaces the `_backward` closure: the
      rule to run is chosen from it. Operands are kept in order, so `x + x`
      is `Add(x, x)` even though its set of children is `{x}`. */
  datatype Op = Leaf | Add(lhs: nat, rhs: nat) | Mul(lhs: nat, rhs: nat)

  /** A `Value` without its gradient: the forward result and its provenance.
      Neither changes once the node exists; the gradient is kept beside the
      arena because it is the one part that does change. */
  datatype Node = Node(data: real, op: Op)

  /** The right operand of a forward operation: an existing node, or a raw
      number that the operation first wraps as a fresh leaf. */
  datatype Operand = Ref(index: nat) | Lit(x: real)

  /** The data the operand contributes once it is a node. */
  function OperandData(nodes: seq<Node>, other: Operand): real
    requires other.Ref? ==> other.index < |nodes|
  {
    match other
    case Ref(i) => nodes[i].data
    case Lit(x) => x
  }

  /** The index the operand has once it is a node: a raw number becomes the
      next node of the arena. */
  function OperandIndex(nodes: seq<Node>, other: Operand): nat
  {
    match other
    case Ref(i) => i
    case Lit(_) => |nodes|
  }

  datatype Option<T> = None | Some(value: T)

  /** The node's `_children`: a set, so a repeated operand appears once. */
  function Children(op: Op): set<nat>
  {
    match op
    case Leaf => {}
    case Add(i, j) => {i, j}
    case Mul(i, j) => {i, j}
  }

  predicate OperandsBelow(op: Op, v: nat)
  {
    op.Leaf? || (op.lhs < v && op.rhs < v)
  }

  /** Every node refers only to nodes created before it. */
  predicate WellFormed(nodes: seq<Node>)
  {
    forall v :: 0 <= v < |nodes| ==> OperandsBelow(nodes[v].op, v)
  }

  /** The partial derivative of node v's value with respect to node u, with
      both operand positions counted: what v's backward rule multiplies v's
      gradient by before adding it to u's. */
  function Local(nodes: seq<Node>, v: nat, u: nat): real
    requires WellFormed(nodes) && v < |nodes|
  {
    match nodes[v].op
    case Leaf => 0.0
    case Add(i, j) => (if u == i then 1.0 else 0.0) + (if u == j then 1.0 else 0.0)
    case Mul(i, j) => (if u == i then nodes[j].data else 0.0) + (if u == j then nodes[i].data else 0.0)
  }

  /** A rule only touches the node's own operands. */
  lemma LocalOnlyOnChildren(nodes: seq<Node>, v: nat, u: nat)
    requires WellFormed(nodes) && v < |nodes|
    requires u !in Children(nodes[v].op)
    ensures Local(nodes, v, u) == 0.0
  {
  }

  /** The add rule of `x + x` raises x's gradient by twice the output's. */
  lemma SelfAddCountsTwice(nodes: seq<Node>, v: nat)
    requires WellFormed(nodes) && v < |nodes| && nodes[v].op.Add?
    requires nodes[v].op.lhs == nodes[v].op.rhs
    ensures Children(nodes[v].op) == {nodes[v].op.lhs}
    ensures Local(nodes, v, nodes[v].op.lhs) == 2.0
  {
  }

  /** The mul rule of `a * b` (a, b distinct) scales by the other factor. */
  lemma MulScalesByOtherFactor(nodes: seq<Node>, v: nat)
    requires WellFormed(nodes) && v < |nodes| && nodes[v].op.Mul?
    requires nodes[v].op.lhs != nodes[v].op.rhs
    ensures Local(nodes, v, nodes[v].op.lhs) == nodes[nodes[v].op.rhs].data
    ensures Local(nodes, v, nodes[v].op.rhs) == nodes[nodes[v].op.lhs].data
  {
  }

  /** The nodes reachable from v along operand edges, v included. */
  ghost function Reach(nodes: seq<Node>, v: nat): (r: set<nat>)
    requires WellFormed(nodes) && v < |nodes|
    ensures v in r
    ensures forall u :: u in r ==> u <= v
    decreases v
  {
    match nodes[v].op
    case Leaf => {v}
    case Add(i, j) => {v} + Reach(nodes, i) + Reach(nodes, j)
    case Mul(i, j) => {v} + Reach(nodes, i) + Reach(nodes, j)
  }

  /** Reachability is closed under taking operands. */
  lemma {:induction false} ReachClosed(nodes: seq<Node>, root: nat, v: nat, c: nat)
    requires WellFormed(nodes) && root < |nodes|
    requires v in Reach(nodes, root) && c in Children(nodes[v].op)
    ensures c in Reach(nodes, root)
    decreases root
  {
    if v != root {
      var i, j := nodes[root].op.lhs, nodes[root].op.rhs;
      if v in Reach(nodes, i) {
        ReachClosed(nodes, i, v, c);
      } else {
        ReachClosed(nodes, j, v, c);
      }
    }
  }

  /** Every index of the order occurs once. */
  predicate Distinct(topo: seq<nat>)
  {
    forall p, q :: 0 <= p < q < |topo| ==> topo[p] != topo[q]
  }

  /** Every entry is a node of the arena and comes after all of its operands. */
  predicate ChildrenFirst(nodes: seq<Node>, topo: seq<nat>)
  {
    forall p :: 0 <= p < |topo| ==>
      topo[p] < |nodes| && forall c :: c in Children(nodes[topo[p]].op) ==> c in topo[..p]
  }

  /** A prefix of a children-first order holds everything reachable from its members. */
  lemma {:induction false} ChildrenFirstHoldsReach(nodes: seq<Node>, topo: seq<nat>, v: nat)
    requires WellFormed(nodes) && ChildrenFirst(nodes, topo)
    requires v in topo
    ensures v < |nodes|
    ensures forall u :: u in Reach(nodes, v) ==> u in topo
    decreases v
  {
    var p :| 0 <= p < |topo| && topo[p] == v;
    match nodes[v].op
    case Leaf =>
    case Add(i, j) =>
      assert i in topo[..p] && j in topo[..p];
      ChildrenFirstHoldsReach(nodes, topo, i);
      ChildrenFirstHoldsReach(nodes, topo, j);
    case Mul(i, j) =>
      assert i in topo[..p] && j in topo[..p];
      ChildrenFirstHoldsReach(nodes, topo, i);
      ChildrenFirstHoldsReach(nodes, topo, j);
  }

  /** Once all of v's children are in a children-first order, so is
      everything reachable from v except v itself. */
  lemma ReachOfPlacedChildren(nodes: seq<Node>, topo: seq<nat>, v: nat)
    requires WellFormed(nodes) && ChildrenFirst(nodes, topo) && v < |nodes|
    requires forall c :: c in Children(nodes[v].op) ==> c in topo
    ensures forall u :: u in Reach(nodes, v) ==> u == v || u in topo
  {
    match nodes[v].op
    case Leaf =>
    case Add(i, j) =>
      ChildrenFirstHoldsReach(nodes, topo, i);
      ChildrenFirstHoldsReach(nodes, topo, j);
    case Mul(i, j) =>
      ChildrenFirstHoldsReach(nodes, topo, i);
      ChildrenFirstHoldsReach(nodes, topo, j);
  }

  /** A node whose children are all placed, and which is not placed itself,
      may be appended to a distinct children-first order. */
  lemma AppendPlaced(nodes: seq<Node>, topo: seq<nat>, v: nat)
    requires Distinct(topo) && ChildrenFirst(nodes, topo) && v < |nodes| && v !in topo
    requires forall c :: c in Children(nodes[v].op) ==> c in topo
    ensures Distinct(topo + [v]) && ChildrenFirst(nodes, topo + [v])
  {
    var t := topo + [v];
    forall p | 0 <= p < |t|
      ensures t[p] < |nodes| && forall c :: c in Children(nodes[t[p]].op) ==> c in t[..p]
    {
      if p < |topo| {
        assert t[..p] == topo[..p];
      } else {
        assert t[..p] == topo;
      }
    }
  }

  /** Everything reachable from an operand is reachable from its consumer,
      which is itself not reachable from the operand. */
  lemma ChildReach(nodes: seq<Node>, v: nat, c: nat)
    requires WellFormed(nodes) && v < |nodes| && c in Children(nodes[v].op)
    ensures c < v
    ensures forall u :: u in Reach(nodes, c) ==> u in Reach(nodes, v) && u != v
  {
  }

  /** Read backwards, a distinct children-first order lists every consumer
      before each of its operands. */
  lemma ConsumersBeforeOperands(nodes: seq<Node>, topo: seq<nat>, p: nat, q: nat)
    requires Distinct(topo) && ChildrenFirst(nodes, topo)
    requires p < |topo| && q < |topo| && topo[q] in Children(nodes[topo[p]].op)
    ensures q < p
  {
    assert topo[q] in topo[..p];
    var q' :| 0 <= q' < p && topo[..p][q'] == topo[q];
    assert topo[q'] == topo[q];
  }

  /** The gradient `backward` from `root` leaves in node u when the nodes held
      gradients g before: the root is set to 1, and every other node keeps
      what it had plus, for each reachable consumer x, the local derivative
      of x with respect to u times x's own final gradient. Defined in index
      order, without reference to the traversal. */
  ghost function Adjoint(nodes: seq<Node>, g: seq<real>, root: nat, u: nat): real
    requires WellFormed(nodes) && |g| == |nodes| && root < |nodes| && u < |nodes|
    decreases if u <= root then root - u else 0, 2
  {
    if u > root then g[u]
    else (if u == root then 1.0 else g[u]) + ConsumerSum(nodes, g, root, Reach(nodes, root), u, u + 1)
  }

  /** Everything the consumers in F add to u's gradient. */
  ghost function ConsumerTotal(nodes: seq<Node>, g: seq<real>, root: nat, F: set<nat>, u: nat): real
    requires WellFormed(nodes) && |g| == |nodes| && root < |nodes|
  {
    ConsumerSum(nodes, g, root, F, u, u + 1)
  }

  /** The sum, over consumers x in [v, root] that lie in F, of x's contribution to u. */
  ghost function ConsumerSum(nodes: seq<Node>, g: seq<real>, root: nat, F: set<nat>, u: nat, v: nat): real
    requires WellFormed(nodes) && |g| == |nodes| && root < |nodes| && u < v
    decreases if u <= root then root - u else 0, 1, if v <= root then root + 1 - v else 0
  {
    if v > root then 0.0
    else Contribution(nodes, g, root, F, u, v) + ConsumerSum(nodes, g, root, F, u, v + 1)
  }

  /** What consumer x adds to u's gradient when x's rule fires, if x is in F. */
  ghost function Contribution(nodes: seq<Node>, g: seq<real>, root: nat, F: set<nat>, u: nat, x: nat): real
    requires WellFormed(nodes) && |g| == |nodes| && root < |nodes| && u < x <= root
    decreases root - u, 0
  {
    if x in F then Local(nodes, x, u) * Adjoint(nodes, g, root, x) else 0.0
  }

  /** Consumer sums agree when their contributions agree term by term. */
  lemma {:induction false} ConsumerSumCongruent(nodes: seq<Node>, g1: seq<real>, F1: set<nat>,
                                                g2: seq<real>, F2: set<nat>, root: nat, u: nat, v: nat)
    requires WellFormed(nodes) && |g1| == |nodes| && |g2| == |nodes| && root < |nodes| && u < v
    requires forall x :: v <= x <= root ==>
      Contribution(nodes, g1, root, F1, u, x) == Contribution(nodes, g2, root, F2, u, x)
    ensures ConsumerSum(nodes, g1, root, F1, u, v) == ConsumerSum(nodes, g2, root, F2, u, v)
    decreases if v <= root then root + 1 - v else 0
  {
    if v <= root {
      ConsumerSumCongruent(nodes, g1, F1, g2, F2, root, u, v + 1);
    }
  }

  /** Letting one more consumer w into F adds exactly w's contribution. */
  lemma {:induction false} ConsumerSumInsert(nodes: seq<Node>, g: seq<real>, root: nat, F: set<nat>, w: nat, u: nat, v: nat)
    requires WellFormed(nodes) && |g| == |nodes| && root < |nodes| && u < v && w !in F
    ensures ConsumerSum(nodes, g, root, F + {w}, u, v)
         == ConsumerSum(nodes, g, root, F, u, v)
            + (if v <= w <= root then Contribution(nodes, g, root, {w}, u, w) else 0.0)
    decreases if v <= root then root + 1 - v else 0
  {
    if v <= root {
      ConsumerSumInsert(nodes, g, root, F, w, u, v + 1);
    }
  }

  /** A sum over no consumers is zero. */
  lemma {:induction false} ConsumerSumEmpty(nodes: seq<Node>, g: seq<real>, root: nat, u: nat, v: nat)
    requires WellFormed(nodes) && |g| == |nodes| && root < |nodes| && u < v
    ensures ConsumerSum(nodes, g, root, {}, u, v) == 0.0
    decreases if v <= root then root + 1 - v else 0
  {
    if v <= root {
      ConsumerSumEmpty(nodes, g, root, u, v + 1);
    }
  }

  /** A node the root does not reach keeps its gradient. */
  lemma AdjointUnreached(nodes: seq<Node>, g: seq<real>, root: nat, u: nat)
    requires WellFormed(nodes) && |g| == |nodes| && root < |nodes| && u < |nodes|
    requires u !in Reach(nodes, root)
    ensures Adjoint(nodes, g, root, u) == g[u]
  {
    if u <= root {
      var R := Reach(nodes, root);
      forall x | u + 1 <= x <= root
        ensures Contribution(nodes, g, root, R, u, x) == Contribution(nodes, g, root, {}, u, x)
      {
        if x in R && u in Children(nodes[x].op) {
          ReachClosed(nodes, root, x, u);
        }
      }
      ConsumerSumCongruent(nodes, g, R, g, {}, root, u, u + 1);
      ConsumerSumEmpty(nodes, g, root, u, u + 1);
    }
  }

  /** The output's own gradient is 1, whatever it held before. */
  lemma AdjointRoot(nodes: seq<Node>, g: seq<real>, root: nat)
    requires WellFormed(nodes) && |g| == |nodes| && root < |nodes|
    ensures Adjoint(nodes, g, root, root) == 1.0
  {
  }

  /** The gradient of `root` with respect to u, as a backward pass over
      freshly built nodes (all gradients 0) computes it. */
  ghost function Gradient(nodes: seq<Node>, root: nat, u: nat): real
    requires WellFormed(nodes) && root < |nodes| && u < |nodes|
  {
    Adjoint(nodes, Zeros(|nodes|), root, u)
  }

  /** The gradients of n freshly built nodes. */
  function Zeros(n: nat): (z: seq<real>)
    ensures |z| == n && forall k :: 0 <= k < n ==> z[k] == 0.0
  {
    seq(n, _ => 0.0)
  }

  /** Backward never resets: when the reachable non-leaf nodes below the root
      hold no gradient (they were freshly built), every reachable node other
      than the root ends with its previous gradient plus its gradient from
      this pass. So gradients of leaves (parameters) add up over passes. */
  lemma {:induction false} AdjointAccumulates(nodes: seq<Node>, g: seq<real>, root: nat, u: nat)
    requires WellFormed(nodes) && |g| == |nodes| && root < |nodes|
    requires forall v :: v in Reach(nodes, root) && v != root && !nodes[v].op.Leaf? ==> g[v] == 0.0
    requires u in Reach(nodes, root) && u != root
    ensures Adjoint(nodes, g, root, u) == g[u] + Gradient(nodes, root, u)
    decreases root - u
  {
    var zero := Zeros(|nodes|);
    var R := Reach(nodes, root);
    forall x | u + 1 <= x <= root
      ensures Contribution(nodes, g, root, R, u, x) == Contribution(nodes, zero, root, R, u, x)
    {
      if x in R && Local(nodes, x, u) != 0.0 {
        if x == root {
          AdjointRoot(nodes, g, root);
          AdjointRoot(nodes, zero, root);
        } else {
          AdjointAccumulates(nodes, g, root, x);
        }
      }
    }
    ConsumerSumCongruent(nodes, g, R, zero, R, root, u, u + 1);
  }

  /** The nodes whose rules have fired once a reverse walk over topo has
      come down to position i. */
  ghost function FiredFrom(topo: seq<nat>, i: nat): set<nat>
    requires i <= |topo|
  {
    set x | x in topo[i..]
  }

  /** The order visited by the intended traversal fires every consumer before
      its operands, so when the node at position i - 1 fires, the consumers
      fired so far (positions i and up) are all its reachable consumers: its
      gradient is already final. */
  lemma FiringIsComplete(nodes: seq<Node>, g: seq<real>, root: nat, topo: seq<nat>, i: nat)
    requires WellFormed(nodes) && |g| == |nodes| && root < |nodes|
    requires Distinct(topo) && ChildrenFirst(nodes, topo)
    requires forall u :: u in topo <==> u in Reach(nodes, root)
    requires 0 < i <= |topo|
    ensures topo[i - 1] <= root
    ensures ConsumerTotal(nodes, g, root, FiredFrom(topo, i), topo[i - 1])
         == ConsumerTotal(nodes, g, root, Reach(nodes, root), topo[i - 1])
  {
    var w := topo[i - 1];
    assert w in topo;
    var F := FiredFrom(topo, i);
    var R := Reach(nodes, root);
    forall x | w + 1 <= x <= root
      ensures Contribution(nodes, g, root, F, w, x) == Contribution(nodes, g, root, R, w, x)
    {
      if x in F {
        var k :| 0 <= k < |topo[i..]| && topo[i..][k] == x;
        assert topo[i + k] == x;
      }
      if x in R && x !in F && w in Children(nodes[x].op) {
        assert false;
      }
    }
    ConsumerSumCongruent(nodes, g, F, g, R, root, w, w + 1);
  }

  /** One step of the reverse walk: when the rules of positions i and up have
      fired and the node w at position i - 1 fires next, the gradients that
      result are those of positions i - 1 and up having fired. */
  lemma FireNext(nodes: seq<Node>, g: seq<real>, root: nat, topo: seq<nat>, i: nat,
                 seed: seq<real>, before: seq<real>, after: seq<real>)
    requires WellFormed(nodes) && |g| == |nodes| && root < |nodes|
    requires Distinct(topo) && ChildrenFirst(nodes, topo)
    requires forall u :: u in topo <==> u in Reach(nodes, root)
    requires 0 < i <= |topo|
    requires seed == g[root := 1.0] && |before| == |nodes| && |after| == |nodes|
    requires forall u :: 0 <= u < |nodes| ==>
      before[u] == seed[u] + ConsumerTotal(nodes, g, root, FiredFrom(topo, i), u)
    requires forall u :: 0 <= u < |nodes| ==>
      after[u] == before[u] + Local(nodes, topo[i - 1], u) * before[topo[i - 1]]
    ensures forall u :: 0 <= u < |nodes| ==>
      after[u] == seed[u] + ConsumerTotal(nodes, g, root, FiredFrom(topo, i - 1), u)
  {
    var w := topo[i - 1];
    FiringIsComplete(nodes, g, root, topo, i);
    var F := FiredFrom(topo, i);
    assert before[w] == Adjoint(nodes, g, root, w);
    assert w !in F by {
      assert forall k :: 0 <= k < |topo[i..]| ==> topo[i..][k] == topo[i + k] != w;
    }
    assert FiredFrom(topo, i - 1) == F + {w} by {
      assert topo[i - 1..] == [w] + topo[i..];
    }
    forall u | 0 <= u < |nodes|
      ensures after[u] == seed[u] + ConsumerTotal(nodes, g, root, F + {w}, u)
    {
      ConsumerSumInsert(nodes, g, root, F, w, u, u + 1);
    }
  }

  /** Before the walk, no rule has fired. */
  lemma NoneFired(nodes: seq<Node>, g: seq<real>, root: nat, topo: seq<nat>)
    requires WellFormed(nodes) && |g| == |nodes| && root < |nodes|
    ensures forall u :: 0 <= u < |nodes| ==>
      ConsumerTotal(nodes, g, root, FiredFrom(topo, |topo|), u) == 0.0
  {
    assert FiredFrom(topo, |topo|) == {};
    forall u | 0 <= u < |nodes|
      ensures ConsumerTotal(nodes, g, root, {}, u) == 0.0
    {
      ConsumerSumEmpty(nodes, g, root, u, u + 1);
    }
  }
}
