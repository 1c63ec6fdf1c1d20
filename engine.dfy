/**
 * micrograd's `Value` engine as an arena of nodes whose gradients change in
 * place: forward operations append nodes, each node's backward rule adds to
 * its operands' gradients, and `Backward` sorts the nodes reachable from an
 * output and fires their rules from the output down.
 */
module Engine {
  import opened EngineSpec

  class Graph {
    /** Every `Value` built so far, by index: forward result and operation. */
    var nodes: seq<Node>
    /** The `grad` field of each node, by the same index. */
    var grads: seq<real>

    ghost predicate Valid()
      reads this
    {
      WellFormed(nodes) && |grads| == |nodes|
    }

    /** The nodes and gradients that were there before are still there,
        unchanged, and every node added since starts with gradient 0. */
    ghost predicate Extends(oldNodes: seq<Node>, oldGrads: seq<real>)
      reads this
    {
      |oldNodes| <= |nodes| && nodes[..|oldNodes|] == oldNodes &&
      |oldGrads| == |oldNodes| && |grads| == |nodes| &&
      forall k :: 0 <= k < |grads| ==> grads[k] == if k < |oldGrads| then oldGrads[k] else 0.0
    }

    constructor ()
      ensures Valid() && nodes == [] && grads == []
    {
      nodes, grads := [], [];
    }

    /** `Value.__init__`: a new node with the given data and operation, a
        zero gradient, and the rule its operation tag selects. */
    method Init(x: real, op: Op) returns (v: nat)
      requires Valid() && OperandsBelow(op, |nodes|)
      modifies this
      ensures Valid() && Extends(old(nodes), old(grads))
      ensures v == old(|nodes|) && nodes == old(nodes) + [Node(x, op)]
      ensures grads[v] == 0.0 && Children(nodes[v].op) == Children(op)
    {
      v := |nodes|;
      nodes := nodes + [Node(x, op)];
      grads := grads + [0.0];
    }

    /** The operand as a node: an existing one as it is, a raw number as a
        fresh leaf. */
    method Promote(other: Operand) returns (o: nat)
      requires Valid() && (other.Ref? ==> other.index < |nodes|)
      modifies this
      ensures Valid() && Extends(old(nodes), old(grads)) && o < |nodes|
      ensures other.Ref? ==> o == other.index && nodes == old(nodes)
      ensures other.Lit? ==> o == old(|nodes|) && nodes == old(nodes) + [Node(other.x, Leaf)]
      ensures nodes[o].data == OperandData(old(nodes), other)
    {
      match other
      case Ref(i) =>
        o := i;
      case Lit(x) =>
        o := Init(x, Leaf);
    }

    /** `a + other`: a new node holding the sum, with the add rule. */
    method Add(a: nat, other: Operand) returns (out: nat)
      requires Valid() && a < |nodes| && (other.Ref? ==> other.index < |nodes|)
      modifies this
      ensures Valid() && Extends(old(nodes), old(grads))
      ensures out == |nodes| - 1 && |nodes| == old(|nodes|) + (if other.Lit? then 2 else 1)
      ensures nodes[out].data == old(nodes)[a].data + OperandData(old(nodes), other)
      ensures nodes[out].op == Op.Add(a, OperandIndex(old(nodes), other))
      ensures other.Lit? ==> nodes[out - 1] == Node(other.x, Leaf)
    {
      var o := Promote(other);
      out := Init(nodes[a].data + nodes[o].data, Op.Add(a, o));
    }

    /** `a * other`: a new node holding the product, with the mul rule. */
    method Mul(a: nat, other: Operand) returns (out: nat)
      requires Valid() && a < |nodes| && (other.Ref? ==> other.index < |nodes|)
      modifies this
      ensures Valid() && Extends(old(nodes), old(grads))
      ensures out == |nodes| - 1 && |nodes| == old(|nodes|) + (if other.Lit? then 2 else 1)
      ensures nodes[out].data == old(nodes)[a].data * OperandData(old(nodes), other)
      ensures nodes[out].op == Op.Mul(a, OperandIndex(old(nodes), other))
      ensures other.Lit? ==> nodes[out - 1] == Node(other.x, Leaf)
    {
      var o := Promote(other);
      out := Init(nodes[a].data * nodes[o].data, Op.Mul(a, o));
    }

    /** `-a`, computed as `a * -1.0`. */
    method Neg(a: nat) returns (out: nat)
      requires Valid() && a < |nodes|
      modifies this
      ensures Valid() && Extends(old(nodes), old(grads))
      ensures out == |nodes| - 1 && |nodes| == old(|nodes|) + 2
      ensures nodes[out].data == -old(nodes)[a].data
      ensures nodes[out].op == Op.Mul(a, out - 1) && nodes[out - 1] == Node(-1.0, Leaf)
    {
      out := Mul(a, Lit(-1.0));
    }

    /** `a + other` when the number is on the left (`__radd__`). */
    method RAdd(a: nat, x: real) returns (out: nat)
      requires Valid() && a < |nodes|
      modifies this
      ensures Valid() && Extends(old(nodes), old(grads))
      ensures out == |nodes| - 1 && |nodes| == old(|nodes|) + 2
      ensures nodes[out].data == x + old(nodes)[a].data
      ensures nodes[out].op == Op.Add(a, out - 1) && nodes[out - 1] == Node(x, Leaf)
    {
      out := Add(a, Lit(x));
    }

    /** `a - other`, computed as `a + (-other)`: a node operand is negated
        through `Neg`, a raw number is negated before it is wrapped. */
    method Sub(a: nat, other: Operand) returns (out: nat)
      requires Valid() && a < |nodes| && (other.Ref? ==> other.index < |nodes|)
      modifies this
      ensures Valid() && Extends(old(nodes), old(grads))
      ensures out == |nodes| - 1 && |nodes| == old(|nodes|) + (if other.Lit? then 2 else 3)
      ensures nodes[out].data == old(nodes)[a].data - OperandData(old(nodes), other)
      ensures nodes[out].op == Op.Add(a, out - 1)
      ensures other.Lit? ==> nodes[out - 1] == Node(-other.x, Leaf)
      ensures other.Ref? ==> nodes[out - 1].op == Op.Mul(other.index, out - 2) && nodes[out - 2] == Node(-1.0, Leaf)
      ensures other.Ref? ==> nodes[out - 1].data == -old(nodes)[other.index].data
    {
      match other
      case Ref(b) =>
        var negated := Neg(b);
        out := Add(a, Ref(negated));
      case Lit(x) =>
        out := Add(a, Lit(-x));
    }

    /** `other - a` when the number is on the left (`__rsub__`), computed as `-a + other`. */
    method RSub(a: nat, x: real) returns (out: nat)
      requires Valid() && a < |nodes|
      modifies this
      ensures Valid() && Extends(old(nodes), old(grads))
      ensures out == |nodes| - 1 && |nodes| == old(|nodes|) + 4
      ensures nodes[out].data == x - old(nodes)[a].data
      ensures nodes[out].op == Op.Add(out - 2, out - 1) && nodes[out - 1] == Node(x, Leaf)
      ensures nodes[out - 2].op == Op.Mul(a, out - 3) && nodes[out - 3] == Node(-1.0, Leaf)
      ensures nodes[out - 2].data == -old(nodes)[a].data
    {
      var negated := Neg(a);
      out := Add(negated, Lit(x));
    }

    /** `a * other` when the number is on the left (`__rmul__`). */
    method RMul(a: nat, x: real) returns (out: nat)
      requires Valid() && a < |nodes|
      modifies this
      ensures Valid() && Extends(old(nodes), old(grads))
      ensures out == |nodes| - 1 && |nodes| == old(|nodes|) + 2
      ensures nodes[out].data == x * old(nodes)[a].data
      ensures nodes[out].op == Op.Mul(a, out - 1) && nodes[out - 1] == Node(x, Leaf)
    {
      out := Mul(a, Lit(x));
    }

    /** Calls node v's `_backward`: each operand's gradient grows by v's
        gradient times the local derivative, once per operand position. */
    method ApplyRule(v: nat)
      requires Valid() && v < |nodes|
      modifies this`grads
      ensures Valid() && |grads| == |old(grads)|
      ensures forall u :: 0 <= u < |grads| ==> grads[u] == old(grads)[u] + Local(nodes, v, u) * old(grads)[v]
    {
      match nodes[v].op
      case Leaf =>
      case Add(i, j) =>
        var up := grads[v];
        grads := grads[i := grads[i] + up];
        grads := grads[j := grads[j] + up];
      case Mul(i, j) =>
        var up := grads[v];
        grads := grads[i := grads[i] + up * nodes[j].data];
        grads := grads[j := grads[j] + up * nodes[i].data];
    }

    /** The inner `visit` of `backward`: if v is not yet visited, mark it,
        visit its children in any order, then append it to topo. Nodes that
        are visited but not yet in topo are the ones whose visit is still
        running; all of them lie above v. */
    method Visit(v: nat, visited: set<nat>, topo: seq<nat>) returns (visited': set<nat>, topo': seq<nat>)
      requires Valid() && v < |nodes|
      requires Distinct(topo) && ChildrenFirst(nodes, topo)
      requires forall u :: u in topo ==> u in visited
      requires forall u :: u in visited && u !in topo ==> v < u
      ensures Distinct(topo') && ChildrenFirst(nodes, topo')
      ensures |topo| <= |topo'| && topo'[..|topo|] == topo
      ensures visited' == visited + Reach(nodes, v)
      ensures forall u :: u in topo' <==> u in topo || u in Reach(nodes, v)
      ensures v !in visited ==> topo'[|topo'| - 1] == v
      decreases v
    {
      if v in visited {
        ChildrenFirstHoldsReach(nodes, topo, v);
        return visited, topo;
      }
      visited' := visited + {v};
      topo' := topo;
      var rest := Children(nodes[v].op);
      while rest != {}
        invariant rest <= Children(nodes[v].op)
        invariant Distinct(topo') && ChildrenFirst(nodes, topo')
        invariant |topo| <= |topo'| && topo'[..|topo|] == topo
        invariant forall u :: u in topo' ==> u in topo || (u in Reach(nodes, v) && u != v)
        invariant forall c :: c in Children(nodes[v].op) && c !in rest ==> c in topo'
        invariant forall u :: u in visited' <==> u in visited || u == v || u in topo'
        decreases rest
      {
        var c :| c in rest;
        rest := rest - {c};
        ChildReach(nodes, v, c);
        ghost var before := topo';
        visited', topo' := Visit(c, visited', topo');
        assert topo'[..|topo|] == before[..|topo|];
      }
      ReachOfPlacedChildren(nodes, topo', v);
      AppendPlaced(nodes, topo', v);
      topo' := topo' + [v];
    }

    /** The first half of `backward`: the nodes reachable from root, each
        once, every one after its children, root last. */
    method TopoSort(root: nat) returns (topo: seq<nat>)
      requires Valid() && root < |nodes|
      ensures Distinct(topo) && ChildrenFirst(nodes, topo)
      ensures forall u :: u in topo <==> u in Reach(nodes, root)
      ensures |topo| > 0 && topo[|topo| - 1] == root
    {
      var visited;
      visited, topo := Visit(root, {}, []);
    }

    /** `backward` as intended: sort, seed the root with 1, then fire every
        reachable node's rule from the root down. Each node ends with the
        gradient `Adjoint` describes; nothing else changes. */
    method Backward(root: nat)
      requires Valid() && root < |nodes|
      modifies this`grads
      ensures Valid() && |grads| == |nodes|
      ensures forall u :: 0 <= u < |nodes| ==> grads[u] == Adjoint(nodes, old(grads), root, u)
    {
      var topo := TopoSort(root);
      ghost var g0 := grads;
      grads := grads[root := 1.0];
      ghost var seed := grads;
      var i := |topo|;
      NoneFired(nodes, g0, root, topo);
      while i > 0
        invariant 0 <= i <= |topo|
        invariant Valid()
        invariant forall u :: 0 <= u < |nodes| ==>
          grads[u] == seed[u] + ConsumerTotal(nodes, g0, root, FiredFrom(topo, i), u)
      {
        ghost var before := grads;
        ApplyRule(topo[i - 1]);
        FireNext(nodes, g0, root, topo, i, seed, before, grads);
        i := i - 1;
      }
      assert FiredFrom(topo, 0) == Reach(nodes, root) by {
        assert topo[0..] == topo;
      }
    }

    /** `backward` as written: `visit` is defined but never called, so topo
        stays empty, the loop fires nothing, and only the root's gradient
        changes, to 1. */
    method BackwardAsWritten(root: nat)
      requires Valid() && root < |nodes|
      modifies this`grads
      ensures Valid() && grads == old(grads)[root := 1.0]
    {
      var topo: seq<nat> := [];
      grads := grads[root := 1.0];
      // The loop over the reversed, empty topo has no iterations.
    }

    /** `__add__` as written: the node is built and its rule attached, but
        nothing is returned. */
    method AddAsWritten(a: nat, other: Operand) returns (r: Option<nat>)
      requires Valid() && a < |nodes| && (other.Ref? ==> other.index < |nodes|)
      modifies this
      ensures Valid() && Extends(old(nodes), old(grads))
      ensures |nodes| == old(|nodes|) + (if other.Lit? then 2 else 1)
      ensures nodes[|nodes| - 1].data == old(nodes)[a].data + OperandData(old(nodes), other)
      ensures nodes[|nodes| - 1].op == Op.Add(a, OperandIndex(old(nodes), other))
      ensures other.Lit? ==> nodes[|nodes| - 2] == Node(other.x, Leaf)
      ensures r == None
    {
      var out := Add(a, other);
      r := None;
    }

    /** `__mul__` as written: the node is built and its rule attached, but
        nothing is returned. */
    method MulAsWritten(a: nat, other: Operand) returns (r: Option<nat>)
      requires Valid() && a < |nodes| && (other.Ref? ==> other.index < |nodes|)
      modifies this
      ensures Valid() && Extends(old(nodes), old(grads))
      ensures |nodes| == old(|nodes|) + (if other.Lit? then 2 else 1)
      ensures nodes[|nodes| - 1].data == old(nodes)[a].data * OperandData(old(nodes), other)
      ensures nodes[|nodes| - 1].op == Op.Mul(a, OperandIndex(old(nodes), other))
      ensures other.Lit? ==> nodes[|nodes| - 2] == Node(other.x, Leaf)
      ensures r == None
    {
      var out := Mul(a, other);
      r := None;
    }
  }
}
