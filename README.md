# micrograd's scalar autodiff engine, in Dafny

This project models the `Value` engine of micrograd (`micrograd/engine.py`):
scalar nodes built by forward arithmetic, each carrying a deferred gradient
rule, and `backward`, which sorts the nodes an output reaches depth-first and
fires their rules from the output down so that gradients arriving along
several paths add up.

- `engine_spec.dfy` (module `EngineSpec`) holds the values:
  - The node shape `Node(data, op)` with the op tag `Leaf | Add(lhs, rhs) | Mul(lhs, rhs)`, which stands in for the `_backward` closure.
  - `Children`, the `_children` set.
  - `Local`, the factor a rule multiplies the output's gradient by for one operand, with each operand position counted.
  - Reachability, and the topological-order predicates.
  - `Adjoint`, a reference definition of the gradient each node ends with. It is stated in index order, without reference to any traversal.
- `engine.dfy` (module `Engine`) is the imperative part:
  - The class `Graph` is an arena. `nodes` are the `Value`s by index, and `grads` are their `grad` fields, changed in place.
  - The forward operators append nodes, and every operand index is below the index of its consumer, so the graph is acyclic by construction.
  - `ApplyRule` is a node's `_backward`.
  - `Visit` is the recursive inner `visit` with its `visited` set and `topo` list.
  - `Backward` is the whole pass. It is proved to leave exactly `Adjoint` in every node.
- `chain_rule.dfy` (module `ChainRule`) defines the forward derivative `Tangent` by the sum and product rules. It proves that the gradient a backward pass over fresh nodes computes equals that derivative.
- `examples.dfy` (module `Examples`) builds small expressions through the operators and states the gradients backward leaves. It includes the commented `c = a + b; d = a * 2; out = c + d`, the case `x + x`, a diamond, and two passes that accumulate.

Three defects in the code keep it from doing what its comments and structure intend: `__add__` and `__mul__` build the output node but never return it, and `backward` never calls `visit`. The main members model the evidently intended behaviour, and the behaviour as written is modelled beside them by separate members (see Findings).

## Model

| member | source | states |
|---|---|---|
| `Engine.Graph.Init` | micrograd/engine.py:4-12 | A new node is appended with the given data and operation and gradient 0. Its children are the set of its operands, and the operation also selects its rule (see Left out). Every earlier node and gradient is unchanged. |
| `Engine.Graph.Promote` | micrograd/engine.py:15 | An operand that is already a node is used as it is. A raw number becomes a fresh leaf holding that number. |
| `Engine.Graph.Add` | micrograd/engine.py:14-24 | `a + other` appends a node whose data is the sum of the operands' data and whose operation is the add of `a` and the (promoted) operand. Nothing that existed changes, and the graph stays acyclic. |
| `Engine.Graph.Mul` | micrograd/engine.py:26-32 | `a * other` appends a node whose data is the product of the operands' data, with the mul operation. Nothing that existed changes. |
| `Engine.Graph.Neg` | micrograd/engine.py:34-35 | `-a` is a product node of `a` and a fresh leaf holding -1, with data `-a.data`. |
| `Engine.Graph.RAdd` | micrograd/engine.py:37-38 | `x + a` for a number x is the add node of `a` and a leaf holding x, with data `x + a.data`. |
| `Engine.Graph.Sub` | micrograd/engine.py:40-41 | `a - other` is the add node of `a` and the negation of `other`, with data `a.data - other.data`. A node operand is negated through a product with -1, a node holding `-other.data`. A number is negated before it is wrapped. |
| `Engine.Graph.RSub` | micrograd/engine.py:43-44 | `x - a` for a number x is the add node of `-a` (a product of `a` and -1 holding `-a.data`) and a leaf holding x, with data `x - a.data`. |
| `Engine.Graph.RMul` | micrograd/engine.py:46-47 | `x * a` for a number x is the mul node of `a` and a leaf holding x, with data `x * a.data`. |
| `Engine.Graph.ApplyRule` | micrograd/engine.py:17-31 | Firing node v's rule adds v's gradient times `Local(v, u)` to every node u and changes nothing else. It adds to the existing gradient and does not overwrite it. |
| `EngineSpec.LocalOnlyOnChildren` | micrograd/engine.py:17-31 | A rule leaves every node that is not one of its operands unchanged. A leaf's rule changes nothing. |
| `EngineSpec.SelfAddCountsTwice` | micrograd/engine.py:7-23 | For `x + x`, the children set is `{x}`, yet the add rule raises x's gradient by twice the output's gradient. |
| `EngineSpec.MulScalesByOtherFactor` | micrograd/engine.py:29-31 | The mul rule scales the output's gradient by the other factor's data, for each factor. |
| `EngineSpec.Reach` | micrograd/engine.py:67-73 | The nodes reachable from v include v and lie at or below v. |
| `EngineSpec.ReachClosed` | micrograd/engine.py:70-71 | The children of a reachable node are reachable. |
| `EngineSpec.ChildReach` | micrograd/engine.py:70-71 | A child lies below its consumer. What a child reaches, its consumer reaches, and the consumer is not among those nodes. |
| `EngineSpec.ChildrenFirstHoldsReach` | micrograd/engine.py:67-73 | Once a node is in an order that puts children first, everything it reaches is in it too. |
| `EngineSpec.ReachOfPlacedChildren` | micrograd/engine.py:70-73 | When all of v's children are placed, everything v reaches except v is placed. |
| `EngineSpec.AppendPlaced` | micrograd/engine.py:72-73 | Appending an unplaced node whose children are all placed keeps the order distinct and children-first. |
| `Engine.Graph.Visit` | micrograd/engine.py:67-73 | `visit(v)` marks exactly what v reaches as visited and adds each such node to `topo` once, after its children. Entries already in `topo` stay in place. If v was new, it is appended last. |
| `Engine.Graph.TopoSort` | micrograd/engine.py:59-73 | Visiting from the root yields each reachable node exactly once, every node after its children, with the root last. |
| `EngineSpec.ConsumersBeforeOperands` | micrograd/engine.py:77-78 | In that order, every consumer comes after its operands, so walking it in reverse fires every consumer first. |
| `EngineSpec.FiringIsComplete` | micrograd/engine.py:77-79 | When the reverse walk reaches a node, all of its reachable consumers have fired, so its gradient is already final. |
| `EngineSpec.FireNext` | micrograd/engine.py:77-79 | Firing the next node of the reverse walk turns the gradients of "positions i and up have fired" into those of "positions i - 1 and up have fired". |
| `Engine.Graph.Backward` | micrograd/engine.py:58-79 | After the intended `backward`, every node holds `Adjoint`: the root holds 1, and each other node holds its previous gradient plus, for every reachable consumer, that consumer's local derivative times the consumer's final gradient. |
| `EngineSpec.AdjointRoot` | micrograd/engine.py:75-76 | The output's gradient is 1 after backward, whatever it held. |
| `EngineSpec.AdjointUnreached` | micrograd/engine.py:63-79 | A node the output does not reach keeps its gradient. |
| `EngineSpec.AdjointAccumulates` | micrograd/engine.py:11-23 | `backward` never resets. When the reachable non-leaf nodes below the root hold gradient 0 before the pass (they were freshly built), each reachable node below the root ends with its previous gradient plus the gradient a fresh pass computes, so the leaves' gradients add up over passes on fresh graphs. Without that condition stale inner gradients are propagated too. |
| `ChainRule.LocalIsPartials` | micrograd/engine.py:17-31 | The factor a rule applies to u is the sum of the partial derivatives of the operand positions u fills: 1 and 1 for a sum, the other factor for a product. |
| `ChainRule.TangentRules` | micrograd/engine.py:17-31 | The forward derivative obeys d(a + b) = da + db and d(a * b) = b.data da + a.data db. |
| `ChainRule.LastEdge` | micrograd/engine.py:18-23 | The derivative of the output with respect to u is the sum over u's consumers x of x's local derivative with respect to u times the derivative of the output with respect to x. This is the multi-variable case that the add rule's comment says must be summed. |
| `ChainRule.GradientIsDerivative` | micrograd/engine.py:58-79 | On fresh gradients, the gradient `backward` leaves in each node is the derivative of the output with respect to that node. |
| `ChainRule.FreshBackwardIsDerivative` | micrograd/engine.py:58-79 | The same holds whenever the nodes the output reaches hold gradient 0 before the pass. |
| `Examples.FreshBackward` | micrograd/engine.py:58-79 | A backward pass over freshly built nodes leaves the output's derivative in every node the output reaches. |
| `Examples.CommentedGraphGradient` | micrograd/engine.py:18-23 | For `c = a + b; d = a * 2; out = c + d`, the gradient of a is 3 and that of b is 1. |
| `Examples.CommentedExample` | micrograd/engine.py:18-23 | Building that expression with the operators and running `backward` gives `a.grad == 3` and `b.grad == 1`. |
| `Examples.SelfAddExample` | micrograd/engine.py:22-23 | `y = x + x; y.backward()` leaves `x.grad == 2`. |
| `Examples.DiamondExample` | micrograd/engine.py:77-79 | `b = a * 2; c = a * 3; d = b + c; d.backward()` leaves `a.grad == 5`, the sum along both paths. |
| `Examples.AccumulateExample` | micrograd/engine.py:11-23 | Two losses `w * x1` and `w * x2`, each followed by `backward` without a reset, leave `w.grad == x1 + x2`. |
| `Engine.Graph.AddAsWritten` | micrograd/engine.py:14-24 | As written, `__add__` still appends the sum node with the add rule (after a fresh leaf for a number operand), but returns nothing. |
| `Engine.Graph.MulAsWritten` | micrograd/engine.py:26-32 | As written, `__mul__` still appends the product node with the mul rule (after a fresh leaf for a number operand), but returns nothing. |
| `Engine.Graph.BackwardAsWritten` | micrograd/engine.py:58-79 | As written, `backward` changes only the output's gradient, which it sets to 1. |
| `Examples.SelfAddAsWritten` | micrograd/engine.py:63-79 | With `__add__` returning its output but `backward` as written, `y = x + x; y.backward()` leaves `x.grad == 0` and `y.grad == 1`. |

## Left out

- `micrograd/nn.py` is not part of this model. It is a composition layer over the engine with randomly initialised weights, and it calls a `relu` the engine does not have.
- `zero_grad` (in `nn.py`) is not modelled. A reset is not part of the engine.
- Power, ReLU and division are left out. `engine.py` defines no `__pow__` and no `relu`. `__truediv__` (line 49-50) computes `other * other**-1`, which depends on the missing power operator. `__rtruediff__` (line 52-53) is misspelled, so Python never calls it.
- IEEE-754 floating point is left out: `data` and `grad` are mathematical reals, with no rounding, infinities or NaN.
- The `_op` label and `__repr__` are left out. They are informational and no operation reads them.
- The closures stored in `_backward` are replaced by the op tag. The rule a node fires is chosen from its operation, with the operands' indices and data read from the arena. Data never changes after a node is built, so this reads the same values the closures captured.
- Object identity and hashing in the `visited` set become node indices. The iteration order of the `_children` set is unspecified in Python. `Visit` picks the next child nondeterministically, and its contract holds for every order.
- Promotion of non-`Value` operands covers numbers only: an operand is either a node or a real number, which becomes a fresh leaf.
- Engine.Graph.Init merges `__init__` (lines 4-12) with the rule assignment that only `__add__` and `__mul__` make (lines 24 and 32): the op tag it is given is both the node's children and its rule. A `Value` built directly with `_children`, which keeps the no-op rule `__init__` sets on line 10, is not modelled; nor is its data, which `__init__` does not tie to its children. Every node with operands in the model was built by `Add` or `Mul`, whose data is the sum or product of its operands'.
- Python's recursion limit is not modelled. The intended `visit` recurses once per level of the graph (lines 67-71), so in CPython a deep enough chain (for instance `s = s + x` repeated a few thousand times) makes `backward` raise `RecursionError`. `Visit` and `Backward` succeed at any depth.

## Findings

| source | as written | input that shows it | evidently intended | confidence | as-written member | corrected member |
|---|---|---|---|---|---|---|
| micrograd/engine.py:14-24 | `__add__` builds `output` and sets its rule but has no `return`, so `a + b` evaluates to `None`, and so do `2 + a` and `a - 2`, built on it (`__radd__`, and `a + (-2)` in `__sub__`) | `Value(1.0) + Value(2.0)` yields `None` | `return output` | not executed | `Engine.Graph.AddAsWritten` | `Engine.Graph.Add` |
| micrograd/engine.py:26-32 | `__mul__` has no `return` either, so `a * b` evaluates to `None`, and so do `-a` and `2 * a`, built on it (`a - b` for a node `b` and `2 - a` go on to raise `TypeError`) | `Value(2.0) * Value(3.0)` yields `None` | `return output` | not executed | `Engine.Graph.MulAsWritten` | `Engine.Graph.Mul` |
| micrograd/engine.py:67-78 | `visit` is defined but never called, so `topo` stays empty and the loop fires no rule; only the output's gradient is set | with `__add__` returning its output, `x = Value(3.0); y = x + x; y.backward()` leaves `x.grad == 0` instead of 2 (`Examples.SelfAddAsWritten`) | call `visit(self)` before seeding and looping | not executed | `Engine.Graph.BackwardAsWritten` | `Engine.Graph.Backward` |
