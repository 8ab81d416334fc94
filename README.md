# minigrad in Dafny

A model of minigrad, a scalar reverse-mode automatic differentiation engine,
together with the small neural-network library and the optimizer built on it:

- `Value` (`engine.py`) holds a datum, a gradient, the set `_prev` of the
  values it was computed from, and a closure `_backward`. The closure adds the
  local derivative times the result's gradient to each operand's gradient.
- `Value.backward()` sorts the graph below a value topologically with a
  depth-first `build`. It then resets every gradient in that list to 0, seeds
  its own gradient with 1 and runs the closures in reverse order.
- `Neuron`, `Layer` and `MLP` (`neural_net.py`) create parameter values and
  compute `tanh(b + sum(w * x))` layer by layer.
- `SGD` (`optimizer.py`) moves each listed parameter against its gradient
  (`step`) and resets the gradients (`zero_grad`).

Every `Value` ever built is a node of an arena, `Graph.Arena = seq<Node>`, and
object identity is the node's index. A node records its operation
(`Graph.Op`), which names its operands and selects its backward rule.
Operands always come before the node they produce. `Graph.Valid` is the
arena invariant, and it holds of the whole arena: operands come first, no
negative power has base 0, and no logarithm has argument 0. The backward
rule of a power uses the corrected slope, which is 0 for the exponent 0
(see "## Findings"). With that slope, no rule of a valid arena divides by
zero.

The operators (`Ops`) are functions that append to the arena and return the
new node's index. A Python exception becomes an `Err` of `Graph.Result`.
`backward`, `step` and `zero_grad` change gradients and data in place. They
are methods over an `array<Node>`, each proved against a specification
function:

- `Backprop.BackwardSpec` is defined from `Adjoints.Adjoint`: the total
  derivative, given by the chain rule summed over the reachable consumers. It
  does not depend on any traversal order.
- `Optimizer.StepSpec` moves each node once per listing in the parameter list.
- `Optimizer.ZeroSpec` zeroes the listed gradients.

Modules, one per file:

- `graph.dfy`: `Graph`, the nodes, the arena and the local derivatives.
- `ops.dfy`: `Ops`, the operators.
- `topo.dfy`: `Topo`, the `build` search.
- `adjoint.dfy`: `Adjoints`, the reference gradient.
- `backward.dfy`: `Backprop`, `backward` itself.
- `derivatives.dfy`: `Derivatives`, the gradient of each single operator.
- `net.dfy`: `Net`, the network classes.
- `optimizer.dfy`: `Optimizer`, the SGD optimizer.

## Model

| member | source | states |
|---|---|---|
| Ops.Push | engine.py:6-11 | a new value is appended at the next free index with gradient 0 and the given operands, and the arena stays valid |
| Ops.Constant | engine.py:6-11 | `Value(x)` is a fresh leaf with datum `x` and gradient 0 |
| Ops.Promote | engine.py:18 | a Value operand is used as it is, with no new node; a number becomes exactly one fresh leaf holding it; existing nodes are untouched |
| Ops.Add | engine.py:17-26 | the result holds `a.data + other.data` and gradient 0, and its operands are `a` and the (promoted) other; only the promoted leaf and the result are new |
| Ops.Neg | engine.py:28-35 | one new node holding `-a.data`, with the single operand `a` |
| Ops.Sub | engine.py:37-38 | the result holds `a.data - other.data` and is built as `a + (-other)`: a Value operand gets a negation node, a number is negated before it becomes a leaf |
| Ops.Mul | engine.py:40-49 | the result holds `a.data * other.data` and gradient 0, and its operands are `a` and the (promoted) other |
| Ops.Pow | engine.py:51-59 | fails with AssertionError exactly for a Value exponent and with ZeroDivisionError exactly for zero raised to a negative integer; otherwise appends `a.data ** k` |
| Ops.TrueDiv | engine.py:61-62 | fails, with ZeroDivisionError, exactly when the divisor is 0; otherwise two nodes are new: `other ** -1` (a leaf `1 / c` for a number `c`) and the result, which holds `a.data / other.data` with gradient 0 as the product of `a` and that reciprocal |
| Ops.Exp | engine.py:64-71 | appends `exp(a.data)` with the single operand `a` |
| Ops.Log | engine.py:73-80 | fails with ValueError exactly when `a.data <= 0`; otherwise appends `ln(a.data)` |
| Ops.Tanh | engine.py:82-85 | the composite `(e - 1) / (e + 1)` with `e = exp(2 * a.data)` fails exactly when `e == -1`; otherwise it holds that quotient with gradient 0, appends nine nodes with the exponential third, and the result is the product of the numerator and the reciprocal of the denominator |
| Ops.RMul | engine.py:87-88 | `other * a` appends a leaf holding `other` and a product of `a` and that leaf, holding `other * a.data` with gradient 0 |
| Ops.RAdd | engine.py:90-91 | `other + a` appends a leaf holding `other` and a sum of `a` and that leaf, holding `other + a.data` with gradient 0 |
| Ops.RSubAsWritten | engine.py:93-94 | `other - a` as written appends a leaf holding `-other` and a sum of `a` and that leaf, which holds `a.data - other` |
| Ops.RSub | engine.py:93-94 | `other - a` appends `-a`, a leaf holding `other` and their sum, which holds `other - a.data` with gradient 0 |
| Ops.RSubAsWrittenWrongSign | engine.py:93-94 | `1 - Value(0)` as written holds -1; the corrected version holds 1 |
| Graph.Preds | engine.py:8 | `_prev` is empty exactly for a leaf |
| Graph.Coef | engine.py:17-80 | the local derivative by which a node's rule scales its gradient is 0 for every node that is not one of its operands |
| Graph.IntPow | engine.py:53 | `x ** k` for an integer `k`: a nonzero base never gives 0 |
| Graph.PowSlope | engine.py:55-56 | the corrected local derivative `k * x ** (k - 1)` of `x ** k`, taken as 0 for `k == 0`; no contract of its own, its meaning is stated by `Graph.PowSlopeScaled` |
| Graph.PowSlopeScaled | engine.py:55-56 | the slope vanishes for a constant power, and multiplied by the base it gives `k * x ** k`, for every integer exponent where the power is defined |
| Graph.IntPowSucc | engine.py:53 | `x ** (k + 1) == x * x ** k` for every integer exponent where both sides are defined |
| Graph.IntPowMinusOne | engine.py:62 | `b ** -1 == 1 / b`: division as multiplication by the reciprocal is exact division |
| Graph.ValidShape | engine.py:109-114 | changing gradients alone never breaks the arena invariant |
| Topo.Reach | engine.py:101-105 | the nodes `build` visits from `v`: `v` itself and only nodes created no later than `v` |
| Topo.ReachClosed | engine.py:104 | what `build` visits is closed under `_prev` |
| Topo.ReachTransitive | engine.py:104 | whatever a visited node reaches is visited too |
| Topo.ReachPrefix | engine.py:6-11 | building new values does not change what an existing value reaches |
| Topo.ReachShape | engine.py:101-105 | reachability depends on the operations only, not on data or gradients |
| Topo.Build | engine.py:101-105 | after `build(v)` the list is duplicate-free and topological, extends the old list, and holds exactly the old entries plus everything `v` reaches; the visited set grows by exactly what `v` reaches; a newly visited `v` is appended last |
| Topo.TopoSort | engine.py:98-107 | `nodes` lists every node reachable from the root exactly once, each after all of its operands, with the root last |
| Adjoints.ChainRule | engine.py:97-114 | the reference gradient of `v` is the seed plus, over exactly the reachable nodes that use `v`, the local derivative times their own gradient |
| Adjoints.SingleConsumer | engine.py:97-114 | a value used by a single reachable consumer gets that consumer's gradient times the local derivative |
| Adjoints.TwoConsumers | engine.py:97-114 | a value used by two reachable consumers gets the sum of both contributions (gradients accumulate, `+=`) |
| Adjoints.AdjointRoot | engine.py:112 | the root's own gradient is 1 |
| Adjoints.AdjointShape | engine.py:97-114 | reference gradients depend on data and operations only, never on previously stored gradients |
| Backprop.RuleSpec | engine.py:21-23 | a backward rule changes only the gradients of its own operands |
| Backprop.RuleApplied | engine.py:21-79 | the closures, with the corrected pow slope: running one changes gradients only |
| Backprop.RuleAppliedMeetsSpec | engine.py:21-79 | each operator's closure (pow with the corrected slope), increment by increment, adds exactly the local derivative times `out.grad` to each operand, counted once per slot the operand fills |
| Backprop.Accumulate | engine.py:22 | `v.grad += d` adds `d` to the gradient of `v` and changes nothing else |
| Backprop.ApplyRule | engine.py:21-79 | running a node's `_backward` (pow with the corrected slope) on the array leaves the arena its rule describes |
| Backprop.ZeroGrads | engine.py:109-110 | every listed node has gradient 0 and nothing else changes |
| Backprop.BackwardSpec | engine.py:97-114 | backward changes gradients only: the root gets 1 and nodes the root does not reach are untouched |
| Backprop.Sweep | engine.py:113-114 | running the closures in reverse topological order, starting from the reset and seeded gradients, leaves every reachable node with its reference gradient |
| Backprop.Backward | engine.py:97-114 | after `backward()` on a valid arena, with the corrected pow slope, every node the root reaches holds the total derivative of the root with respect to it, and every other node is unchanged |
| Backprop.BackwardIgnoresGrads | engine.py:109-110 | the gradients `backward` computes do not depend on the gradients held before the call |
| Backprop.BackwardIdempotent | engine.py:97-114 | calling `backward()` twice leaves the same arena as calling it once |
| Backprop.BackwardLeaf | engine.py:107-112 | `backward()` on a leaf sets its gradient to 1 and changes nothing else |
| Derivatives.DirectOperand | engine.py:97-114 | an operand of the root that no other operand reaches gets exactly the root's local derivative with respect to it |
| Derivatives.AddSelf | engine.py:17-26 | for `x + x`, `_prev` is `{x}` and `x` gets gradient 2 |
| Derivatives.MulSelf | engine.py:40-49 | for `x * x`, `_prev` is `{x}` and `x` gets gradient `2 * x.data` |
| Derivatives.AddOperands | engine.py:21-23 | for `a + b` over independent values, both get gradient 1 |
| Derivatives.MulOperands | engine.py:44-46 | for `a * b` over independent values, each gets the other's datum |
| Derivatives.NegOperand | engine.py:31-32 | for `-a`, `a` gets gradient -1 |
| Derivatives.PowOperand | engine.py:55-56 | for `a ** k`, `a` gets `k * a.data ** (k - 1)`, and 0 when `k == 0` |
| Derivatives.ExpOperand | engine.py:67-68 | for `a.exp()`, `a` gets `exp(a.data)`, the result's own datum |
| Derivatives.LogOperand | engine.py:76-77 | for `a.log()`, `a` gets `1 / a.data` |
| Derivatives.PowSlopeAsWritten | engine.py:56 | the pow closure as written fails with ZeroDivisionError exactly at base 0 with an exponent of at most 0, and otherwise gives the corrected slope |
| Derivatives.PowZeroAsWrittenFails | engine.py:51-59 | `Value(0) ** 0` builds, but its closure as written raises, whereas the derivative of a constant power is 0 |
| Derivatives.PowAsWrittenOnlyFailsAtZero | engine.py:51-59 | among powers that build, the closure as written fails only for exponent 0 at base 0 and agrees with the corrected slope elsewhere |
| Net.NeuronParams | neural_net.py:16-17 | a neuron's parameters are its weights in order, followed by its bias: one per weight plus one |
| Net.LayerParams | neural_net.py:28-29 | the parameters of each neuron, in neuron order; no contract of its own, its members are stated by `Net.LayerParamsMembers` and its length by `Net.LayerParamCount` |
| Net.LayerParamsMembers | neural_net.py:28-29 | a layer's parameters are exactly those of its neurons, no more and no fewer |
| Net.MLPParams | neural_net.py:42-43 | the parameters of each layer, in layer order; no contract of its own, its members are stated by `Net.MLPParamsMembers` and its length by `Net.MLPParamCount` |
| Net.MLPParamsMembers | neural_net.py:42-43 | a network's parameters are exactly those of its layers, no more and no fewer |
| Net.LayerParamCount | neural_net.py:28-29 | a `Layer(nin, nout)` has `nout * (nin + 1)` parameters |
| Net.MLPParamCount | neural_net.py:42-43 | an `MLP(nin, nouts)` has the sum over its layers of `nout * (nin + 1)` parameters |
| Net.Leaves | neural_net.py:8 | the weights are fresh leaves holding the initial values, in order |
| Net.NewNeuron | neural_net.py:6-9 | `Neuron(nin)` creates `nin` weight leaves and then a bias leaf, all fresh, holding the given initial values; its parameters are exactly those new values, in creation order |
| Net.NewLayer | neural_net.py:21-22 | `Layer(nin, nout)` has `nout` neurons of fan-in `nin`, and its parameters are exactly the values it created, in order |
| Net.NewMLP | neural_net.py:33-35 | `MLP(nin, nouts)` has layer `i` mapping `sizes[i]` inputs to `sizes[i + 1]` outputs, and its parameters are exactly the values it created, in order |
| Net.DotFrom | neural_net.py:13 | the dot product of the weights with the input over the pairs `zip` yields; no contract of its own, its `zip` behaviour is stated by `Net.DotFromZip` |
| Net.DotFromZip | neural_net.py:13 | pairs beyond the shorter of the weights and the input contribute nothing: cutting both lists to the shorter length leaves the dot product unchanged |
| Net.PreActivation | neural_net.py:13 | the bias plus that dot product; no contract of its own, it is what `Net.SumFrom` computes and what `Net.NeuronCall` squashes |
| Net.Squash | engine.py:82-85 | the value `tanh` computes, `(e - 1) / (e + 1)` with `e = exp(2z)`; no contract of its own, its range is stated by `Net.SquashRange` |
| Net.SquashRange | engine.py:82-85 | that value solves `r * (e + 1) == e - 1`, is never 1, and lies strictly between -1 and 1 whenever `e > 0` |
| Net.SumFrom | neural_net.py:13 | `sum(..., b)` yields a node holding `b.data` plus the dot product of the weights with the input, stopping at the shorter of the two |
| Net.NeuronCall | neural_net.py:11-14 | a neuron called on a single Value raises TypeError from `zip`; otherwise it fails exactly when tanh cannot be formed, and it returns `tanh(b + w . x)` |
| Net.PreActivationPrefix | neural_net.py:13 | creating values does not change any neuron's pre-activation |
| Net.Outputs | neural_net.py:25 | `[n(x) for n in neurons]` returns one valid index per neuron, and a single-Value input gives TypeError |
| Net.OutputsOk | neural_net.py:25 | the list of neuron outputs is built exactly when there are no neurons, or the input is a list and every neuron's activation can be computed |
| Net.OutputData | neural_net.py:25 | output `i` holds the activation of neuron `i` on the layer's input |
| Net.OutputsData | neural_net.py:25 | every output holds the activation of its own neuron |
| Net.LayerCall | neural_net.py:24-26 | a layer returns a single Value exactly when it has one neuron, and otherwise one output per neuron; each output holds its neuron's activation on the input; it succeeds exactly when every activation can be computed |
| Net.Run | neural_net.py:37-40 | a successful network call only adds nodes to the arena and returns a signal that refers to existing nodes |
| Net.Forward | neural_net.py:37-40 | the loop `for layer in layers: x = layer(x)` computes exactly the layer-by-layer composition `Run` |
| Net.ScalarIntoLayerFails | neural_net.py:24-26 | when the first layer has a single neuron and a later layer follows, the call raises TypeError |
| Net.RunOutputShape | neural_net.py:37-40 | a successful network call returns a single Value exactly when the last layer has one neuron, and otherwise one output per neuron of the last layer |
| Optimizer.SGD.constructor | optimizer.py:2-4 | keeps the parameter list and the learning rate (0.01 by default) as given |
| Optimizer.SGD.Step | optimizer.py:6-8 | `step()` leaves each node moved against its unchanged gradient once per listing in the parameter list |
| Optimizer.SGD.ZeroGrad | optimizer.py:10-12 | `zero_grad()` leaves the listed gradients 0 and everything else as it was |
| Optimizer.Descend | optimizer.py:8 | descending changes the datum only, never the gradient or the operation |
| Optimizer.StepExtend | optimizer.py:7-8 | one more listing of `p` moves `p` by one more `lr * p.grad` and leaves every other node where it was |
| Optimizer.StepEffect | optimizer.py:6-8 | a step keeps every gradient and operation, leaves unlisted nodes as they were, and moves a parameter listed once by exactly `lr * grad` |
| Optimizer.ZeroEffect | optimizer.py:10-12 | zeroing changes gradients only, and only those of listed nodes |
| Optimizer.ZeroIdempotent | optimizer.py:10-12 | zeroing twice is the same as zeroing once |
| Optimizer.StepAfterZero | optimizer.py:6-12 | a step right after `zero_grad()` on the same parameters moves nothing |
| Optimizer.ZeroBeforeBackward | optimizer.py:10-12 | calling `zero_grad()` before `backward()` does not change the gradients `backward` gives the reachable nodes |

## Left out

- Floating point: data and gradients are exact reals. Rounding, overflow of `exp`, infinities and NaN are not modelled.
- `math.exp` and `math.log` are parameters (`exp`, `ln`: `real -> real`) of the operations that call them; nothing is assumed about them except the domain check `log` performs.
- Ops.Pow: only integer exponents are modelled. A float exponent, allowed by the `isinstance` check at engine.py:52, is not modelled, and neither is the complex result Python gives for a negative base raised to a fractional power.
- `Value.__repr__` (engine.py:13-14) only formats text and is not modelled.
- Random initialisation (`random.uniform(-1, 1)` at neural_net.py:8-9): the initial weights and biases are arguments of `Net.NewNeuron`, `Net.NewLayer` and `Net.NewMLP`.
- The scripts under `projects/` (`linear_approx.py`, `xor_classifier.py`) only use the library and are not part of this model.
- Object identity is the node index. The iteration order of the set `_prev` in `build` is unknown, so `Topo.Build` picks operands in an arbitrary order and is proved for every order.
- Backprop.Backward, and every operator in Ops: each requires `Graph.Valid` of the whole arena, not just of the nodes it uses. Python's operators read only their own operands, and Python's `backward` runs only the closures of nodes the root reaches. An SGD step can set to exactly 0 the base of `x ** -1` or the argument of `log`. Then the arena is not valid, whether that node is reachable or not. The model then builds no further value and runs no backward pass. Python raises only when a backward pass reaches the broken node.
- Backprop.ApplyRule, Backprop.Backward: the pow closure uses the corrected slope `Graph.PowSlope`, which is 0 for the exponent 0. As written, it raises ZeroDivisionError at base 0 with the exponent 0 (see "## Findings", `Derivatives.PowSlopeAsWritten`).
- Topo.Build, Backprop.Backward: `build` is recursive. Python raises RecursionError once a path in the graph is longer than the interpreter's recursion limit, 1000 by default. A loss summed over about a thousand terms is enough. The model has no recursion limit: `backward` succeeds on every valid arena.
- Optimizer.SGD.constructor: `SGD` keeps a reference to the caller's list (optimizer.py:4), so later appends to or removals from that list change what `step` and `zero_grad` touch. The model copies the list into the constant `parameters`, so this aliasing is not captured.
- Ops.Tanh: its local derivative `1 - tanh^2` is not stated as one lemma. The gradient through `tanh` follows from the rules of the operators it is built from.
- Net.Run: states only that the arena grows and that the result refers to existing nodes. The values of the outputs are stated per layer by `Net.LayerCall`, and the shape of the final output by `Net.RunOutputShape`.
- Net.Outputs: states the shape of its result. The data of the outputs is stated by `Net.OutputData` and `Net.OutputsData`.
- The parameter lists of `Neuron`, `Layer` and `MLP` are index sequences. `parameters()` returning fresh Python lists of the same objects is modelled by index equality.
- `backward`, `step` and `zero_grad` update an `array<Node>`, while operator calls build new arenas as values. Interleaving the two models a program that builds a graph, then trains it in place.

## Findings

| source | as written | input that shows it | evidently intended | confidence | as-written member | corrected member |
|---|---|---|---|---|---|---|
| engine.py:93-94 | `__rsub__` returns `self - other`, that is `a - c` for `c - a` | `1 - Value(0)` holds -1 | `other - self`, holding 1 | high; not executed | Ops.RSubAsWritten (with Ops.RSubAsWrittenWrongSign) | Ops.RSub |
| engine.py:55-56 | the pow closure evaluates `other * self.data ** (other - 1)`, which raises ZeroDivisionError at base 0 when `other == 0` | `(Value(0) ** 0).backward()` | the derivative of a constant power is 0 | high; not executed | Derivatives.PowSlopeAsWritten (with Derivatives.PowZeroAsWrittenFails) | Graph.PowSlope (with Graph.PowSlopeScaled and Derivatives.PowOperand) |
