/** `Neuron`, `Layer` and `MLP`: the parameters they create, how
    `parameters()` lists them, and the expressions a call builds. Initial
    weights and biases are arguments (the random draw is not modelled). */
module Net {
  import opened Graph
  import opened Ops

  /** A neuron: the indices of its weight leaves and of its bias leaf. */
  datatype Neuron = Neuron(w: seq<nat>, b: nat)

  datatype Layer = Layer(neurons: seq<Neuron>)

  datatype MLP = MLP(layers: seq<Layer>)

  /** The initial values a neuron is created with. */
  datatype NeuronInit = NeuronInit(weights: seq<real>, bias: real)

  /** What a call receives or returns: a single Value, or a list of Values
      and plain numbers. */
  datatype Signal = Single(v: nat) | Vector(xs: seq<Operand>)

  /** The indices `start`, `start + 1`, ..., `start + n - 1`. */
  function Consecutive(start: nat, n: nat): (r: seq<nat>)
    ensures |r| == n && forall i :: 0 <= i < n ==> r[i] == start + i
  {
    seq(n, i requires 0 <= i < n => start + i)
  }

  // ---------------------------------------------------------------- shapes

  predicate NeuronFits(g: Arena, n: Neuron) {
    n.b < |g| && forall i :: 0 <= i < |n.w| ==> n.w[i] < |g|
  }

  predicate LayerFits(g: Arena, l: Layer) {
    forall i :: 0 <= i < |l.neurons| ==> NeuronFits(g, l.neurons[i])
  }

  predicate MLPFits(g: Arena, m: MLP) {
    forall i :: 0 <= i < |m.layers| ==> LayerFits(g, m.layers[i])
  }

  predicate OperandsFit(g: Arena, xs: seq<Operand>) {
    forall i :: 0 <= i < |xs| ==> Fits(g, xs[i])
  }

  predicate SignalFits(g: Arena, s: Signal) {
    match s
    case Single(v) => v < |g|
    case Vector(xs) => OperandsFit(g, xs)
  }

  /** `Layer(nin, nout)`: `nout` neurons of fan-in `nin`. */
  predicate LayerShape(l: Layer, nin: nat, nout: nat) {
    |l.neurons| == nout && forall i :: 0 <= i < nout ==> |l.neurons[i].w| == nin
  }

  /** `sizes = [nin] + nouts`. */
  function Sizes(nin: nat, nouts: seq<nat>): (r: seq<nat>)
    ensures |r| == |nouts| + 1 && r[0] == nin && r[1..] == nouts
  {
    [nin] + nouts
  }

  /** `MLP(nin, nouts)`: layer `i` maps `sizes[i]` inputs to `sizes[i + 1]` outputs. */
  predicate MLPShape(m: MLP, nin: nat, nouts: seq<nat>) {
    |m.layers| == |nouts| &&
    forall i :: 0 <= i < |nouts| ==> LayerShape(m.layers[i], Sizes(nin, nouts)[i], nouts[i])
  }

  // ------------------------------------------------------------ parameters

  /** `Neuron.parameters()`: the weights, then the bias. */
  function NeuronParams(n: Neuron): (r: seq<nat>)
    ensures |r| == |n.w| + 1 && r[|n.w|] == n.b
    ensures forall i :: 0 <= i < |n.w| ==> r[i] == n.w[i]
  {
    n.w + [n.b]
  }

  /** `Layer.parameters()`: the parameters of each neuron, in neuron order. */
  function LayerParams(ns: seq<Neuron>): seq<nat> {
    if ns == [] then [] else NeuronParams(ns[0]) + LayerParams(ns[1..])
  }

  /** `MLP.parameters()`: the parameters of each layer, in layer order. */
  function MLPParams(ls: seq<Layer>): seq<nat> {
    if ls == [] then [] else LayerParams(ls[0].neurons) + MLPParams(ls[1..])
  }

  /** The number of parameters of `MLP(nin, nouts)`: the sum over the
      layers of `nouts[i] * (sizes[i] + 1)`. */
  function ParamCount(nin: nat, nouts: seq<nat>): nat
    decreases |nouts|
  {
    if nouts == [] then 0 else nouts[0] * (nin + 1) + ParamCount(nouts[0], nouts[1..])
  }

  /** A layer's parameters are exactly those of its neurons. */
  lemma {:induction false} LayerParamsMembers(ns: seq<Neuron>)
    ensures forall p :: p in LayerParams(ns) <==> exists i :: 0 <= i < |ns| && p in NeuronParams(ns[i])
    decreases |ns|
  {
    if ns != [] {
      LayerParamsMembers(ns[1..]);
      forall p | (exists i :: 0 <= i < |ns| && p in NeuronParams(ns[i]))
        ensures p in LayerParams(ns)
      {
        var i :| 0 <= i < |ns| && p in NeuronParams(ns[i]);
        if i > 0 {
          assert ns[1..][i - 1] == ns[i];
        }
      }
      forall p | p in LayerParams(ns[1..])
        ensures exists i :: 0 <= i < |ns| && p in NeuronParams(ns[i])
      {
        var i :| 0 <= i < |ns[1..]| && p in NeuronParams(ns[1..][i]);
        assert ns[i + 1] == ns[1..][i];
      }
    }
  }

  /** A network's parameters are exactly those of its layers. */
  lemma {:induction false} MLPParamsMembers(ls: seq<Layer>)
    ensures forall p :: p in MLPParams(ls) <==> exists i :: 0 <= i < |ls| && p in LayerParams(ls[i].neurons)
    decreases |ls|
  {
    if ls != [] {
      MLPParamsMembers(ls[1..]);
      forall p | (exists i :: 0 <= i < |ls| && p in LayerParams(ls[i].neurons))
        ensures p in MLPParams(ls)
      {
        var i :| 0 <= i < |ls| && p in LayerParams(ls[i].neurons);
        if i > 0 {
          assert ls[1..][i - 1] == ls[i];
        }
      }
      forall p | p in MLPParams(ls[1..])
        ensures exists i :: 0 <= i < |ls| && p in LayerParams(ls[i].neurons)
      {
        var i :| 0 <= i < |ls[1..]| && p in LayerParams(ls[1..][i].neurons);
        assert ls[i + 1] == ls[1..][i];
      }
    }
  }

  /** A layer of shape `(nin, nout)` has `nout * (nin + 1)` parameters. */
  lemma {:induction false} LayerParamCount(l: Layer, nin: nat, nout: nat)
    requires LayerShape(l, nin, nout)
    ensures |LayerParams(l.neurons)| == nout * (nin + 1)
    decreases nout
  {
    if nout > 0 {
      LayerParamCount(Layer(l.neurons[1..]), nin, nout - 1);
    }
  }

  /** An MLP of shape `(nin, nouts)` has `ParamCount(nin, nouts)` parameters. */
  lemma {:induction false} MLPParamCount(m: MLP, nin: nat, nouts: seq<nat>)
    requires MLPShape(m, nin, nouts)
    ensures |MLPParams(m.layers)| == ParamCount(nin, nouts)
    decreases |nouts|
  {
    if nouts != [] {
      LayerParamCount(m.layers[0], nin, nouts[0]);
      var rest := MLP(m.layers[1..]);
      forall i | 0 <= i < |nouts| - 1
        ensures LayerShape(rest.layers[i], Sizes(nouts[0], nouts[1..])[i], nouts[1..][i])
      {
        assert rest.layers[i] == m.layers[i + 1];
      }
      MLPParamCount(rest, nouts[0], nouts[1..]);
    }
  }

  // ---------------------------------------------------------- constructors

  /** `[Value(x) for x in xs]`: fresh leaves, in order. */
  function Leaves(g: Arena, xs: seq<real>): (r: (Arena, seq<nat>))
    requires Valid(g)
    ensures Valid(r.0) && |r.0| == |g| + |xs| && Extends(g, r.0)
    ensures r.1 == Consecutive(|g|, |xs|)
    ensures forall i :: 0 <= i < |xs| ==> r.0[|g| + i] == Node(xs[i], 0.0, Leaf)
    decreases |xs|
  {
    if xs == [] then (g, [])
    else
      var (g1, v) := Constant(g, xs[0]);
      var (g2, rest) := Leaves(g1, xs[1..]);
      assert forall i :: 1 <= i < |xs| ==> xs[1..][i - 1] == xs[i];
      (g2, [v] + rest)
  }

  /** `Neuron(nin)` with the given initial values: `nin` weight leaves, then
      the bias leaf, all fresh; `parameters()` lists exactly those. */
  function NewNeuron(g: Arena, init: NeuronInit): (r: (Arena, Neuron))
    requires Valid(g)
    ensures Valid(r.0) && Extends(g, r.0) && |r.0| == |g| + |init.weights| + 1
    ensures |r.1.w| == |init.weights| && NeuronFits(r.0, r.1)
    ensures NeuronParams(r.1) == Consecutive(|g|, |init.weights| + 1)
    ensures forall i :: 0 <= i < |init.weights| ==>
              r.0[r.1.w[i]] == Node(init.weights[i], 0.0, Leaf)
    ensures r.0[r.1.b] == Node(init.bias, 0.0, Leaf)
  {
    var (g1, w) := Leaves(g, init.weights);
    var (g2, b) := Constant(g1, init.bias);
    (g2, Neuron(w, b))
  }

  /** Fresh indices `[a, b)` followed by fresh indices `[b, c)` are `[a, c)`. */
  lemma ConsecutiveConcat(a: nat, b: nat, c: nat)
    requires a <= b <= c
    ensures Consecutive(a, b - a) + Consecutive(b, c - b) == Consecutive(a, c - a)
  {
  }

  /** A neuron in front of a layer of the same fan-in. */
  lemma LayerCons(g: Arena, g1: Arena, g2: Arena, n: Neuron, rest: Layer, nin: nat, k: nat)
    requires |g| <= |g1| <= |g2| && NeuronFits(g1, n) && |n.w| == nin
    requires LayerShape(rest, nin, k) && LayerFits(g2, rest)
    requires NeuronParams(n) == Consecutive(|g|, |g1| - |g|)
    requires LayerParams(rest.neurons) == Consecutive(|g1|, |g2| - |g1|)
    ensures LayerShape(Layer([n] + rest.neurons), nin, k + 1)
    ensures LayerFits(g2, Layer([n] + rest.neurons))
    ensures LayerParams([n] + rest.neurons) == Consecutive(|g|, |g2| - |g|)
  {
    var ns := [n] + rest.neurons;
    assert ns[1..] == rest.neurons;
    assert forall i :: 0 < i < |ns| ==> ns[i] == rest.neurons[i - 1];
    ConsecutiveConcat(|g|, |g1|, |g2|);
  }

  /** `Layer(nin, nout)` with the given initial values: the neurons are
      created one after the other, so the layer's parameters are fresh,
      consecutive, and listed in creation order. */
  function NewLayer(g: Arena, nin: nat, inits: seq<NeuronInit>): (r: (Arena, Layer))
    requires Valid(g)
    requires forall i :: 0 <= i < |inits| ==> |inits[i].weights| == nin
    ensures Valid(r.0) && Extends(g, r.0) && LayerShape(r.1, nin, |inits|) && LayerFits(r.0, r.1)
    ensures LayerParams(r.1.neurons) == Consecutive(|g|, |r.0| - |g|)
    decreases |inits|
  {
    if inits == [] then (g, Layer([]))
    else
      var (g1, n) := NewNeuron(g, inits[0]);
      var (g2, rest) := NewLayer(g1, nin, inits[1..]);
      LayerCons(g, g1, g2, n, rest, nin, |inits| - 1);
      (g2, Layer([n] + rest.neurons))
  }

  /** The initial values fit `MLP(nin, nouts)`: layer `i` has `nouts[i]`
      neurons of fan-in `sizes[i]`. */
  predicate InitsFit(nin: nat, nouts: seq<nat>, inits: seq<seq<NeuronInit>>) {
    |inits| == |nouts| &&
    forall i, j :: 0 <= i < |nouts| && 0 <= j < |inits[i]| ==>
      |inits[i]| == nouts[i] && |inits[i][j].weights| == Sizes(nin, nouts)[i]
  }

  lemma InitsFitTail(nin: nat, nouts: seq<nat>, inits: seq<seq<NeuronInit>>)
    requires InitsFit(nin, nouts, inits) && nouts != []
    requires forall i :: 0 <= i < |nouts| ==> |inits[i]| == nouts[i]
    ensures InitsFit(nouts[0], nouts[1..], inits[1..])
    ensures forall i :: 0 <= i < |nouts| - 1 ==> |inits[1..][i]| == nouts[1..][i]
    ensures forall j :: 0 <= j < |inits[0]| ==> |inits[0][j].weights| == nin
  {
    forall i, j | 0 <= i < |nouts| - 1 && 0 <= j < |inits[1..][i]|
      ensures |inits[1..][i]| == nouts[1..][i]
      ensures |inits[1..][i][j].weights| == Sizes(nouts[0], nouts[1..])[i]
    {
      assert inits[1..][i] == inits[i + 1];
    }
    forall j | 0 <= j < |inits[0]| ensures |inits[0][j].weights| == nin {
      assert Sizes(nin, nouts)[0] == nin;
    }
  }

  /** A layer in front of a network whose input width is that layer's output width. */
  lemma MLPCons(g: Arena, g1: Arena, g2: Arena, l: Layer, rest: MLP, nin: nat, nouts: seq<nat>)
    requires nouts != [] && |g| <= |g1| <= |g2| && LayerShape(l, nin, nouts[0]) && LayerFits(g1, l)
    requires MLPShape(rest, nouts[0], nouts[1..]) && MLPFits(g2, rest)
    requires LayerParams(l.neurons) == Consecutive(|g|, |g1| - |g|)
    requires MLPParams(rest.layers) == Consecutive(|g1|, |g2| - |g1|)
    ensures MLPShape(MLP([l] + rest.layers), nin, nouts)
    ensures MLPFits(g2, MLP([l] + rest.layers))
    ensures MLPParams([l] + rest.layers) == Consecutive(|g|, |g2| - |g|)
  {
    var ls := [l] + rest.layers;
    assert ls[1..] == rest.layers;
    ConsecutiveConcat(|g|, |g1|, |g2|);
    forall i | 0 <= i < |nouts|
      ensures LayerShape(ls[i], Sizes(nin, nouts)[i], nouts[i])
      ensures LayerFits(g2, ls[i])
    {
      if i > 0 {
        assert ls[i] == rest.layers[i - 1];
        assert Sizes(nin, nouts)[i] == Sizes(nouts[0], nouts[1..])[i - 1];
      } else {
        forall j | 0 <= j < |l.neurons| ensures NeuronFits(g2, l.neurons[j]) {
          assert NeuronFits(g1, l.neurons[j]);
        }
      }
    }
  }

  /** `MLP(nin, nouts)` with the given initial values. */
  function NewMLP(g: Arena, nin: nat, nouts: seq<nat>, inits: seq<seq<NeuronInit>>): (r: (Arena, MLP))
    requires Valid(g) && InitsFit(nin, nouts, inits)
    requires forall i :: 0 <= i < |nouts| ==> |inits[i]| == nouts[i]
    ensures Valid(r.0) && Extends(g, r.0) && MLPShape(r.1, nin, nouts) && MLPFits(r.0, r.1)
    ensures MLPParams(r.1.layers) == Consecutive(|g|, |r.0| - |g|)
    decreases |nouts|
  {
    if nouts == [] then (g, MLP([]))
    else
      hide NewLayer;
      InitsFitTail(nin, nouts, inits);
      var (g1, l) := NewLayer(g, nin, inits[0]);
      var (g2, rest) := NewMLP(g1, nouts[0], nouts[1..], inits[1..]);
      MLPCons(g, g1, g2, l, rest, nin, nouts);
      (g2, MLP([l] + rest.layers))
  }

  // ----------------------------------------------------------------- calls

  /** `sum(w[j] * x[j] for j in [i, min(|w|, |x|)))`: `zip` stops at the
      shorter list. */
  function DotFrom(g: Arena, w: seq<nat>, xs: seq<Operand>, i: nat): real
    requires forall j :: 0 <= j < |w| ==> w[j] < |g|
    requires OperandsFit(g, xs)
    decreases |w| - i
  {
    if i >= |w| || i >= |xs| then 0.0
    else g[w[i]].data * Datum(g, xs[i]) + DotFrom(g, w, xs, i + 1)
  }

  /** `zip` stops at the shorter list: the pairs past it contribute nothing,
      so cutting both lists to the shorter length changes no dot product. */
  lemma {:induction false} DotFromZip(g: Arena, w: seq<nat>, xs: seq<Operand>, i: nat)
    requires forall j :: 0 <= j < |w| ==> w[j] < |g|
    requires OperandsFit(g, xs)
    ensures var m := if |w| < |xs| then |w| else |xs|;
            OperandsFit(g, xs[..m]) && DotFrom(g, w, xs, i) == DotFrom(g, w[..m], xs[..m], i)
    decreases |w| - i
  {
    var m := if |w| < |xs| then |w| else |xs|;
    if i < m {
      DotFromZip(g, w, xs, i + 1);
      assert w[..m][i] == w[i] && xs[..m][i] == xs[i];
    }
  }

  /** The pre-activation `b + sum(w * x)` of a neuron. */
  function PreActivation(g: Arena, n: Neuron, xs: seq<Operand>): real
    requires NeuronFits(g, n) && OperandsFit(g, xs)
  {
    g[n.b].data + DotFrom(g, n.w, xs, 0)
  }

  /** `tanh(z)` as `Value.tanh` computes it: `(e - 1) / (e + 1)` with `e = exp(2z)`. */
  function Squash(exp: real -> real, z: real): real
    requires exp(2.0 * z) != -1.0
  {
    (exp(2.0 * z) - 1.0) / (exp(2.0 * z) + 1.0)
  }

  /** `tanh` solves `r * (e + 1) == e - 1`, is never 1, and lies strictly
      between -1 and 1 whenever the exponential is positive. */
  lemma SquashRange(exp: real -> real, z: real)
    requires exp(2.0 * z) != -1.0
    ensures var e, r := exp(2.0 * z), Squash(exp, z);
            r * (e + 1.0) == e - 1.0 && r != 1.0 && (e > 0.0 ==> -1.0 < r < 1.0)
  {
  }

  /** Appending nodes changes no existing datum, hence no dot product. */
  lemma {:induction false} DotFromPrefix(g: Arena, g': Arena, w: seq<nat>, xs: seq<Operand>, i: nat)
    requires Extends(g, g')
    requires forall j :: 0 <= j < |w| ==> w[j] < |g|
    requires OperandsFit(g, xs)
    ensures OperandsFit(g', xs) && DotFrom(g, w, xs, i) == DotFrom(g', w, xs, i)
    decreases |w| - i
  {
    assert forall j :: 0 <= j < |g| ==> g'[j] == g[j];
    if i < |w| && i < |xs| {
      DotFromPrefix(g, g', w, xs, i + 1);
    }
  }

  /** The accumulation `acc + w[i] * x[i] + ...` that `sum` performs, left to
      right, each product built before the addition that uses it. With no
      pairs left it returns `acc` itself, as `sum` returns its start value. */
  function SumFrom(g: Arena, w: seq<nat>, xs: seq<Operand>, acc: nat, i: nat): (r: (Arena, nat))
    requires Valid(g) && acc < |g|
    requires forall j :: 0 <= j < |w| ==> w[j] < |g|
    requires OperandsFit(g, xs)
    ensures Valid(r.0) && Extends(g, r.0) && r.1 < |r.0|
    ensures r.0[r.1].data == g[acc].data + DotFrom(g, w, xs, i)
    decreases |w| - i
  {
    if i >= |w| || i >= |xs| then (g, acc)
    else
      var (g1, p) := Mul(g, w[i], xs[i]);
      var (g2, s) := Add(g1, acc, Ref(p));
      assert Extends(g, g2);
      DotFromPrefix(g, g2, w, xs, i + 1);
      SumFrom(g2, w, xs, s, i + 1)
  }

  /** `Neuron.__call__(x)`: `sum(wi * xi for wi, xi in zip(w, x), b).tanh()`.
      A single Value is not iterable, so `zip` raises a `TypeError`. */
  function NeuronCall(g: Arena, n: Neuron, x: Signal, exp: real -> real): (r: Result<(Arena, nat)>)
    requires Valid(g) && NeuronFits(g, n) && SignalFits(g, x)
    ensures r.Err? <==> x.Single? || exp(2.0 * PreActivation(g, n, x.xs)) == -1.0
    ensures r.Err? && x.Single? ==> r.error == TypeError
    ensures r.Ok? ==> Valid(r.value.0) && Extends(g, r.value.0) && r.value.1 < |r.value.0|
    ensures r.Ok? ==> r.value.0[r.value.1].data == Squash(exp, PreActivation(g, n, x.xs))
  {
    match x
    case Single(_) => Err(TypeError)
    case Vector(xs) =>
      var (g1, z) := SumFrom(g, n.w, xs, n.b, 0);
      Tanh(g1, z, exp)
  }

  /** An activation of neuron `n` on `xs` that `Value.tanh` can compute. */
  predicate Computable(g: Arena, n: Neuron, xs: seq<Operand>, exp: real -> real)
    requires NeuronFits(g, n) && OperandsFit(g, xs)
  {
    exp(2.0 * PreActivation(g, n, xs)) != -1.0
  }

  /** Every neuron of `ns` can compute its activation on `xs`. */
  predicate AllComputable(g: Arena, ns: seq<Neuron>, xs: seq<Operand>, exp: real -> real)
    requires LayerFits(g, Layer(ns)) && OperandsFit(g, xs)
  {
    forall i :: 0 <= i < |ns| ==> Computable(g, ns[i], xs, exp)
  }

  /** Appending nodes changes no pre-activation. */
  lemma PreActivationPrefix(g: Arena, g': Arena, n: Neuron, xs: seq<Operand>)
    requires Extends(g, g') && NeuronFits(g, n) && OperandsFit(g, xs)
    ensures NeuronFits(g', n) && OperandsFit(g', xs)
    ensures PreActivation(g, n, xs) == PreActivation(g', n, xs)
  {
    DotFromPrefix(g, g', n.w, xs, 0);
    assert g'[n.b] == g[n.b];
  }

  /** `[n(x) for n in neurons]`: each neuron in order, on the arena the
      previous ones left; the first exception propagates. */
  function Outputs(g: Arena, ns: seq<Neuron>, x: Signal, exp: real -> real): (r: Result<(Arena, seq<nat>)>)
    requires Valid(g) && LayerFits(g, Layer(ns)) && SignalFits(g, x)
    ensures r.Err? && x.Single? ==> r.error == TypeError
    ensures r.Ok? ==> Valid(r.value.0) && Extends(g, r.value.0) && |r.value.1| == |ns|
    ensures r.Ok? ==> forall i :: 0 <= i < |ns| ==> r.value.1[i] < |r.value.0|
    decreases |ns|
  {
    if ns == [] then Ok((g, []))
    else
      var first := NeuronCall(g, ns[0], x, exp);
      if first.Err? then Err(first.error)
      else
        var (g1, o) := first.value;
        LayerTailFits(g, g1, ns);
        var rest := Outputs(g1, ns[1..], x, exp);
        if rest.Err? then Err(rest.error)
        else Ok((rest.value.0, [o] + rest.value.1))
  }

  lemma LayerTailFits(g: Arena, g1: Arena, ns: seq<Neuron>)
    requires |g| <= |g1| && ns != [] && LayerFits(g, Layer(ns))
    ensures LayerFits(g1, Layer(ns[1..]))
  {
    assert forall i :: 0 <= i < |ns| - 1 ==> ns[1..][i] == ns[i + 1];
    assert forall i :: 0 <= i < |ns| ==> NeuronFits(g, ns[i]);
  }

  /** `[n(x) for n in neurons]` succeeds exactly when there are no neurons,
      or the input is a list and every neuron can compute its activation. */
  lemma {:induction false} OutputsOk(g: Arena, ns: seq<Neuron>, x: Signal, exp: real -> real)
    requires Valid(g) && LayerFits(g, Layer(ns)) && SignalFits(g, x)
    ensures Outputs(g, ns, x, exp).Ok? <==> ns == [] || (x.Vector? && AllComputable(g, ns, x.xs, exp))
    decreases |ns|
  {
    if ns != [] && x.Vector? {
      var first := NeuronCall(g, ns[0], x, exp);
      if first.Ok? {
        var (g1, o) := first.value;
        ComputableSplit(g, g1, ns, x.xs, exp);
        OutputsOk(g1, ns[1..], x, exp);
      }
    }
  }

  /** After the first neuron has run, the remaining neurons still fit and
      see the same pre-activations. */
  lemma OutputsPrefix(g: Arena, g1: Arena, ns: seq<Neuron>, xs: seq<Operand>)
    requires Extends(g, g1) && ns != [] && LayerFits(g, Layer(ns)) && OperandsFit(g, xs)
    ensures LayerFits(g1, Layer(ns[1..])) && OperandsFit(g1, xs)
    ensures forall i :: 0 <= i < |ns| - 1 ==>
              PreActivation(g1, ns[1..][i], xs) == PreActivation(g, ns[i + 1], xs)
  {
    forall i | 0 <= i < |ns|
      ensures NeuronFits(g1, ns[i]) && PreActivation(g, ns[i], xs) == PreActivation(g1, ns[i], xs)
    {
      PreActivationPrefix(g, g1, ns[i], xs);
    }
    assert forall i :: 0 <= i < |ns| - 1 ==> ns[1..][i] == ns[i + 1];
  }

  /** ... and so the first neuron and the rest are computable exactly when all are. */
  lemma ComputableSplit(g: Arena, g1: Arena, ns: seq<Neuron>, xs: seq<Operand>, exp: real -> real)
    requires Extends(g, g1) && ns != [] && LayerFits(g, Layer(ns)) && OperandsFit(g, xs)
    ensures LayerFits(g1, Layer(ns[1..])) && OperandsFit(g1, xs)
    ensures AllComputable(g, ns, xs, exp) <==>
              Computable(g, ns[0], xs, exp) && AllComputable(g1, ns[1..], xs, exp)
  {
    OutputsPrefix(g, g1, ns, xs);
  }

  /** Output `i` of a layer holds the activation of neuron `i` on the layer's input. */
  lemma {:induction false} OutputData(g: Arena, ns: seq<Neuron>, x: Signal, exp: real -> real, i: nat)
    requires Valid(g) && LayerFits(g, Layer(ns)) && SignalFits(g, x)
    requires Outputs(g, ns, x, exp).Ok? && i < |ns|
    ensures x.Vector? && Computable(g, ns[i], x.xs, exp)
    ensures var (g', outs) := Outputs(g, ns, x, exp).value;
            g'[outs[i]].data == Squash(exp, PreActivation(g, ns[i], x.xs))
    decreases i
  {
    // Only the contract of a neuron's call matters here, not how it is built.
    hide NeuronCall;
    var (g1, o) := NeuronCall(g, ns[0], x, exp).value;
    var (g2, rest) := Outputs(g1, ns[1..], x, exp).value;
    assert Outputs(g, ns, x, exp).value == (g2, [o] + rest);
    if i == 0 {
      assert g2[o] == g1[o];
    } else {
      LayerTailFits(g, g1, ns);
      PreActivationPrefix(g, g1, ns[i], x.xs);
      assert ns[1..][i - 1] == ns[i];
      OutputData(g1, ns[1..], x, exp, i - 1);
    }
  }

  /** Every output of a layer holds the activation of its neuron. */
  lemma {:induction false} OutputsData(g: Arena, ns: seq<Neuron>, x: Signal, exp: real -> real)
    requires Valid(g) && LayerFits(g, Layer(ns)) && SignalFits(g, x)
    requires Outputs(g, ns, x, exp).Ok?
    ensures var (g', outs) := Outputs(g, ns, x, exp).value;
            forall i :: 0 <= i < |ns| ==>
              x.Vector? && Computable(g, ns[i], x.xs, exp) &&
              g'[outs[i]].data == Squash(exp, PreActivation(g, ns[i], x.xs))
  {
    hide NeuronCall;
    forall i | 0 <= i < |ns|
      ensures x.Vector? && Computable(g, ns[i], x.xs, exp)
      ensures Outputs(g, ns, x, exp).value.0[Outputs(g, ns, x, exp).value.1[i]].data
              == Squash(exp, PreActivation(g, ns[i], x.xs))
    {
      OutputData(g, ns, x, exp, i);
    }
  }

  function Refs(vs: seq<nat>): (r: seq<Operand>)
    ensures |r| == |vs| && forall i :: 0 <= i < |vs| ==> r[i] == Ref(vs[i])
  {
    seq(|vs|, i requires 0 <= i < |vs| => Ref(vs[i]))
  }

  /** `Layer.__call__(x)`: the list of neuron outputs, except that a layer
      of exactly one neuron returns that neuron's output alone. */
  function LayerCall(g: Arena, l: Layer, x: Signal, exp: real -> real): (r: Result<(Arena, Signal)>)
    requires Valid(g) && LayerFits(g, l) && SignalFits(g, x)
    ensures r.Ok? <==> l.neurons == [] || (x.Vector? && AllComputable(g, l.neurons, x.xs, exp))
    ensures r.Err? && x.Single? ==> r.error == TypeError
    ensures r.Ok? ==> Valid(r.value.0) && Extends(g, r.value.0) && SignalFits(r.value.0, r.value.1)
    ensures r.Ok? ==> (r.value.1.Single? <==> |l.neurons| == 1)
    ensures r.Ok? && r.value.1.Single? ==>
              r.value.0[r.value.1.v].data == Squash(exp, PreActivation(g, l.neurons[0], x.xs))
    ensures r.Ok? && r.value.1.Vector? ==>
              |r.value.1.xs| == |l.neurons| &&
              forall i :: 0 <= i < |l.neurons| ==>
                r.value.1.xs[i].Ref? &&
                Datum(r.value.0, r.value.1.xs[i]) == Squash(exp, PreActivation(g, l.neurons[i], x.xs))
  {
    OutputsOk(g, l.neurons, x, exp);
    match Outputs(g, l.neurons, x, exp)
    case Err(e) => Err(e)
    case Ok((g1, outs)) =>
      OutputsData(g, l.neurons, x, exp);
      if |outs| == 1 then Ok((g1, Single(outs[0]))) else Ok((g1, Vector(Refs(outs))))
  }

  /** `MLP.__call__(x)` as a value: each layer's output is the next layer's input. */
  function Run(g: Arena, ls: seq<Layer>, x: Signal, exp: real -> real): (r: Result<(Arena, Signal)>)
    requires Valid(g) && MLPFits(g, MLP(ls)) && SignalFits(g, x)
    ensures r.Ok? ==> Valid(r.value.0) && Extends(g, r.value.0) && SignalFits(r.value.0, r.value.1)
    decreases |ls|
  {
    if ls == [] then Ok((g, x))
    else
      match LayerCall(g, ls[0], x, exp)
      case Err(e) => Err(e)
      case Ok((g1, y)) =>
        MLPTailFits(g, g1, ls);
        Run(g1, ls[1..], y, exp)
  }

  /** The layers after the first still fit an arena that extends the first one. */
  lemma MLPTailFits(g: Arena, g1: Arena, ls: seq<Layer>)
    requires |g| <= |g1| && ls != [] && MLPFits(g, MLP(ls))
    ensures MLPFits(g1, MLP(ls[1..]))
  {
    forall i, j | 0 <= i < |ls| - 1 && 0 <= j < |ls[1..][i].neurons|
      ensures NeuronFits(g1, ls[1..][i].neurons[j])
    {
      assert ls[1..][i] == ls[i + 1];
      assert NeuronFits(g, ls[i + 1].neurons[j]);
    }
  }

  /** `MLP.__call__(x)`: `for layer in self.layers: x = layer(x)`. */
  method Forward(g: Arena, m: MLP, x: Signal, exp: real -> real) returns (r: Result<(Arena, Signal)>)
    requires Valid(g) && MLPFits(g, m) && SignalFits(g, x)
    ensures r == Run(g, m.layers, x, exp)
  {
    var cur, sig := g, x;
    var i := 0;
    while i < |m.layers|
      invariant 0 <= i <= |m.layers|
      invariant Valid(cur) && Extends(g, cur) && SignalFits(cur, sig)
      invariant MLPFits(cur, MLP(m.layers[i..]))
      invariant Run(g, m.layers, x, exp) == Run(cur, m.layers[i..], sig, exp)
    {
      var layer := m.layers[i];
      assert m.layers[i..][0] == layer && m.layers[i..][1..] == m.layers[i + 1..];
      var out := LayerCall(cur, layer, sig, exp);
      if out.Err? {
        return Err(out.error);
      }
      cur, sig := out.value.0, out.value.1;
      i := i + 1;
    }
    return Ok((cur, sig));
  }

  /** A network whose first layer has a single neuron hands a single Value to
      the next layer, whose neurons then fail in `zip`. */
  lemma ScalarIntoLayerFails(g: Arena, m: MLP, x: Signal, exp: real -> real)
    requires Valid(g) && MLPFits(g, m) && SignalFits(g, x)
    requires |m.layers| >= 2 && |m.layers[0].neurons| == 1 && |m.layers[1].neurons| >= 1
    requires LayerCall(g, m.layers[0], x, exp).Ok?
    ensures Run(g, m.layers, x, exp) == Err(TypeError)
  {
    hide LayerCall;
    var (g1, y) := LayerCall(g, m.layers[0], x, exp).value;
    assert m.layers[1..][0] == m.layers[1];
  }

  /** A successful call returns a single Value exactly when the last layer
      has one neuron, and otherwise one output per neuron of the last layer. */
  lemma {:induction false} RunOutputShape(g: Arena, ls: seq<Layer>, x: Signal, exp: real -> real)
    requires Valid(g) && MLPFits(g, MLP(ls)) && SignalFits(g, x)
    requires ls != [] && Run(g, ls, x, exp).Ok?
    ensures Run(g, ls, x, exp).value.1.Single? <==> |ls[|ls| - 1].neurons| == 1
    ensures Run(g, ls, x, exp).value.1.Vector? ==>
              |Run(g, ls, x, exp).value.1.xs| == |ls[|ls| - 1].neurons|
    decreases |ls|
  {
    hide LayerCall;
    var (g1, y) := LayerCall(g, ls[0], x, exp).value;
    if |ls| > 1 {
      MLPTailFits(g, g1, ls);
      RunOutputShape(g1, ls[1..], y, exp);
    }
  }
}
