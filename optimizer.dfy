/** `SGD`: plain gradient descent over a list of parameters, updating the
    values in place. The values live in `nodes`, the arena as an array. */
module Optimizer {
  import opened Graph
  import opened Topo
  import opened Backprop

  /** The default learning rate of `SGD.__init__`. */
  const DefaultLr: real := 0.01

  /** A node after `k` descent steps on its own, unchanged gradient. */
  function Descend(n: Node, k: nat, lr: real): (r: Node)
    ensures r.grad == n.grad && r.op == n.op
  {
    n.(data := n.data - Times(k as real, Times(lr, n.grad)))
  }

  /** What `step()` leaves behind, defined without reference to the order of
      the loop: each node moves against its gradient once per listing in `ps`. */
  function StepSpec(g: Arena, ps: seq<nat>, lr: real): (r: Arena)
    ensures |r| == |g|
  {
    seq(|g|, i requires 0 <= i < |g| => Descend(g[i], multiset(ps)[i], lr))
  }

  /** What `zero_grad()` leaves behind: the listed nodes have gradient 0. */
  function ZeroSpec(g: Arena, ps: seq<nat>): (r: Arena)
    ensures |r| == |g|
  {
    seq(|g|, i requires 0 <= i < |g| => if i in ps then g[i].(grad := 0.0) else g[i])
  }

  /** One more listing moves a node by one more `lr * grad` and leaves the
      others where they were. */
  lemma StepExtend(g: Arena, ps: seq<nat>, p: nat, lr: real)
    requires p < |g|
    ensures forall j :: 0 <= j < |g| && j != p ==> StepSpec(g, ps + [p], lr)[j] == StepSpec(g, ps, lr)[j]
    ensures StepSpec(g, ps + [p], lr)[p].data == StepSpec(g, ps, lr)[p].data - Times(lr, g[p].grad)
  {
    assert multiset(ps + [p]) == multiset(ps) + multiset{p};
    var k := multiset(ps)[p];
    assert multiset(ps + [p])[p] == k + 1;
    var step := Times(lr, g[p].grad);
    assert Times((k + 1) as real, step) == Times(k as real, step) + step;
  }

  /** The loop body of `step()` on the arena as a value. */
  lemma StepOne(g: Arena, ps: seq<nat>, p: nat, lr: real, cur: Arena)
    requires p < |g| && cur == StepSpec(g, ps, lr)
    ensures cur[p := cur[p].(data := cur[p].data - Times(lr, cur[p].grad))] == StepSpec(g, ps + [p], lr)
  {
    StepExtend(g, ps, p, lr);
    var next := cur[p := cur[p].(data := cur[p].data - Times(lr, cur[p].grad))];
    forall j | 0 <= j < |g| ensures next[j] == StepSpec(g, ps + [p], lr)[j] {
      if j == p {
        assert cur[p].grad == g[p].grad;
      }
    }
  }

  lemma ZeroExtend(g: Arena, ps: seq<nat>, p: nat)
    requires p < |g|
    ensures var s := ZeroSpec(g, ps); ZeroSpec(g, ps + [p]) == s[p := s[p].(grad := 0.0)]
  {
  }

  /** A step moves every node against its gradient once per listing and
      touches nothing else: gradients and operations stay, unlisted nodes stay. */
  lemma StepEffect(g: Arena, ps: seq<nat>, lr: real)
    ensures SameOps(g, StepSpec(g, ps, lr))
    ensures forall i :: 0 <= i < |g| ==> StepSpec(g, ps, lr)[i].grad == g[i].grad
    ensures forall i :: 0 <= i < |g| && i !in ps ==> StepSpec(g, ps, lr)[i] == g[i]
    ensures forall i :: 0 <= i < |g| && multiset(ps)[i] == 1 ==>
              StepSpec(g, ps, lr)[i].data == g[i].data - lr * g[i].grad
  {
    forall i | 0 <= i < |g| && i !in ps ensures StepSpec(g, ps, lr)[i] == g[i] {
      assert multiset(ps)[i] == 0;
    }
  }

  /** Zeroing changes gradients only, and only of the listed nodes. */
  lemma ZeroEffect(g: Arena, ps: seq<nat>)
    ensures SameShape(g, ZeroSpec(g, ps))
    ensures forall i :: 0 <= i < |g| ==>
              ZeroSpec(g, ps)[i].grad == if i in ps then 0.0 else g[i].grad
  {
  }

  /** Zeroing twice is zeroing once. */
  lemma ZeroIdempotent(g: Arena, ps: seq<nat>)
    ensures ZeroSpec(ZeroSpec(g, ps), ps) == ZeroSpec(g, ps)
  {
  }

  /** A step right after `zero_grad()` on the same parameters moves nothing. */
  lemma StepAfterZero(g: Arena, ps: seq<nat>, lr: real)
    ensures StepSpec(ZeroSpec(g, ps), ps, lr) == ZeroSpec(g, ps)
  {
    var z := ZeroSpec(g, ps);
    forall i | 0 <= i < |g| ensures StepSpec(z, ps, lr)[i] == z[i] {
      if i !in ps {
        assert multiset(ps)[i] == 0;
      }
    }
  }

  /** `zero_grad()` before `backward()` makes no difference to what the
      reachable nodes receive: `backward()` overwrites their gradients. */
  lemma ZeroBeforeBackward(g: Arena, ps: seq<nat>, root: nat)
    requires Valid(g) && root < |g|
    ensures Valid(ZeroSpec(g, ps))
    ensures forall v :: v in Reach(g, root) ==>
              v < |g| && BackwardSpec(ZeroSpec(g, ps), root)[v] == BackwardSpec(g, root)[v]
  {
    BackwardIgnoresGrads(g, ZeroSpec(g, ps), root);
  }

  /** Same length and the same operation at every index. */
  predicate SameOps(g1: Arena, g2: Arena) {
    |g1| == |g2| && forall i :: 0 <= i < |g1| ==> g1[i].op == g2[i].op
  }

  class SGD {
    const nodes: array<Node>
    const parameters: seq<nat>
    const lr: real

    /** `SGD(parameters, lr=0.01)`: keeps the list and the rate as given. */
    constructor (nodes: array<Node>, parameters: seq<nat>, lr: real := DefaultLr)
      ensures this.nodes == nodes && this.parameters == parameters && this.lr == lr
    {
      this.nodes := nodes;
      this.parameters := parameters;
      this.lr := lr;
    }

    /** Every listed parameter is a node of the arena. */
    predicate Tracks() {
      forall i :: 0 <= i < |parameters| ==> parameters[i] < nodes.Length
    }

    /** `step()`: `p.data -= lr * p.grad` for every listed parameter, in order. */
    method Step()
      requires Tracks()
      modifies nodes
      ensures nodes[..] == StepSpec(old(nodes[..]), parameters, lr)
    {
      ghost var g := nodes[..];
      assert StepSpec(g, [], lr) == g;
      for i := 0 to |parameters|
        invariant nodes[..] == StepSpec(g, parameters[..i], lr)
      {
        var p := parameters[i];
        var n := nodes[p];
        ghost var cur := nodes[..];
        assert n == cur[p];
        nodes[p] := n.(data := n.data - Times(lr, n.grad));
        assert nodes[..] == cur[p := cur[p].(data := cur[p].data - Times(lr, cur[p].grad))];
        StepOne(g, parameters[..i], p, lr, cur);
        assert parameters[..i + 1] == parameters[..i] + [p];
        assert nodes[..] == StepSpec(g, parameters[..i + 1], lr);
      }
      assert parameters[..|parameters|] == parameters;
    }

    /** `zero_grad()`: `p.grad = 0` for every listed parameter. */
    method ZeroGrad()
      requires Tracks()
      modifies nodes
      ensures nodes[..] == ZeroSpec(old(nodes[..]), parameters)
    {
      ghost var g := nodes[..];
      assert ZeroSpec(g, []) == g;
      for i := 0 to |parameters|
        invariant nodes[..] == ZeroSpec(g, parameters[..i])
      {
        var p := parameters[i];
        nodes[p] := nodes[p].(grad := 0.0);
        assert parameters[..i + 1] == parameters[..i] + [p];
        ZeroExtend(g, parameters[..i], p);
      }
      assert parameters[..|parameters|] == parameters;
    }
  }
}
