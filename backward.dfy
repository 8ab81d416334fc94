/** `Value.backward`: topological sort, reset, seed and the reverse sweep of
    backward rules, on an array of nodes whose gradients it updates in place. */
module Backprop {
  import opened Graph
  import opened Topo
  import opened Adjoints

  /** What the rule of node `w` is meant to do: every node `v` gains
      `Coef(g, w, v) * w.grad`, which is zero unless `v` is an operand of `w`. */
  function RuleSpec(g: Arena, w: nat): (r: Arena)
    requires Valid(g) && w < |g|
    ensures |r| == |g|
    ensures forall v :: 0 <= v < |g| && v !in Preds(g[w].op) ==> r[v] == g[v]
  {
    seq(|g|, v requires 0 <= v < |g| => g[v].(grad := g[v].grad + Times(Coef(g, w, v), g[w].grad)))
  }

  /** `v.grad += d` on an arena. */
  function Bump(g: Arena, v: nat, d: real): (r: Arena)
    requires v < |g|
    ensures SameShape(g, r) && r[v].grad == g[v].grad + d
    ensures forall u :: 0 <= u < |g| && u != v ==> r[u] == g[u]
  {
    g[v := g[v].(grad := g[v].grad + d)]
  }

  /** The arena after the closure `w._backward()` has run: the increments of
      its operand slots, in order. */
  function RuleApplied(g: Arena, w: nat): (r: Arena)
    requires Valid(g) && w < |g|
    ensures SameShape(g, r)
  {
    assert WellFormed(g, w);
    match g[w].op
    case Leaf => g
    case Sum(a, b) => Bump(Bump(g, a, g[w].grad), b, g[w].grad)
    case Negation(a) => Bump(g, a, -g[w].grad)
    case Product(a, b) => Bump(Bump(g, a, Times(g[b].data, g[w].grad)), b, Times(g[a].data, g[w].grad))
    case Power(a, k) => Bump(g, a, Times(PowSlope(g[a].data, k), g[w].grad))
    case Exponential(a) => Bump(g, a, Times(g[w].data, g[w].grad))
    case Logarithm(a) => Bump(g, a, Times(1.0 / g[a].data, g[w].grad))
  }

  /** A one-operand rule meets its specification. */
  lemma RuleOne(g: Arena, w: nat, a: nat, da: real)
    requires Valid(g) && w < |g| && Preds(g[w].op) == {a}
    requires Times(Coef(g, w, a), g[w].grad) == da
    ensures a < |g| && Bump(g, a, da) == RuleSpec(g, w)
  {
    assert WellFormed(g, w);
    var r, s := Bump(g, a, da), RuleSpec(g, w);
    forall v | 0 <= v < |g| ensures r[v] == s[v] {
    }
  }

  /** A two-operand rule meets its specification; when both slots hold the
      same node, that node gets both increments. */
  lemma RuleTwo(g: Arena, w: nat, a: nat, b: nat, da: real, db: real)
    requires Valid(g) && w < |g| && Preds(g[w].op) == {a, b}
    requires Times(Coef(g, w, a), g[w].grad) == if a == b then da + db else da
    requires a != b ==> Times(Coef(g, w, b), g[w].grad) == db
    ensures a < |g| && b < |g| && Bump(Bump(g, a, da), b, db) == RuleSpec(g, w)
  {
    assert WellFormed(g, w);
    var r, s := Bump(Bump(g, a, da), b, db), RuleSpec(g, w);
    forall v | 0 <= v < |g| ensures r[v] == s[v] {
    }
  }

  /** Every backward rule adds exactly the local derivative times `out.grad`
      to each operand, summed over the slots the operand fills. */
  lemma RuleAppliedMeetsSpec(g: Arena, w: nat)
    requires Valid(g) && w < |g|
    ensures RuleApplied(g, w) == RuleSpec(g, w)
  {
    assert WellFormed(g, w);
    var gw := g[w].grad;
    match g[w].op
    case Leaf =>
      assert RuleSpec(g, w) == g;
    case Sum(a, b) =>
      RuleTwo(g, w, a, b, gw, gw);
    case Negation(a) =>
      RuleOne(g, w, a, -gw);
    case Product(a, b) =>
      RuleTwo(g, w, a, b, Times(g[b].data, gw), Times(g[a].data, gw));
    case Power(a, k) =>
      RuleOne(g, w, a, Times(PowSlope(g[a].data, k), gw));
    case Exponential(a) =>
      RuleOne(g, w, a, Times(g[w].data, gw));
    case Logarithm(a) =>
      RuleOne(g, w, a, Times(1.0 / g[a].data, gw));
  }

  /** `v.grad += d`. */
  method Accumulate(nodes: array<Node>, v: nat, d: real)
    requires v < nodes.Length
    modifies nodes
    ensures nodes[..] == Bump(old(nodes[..]), v, d)
  {
    nodes[v] := nodes[v].(grad := nodes[v].grad + d);
  }

  /** `w._backward()`: the closure each operator attached to its result,
      adding the local derivative times `out.grad` to each operand slot in
      turn. No rule changes a `data` field or the `grad` of `w` itself, so
      they are read once. */
  method ApplyRule(nodes: array<Node>, w: nat)
    requires Valid(nodes[..]) && w < nodes.Length
    modifies nodes
    ensures nodes[..] == RuleApplied(old(nodes[..]), w)
  {
    assert WellFormed(nodes[..], w);
    var out := nodes[w];
    match out.op
    case Leaf =>
    case Sum(a, b) =>
      Accumulate(nodes, a, out.grad);
      Accumulate(nodes, b, out.grad);
    case Negation(a) =>
      Accumulate(nodes, a, -out.grad);
    case Product(a, b) =>
      var self, other := nodes[a], nodes[b];
      Accumulate(nodes, a, Times(other.data, out.grad));
      Accumulate(nodes, b, Times(self.data, out.grad));
    case Power(a, k) =>
      var self := nodes[a];
      Accumulate(nodes, a, Times(PowSlope(self.data, k), out.grad));
    case Exponential(a) =>
      Accumulate(nodes, a, Times(out.data, out.grad));
    case Logarithm(a) =>
      var self := nodes[a];
      Accumulate(nodes, a, Times(1.0 / self.data, out.grad));
  }

  /** What `backward` from `root` leaves in the arena: every node reachable
      from the root holds its adjoint, every other node is as it was. */
  ghost function BackwardSpec(g: Arena, root: nat): (r: Arena)
    requires Valid(g) && root < |g|
    ensures SameShape(g, r) && Valid(r)
    ensures r[root].grad == 1.0
    ensures forall v :: 0 <= v < |g| && v !in Reach(g, root) ==> r[v] == g[v]
  {
    AdjointRoot(g, root);
    var r := seq(|g|, v requires 0 <= v < |g| =>
      if v in Reach(g, root) then g[v].(grad := Adjoint(g, root, v)) else g[v]);
    ValidShape(g, r);
    r
  }

  /** The nodes `order[k..]`, whose rules have already run. */
  ghost function Suffix(order: seq<nat>, k: nat): (r: set<nat>)
    requires k <= |order|
    ensures forall x :: x in r <==> exists j :: k <= j < |order| && order[j] == x
  {
    set j | k <= j < |order| :: order[j]
  }

  /** The state of the reverse sweep once the rules of `done` have run:
      every reachable `v` holds the seed plus the contributions of those
      consumers in `done`; unreachable nodes are untouched. */
  ghost predicate Swept(g0: Arena, root: nat, done: set<nat>, cur: seq<Node>)
    requires Valid(g0) && root < |g0|
  {
    |cur| == |g0| &&
    forall v {:trigger SweptNode(g0, root, done, v)} :: 0 <= v < |g0| ==> cur[v] == SweptNode(g0, root, done, v)
  }

  /** When the rule of `order[k]` runs, every consumer of `order[k]` has
      already run, so its gradient is complete. */
  lemma GradComplete(g0: Arena, root: nat, order: seq<nat>, k: nat, cur: seq<Node>)
    requires Valid(g0) && root < |g0| && k < |order|
    requires Distinct(order) && Topological(g0, order)
    requires forall x :: x in order <==> x in Reach(g0, root)
    requires Swept(g0, root, Suffix(order, k + 1), cur)
    ensures order[k] in Reach(g0, root) && order[k] <= root
    ensures cur[order[k]].grad == Adjoint(g0, root, order[k])
  {
    var w := order[k];
    assert w in order;
    var done := Suffix(order, k + 1);
    assert cur[w] == SweptNode(g0, root, done, w);
    forall u | u in Above(g0, root, w) && u !in Later(done, w, root)
      ensures w !in Preds(g0[u].op)
    {
      assert u in order;
      var j :| 0 <= j < |order| && order[j] == u;
    }
    InflowSupport(g0, root, w, Later(done, w, root), Above(g0, root, w));
  }

  /** The swept value of node `v` once the rules of `done` have run. */
  ghost function SweptNode(g0: Arena, root: nat, done: set<nat>, v: nat): Node
    requires Valid(g0) && root < |g0| && v < |g0|
  {
    if v in Reach(g0, root)
    then g0[v].(grad := Seed(root, v) + Inflow(g0, root, v, Later(done, v, root)))
    else g0[v]
  }

  /** Running the complete rule of `w` moves one node from "`w` not yet run"
      to "`w` run". */
  lemma SweepNode(g0: Arena, root: nat, cur: seq<Node>, w: nat, done: set<nat>, v: nat)
    requires Valid(g0) && root < |g0| && SameShape(g0, cur) && Valid(cur)
    requires w in Reach(g0, root) && w !in done && v < |g0|
    requires cur[w].grad == Adjoint(g0, root, w)
    requires cur[v] == SweptNode(g0, root, done, v)
    ensures RuleSpec(cur, w)[v] == SweptNode(g0, root, done + {w}, v)
  {
    CoefShape(g0, cur, w, v);
    assert WellFormed(g0, w);
    if v in Reach(g0, root) {
      var after := Later(done + {w}, v, root);
      if v < w {
        assert after - {w} == Later(done, v, root);
        InflowRemove(g0, root, v, after, w);
        TermUnfold(g0, root, v, w);
      } else {
        assert after == Later(done, v, root);
      }
    } else if v in Preds(g0[w].op) {
      ReachClosed(g0, root, w, v);
    }
  }

  /** `order[k..]` is `order[k + 1..]` plus `order[k]`, which is new there. */
  lemma SuffixStep(order: seq<nat>, k: nat)
    requires k < |order| && Distinct(order)
    ensures Suffix(order, k) == Suffix(order, k + 1) + {order[k]}
    ensures order[k] !in Suffix(order, k + 1)
  {
  }

  /** The sweep changes gradients only. */
  lemma SweptShape(g0: Arena, root: nat, done: set<nat>, cur: seq<Node>)
    requires Valid(g0) && root < |g0| && Swept(g0, root, done, cur)
    ensures SameShape(g0, cur) && Valid(cur)
  {
    forall i | 0 <= i < |g0| ensures cur[i].data == g0[i].data && cur[i].op == g0[i].op {
      assert cur[i] == SweptNode(g0, root, done, i);
    }
    ValidShape(g0, cur);
  }

  /** Running the rule of `order[k]` extends the swept set by that node. */
  lemma SweepStep(g0: Arena, root: nat, order: seq<nat>, k: nat, cur: seq<Node>)
    requires Valid(g0) && root < |g0| && k < |order|
    requires Distinct(order) && Topological(g0, order)
    requires forall x :: x in order <==> x in Reach(g0, root)
    requires Swept(g0, root, Suffix(order, k + 1), cur)
    ensures SameShape(g0, cur) && Valid(cur) && order[k] < |cur|
    ensures Swept(g0, root, Suffix(order, k), RuleApplied(cur, order[k]))
  {
    var w := order[k];
    GradComplete(g0, root, order, k, cur);
    SweptShape(g0, root, Suffix(order, k + 1), cur);
    SuffixStep(order, k);
    var before := Suffix(order, k + 1);
    forall v | 0 <= v < |g0|
      ensures RuleSpec(cur, w)[v] == SweptNode(g0, root, before + {w}, v)
    {
      SweepNode(g0, root, cur, w, before, v);
    }
    RuleAppliedMeetsSpec(cur, w);
  }

  /** Before the sweep: every reachable gradient reset to 0, the root's set to 1. */
  lemma SweepStart(g0: Arena, root: nat, cur: seq<Node>)
    requires Valid(g0) && root < |g0| && |cur| == |g0|
    requires forall v :: 0 <= v < |g0| ==>
      cur[v] == if v in Reach(g0, root) then g0[v].(grad := Seed(root, v)) else g0[v]
    ensures Swept(g0, root, {}, cur)
  {
    forall v | 0 <= v < |g0| && v in Reach(g0, root)
      ensures Inflow(g0, root, v, Later({}, v, root)) == 0.0
    {
      assert Later({}, v, root) == {};
    }
  }

  /** After the sweep: every reachable node holds its adjoint. */
  lemma SweepEnd(g0: Arena, root: nat, order: seq<nat>, cur: seq<Node>)
    requires Valid(g0) && root < |g0|
    requires forall x :: x in order <==> x in Reach(g0, root)
    requires Swept(g0, root, Suffix(order, 0), cur)
    ensures cur == BackwardSpec(g0, root)
  {
    assert Suffix(order, 0) == Reach(g0, root) by {
      forall x | x in Reach(g0, root) ensures x in Suffix(order, 0) {
        assert x in order;
      }
    }
    var spec := BackwardSpec(g0, root);
    forall v | 0 <= v < |g0| ensures cur[v] == spec[v] {
      assert cur[v] == SweptNode(g0, root, Suffix(order, 0), v);
      if v in Reach(g0, root) {
        assert Later(Reach(g0, root), v, root) == Above(g0, root, v);
      }
    }
  }

  /** `for v in nodes: v.grad = 0.0`. */
  method ZeroGrads(nodes: array<Node>, order: seq<nat>)
    requires forall x :: x in order ==> x < nodes.Length
    modifies nodes
    ensures forall v :: 0 <= v < nodes.Length ==>
      nodes[v] == if v in order then old(nodes[v]).(grad := 0.0) else old(nodes[v])
  {
    var i := 0;
    while i < |order|
      invariant 0 <= i <= |order|
      invariant forall v :: 0 <= v < nodes.Length ==>
        nodes[v] == if v in order[..i] then old(nodes[v]).(grad := 0.0) else old(nodes[v])
    {
      assert order[i] in order;
      nodes[order[i]] := nodes[order[i]].(grad := 0.0);
      assert order[..i + 1] == order[..i] + [order[i]];
      i := i + 1;
    }
    assert order[..i] == order;
  }

  /** `for v in reversed(nodes): v._backward()`, starting from the seeded state. */
  method Sweep(nodes: array<Node>, order: seq<nat>, ghost g0: Arena, root: nat)
    requires Valid(g0) && root < |g0| && nodes.Length == |g0|
    requires Distinct(order) && Topological(g0, order)
    requires forall x :: x in order <==> x in Reach(g0, root)
    requires Swept(g0, root, {}, nodes[..])
    modifies nodes
    ensures nodes[..] == BackwardSpec(g0, root)
  {
    var k := |order|;
    assert Suffix(order, k) == {};
    while k > 0
      invariant 0 <= k <= |order|
      invariant nodes.Length == |g0|
      invariant Swept(g0, root, Suffix(order, k), nodes[..])
    {
      k := k - 1;
      SweepStep(g0, root, order, k, nodes[..]);
      ApplyRule(nodes, order[k]);
    }
    assert k == 0;
    SweepEnd(g0, root, order, nodes[..]);
  }

  /** `backward()` called on node `root`. */
  method Backward(nodes: array<Node>, root: nat)
    requires Valid(nodes[..]) && root < nodes.Length
    modifies nodes
    ensures nodes[..] == BackwardSpec(old(nodes[..]), root)
  {
    ghost var g0 := nodes[..];
    var order := TopoSort(nodes[..], root);
    ZeroGrads(nodes, order);
    nodes[root] := nodes[root].(grad := 1.0);
    SweepStart(g0, root, nodes[..]);
    Sweep(nodes, order, g0, root);
  }

  /** The gradients `backward` leaves do not depend on the gradients the
      arena held before: only data and operations matter. */
  lemma BackwardIgnoresGrads(g1: Arena, g2: Arena, root: nat)
    requires Valid(g1) && SameShape(g1, g2) && root < |g1|
    ensures Valid(g2)
    ensures forall v :: v in Reach(g1, root) ==>
              v < |g1| && BackwardSpec(g1, root)[v] == BackwardSpec(g2, root)[v]
  {
    ValidShape(g1, g2);
    ReachShape(g1, g2, root);
    forall v | v in Reach(g1, root)
      ensures v < |g1| && BackwardSpec(g1, root)[v] == BackwardSpec(g2, root)[v]
    {
      AdjointShape(g1, g2, root, v);
      assert g1[v].data == g2[v].data && g1[v].op == g2[v].op;
    }
  }

  /** Calling `backward` twice gives the same gradients as calling it once. */
  lemma BackwardIdempotent(g: Arena, root: nat)
    requires Valid(g) && root < |g|
    ensures BackwardSpec(BackwardSpec(g, root), root) == BackwardSpec(g, root)
  {
    var once := BackwardSpec(g, root);
    var twice := BackwardSpec(once, root);
    BackwardIgnoresGrads(g, once, root);
    ReachShape(g, once, root);
    forall v | 0 <= v < |g| ensures twice[v] == once[v] {
      if v !in Reach(g, root) {
        assert twice[v] == once[v];
      }
    }
  }

  /** `backward` on a leaf sets its gradient to 1 and changes nothing else. */
  lemma BackwardLeaf(g: Arena, root: nat)
    requires Valid(g) && root < |g| && g[root].op.Leaf?
    ensures BackwardSpec(g, root) == g[root := g[root].(grad := 1.0)]
  {
    ReachLeaf(g, root);
    var spec := BackwardSpec(g, root);
    assert forall v :: 0 <= v < |g| && v != root ==> spec[v] == g[v];
  }
}
