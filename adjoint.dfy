/** The gradient `backward` is meant to compute, defined independently of
    any traversal order: the adjoint of `v` with respect to the root is the
    seed (1 at the root) plus, for every node `w` reachable from the root
    that uses `v` as an operand, the local derivative of `w` with respect to
    `v` times the adjoint of `w` -- the chain rule, summed over all paths. */
module Adjoints {
  import opened Graph
  import opened Topo

  /** The members of `S` built after `v`, up to the root. */
  ghost function Later(S: set<nat>, v: nat, root: nat): (r: set<nat>)
    ensures forall w :: w in r <==> w in S && v < w <= root
  {
    set w | w in S && v < w <= root
  }

  /** The reachable nodes built after `v`: the only nodes whose rules can add to `v.grad`. */
  ghost function Above(g: Arena, root: nat, v: nat): (r: set<nat>)
    requires Valid(g) && root < |g|
    ensures forall w :: w in r ==> v < w <= root
  {
    Later(Reach(g, root), v, root)
  }

  /** The seed `root.grad = 1`. */
  function Seed(root: nat, v: nat): real {
    if v == root then 1.0 else 0.0
  }

  /** The total derivative of the root with respect to node `v`. */
  ghost function Adjoint(g: Arena, root: nat, v: nat): real
    requires Valid(g) && root < |g| && v <= root
    decreases root - v, Above(g, root, v) + {v}
  {
    Seed(root, v) + Inflow(g, root, v, Above(g, root, v))
  }

  /** The sum, over the nodes `w` of `S`, of what the rule of `w` adds to `v.grad`
      once `w.grad` holds its adjoint. */
  ghost function Inflow(g: Arena, root: nat, v: nat, S: set<nat>): real
    requires Valid(g) && root < |g| && v <= root
    requires forall w :: w in S ==> v < w <= root
    decreases root - v, S
  {
    if S == {} then 0.0
    else
      var w :| w in S;
      Term(g, root, v, w) + Inflow(g, root, v, S - {w})
  }

  const NoNodes: set<nat> := {}

  /** What the rule of `w` adds to `v.grad` once `w.grad` holds its adjoint. */
  ghost function Term(g: Arena, root: nat, v: nat, w: nat): real
    requires Valid(g) && root < |g| && v < w <= root
    decreases root - v, NoNodes
  {
    Times(Coef(g, w, v), Adjoint(g, root, w))
  }

  lemma TermUnfold(g: Arena, root: nat, v: nat, w: nat)
    requires Valid(g) && root < |g| && v < w <= root
    ensures Term(g, root, v, w) == Times(Coef(g, w, v), Adjoint(g, root, w))
  {
  }

  /** The sum does not depend on which element is taken out first. */
  lemma {:induction false} InflowRemove(g: Arena, root: nat, v: nat, S: set<nat>, x: nat)
    requires Valid(g) && root < |g| && v <= root
    requires (forall w :: w in S ==> v < w <= root) && x in S
    ensures Inflow(g, root, v, S) == Term(g, root, v, x) + Inflow(g, root, v, S - {x})
    decreases S
  {
    var y :| y in S && Inflow(g, root, v, S) == Term(g, root, v, y) + Inflow(g, root, v, S - {y});
    if y != x {
      InflowRemove(g, root, v, S - {y}, x);
      InflowRemove(g, root, v, S - {x}, y);
      assert S - {y} - {x} == S - {x} - {y};
    }
  }

  /** Nodes that do not use `v` as an operand add nothing to its sum. */
  lemma {:induction false} InflowSupport(g: Arena, root: nat, v: nat, S1: set<nat>, S2: set<nat>)
    requires Valid(g) && root < |g| && v <= root
    requires (forall w :: w in S2 ==> v < w <= root) && S1 <= S2
    requires forall w :: w in S2 && w !in S1 ==> v !in Preds(g[w].op)
    ensures Inflow(g, root, v, S1) == Inflow(g, root, v, S2)
    decreases S2
  {
    if S1 != S2 {
      var x :| x in S2 && x !in S1;
      InflowRemove(g, root, v, S2, x);
      InflowSupport(g, root, v, S1, S2 - {x});
    }
  }

  /** The reachable nodes that use `v` as an operand. */
  ghost function Consumers(g: Arena, root: nat, v: nat): (r: set<nat>)
    requires Valid(g) && root < |g|
    ensures forall w :: w in r ==> v < w <= root && w in Reach(g, root) && v in Preds(g[w].op)
  {
    var r := set w | w in Reach(g, root) && v in Preds(g[w].op);
    assert forall w :: w in r ==> WellFormed(g, w);
    r
  }

  /** The chain rule: the adjoint of `v` is the seed plus the contributions
      of exactly the reachable consumers of `v`. */
  lemma ChainRule(g: Arena, root: nat, v: nat)
    requires Valid(g) && root < |g| && v <= root
    ensures Adjoint(g, root, v) == Seed(root, v) + Inflow(g, root, v, Consumers(g, root, v))
  {
    InflowSupport(g, root, v, Consumers(g, root, v), Above(g, root, v));
  }

  /** The sum over a single node is that node's term. */
  lemma InflowSingleton(g: Arena, root: nat, v: nat, w: nat)
    requires Valid(g) && root < |g| && v < w <= root
    ensures Inflow(g, root, v, {w}) == Term(g, root, v, w)
  {
    InflowRemove(g, root, v, {w}, w);
    assert {w} - {w} == {};
    assert Inflow(g, root, v, {}) == 0.0;
  }

  /** The sum over two distinct nodes is the sum of their terms. */
  lemma InflowPair(g: Arena, root: nat, v: nat, w1: nat, w2: nat)
    requires Valid(g) && root < |g| && w1 != w2 && v < w1 <= root && v < w2 <= root
    ensures Inflow(g, root, v, {w1, w2}) == Term(g, root, v, w1) + Term(g, root, v, w2)
  {
    InflowRemove(g, root, v, {w1, w2}, w1);
    assert {w1, w2} - {w1} == {w2};
    InflowSingleton(g, root, v, w2);
  }

  /** A node used by a single reachable consumer gets that consumer's adjoint
      scaled by the local derivative. */
  lemma SingleConsumer(g: Arena, root: nat, v: nat, w: nat)
    requires Valid(g) && root < |g| && v < root && v < w <= root
    requires Consumers(g, root, v) == {w}
    ensures Adjoint(g, root, v) == Coef(g, w, v) * Adjoint(g, root, w)
  {
    ChainRule(g, root, v);
    InflowSingleton(g, root, v, w);
    TermUnfold(g, root, v, w);
  }

  /** A node used by two reachable consumers sums both contributions. */
  lemma TwoConsumers(g: Arena, root: nat, v: nat, w1: nat, w2: nat)
    requires Valid(g) && root < |g| && v < root && w1 != w2
    requires v < w1 <= root && v < w2 <= root
    requires Consumers(g, root, v) == {w1, w2}
    ensures Adjoint(g, root, v) ==
      Coef(g, w1, v) * Adjoint(g, root, w1) + Coef(g, w2, v) * Adjoint(g, root, w2)
  {
    ChainRule(g, root, v);
    InflowPair(g, root, v, w1, w2);
    TermUnfold(g, root, v, w1);
    TermUnfold(g, root, v, w2);
  }

  /** The seed: the root's own adjoint is 1. */
  lemma AdjointRoot(g: Arena, root: nat)
    requires Valid(g) && root < |g|
    ensures Adjoint(g, root, root) == 1.0
  {
    assert Above(g, root, root) == {};
  }

  /** Adjoints depend on data and operations only, never on the gradients
      stored in the arena. */
  lemma {:induction false} AdjointShape(g1: Arena, g2: Arena, root: nat, v: nat)
    requires SameShape(g1, g2) && Valid(g1) && Valid(g2) && root < |g1| && v <= root
    ensures Adjoint(g1, root, v) == Adjoint(g2, root, v)
    decreases root - v
  {
    ReachShape(g1, g2, root);
    var S := Above(g1, root, v);
    assert S == Above(g2, root, v);
    forall w | w in S ensures Adjoint(g1, root, w) == Adjoint(g2, root, w) {
      AdjointShape(g1, g2, root, w);
    }
    InflowShape(g1, g2, root, v, S);
  }

  /** Sums of terms whose adjoints agree agree. */
  lemma {:induction false} InflowShape(g1: Arena, g2: Arena, root: nat, v: nat, S: set<nat>)
    requires SameShape(g1, g2) && Valid(g1) && Valid(g2) && root < |g1| && v <= root
    requires forall w :: w in S ==> v < w <= root
    requires forall w :: w in S ==> Adjoint(g1, root, w) == Adjoint(g2, root, w)
    ensures Inflow(g1, root, v, S) == Inflow(g2, root, v, S)
    decreases S
  {
    if S != {} {
      var x :| x in S;
      InflowRemove(g1, root, v, S, x);
      InflowRemove(g2, root, v, S, x);
      CoefShape(g1, g2, x, v);
      TermShape(g1, g2, root, v, x);
      InflowShape(g1, g2, root, v, S - {x});
    }
  }

  lemma TermShape(g1: Arena, g2: Arena, root: nat, v: nat, w: nat)
    requires Valid(g1) && Valid(g2) && root < |g1| && root < |g2| && v < w <= root
    requires Coef(g1, w, v) == Coef(g2, w, v) && Adjoint(g1, root, w) == Adjoint(g2, root, w)
    ensures Term(g1, root, v, w) == Term(g2, root, v, w)
  {
    TermUnfold(g1, root, v, w);
    TermUnfold(g2, root, v, w);
  }
}
