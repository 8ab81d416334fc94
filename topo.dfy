/** The first phase of `backward`: the nested `build`, a post-order
    depth-first search from the root over `_prev` with a visited set. */
module Topo {
  import opened Graph

  /** The nodes reachable from `v` over `_prev`, `v` itself included. */
  ghost function Reach(g: Arena, v: nat): (r: set<nat>)
    requires Valid(g) && v < |g|
    ensures v in r && forall w :: w in r ==> w <= v
    decreases v
  {
    assert WellFormed(g, v);
    {v} + (set p, w | p in Preds(g[v].op) && w in Reach(g, p) :: w)
  }

  /** What an operand reaches, its consumer reaches too. */
  lemma ReachPred(g: Arena, v: nat, p: nat)
    requires Valid(g) && v < |g| && p in Preds(g[v].op)
    ensures p < v && Reach(g, p) <= Reach(g, v)
  {
    assert WellFormed(g, v);
  }

  /** The reachable set is closed under `_prev`. */
  lemma {:induction false} ReachClosed(g: Arena, v: nat, w: nat, p: nat)
    requires Valid(g) && v < |g| && w in Reach(g, v) && p in Preds(g[w].op)
    ensures p in Reach(g, v)
    decreases v
  {
    if w == v {
      ReachPred(g, v, p);
    } else {
      assert WellFormed(g, v);
      var q :| q in Preds(g[v].op) && w in Reach(g, q);
      ReachPred(g, v, q);
      ReachClosed(g, q, w, p);
    }
  }

  /** Reaching is transitive. */
  lemma {:induction false} ReachTransitive(g: Arena, v: nat, u: nat)
    requires Valid(g) && v < |g| && u in Reach(g, v)
    ensures Reach(g, u) <= Reach(g, v)
    decreases v
  {
    if u != v {
      assert WellFormed(g, v);
      var q :| q in Preds(g[v].op) && u in Reach(g, q);
      ReachPred(g, v, q);
      ReachTransitive(g, q, u);
    }
  }

  /** Reachability depends only on the operations, not on data or gradients. */
  lemma {:induction false} ReachShape(g1: Arena, g2: Arena, v: nat)
    requires SameShape(g1, g2) && Valid(g1) && Valid(g2) && v < |g1|
    ensures Reach(g1, v) == Reach(g2, v)
    decreases v
  {
    assert WellFormed(g1, v) && g1[v].op == g2[v].op;
    forall p | p in Preds(g1[v].op) ensures Reach(g1, p) == Reach(g2, p) {
      ReachPred(g1, v, p);
      ReachShape(g1, g2, p);
    }
  }

  /** Appending nodes does not change what an existing node reaches. */
  lemma {:induction false} ReachPrefix(g: Arena, g': Arena, v: nat)
    requires Valid(g) && Valid(g') && Extends(g, g') && v < |g|
    ensures Reach(g, v) == Reach(g', v)
    decreases v
  {
    assert WellFormed(g, v) && g'[v] == g[v];
    forall p | p in Preds(g[v].op) ensures Reach(g, p) == Reach(g', p) {
      ReachPred(g, v, p);
      ReachPrefix(g, g', p);
    }
  }

  /** A leaf reaches only itself. */
  lemma ReachLeaf(g: Arena, v: nat)
    requires Valid(g) && v < |g| && g[v].op.Leaf?
    ensures Reach(g, v) == {v}
  {
  }

  predicate Distinct(s: seq<nat>) {
    forall i, j :: 0 <= i < j < |s| ==> s[i] != s[j]
  }

  /** Every node of `s` is a node of `g` and comes after all of its predecessors. */
  ghost predicate Topological(g: Arena, s: seq<nat>) {
    (forall i :: 0 <= i < |s| ==> s[i] < |g|) &&
    forall i, p :: 0 <= i < |s| && p in Preds(g[s[i]].op) ==> p in s[..i]
  }

  /** A topological list that holds `v` holds everything `v` reaches. */
  lemma {:induction false} ReachInOrder(g: Arena, s: seq<nat>, v: nat)
    requires Valid(g) && Topological(g, s) && v in s
    ensures v < |g| && forall x :: x in Reach(g, v) ==> x in s
    decreases v
  {
    var i :| 0 <= i < |s| && s[i] == v;
    forall x | x in Reach(g, v) ensures x in s {
      if x != v {
        var q :| q in Preds(g[v].op) && x in Reach(g, q);
        assert q in s[..i];
        ReachPred(g, v, q);
        ReachInOrder(g, s, q);
      }
    }
  }

  /** Appending a node whose predecessors are all listed keeps a list topological. */
  lemma AppendTopological(g: Arena, s: seq<nat>, v: nat)
    requires Topological(g, s) && v < |g| && forall p :: p in Preds(g[v].op) ==> p in s
    ensures Topological(g, s + [v])
  {
    var s' := s + [v];
    forall i, p | 0 <= i < |s'| && p in Preds(g[s'[i]].op) ensures p in s'[..i] {
      if i < |s| {
        assert s'[..i] == s[..i];
      } else {
        assert s'[..i] == s;
      }
    }
  }

  /** `build(v)`: if `v` is not yet visited, mark it, build every predecessor
      (in whatever order the set yields them) and then append `v`.
      Nodes visited but not yet appended are those whose `build` is still
      running; they all lie above `v`. */
  method Build(g: Arena, v: nat, visited: set<nat>, order: seq<nat>)
    returns (visited': set<nat>, order': seq<nat>)
    requires Valid(g) && v < |g|
    requires Distinct(order) && Topological(g, order)
    requires forall x :: x in order ==> x in visited
    requires forall x :: x in visited ==> x < |g|
    requires forall x :: x in visited && x !in order ==> v < x
    ensures Distinct(order') && Topological(g, order') && order <= order'
    ensures visited' == visited + Reach(g, v)
    ensures forall x :: x in order' <==> x in order || x in Reach(g, v)
    ensures forall x :: x in order' ==> x in visited'
    ensures forall x :: x in visited' && x !in order' <==> x in visited && x !in order
    ensures v !in visited ==> order' != [] && order'[|order'| - 1] == v
    decreases v
  {
    visited', order' := visited, order;
    if v in visited {
      ReachInOrder(g, order, v);
      return;
    }
    visited' := visited' + {v};
    var todo := Preds(g[v].op);
    assert WellFormed(g, v);
    while todo != {}
      invariant todo <= Preds(g[v].op)
      invariant Distinct(order') && Topological(g, order') && order <= order'
      invariant visited + {v} <= visited' <= visited + Reach(g, v)
      invariant forall p :: p in Preds(g[v].op) && p !in todo ==> Reach(g, p) <= visited'
      invariant forall x :: x in order' ==> x in visited' && x != v
      invariant forall x :: x in visited' && x !in order' <==> (x in visited && x !in order) || x == v
      decreases todo
    {
      var u :| u in todo;
      ReachPred(g, v, u);
      visited', order' := Build(g, u, visited', order');
      todo := todo - {u};
    }
    forall p | p in Preds(g[v].op) ensures p in order' {
      ReachPred(g, v, p);
    }
    AppendTopological(g, order', v);
    order' := order' + [v];
    assert visited' == visited + Reach(g, v) by {
      forall x | x in Reach(g, v) ensures x in visited' {
        if x != v {
          var q :| q in Preds(g[v].op) && x in Reach(g, q);
        }
      }
    }
  }

  /** The topological list `build(root)` leaves in `nodes`: every node
      reachable from the root exactly once, each after all of its
      predecessors, the root last. */
  method TopoSort(g: Arena, root: nat) returns (order: seq<nat>)
    requires Valid(g) && root < |g|
    ensures Distinct(order) && Topological(g, order)
    ensures forall x :: x in order <==> x in Reach(g, root)
    ensures |order| > 0 && order[|order| - 1] == root
  {
    var visited;
    visited, order := Build(g, root, {}, []);
  }
}
