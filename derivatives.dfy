/** What `backward` computes for single operator applications: the local
    derivatives each `_backward` closure encodes, read off the reference
    adjoint of a freshly built result. */
module Derivatives {
  import opened Graph
  import opened Topo
  import opened Adjoints
  import opened Ops

  /** When `v` feeds the root directly and no other operand of the root
      reaches `v`, the root is the only reachable consumer of `v`. */
  lemma OnlyConsumer(g: Arena, root: nat, v: nat)
    requires Valid(g) && root < |g| && v in Preds(g[root].op)
    requires forall p :: p in Preds(g[root].op) && p != v && p < |g| ==> v !in Reach(g, p)
    ensures v < root && Consumers(g, root, v) == {root}
  {
    assert WellFormed(g, root);
    forall w | w in Consumers(g, root, v) ensures w == root {
      if w != root {
        var p :| p in Preds(g[root].op) && w in Reach(g, p);
        ReachPred(g, root, p);
        if p != v {
          ReachClosed(g, p, w, v);
        }
      }
    }
    ReachPred(g, root, v);
  }

  /** The adjoint of a direct operand that no other operand reaches is the
      local derivative of the root with respect to it. */
  lemma DirectOperand(g: Arena, root: nat, v: nat)
    requires Valid(g) && root < |g| && v in Preds(g[root].op)
    requires forall p :: p in Preds(g[root].op) && p != v && p < |g| ==> v !in Reach(g, p)
    ensures v < root && Adjoint(g, root, v) == Coef(g, root, v)
  {
    OnlyConsumer(g, root, v);
    SingleConsumer(g, root, v, root);
    AdjointRoot(g, root);
  }

  /** `x + x`: a fresh node with gradient 0 and the single predecessor `x`;
      both slots feed `x`, so its gradient is 2. */
  lemma AddSelf(g: Arena, x: nat)
    requires Valid(g) && x < |g|
    ensures var (g', out) := Add(g, x, Ref(x));
            g'[out].grad == 0.0 && Preds(g'[out].op) == {x} && Adjoint(g', out, x) == 2.0
  {
    var (g', out) := Add(g, x, Ref(x));
    DirectOperand(g', out, x);
  }

  /** `x * x`: a fresh node with gradient 0 and the single predecessor `x`;
      `x` receives `2 * x.data`. */
  lemma MulSelf(g: Arena, x: nat)
    requires Valid(g) && x < |g|
    ensures var (g', out) := Mul(g, x, Ref(x));
            g'[out].grad == 0.0 && Preds(g'[out].op) == {x}
            && Adjoint(g', out, x) == 2.0 * g[x].data
  {
    var (g', out) := Mul(g, x, Ref(x));
    DirectOperand(g', out, x);
  }

  /** `a + b` for distinct values neither of which reaches the other: each
      operand receives `out.grad` unscaled. */
  lemma AddOperands(g: Arena, a: nat, b: nat)
    requires Valid(g) && a < |g| && b < |g| && a != b
    requires a !in Reach(g, b) && b !in Reach(g, a)
    ensures var (g', out) := Add(g, a, Ref(b));
            Adjoint(g', out, a) == 1.0 && Adjoint(g', out, b) == 1.0
  {
    var (g', out) := Add(g, a, Ref(b));
    assert Extends(g, g');
    ReachPrefix(g, g', a);
    ReachPrefix(g, g', b);
    DirectOperand(g', out, a);
    DirectOperand(g', out, b);
  }

  /** `a * b` for distinct values neither of which reaches the other: each
      operand receives the other's datum. */
  lemma MulOperands(g: Arena, a: nat, b: nat)
    requires Valid(g) && a < |g| && b < |g| && a != b
    requires a !in Reach(g, b) && b !in Reach(g, a)
    ensures var (g', out) := Mul(g, a, Ref(b));
            Adjoint(g', out, a) == g[b].data && Adjoint(g', out, b) == g[a].data
  {
    var (g', out) := Mul(g, a, Ref(b));
    assert Extends(g, g');
    ReachPrefix(g, g', a);
    ReachPrefix(g, g', b);
    DirectOperand(g', out, a);
    DirectOperand(g', out, b);
  }

  /** `-a`: the operand receives `-out.grad`. */
  lemma NegOperand(g: Arena, a: nat)
    requires Valid(g) && a < |g|
    ensures var (g', out) := Neg(g, a); Adjoint(g', out, a) == -1.0
  {
    var (g', out) := Neg(g, a);
    DirectOperand(g', out, a);
  }

  /** `a ** k`: the base receives `k * a.data ** (k - 1)` (0 when `k == 0`). */
  lemma PowOperand(g: Arena, a: nat, k: int)
    requires Valid(g) && a < |g| && Pow(g, a, IntExponent(k)).Ok?
    ensures k >= 0 || g[a].data != 0.0
    ensures var (g', out) := Pow(g, a, IntExponent(k)).value;
            Adjoint(g', out, a) == PowSlope(g[a].data, k)
  {
    var (g', out) := Pow(g, a, IntExponent(k)).value;
    DirectOperand(g', out, a);
  }

  /** `a.exp()`: the operand receives `out.data`, the exponential itself. */
  lemma ExpOperand(g: Arena, a: nat, exp: real -> real)
    requires Valid(g) && a < |g|
    ensures var (g', out) := Exp(g, a, exp); Adjoint(g', out, a) == exp(g[a].data)
  {
    var (g', out) := Exp(g, a, exp);
    DirectOperand(g', out, a);
  }

  /** `a.log()`: the operand receives `a.data ** -1`. */
  lemma LogOperand(g: Arena, a: nat, ln: real -> real)
    requires Valid(g) && a < |g| && g[a].data > 0.0
    ensures var (g', out) := Log(g, a, ln).value; Adjoint(g', out, a) == 1.0 / g[a].data
  {
    var (g', out) := Log(g, a, ln).value;
    DirectOperand(g', out, a);
  }

  /** The slope of `x ** k` as the closure of `__pow__` evaluates it,
      `k * x ** (k - 1)`, where Python refuses to raise zero to a negative
      power. */
  function PowSlopeAsWritten(x: real, k: int): (r: Result<real>)
    ensures r.Err? <==> x == 0.0 && k <= 0
    ensures r.Err? ==> r.error == ZeroDivisionError
    ensures r.Ok? ==> r.value == PowSlope(x, k)
  {
    if x == 0.0 && k - 1 < 0 then Err(ZeroDivisionError)
    else Ok((k as real) * IntPow(x, k - 1))
  }

  /** `Value(0) ** 0` is built without error, but its backward rule as
      written raises: it evaluates `0 * 0.0 ** -1`. The local derivative of
      a constant power is 0, which is what the corrected slope gives. */
  lemma PowZeroAsWrittenFails(g: Arena, a: nat)
    requires Valid(g) && a < |g| && g[a].data == 0.0
    ensures Pow(g, a, IntExponent(0)).Ok?
    ensures PowSlopeAsWritten(g[a].data, 0).Err?
    ensures PowSlope(g[a].data, 0) == 0.0
  {
  }

  /** Among powers that build, the rule as written fails exactly for the
      exponent 0 at base 0; everywhere else it agrees with the corrected slope. */
  lemma PowAsWrittenOnlyFailsAtZero(g: Arena, a: nat, k: int)
    requires Valid(g) && a < |g| && Pow(g, a, IntExponent(k)).Ok?
    ensures PowSlopeAsWritten(g[a].data, k).Err? <==> k == 0 && g[a].data == 0.0
    ensures PowSlopeAsWritten(g[a].data, k).Ok? ==>
              PowSlopeAsWritten(g[a].data, k).value == PowSlope(g[a].data, k)
  {
  }
}
