/** The node arena of the autodiff engine: every `Value` object is a node of
    an arena, addressed by its index, and its operands are indices of nodes
    that were created before it. */
module Graph {

  /** How a node was produced; the tag selects its backward rule.
      Operands are arena indices. */
  datatype Op =
    | Leaf
    | Sum(a: nat, b: nat)
    | Negation(a: nat)
    | Product(a: nat, b: nat)
    | Power(a: nat, k: int)
    | Exponential(a: nat)
    | Logarithm(a: nat)

  /** A `Value`: its datum, its accumulated gradient and how it was built. */
  datatype Node = Node(data: real, grad: real, op: Op)

  /** All values ever built, in creation order. */
  type Arena = seq<Node>

  /** A Python exception raised by an operation. */
  datatype Error =
    | ZeroDivisionError  // zero raised to a negative power
    | ValueError         // logarithm of a non-positive number
    | AssertionError     // a Value used as an exponent
    | TypeError          // a Value iterated as if it were a list

  datatype Result<T> = Ok(value: T) | Err(error: Error)

  /** The predecessor set `_prev`: the distinct operands of a node. */
  function Preds(op: Op): (r: set<nat>)
    ensures op.Leaf? <==> r == {}
  {
    match op
    case Leaf => {}
    case Sum(a, b) => {a, b}
    case Negation(a) => {a}
    case Product(a, b) => {a, b}
    case Power(a, _) => {a}
    case Exponential(a) => {a}
    case Logarithm(a) => {a}
  }

  /** Operands exist before the node they produce. */
  predicate OperandsBefore(op: Op, w: nat)
    ensures OperandsBefore(op, w) ==> forall p :: p in Preds(op) ==> p < w
  {
    match op
    case Leaf => true
    case Sum(a, b) => a < w && b < w
    case Negation(a) => a < w
    case Product(a, b) => a < w && b < w
    case Power(a, _) => a < w
    case Exponential(a) => a < w
    case Logarithm(a) => a < w
  }

  /** The backward rule of node `w` divides by nothing that is zero:
      a negative power and a logarithm both need a nonzero base. */
  predicate RuleDefined(g: Arena, op: Op)
    requires OperandsBefore(op, |g|)
  {
    match op
    case Power(a, k) => k < 0 ==> g[a].data != 0.0
    case Logarithm(a) => g[a].data != 0.0
    case _ => true
  }

  /** Node `w` is well formed: its operands were built before it and its
      backward rule is defined. */
  predicate WellFormed(g: Arena, w: nat)
    requires w < |g|
  {
    OperandsBefore(g[w].op, w) && RuleDefined(g, g[w].op)
  }

  /** The arena invariant: it is a DAG in index order and every rule is defined. */
  predicate Valid(g: Arena) {
    forall w :: 0 <= w < |g| ==> WellFormed(g, w)
  }

  /** `g2` extends `g1`: every node of `g1` is still at its index, unchanged.
      The equalities are only drawn for nodes looked up in `g2`, so that a
      chain of extensions does not copy every lookup across the whole chain. */
  predicate Extends(g1: Arena, g2: Arena) {
    |g1| <= |g2| && forall j {:trigger g2[j]} :: 0 <= j < |g1| ==> g2[j] == g1[j]
  }

  /** Two arenas with the same nodes except, possibly, for their gradients. */
  predicate SameShape(g1: Arena, g2: Arena) {
    |g1| == |g2| &&
    forall i :: 0 <= i < |g1| ==> g1[i].data == g2[i].data && g1[i].op == g2[i].op
  }

  lemma ValidShape(g1: Arena, g2: Arena)
    requires SameShape(g1, g2) && Valid(g1)
    ensures Valid(g2)
  {
    forall w | 0 <= w < |g2|
      ensures WellFormed(g2, w)
    {
      assert WellFormed(g1, w) && g1[w].op == g2[w].op;
      match g1[w].op
      case Power(a, k) => assert g1[a].data == g2[a].data;
      case Logarithm(a) => assert g1[a].data == g2[a].data;
      case _ =>
    }
  }

  /** Python's `x ** k` for an integer exponent, on exact reals. */
  function IntPow(x: real, k: int): (r: real)
    requires k >= 0 || x != 0.0
    ensures x != 0.0 ==> r != 0.0
    decreases if k >= 0 then k else -k
  {
    if k == 0 then 1.0
    else if k > 0 then x * IntPow(x, k - 1)
    else IntPow(x, k + 1) / x
  }

  /** Raising to one more power multiplies by the base, for every exponent. */
  lemma {:induction false} IntPowSucc(x: real, k: int)
    requires k >= 0 || x != 0.0
    ensures IntPow(x, k + 1) == x * IntPow(x, k)
  {
    if k < -1 {
      assert IntPow(x, k) == IntPow(x, k + 1) / x;
    }
  }

  /** A power of -1 is the reciprocal: `b ** -1 == 1 / b`. */
  lemma IntPowMinusOne(x: real)
    requires x != 0.0
    ensures IntPow(x, -1) == 1.0 / x
  {
  }

  /** The product of two reals as a function of its factors, so that
      products of equal factors are equal without arithmetic reasoning. */
  function Times(x: real, y: real): real {
    x * y
  }

  /** Multiplying by the reciprocal divides. */
  lemma MulReciprocal(x: real, c: real)
    requires c != 0.0
    ensures x * (1.0 / c) == x / c
  {
  }

  /** The local derivative `k * x ** (k - 1)` of `x ** k`; it is 0 when
      `k == 0`, whatever `x` is. */
  function PowSlope(x: real, k: int): real
    requires k >= 0 || x != 0.0
  {
    if k == 0 then 0.0 else (k as real) * IntPow(x, k - 1)
  }

  /** The slope is the derivative of `x ** k`: it vanishes for a constant
      power, and multiplied by the base it gives `k * x ** k`, for every
      integer exponent. */
  lemma {:induction false} PowSlopeScaled(x: real, k: int)
    requires k >= 0 || x != 0.0
    ensures k == 0 ==> PowSlope(x, k) == 0.0
    ensures x * PowSlope(x, k) == (k as real) * IntPow(x, k)
  {
    if k != 0 {
      var p := IntPow(x, k - 1);
      IntPowSucc(x, k - 1);
      assert x * ((k as real) * p) == (k as real) * (x * p);
    }
  }

  /** The local partial derivative of node `w` with respect to node `v`,
      summed over every operand slot of `w` that holds `v`: this is the
      factor by which the backward rule of `w` scales `w.grad` into `v.grad`. */
  function Coef(g: Arena, w: nat, v: nat): (r: real)
    requires Valid(g) && w < |g|
    ensures v !in Preds(g[w].op) ==> r == 0.0
  {
    assert WellFormed(g, w);
    match g[w].op
    case Leaf => 0.0
    case Sum(a, b) => (if a == v then 1.0 else 0.0) + (if b == v then 1.0 else 0.0)
    case Negation(a) => if a == v then -1.0 else 0.0
    case Product(a, b) =>
      (if a == v then g[b].data else 0.0) + (if b == v then g[a].data else 0.0)
    case Power(a, k) => if a == v then PowSlope(g[a].data, k) else 0.0
    case Exponential(a) => if a == v then g[w].data else 0.0
    case Logarithm(a) => if a == v then 1.0 / g[a].data else 0.0
  }

  lemma CoefShape(g1: Arena, g2: Arena, w: nat, v: nat)
    requires SameShape(g1, g2) && Valid(g1) && Valid(g2) && w < |g1|
    ensures Coef(g1, w, v) == Coef(g2, w, v)
  {
    assert WellFormed(g1, w) && g1[w].op == g2[w].op && g1[w].data == g2[w].data;
    match g1[w].op
    case Sum(a, b) =>
    case Product(a, b) => assert g1[a].data == g2[a].data && g1[b].data == g2[b].data;
    case Power(a, k) => assert g1[a].data == g2[a].data;
    case Logarithm(a) => assert g1[a].data == g2[a].data;
    case _ =>
  }
}
