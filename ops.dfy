/** The operator methods of `Value`: each appends the node it builds (and a
    leaf for a plain-number operand) to the arena and returns its index.
    Existing nodes are never changed. */
module Ops {
  import opened Graph

  /** An argument of a binary operator: a Value of the arena or a plain number. */
  datatype Operand = Ref(i: nat) | Num(x: real)

  /** The exponent given to `__pow__`: an integer, or a Value (refused). */
  datatype Exponent = IntExponent(k: int) | ValueExponent(i: nat)

  predicate Fits(g: Arena, o: Operand) {
    o.Ref? ==> o.i < |g|
  }

  /** The number an operand stands for. */
  function Datum(g: Arena, o: Operand): real
    requires Fits(g, o)
  {
    if o.Ref? then g[o.i].data else o.x
  }

  /** Appending a node whose operands exist and whose rule is defined keeps the arena valid. */
  lemma AppendValid(g: Arena, n: Node)
    requires Valid(g) && OperandsBefore(n.op, |g|)
    requires RuleDefined(g, n.op)
    ensures Valid(g + [n])
  {
    var g' := g + [n];
    forall w | 0 <= w < |g'|
      ensures WellFormed(g', w)
    {
      if w < |g| {
        assert g'[w] == g[w];
        assert WellFormed(g, w);
      }
    }
  }

  /** `Value.__init__`: a new node with `grad` 0, appended to the arena. */
  function Push(g: Arena, data: real, op: Op): (r: (Arena, nat))
    requires Valid(g) && OperandsBefore(op, |g|) && RuleDefined(g, op)
    ensures Valid(r.0) && r.1 == |g| && r.0 == g + [Node(data, 0.0, op)]
  {
    AppendValid(g, Node(data, 0.0, op));
    (g + [Node(data, 0.0, op)], |g|)
  }

  /** A leaf `Value(x)`. */
  function Constant(g: Arena, x: real): (r: (Arena, nat))
    requires Valid(g)
    ensures Valid(r.0) && r.1 == |g| && r.0 == g + [Node(x, 0.0, Leaf)]
  {
    Push(g, x, Leaf)
  }

  /** `other if isinstance(other, Value) else Value(other)`: a plain number
      becomes a fresh leaf; a Value is used as it is. */
  function Promote(g: Arena, o: Operand): (r: (Arena, nat))
    requires Valid(g) && Fits(g, o)
    ensures Valid(r.0) && Extends(g, r.0) && r.1 < |r.0|
    ensures r.0[r.1].data == Datum(g, o)
    ensures o.Ref? ==> r == (g, o.i)
    ensures o.Num? ==> r.0 == g + [Node(o.x, 0.0, Leaf)] && r.1 == |g|
  {
    if o.Ref? then (g, o.i) else Constant(g, o.x)
  }

  /** The index the operand ends up at after promotion. */
  function Slot(g: Arena, o: Operand): nat {
    if o.Ref? then o.i else |g|
  }

  /** `a + other`. */
  function Add(g: Arena, a: nat, other: Operand): (r: (Arena, nat))
    requires Valid(g) && a < |g| && Fits(g, other)
    ensures Valid(r.0) && Extends(g, r.0) && |g| < |r.0| && r.1 == |r.0| - 1
    ensures |r.0| == |g| + (if other.Num? then 2 else 1)
    ensures other.Num? ==> r.0[|g|] == Node(other.x, 0.0, Leaf)
    ensures r.0[r.1].data == g[a].data + Datum(g, other)
    ensures r.0[r.1].grad == 0.0 && r.0[r.1].op == Sum(a, Slot(g, other))
  {
    var (g1, b) := Promote(g, other);
    Push(g1, g[a].data + g1[b].data, Sum(a, b))
  }

  /** `-a`. */
  function Neg(g: Arena, a: nat): (r: (Arena, nat))
    requires Valid(g) && a < |g|
    ensures Valid(r.0) && r.1 == |g| && Extends(g, r.0) && |g| < |r.0| && |r.0| == |g| + 1
    ensures r.0[r.1].data == -g[a].data
    ensures r.0[r.1].grad == 0.0 && r.0[r.1].op == Negation(a)
  {
    Push(g, -g[a].data, Negation(a))
  }

  /** `a - other`, built as `a + (-other)`: a Value operand gets a
      negation node, a plain number is negated before promotion. */
  function Sub(g: Arena, a: nat, other: Operand): (r: (Arena, nat))
    requires Valid(g) && a < |g| && Fits(g, other)
    ensures Valid(r.0) && Extends(g, r.0) && |g| < |r.0| && r.1 == |r.0| - 1 && |r.0| == |g| + 2
    ensures r.0[r.1].data == g[a].data - Datum(g, other)
    ensures r.0[r.1].grad == 0.0 && r.0[r.1].op == Sum(a, |g|)
    ensures r.0[|g|] == if other.Ref? then Node(-g[other.i].data, 0.0, Negation(other.i))
                        else Node(-other.x, 0.0, Leaf)
  {
    if other.Ref? then
      var (g1, n) := Neg(g, other.i);
      Add(g1, a, Ref(n))
    else
      Add(g, a, Num(-other.x))
  }

  /** `a * other`. */
  function Mul(g: Arena, a: nat, other: Operand): (r: (Arena, nat))
    requires Valid(g) && a < |g| && Fits(g, other)
    ensures Valid(r.0) && Extends(g, r.0) && |g| < |r.0| && r.1 == |r.0| - 1
    ensures |r.0| == |g| + (if other.Num? then 2 else 1)
    ensures other.Num? ==> r.0[|g|] == Node(other.x, 0.0, Leaf)
    ensures r.0[r.1].data == g[a].data * Datum(g, other)
    ensures r.0[r.1].grad == 0.0 && r.0[r.1].op == Product(a, Slot(g, other))
  {
    var (g1, b) := Promote(g, other);
    Push(g1, g[a].data * g1[b].data, Product(a, b))
  }

  /** `a ** e`: a Value exponent fails the `isinstance` assertion, and zero
      raised to a negative power is a division by zero. */
  function Pow(g: Arena, a: nat, e: Exponent): (r: Result<(Arena, nat)>)
    requires Valid(g) && a < |g|
    ensures r.Err? <==> e.ValueExponent? || (e.k < 0 && g[a].data == 0.0)
    ensures r.Err? ==> r.error == if e.ValueExponent? then AssertionError else ZeroDivisionError
    ensures r.Ok? ==> Valid(r.value.0) && r.value.1 == |g|
                      && r.value.0 == g + [Node(IntPow(g[a].data, e.k), 0.0, Power(a, e.k))]
  {
    match e
    case ValueExponent(_) => Err(AssertionError)
    case IntExponent(k) =>
      if k < 0 && g[a].data == 0.0 then Err(ZeroDivisionError)
      else Ok(Push(g, IntPow(g[a].data, k), Power(a, k)))
  }

  /** `a / other`, built as `a * other ** -1`. */
  function TrueDiv(g: Arena, a: nat, other: Operand): (r: Result<(Arena, nat)>)
    requires Valid(g) && a < |g| && Fits(g, other)
    ensures r.Err? <==> Datum(g, other) == 0.0
    ensures r.Err? ==> r.error == ZeroDivisionError
    ensures r.Ok? ==> Valid(r.value.0) && Extends(g, r.value.0) && |g| < |r.value.0| && r.value.1 == |r.value.0| - 1
    ensures r.Ok? ==> r.value.0[r.value.1].data == g[a].data / Datum(g, other)
    ensures r.Ok? ==> |r.value.0| == |g| + 2 && r.value.0[r.value.1].grad == 0.0
    ensures r.Ok? ==> r.value.0[r.value.1].op == Product(a, |g|)
    ensures r.Ok? ==> r.value.0[|g|] == if other.Ref? then Node(IntPow(g[other.i].data, -1), 0.0, Power(other.i, -1))
                                        else Node(1.0 / other.x, 0.0, Leaf)
  {
    match other
    case Num(c) =>
      if c == 0.0 then Err(ZeroDivisionError)
      else
        MulReciprocal(g[a].data, c);
        Ok(Mul(g, a, Num(1.0 / c)))
    case Ref(b) =>
      match Pow(g, b, IntExponent(-1))
      case Err(e) => Err(e)
      case Ok((g1, p)) =>
        IntPowMinusOne(g[b].data);
        MulReciprocal(g[a].data, g[b].data);
        Ok(Mul(g1, a, Ref(p)))
  }

  /** `a.exp()`; `exp` stands for `math.exp`. */
  function Exp(g: Arena, a: nat, exp: real -> real): (r: (Arena, nat))
    requires Valid(g) && a < |g|
    ensures Valid(r.0) && r.1 == |g| && r.0 == g + [Node(exp(g[a].data), 0.0, Exponential(a))]
  {
    Push(g, exp(g[a].data), Exponential(a))
  }

  /** `a.log()`; `ln` stands for `math.log`, which rejects a non-positive argument. */
  function Log(g: Arena, a: nat, ln: real -> real): (r: Result<(Arena, nat)>)
    requires Valid(g) && a < |g|
    ensures r.Err? <==> g[a].data <= 0.0
    ensures r.Err? ==> r.error == ValueError
    ensures r.Ok? ==> Valid(r.value.0) && r.value.1 == |g|
                      && r.value.0 == g + [Node(ln(g[a].data), 0.0, Logarithm(a))]
  {
    if g[a].data <= 0.0 then Err(ValueError) else Ok(Push(g, ln(g[a].data), Logarithm(a)))
  }

  /** `a.tanh()`, composed of existing operations:
      `x = (a * 2).exp()` and then `(x - 1) / (x + 1)`. */
  function Tanh(g: Arena, a: nat, exp: real -> real): (r: Result<(Arena, nat)>)
    requires Valid(g) && a < |g|
    ensures r.Err? <==> exp(2.0 * g[a].data) == -1.0
    ensures r.Ok? ==> Valid(r.value.0) && Extends(g, r.value.0) && |g| < |r.value.0| && r.value.1 == |r.value.0| - 1
    ensures r.Ok? ==> var e := exp(2.0 * g[a].data);
                      r.value.0[r.value.1].data == (e - 1.0) / (e + 1.0)
    ensures r.Ok? ==> |r.value.0| == |g| + 9 && r.value.0[r.value.1].grad == 0.0
                      && r.value.0[r.value.1].op == Product(|g| + 4, |g| + 7)
                      && r.value.0[|g| + 2].op == Exponential(|g| + 1)
  {
    var (g1, t) := Mul(g, a, Num(2.0));
    var (g2, x) := Exp(g1, t, exp);
    var (g3, num) := Sub(g2, x, Num(1.0));
    var (g4, den) := Add(g3, x, Num(1.0));
    TrueDiv(g4, num, Ref(den))
  }

  /** `other * a` for a plain number `other`. */
  function RMul(g: Arena, a: nat, other: real): (r: (Arena, nat))
    requires Valid(g) && a < |g|
    ensures Valid(r.0) && Extends(g, r.0) && |r.0| == |g| + 2 && r.1 == |g| + 1
    ensures r.0[r.1].data == other * g[a].data
    ensures r.0[|g|] == Node(other, 0.0, Leaf) && r.0[r.1].grad == 0.0 && r.0[r.1].op == Product(a, |g|)
  {
    Mul(g, a, Num(other))
  }

  /** `other + a` for a plain number `other`. */
  function RAdd(g: Arena, a: nat, other: real): (r: (Arena, nat))
    requires Valid(g) && a < |g|
    ensures Valid(r.0) && Extends(g, r.0) && |r.0| == |g| + 2 && r.1 == |g| + 1
    ensures r.0[r.1].data == other + g[a].data
    ensures r.0[|g|] == Node(other, 0.0, Leaf) && r.0[r.1].grad == 0.0 && r.0[r.1].op == Sum(a, |g|)
  {
    Add(g, a, Num(other))
  }

  /** `other - a` for a plain number `other`, as `__rsub__` is written:
      it returns `a - other`. */
  function RSubAsWritten(g: Arena, a: nat, other: real): (r: (Arena, nat))
    requires Valid(g) && a < |g|
    ensures Valid(r.0) && Extends(g, r.0) && |r.0| == |g| + 2 && r.1 == |g| + 1
    ensures r.0[r.1].data == g[a].data - other
    ensures r.0[|g|] == Node(-other, 0.0, Leaf) && r.0[r.1].grad == 0.0 && r.0[r.1].op == Sum(a, |g|)
  {
    Sub(g, a, Num(other))
  }

  /** `other - a` for a plain number `other`, built as `(-a) + other`. */
  function RSub(g: Arena, a: nat, other: real): (r: (Arena, nat))
    requires Valid(g) && a < |g|
    ensures Valid(r.0) && Extends(g, r.0) && |r.0| == |g| + 3 && r.1 == |g| + 2
    ensures r.0[r.1].data == other - g[a].data
    ensures r.0[|g|] == Node(-g[a].data, 0.0, Negation(a)) && r.0[|g| + 1] == Node(other, 0.0, Leaf)
    ensures r.0[r.1].grad == 0.0 && r.0[r.1].op == Sum(|g|, |g| + 1)
  {
    var (g1, n) := Neg(g, a);
    Add(g1, n, Num(other))
  }

  /** The reflected subtraction as written gives the wrong sign:
      `1 - Value(0)` evaluates to -1. */
  lemma RSubAsWrittenWrongSign(g: Arena, a: nat)
    requires Valid(g) && a < |g| && g[a].data == 0.0
    ensures RSubAsWritten(g, a, 1.0).0[RSubAsWritten(g, a, 1.0).1].data == -1.0
    ensures RSub(g, a, 1.0).0[RSub(g, a, 1.0).1].data == 1.0
  {
  }
}
