/** The local gradient rule (`comput_gradient`): given a node whose grad already
    holds its upstream gradient, push a contribution into each operand's grad.
    When both operand slots hold the same node, the source detects it (a failed
    `try_borrow_mut`) and applies a single combined update; here that test is
    an index comparison. */
module Gradient {
  import opened Scalar
  import opened Value

  /** `grad += delta` on node `j`. */
  function AddGrad(g: Arena, j: Ref, delta: real): (r: Arena)
    requires j < |g|
    ensures OnlyGradsChanged(g, r)
    ensures r[j].grad == g[j].grad + delta
    ensures forall i :: 0 <= i < |g| && i != j ==> r[i] == g[i]
  {
    g[j := g[j].(grad := g[j].grad + delta)]
  }

  /** The rule of `comput_gradient` for node `o`. */
  function ComputeGradient(m: MathLib, g: Arena, o: Ref): (r: Arena)
    requires Valid(g) && o < |g|
    ensures OnlyGradsChanged(g, r)
    ensures forall j :: 0 <= j < |g| && j !in g[o].operands ==> r[j] == g[j]
  {
    // No let-bindings here: the products below must stay syntactically
    // identical to the ones the lemmas mention.
    match g[o].op
    case Plus =>
      if |g[o].operands| == 2 then
        if g[o].operands[0] != g[o].operands[1] then
          AddGrad(AddGrad(g, g[o].operands[0], g[o].grad * 1.0), g[o].operands[1], g[o].grad * 1.0)
        else AddGrad(g, g[o].operands[0], g[o].grad * 2.0)
      else g
    case Minus =>
      if |g[o].operands| == 2 then
        if g[o].operands[0] != g[o].operands[1] then
          AddGrad(AddGrad(g, g[o].operands[0], g[o].grad * 1.0), g[o].operands[1], g[o].grad * -1.0)
        else g
      else g
    case Mul =>
      if |g[o].operands| == 2 then
        if g[o].operands[0] != g[o].operands[1] then
          AddGrad(AddGrad(g, g[o].operands[0], g[o].grad * g[g[o].operands[1]].data),
                  g[o].operands[1], g[o].grad * g[g[o].operands[0]].data)
        else AddGrad(g, g[o].operands[0], g[o].grad * (2.0 * g[g[o].operands[0]].data))
      else g
    case Div =>
      if |g[o].operands| == 2 then
        if g[o].operands[0] != g[o].operands[1] then
          AddGrad(AddGrad(g, g[o].operands[0], Quot(m, g[o].grad * 1.0, g[g[o].operands[1]].data)),
                  g[o].operands[1],
                  Quot(m, g[o].grad * -1.0 * g[g[o].operands[0]].data,
                       g[g[o].operands[1]].data * g[g[o].operands[1]].data))
        else g
      else g
    case Tanh =>
      if |g[o].operands| == 1 then AddGrad(g, g[o].operands[0], g[o].grad * (1.0 - g[o].data * g[o].data)) else g
    case ReLU =>
      if |g[o].operands| == 1 then AddGrad(g, g[o].operands[0], g[o].grad * (if g[o].data > 0.0 then 1.0 else 0.0)) else g
    case Exp =>
      if |g[o].operands| == 1 then AddGrad(g, g[o].operands[0], g[o].grad * g[o].data) else g
    case Pow =>
      if |g[o].operands| == 2 then
        AddGrad(g, g[o].operands[0],
                g[o].grad * (g[g[o].operands[1]].data * m.powf(g[g[o].operands[0]].data, g[g[o].operands[1]].data - 1.0)))
      else g
    case Leaf => g
  }

  /** The partial derivative of an operator's output with respect to operand
      slot `k`, at operand data `x`, `y` and output `d`. The exponent of `Pow`
      is a constant, so its slot has derivative 0. */
  function Slope(m: MathLib, op: Op, x: real, y: real, d: real, k: nat): real
  {
    match op
    case Leaf => 0.0
    case Plus => 1.0
    case Minus => if k == 0 then 1.0 else -1.0
    case Mul => if k == 0 then y else x
    case Div => if k == 0 then Quot(m, 1.0, y) else -Quot(m, x, y * y)
    case Tanh => 1.0 - d * d
    case ReLU => if d > 0.0 then 1.0 else 0.0
    case Exp => d
    case Pow => if k == 0 then y * m.powf(x, y - 1.0) else 0.0
  }

  /** What node `x` must receive from node `o` by the chain rule and the sum
      rule: the upstream gradient of `o` times the slope of every slot of `o`
      that holds `x`, added up over the slots. A leaf, or a node whose operand
      count does not fit its operator, contributes nothing. */
  function SlotSum(m: MathLib, g: Arena, o: Ref, x: Ref): real
    requires Valid(g) && o < |g|
  {
    NodeSlotSum(m, g[o], Arg(g, o, 0), Arg(g, o, 1), x)
  }

  /** `SlotSum` for node `n` whose operands hold `a` and `b`. */
  function NodeSlotSum(m: MathLib, n: Node, a: real, b: real, x: Ref): real
  {
    if n.op == Leaf || |n.operands| != Arity(n.op) || |n.operands| == 0 then 0.0
    else
      (if n.operands[0] == x then n.grad * Slope(m, n.op, a, b, n.data, 0) else 0.0)
      + (if |n.operands| == 2 && n.operands[1] == x then n.grad * Slope(m, n.op, a, b, n.data, 1) else 0.0)
  }


  /** The divisor of a division node is not zero (division by zero lies outside the model). */
  predicate DivisorNonZero(g: Arena, o: Ref)
    requires Valid(g) && o < |g|
  {
    g[o].op == Div && |g[o].operands| == 2 ==> g[g[o].operands[1]].data != 0.0
  }

  lemma QuotScales(m: MathLib, up: real, num: real, den: real)
    requires den != 0.0
    ensures Quot(m, up * 1.0, den) == up * Quot(m, 1.0, den)
    ensures Quot(m, up * -1.0 * num, den * den) == up * -Quot(m, num, den * den)
  {
    assert den * den != 0.0;
  }

  lemma QuotSelfCancels(m: MathLib, x: real)
    requires x != 0.0
    ensures Quot(m, 1.0, x) - Quot(m, x, x * x) == 0.0
  {
    assert x * x != 0.0;
    assert x / (x * x) == 1.0 / x;
  }

  /** The grad of `x` after adding `di` to `i` and then `dj` to `j`. */
  lemma TwoUpdates(g: Arena, i: Ref, j: Ref, di: real, dj: real, x: Ref)
    requires i < |g| && j < |g| && x < |g|
    ensures AddGrad(AddGrad(g, i, di), j, dj)[x].grad
         == g[x].grad + (if x == i then di else 0.0) + (if x == j then dj else 0.0)
  {
  }

  /** The sum rule at `x` for `+`: slope 1 in each slot, so `a + a` gives 2. */
  lemma SumRulePlus(m: MathLib, g: Arena, o: Ref, x: Ref)
    requires Valid(g) && o < |g| && x < |g| && g[o].op == Plus
    ensures ComputeGradient(m, g, o)[x].grad == g[x].grad + SlotSum(m, g, o, x)
  {
    var ops := g[o].operands;
    if |ops| == 2 && ops[0] != ops[1] {
      TwoUpdates(g, ops[0], ops[1], g[o].grad * 1.0, g[o].grad * 1.0, x);
    }
  }

  /** The sum rule at `x` for `-`: `a - a` gives nothing. */
  lemma SumRuleMinus(m: MathLib, g: Arena, o: Ref, x: Ref)
    requires Valid(g) && o < |g| && x < |g| && g[o].op == Minus
    ensures ComputeGradient(m, g, o)[x].grad == g[x].grad + SlotSum(m, g, o, x)
  {
    var ops := g[o].operands;
    if |ops| == 2 && ops[0] != ops[1] {
      TwoUpdates(g, ops[0], ops[1], g[o].grad * 1.0, g[o].grad * -1.0, x);
    }
  }

  /** The sum rule at `x` for `*`: `a * a` gives `2 * a`. */
  lemma SumRuleMul(m: MathLib, g: Arena, o: Ref, x: Ref)
    requires Valid(g) && o < |g| && x < |g| && g[o].op == Op.Mul
    ensures ComputeGradient(m, g, o)[x].grad == g[x].grad + SlotSum(m, g, o, x)
  {
    var ops := g[o].operands;
    var up := g[o].grad;
    if |ops| == 2 && ops[0] != ops[1] {
      TwoUpdates(g, ops[0], ops[1], up * g[ops[1]].data, up * g[ops[0]].data, x);
    }
  }

  /** The sum rule at `x` for `/` over two distinct nodes. */
  lemma SumRuleDivDistinct(m: MathLib, g: Arena, o: Ref, x: Ref)
    requires Valid(g) && o < |g| && x < |g| && g[o].op == Op.Div && DivisorNonZero(g, o)
    requires |g[o].operands| == 2 && g[o].operands[0] != g[o].operands[1]
    ensures ComputeGradient(m, g, o)[x].grad == g[x].grad + SlotSum(m, g, o, x)
  {
    // Spelled out without local variables, so that the products match the
    // ones in the definition term for term.
    QuotScales(m, g[o].grad, g[g[o].operands[0]].data, g[g[o].operands[1]].data);
    TwoUpdates(g, g[o].operands[0], g[o].operands[1],
      Quot(m, g[o].grad * 1.0, g[g[o].operands[1]].data),
      Quot(m, g[o].grad * -1.0 * g[g[o].operands[0]].data, g[g[o].operands[1]].data * g[g[o].operands[1]].data), x);
  }

  /** The sum rule at `x` for `a / a`: the two slopes cancel, and the rule adds nothing. */
  lemma SumRuleDivSelf(m: MathLib, g: Arena, o: Ref, x: Ref)
    requires Valid(g) && o < |g| && x < |g| && g[o].op == Op.Div && DivisorNonZero(g, o)
    requires |g[o].operands| == 2 && g[o].operands[0] == g[o].operands[1]
    ensures ComputeGradient(m, g, o)[x].grad == g[x].grad + SlotSum(m, g, o, x)
  {
    var ops := g[o].operands;
    var up := g[o].grad;
    var a := g[ops[0]].data;
    assert ComputeGradient(m, g, o) == g;
    QuotSelfCancels(m, a);
    var q0 := Quot(m, 1.0, a);
    var q1 := Quot(m, a, a * a);
    assert q0 - q1 == 0.0;
    assert Slope(m, Op.Div, a, a, g[o].data, 0) == q0;
    assert Slope(m, Op.Div, a, a, g[o].data, 1) == -q1;
    assert up * q0 + up * -q1 == up * (q0 - q1) == 0.0;
  }

  /** The sum rule: whatever aliasing the operand slots have, the local rule
      adds to every node exactly the chain-rule contributions of the slots that
      hold it. In particular `a + a` gives `a` twice the upstream gradient,
      `a * a` gives `2 * a`, and `a - a` and `a / a` give nothing. The unary
      rules and `pow` touch only operand 0. */
  lemma SumRuleAt(m: MathLib, g: Arena, o: Ref, x: Ref)
    requires Valid(g) && o < |g| && DivisorNonZero(g, o) && x < |g|
    ensures ComputeGradient(m, g, o)[x].grad == g[x].grad + SlotSum(m, g, o, x)
  {
    match g[o].op
    case Plus => SumRulePlus(m, g, o, x);
    case Minus => SumRuleMinus(m, g, o, x);
    case Mul => SumRuleMul(m, g, o, x);
    case Div =>
      if |g[o].operands| == 2 {
        if g[o].operands[0] != g[o].operands[1] {
          SumRuleDivDistinct(m, g, o, x);
        } else {
          SumRuleDivSelf(m, g, o, x);
        }
      }
    case _ => SumRuleUnary(m, g, o, x);
  }

  /** The sum rule at `x` for the unary operators, `pow` and leaves. */
  lemma SumRuleUnary(m: MathLib, g: Arena, o: Ref, x: Ref)
    requires Valid(g) && o < |g| && x < |g| && g[o].op in {Leaf, Op.Tanh, ReLU, Exp, Pow}
    ensures ComputeGradient(m, g, o)[x].grad == g[x].grad + SlotSum(m, g, o, x)
  {
  }

  /** The sum rule for every node of the arena at once. */
  lemma LocalRuleIsSumRule(m: MathLib, g: Arena, o: Ref)
    requires Valid(g) && o < |g| && DivisorNonZero(g, o)
    ensures forall x :: 0 <= x < |g| ==> ComputeGradient(m, g, o)[x].grad == g[x].grad + SlotSum(m, g, o, x)
  {
    forall x | 0 <= x < |g|
      ensures ComputeGradient(m, g, o)[x].grad == g[x].grad + SlotSum(m, g, o, x)
    {
      SumRuleAt(m, g, o, x);
    }
  }

  /** The aliased column of the rule table is the sum of the two slot slopes:
      `d/dx f(x, x)` is the slope of slot 0 plus the slope of slot 1. */
  lemma SelfUseIsSumOfSlopes(m: MathLib, g: Arena, o: Ref)
    requires Valid(g) && o < |g| && |g[o].operands| == 2 && g[o].operands[0] == g[o].operands[1]
    ensures var a := g[o].operands[0];
      && (g[o].op == Plus ==> SlotSum(m, g, o, a) == g[o].grad * 2.0)
      && (g[o].op == Minus ==> SlotSum(m, g, o, a) == 0.0)
      && (g[o].op == Op.Mul ==> SlotSum(m, g, o, a) == g[o].grad * (2.0 * g[a].data))
      && (g[o].op == Op.Div && g[a].data != 0.0 ==> SlotSum(m, g, o, a) == 0.0)
  {
    var a := g[o].operands[0];
    if g[o].op == Op.Div && g[a].data != 0.0 {
      QuotSelfCancels(m, g[a].data);
      assert g[o].grad * Quot(m, 1.0, g[a].data) + g[o].grad * -Quot(m, g[a].data, g[a].data * g[a].data)
          == g[o].grad * (Quot(m, 1.0, g[a].data) - Quot(m, g[a].data, g[a].data * g[a].data));
    }
  }

  /** The slopes are the derivatives of the forward formulas: `+`, `-` and `*`
      are linear in each slot, so a change `t` in one operand changes the output
      by exactly `t` times that slot's slope; for `x * x` the change is the
      summed slope plus the second-order term `t * t`. */
  lemma SlopesMatchForwardArith(m: MathLib, op: Op, x: real, y: real, t: real)
    requires op == Plus || op == Minus || op == Op.Mul
    ensures Forward(m, op, x + t, y) - Forward(m, op, x, y) == t * Slope(m, op, x, y, Forward(m, op, x, y), 0)
    ensures Forward(m, op, x, y + t) - Forward(m, op, x, y) == t * Slope(m, op, x, y, Forward(m, op, x, y), 1)
    ensures op == Op.Mul ==>
      Forward(m, op, x + t, x + t) - Forward(m, op, x, x)
      == t * (Slope(m, op, x, x, x * x, 0) + Slope(m, op, x, x, x * x, 1)) + t * t
  {
  }

  /** The same for `/`: linear in the numerator; in the denominator the
      difference quotient is the slope scaled by `y / (y + t)`, which tends to
      1 as `t` tends to 0. */
  lemma SlopesMatchForwardDiv(m: MathLib, x: real, y: real, t: real)
    requires y != 0.0
    ensures Forward(m, Op.Div, x + t, y) - Forward(m, Op.Div, x, y) == t * Slope(m, Op.Div, x, y, x / y, 0)
  {
    assert (x + t) / y - x / y == t * (1.0 / y);
  }

  /** For the divisor the difference quotient carries the factor `y / (y + t)`,
      which tends to 1 with `t`. */
  lemma SlopesMatchForwardDivisor(m: MathLib, x: real, y: real, t: real)
    requires y != 0.0 && y + t != 0.0
    ensures Forward(m, Op.Div, x, y + t) - Forward(m, Op.Div, x, y)
         == t * Slope(m, Op.Div, x, y, x / y, 1) * (y / (y + t))
  {
    DivSquare(x, y);
    DivMul(x, y + t);
    DivMul(x, y);
    DivMul(y, y + t);
    DivisorAlgebra(x, y, t, x / (y + t), x / y, x / (y * y), y / (y + t));
  }
}
