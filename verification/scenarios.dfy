/** Worked graphs: the forward values and gradients the engine promises on
    small expressions, derived from the adjoint theorem of `backward`. Each
    graph is described by its shape (operators, operands and values); a
    `...Built` lemma shows the operator layer produces exactly that shape
    with zero gradients, and a `...Backward` lemma gives the gradients one
    `backward` from the last node leaves. */
module Scenarios {
  import opened Scalar
  import opened Value
  import opened Operators
  import opened Gradient
  import opened Traversal
  import opened Backprop

  /** Every gradient is zero, as on freshly built nodes. */
  predicate Fresh(g: Arena)
  {
    forall k :: 0 <= k < |g| ==> g[k].grad == 0.0
  }

  /** Node `k` has the given value, operator and operands. */
  predicate NodeIs(g: Arena, k: nat, v: real, op: Op, operands: seq<Ref>)
  {
    k < |g| && g[k].data == v && g[k].op == op && g[k].operands == operands
  }

  /** `r` satisfies the adjoint equation of `backward` from `h` over `g`, with
      the consumers listed in `order`. */
  predicate AdjointHolds(m: MathLib, g: Arena, h: Ref, r: Arena, order: seq<Ref>)
  {
    Valid(r) && AllBelow(r, order) && OnlyGradsChanged(g, r) && h < |g|
    && forall x :: 0 <= x < |g| ==> r[x].grad == (if x == h then 1.0 else g[x].grad) + Inflow(m, r, order, x)
  }

  /** `backward` satisfies the adjoint equation read through any listing of
      the reachable nodes. */
  lemma BackwardBy(m: MathLib, g: Arena, h: Ref, order: seq<Ref>)
    requires Valid(g) && h < |g| && ReachDivisorsNonZero(g, h)
    requires Distinct(order) && Elems(order) == Reach(g, h)
    ensures AdjointHolds(m, g, h, Backward(m, g, h), order)
  {
    BackwardAdjoint(m, g, h, h);
    InflowSameNodes(m, Backward(m, g, h), Schedule(g, h), order, h);
    forall x | 0 <= x < |g|
      ensures Backward(m, g, h)[x].grad == (if x == h then 1.0 else g[x].grad) + Inflow(m, Backward(m, g, h), order, x)
    {
      BackwardAdjoint(m, g, h, x);
      InflowSameNodes(m, Backward(m, g, h), Schedule(g, h), order, x);
    }
  }

  // ---- c = a + b ----

  predicate SumShape(g: Arena, a: real, b: real)
  {
    |g| == 3 && NodeIs(g, 0, a, Leaf, []) && NodeIs(g, 1, b, Leaf, []) && NodeIs(g, 2, a + b, Plus, [0, 1])
  }

  lemma SumBuilt(a: real, b: real)
    ensures var la := NewLeaf([], a); var lb := NewLeaf(la.arena, b);
      var c := Add(lb.arena, la.node, lb.node);
      SumShape(c.arena, a, b) && Fresh(c.arena) && c.node == 2 && c.arena[c.node].data == a + b
  {
  }

  lemma SumReach(g: Arena, a: real, b: real)
    requires SumShape(g, a, b)
    ensures Valid(g) && ReachDivisorsNonZero(g, 2) && Reach(g, 2) == {0, 1, 2} && Elems([2, 1, 0]) == {0, 1, 2}
  {
    assert Reach(g, 0) == {0} && Reach(g, 1) == {1};
    assert ReachFrom(g, 2, 1) == {1};
  }

  lemma SumAdjoint(m: MathLib, g: Arena, r: Arena, a: real, b: real)
    requires SumShape(g, a, b)
    requires AdjointHolds(m, g, 2, r, [2, 1, 0])
    ensures r[2].grad == 1.0 && r[0].grad == g[0].grad + 1.0 && r[1].grad == g[1].grad + 1.0
  {
    assert SumShape(r, a, b);
    assert [2, 1, 0][1..] == [1, 0] && [1, 0][1..] == [0] && [0][1..] == [];
    assert r[2].grad == 1.0 + Inflow(m, r, [2, 1, 0], 2);
    assert r[1].grad == g[1].grad + Inflow(m, r, [2, 1, 0], 1);
    assert r[0].grad == g[0].grad + Inflow(m, r, [2, 1, 0], 0);
  }

  /** `c = a + b; c.backward()` adds 1 to the gradient of each input, on top of
      what was there: without `zero_grad` a second `backward` adds again. This
      holds when `a == b` too: two leaves with equal values are still two nodes. */
  lemma SumBackward(m: MathLib, g: Arena, a: real, b: real)
    requires SumShape(g, a, b)
    ensures Valid(g)
    ensures Backward(m, g, 2)[0].grad == g[0].grad + 1.0 && Backward(m, g, 2)[1].grad == g[1].grad + 1.0
    ensures Backward(m, g, 2)[2].grad == 1.0
  {
    SumReach(g, a, b);
    BackwardBy(m, g, 2, [2, 1, 0]);
    SumAdjoint(m, g, Backward(m, g, 2), a, b);
  }

  // ---- c = a + a, a * a, a - a, a / a ----

  /** A leaf used in both slots of one binary node. */
  predicate SelfShape(g: Arena, a: real, op: Op, v: real)
  {
    |g| == 2 && NodeIs(g, 0, a, Leaf, []) && NodeIs(g, 1, v, op, [0, 0])
  }

  lemma SelfBuilt(m: MathLib, a: real)
    ensures var l := NewLeaf([], a);
      SelfShape(Add(l.arena, 0, 0).arena, a, Plus, a + a) && Fresh(Add(l.arena, 0, 0).arena)
      && SelfShape(Sub(l.arena, 0, 0).arena, a, Minus, a - a) && Fresh(Sub(l.arena, 0, 0).arena)
      && SelfShape(Operators.Mul(l.arena, 0, 0).arena, a, Op.Mul, a * a) && Fresh(Operators.Mul(l.arena, 0, 0).arena)
      && SelfShape(Operators.Div(m, l.arena, 0, 0).arena, a, Op.Div, Quot(m, a, a)) && Fresh(Operators.Div(m, l.arena, 0, 0).arena)
  {
  }

  lemma SelfReach(g: Arena, a: real, op: Op, v: real)
    requires SelfShape(g, a, op, v) && (op == Op.Div ==> a != 0.0)
    ensures Valid(g) && ReachDivisorsNonZero(g, 1) && Reach(g, 1) == {0, 1} && Elems([1, 0]) == {0, 1}
  {
    assert Reach(g, 0) == {0};
  }

  lemma SelfAdjoint(m: MathLib, g: Arena, r: Arena, a: real, op: Op, v: real)
    requires SelfShape(g, a, op, v) && Arity(op) == 2 && Fresh(g)
    requires AdjointHolds(m, g, 1, r, [1, 0])
    ensures r[1].grad == 1.0
    ensures r[0].grad == Slope(m, op, a, a, v, 0) + Slope(m, op, a, a, v, 1)
  {
    assert SelfShape(r, a, op, v);
    assert [1, 0][1..] == [0] && [0][1..] == [];
    assert r[1].grad == 1.0 + Inflow(m, r, [1, 0], 1);
    assert r[0].grad == g[0].grad + Inflow(m, r, [1, 0], 0);
  }

  lemma SelfAddAdjoint(m: MathLib, g: Arena, r: Arena, a: real, v: real)
    requires SelfShape(g, a, Plus, v) && Fresh(g)
    requires AdjointHolds(m, g, 1, r, [1, 0])
    ensures r[0].grad == 2.0
  {
    SelfAdjoint(m, g, r, a, Plus, v);
  }

  /** `c = a * a; c.backward()` gives `a` gradient `a + a` (6 at a = 3); read
      through `BackwardBy`, from which `Backward(m, g, 1)` is such an `r`. */
  lemma SelfMulAdjoint(m: MathLib, g: Arena, r: Arena, a: real, v: real)
    requires SelfShape(g, a, Op.Mul, v) && Fresh(g)
    requires AdjointHolds(m, g, 1, r, [1, 0])
    ensures r[0].grad == a + a
  {
    SelfAdjoint(m, g, r, a, Op.Mul, v);
  }

  lemma SelfSubAdjoint(m: MathLib, g: Arena, r: Arena, a: real, v: real)
    requires SelfShape(g, a, Minus, v) && Fresh(g)
    requires AdjointHolds(m, g, 1, r, [1, 0])
    ensures r[0].grad == 0.0
  {
    SelfAdjoint(m, g, r, a, Minus, v);
  }

  lemma SelfDivAdjoint(m: MathLib, g: Arena, r: Arena, a: real, v: real)
    requires SelfShape(g, a, Op.Div, v) && Fresh(g) && a != 0.0
    requires AdjointHolds(m, g, 1, r, [1, 0])
    ensures r[0].grad == 0.0
  {
    SelfAdjoint(m, g, r, a, Op.Div, v);
    QuotSelfCancels(m, a);
  }

  /** `c = a + a; c.backward()` gives `a` gradient 2, not 1. */
  lemma SelfAddBackward(m: MathLib, g: Arena, a: real, v: real)
    requires SelfShape(g, a, Plus, v) && Fresh(g)
    ensures Valid(g) && Backward(m, g, 1)[0].grad == 2.0
  {
    SelfReach(g, a, Plus, v);
    BackwardBy(m, g, 1, [1, 0]);
    SelfAddAdjoint(m, g, Backward(m, g, 1), a, v);
  }

  /** `c = a - a; c.backward()` leaves `a` with gradient 0. */
  lemma SelfSubBackward(m: MathLib, g: Arena, a: real, v: real)
    requires SelfShape(g, a, Minus, v) && Fresh(g)
    ensures Valid(g) && Backward(m, g, 1)[0].grad == 0.0
  {
    SelfReach(g, a, Minus, v);
    BackwardBy(m, g, 1, [1, 0]);
    SelfSubAdjoint(m, g, Backward(m, g, 1), a, v);
  }

  /** `c = a / a; c.backward()` leaves `a` with gradient 0. */
  lemma SelfDivBackward(m: MathLib, g: Arena, a: real, v: real)
    requires SelfShape(g, a, Op.Div, v) && Fresh(g) && a != 0.0
    ensures Valid(g) && Backward(m, g, 1)[0].grad == 0.0
  {
    SelfReach(g, a, Op.Div, v);
    BackwardBy(m, g, 1, [1, 0]);
    SelfDivAdjoint(m, g, Backward(m, g, 1), a, v);
  }

  // ---- d = a + b, e = a * b, f = d + e ----

  predicate DiamondShape(g: Arena, a: real, b: real)
  {
    |g| == 5 && NodeIs(g, 0, a, Leaf, []) && NodeIs(g, 1, b, Leaf, [])
    && NodeIs(g, 2, a + b, Plus, [0, 1]) && NodeIs(g, 3, a * b, Op.Mul, [0, 1])
    && NodeIs(g, 4, a + b + a * b, Plus, [2, 3])
  }

  lemma DiamondBuilt(a: real, b: real)
    ensures var la := NewLeaf([], a); var lb := NewLeaf(la.arena, b);
      var d := Add(lb.arena, 0, 1); var e := Operators.Mul(d.arena, 0, 1); var f := Add(e.arena, d.node, e.node);
      DiamondShape(f.arena, a, b) && Fresh(f.arena) && f.node == 4
  {
  }

  lemma DiamondReach(g: Arena, a: real, b: real)
    requires DiamondShape(g, a, b)
    ensures Valid(g) && ReachDivisorsNonZero(g, 4) && Reach(g, 4) == {0, 1, 2, 3, 4}
    ensures Elems([4, 3, 2, 1, 0]) == {0, 1, 2, 3, 4}
  {
    assert Reach(g, 0) == {0} && Reach(g, 1) == {1};
    assert ReachFrom(g, 2, 1) == {1};
    assert ReachFrom(g, 3, 1) == {1};
  }

  lemma DiamondAdjoint(m: MathLib, g: Arena, r: Arena, a: real, b: real)
    requires DiamondShape(g, a, b) && Fresh(g)
    requires AdjointHolds(m, g, 4, r, [4, 3, 2, 1, 0])
    ensures r[0].grad == 1.0 + b && r[1].grad == 1.0 + a
  {
    assert DiamondShape(r, a, b);
    var cs := [4, 3, 2, 1, 0];
    assert cs[1..] == [3, 2, 1, 0] && cs[1..][1..] == [2, 1, 0];
    assert [2, 1, 0][1..] == [1, 0] && [1, 0][1..] == [0] && [0][1..] == [];
    assert r[4].grad == 1.0 + Inflow(m, r, cs, 4);
    assert r[3].grad == Inflow(m, r, cs, 3);
    assert r[2].grad == Inflow(m, r, cs, 2);
    assert r[1].grad == Inflow(m, r, cs, 1);
    assert r[0].grad == Inflow(m, r, cs, 0);
  }

  /** Two paths from each input to `f`: their contributions add up
      (a = 2, b = 3 gives f = 11, a.grad = 4, b.grad = 5). */
  lemma DiamondBackward(m: MathLib, g: Arena, a: real, b: real)
    requires DiamondShape(g, a, b) && Fresh(g)
    ensures Valid(g) && Backward(m, g, 4)[0].grad == 1.0 + b && Backward(m, g, 4)[1].grad == 1.0 + a
  {
    DiamondReach(g, a, b);
    BackwardBy(m, g, 4, [4, 3, 2, 1, 0]);
    DiamondAdjoint(m, g, Backward(m, g, 4), a, b);
  }

  // ---- the shared inputs of the demo: d = a * b, e = a + b, f = d * e ----

  predicate ProductShape(g: Arena, a: real, b: real)
  {
    |g| == 5 && NodeIs(g, 0, a, Leaf, []) && NodeIs(g, 1, b, Leaf, [])
    && NodeIs(g, 2, a * b, Op.Mul, [0, 1]) && NodeIs(g, 3, a + b, Plus, [0, 1])
    && NodeIs(g, 4, (a * b) * (a + b), Op.Mul, [2, 3])
  }

  lemma ProductBuilt(a: real, b: real)
    ensures var la := NewLeaf([], a); var lb := NewLeaf(la.arena, b);
      var d := Operators.Mul(lb.arena, 0, 1); var e := Add(d.arena, 0, 1); var f := Operators.Mul(e.arena, d.node, e.node);
      ProductShape(f.arena, a, b) && Fresh(f.arena) && f.node == 4
  {
  }

  lemma ProductReach(g: Arena, a: real, b: real)
    requires ProductShape(g, a, b)
    ensures Valid(g) && ReachDivisorsNonZero(g, 4) && Reach(g, 4) == {0, 1, 2, 3, 4}
    ensures Elems([4, 3, 2, 1, 0]) == {0, 1, 2, 3, 4}
  {
    assert Reach(g, 0) == {0} && Reach(g, 1) == {1};
    assert ReachFrom(g, 2, 1) == {1};
    assert ReachFrom(g, 3, 1) == {1};
  }

  /** `d = a * b; e = a + b; f = d * e; f.backward()`: by the product rule `a`
      receives `e * b` through `d` and `d` through `e` (at a = -2, b = 3 the
      gradients are -3 and -8); `BackwardBy` shows `Backward(m, g, 4)` is such an `r`. */
  lemma ProductAdjoint(m: MathLib, g: Arena, r: Arena, a: real, b: real)
    requires ProductShape(g, a, b) && Fresh(g)
    requires AdjointHolds(m, g, 4, r, [4, 3, 2, 1, 0])
    ensures r[0].grad == (a + b) * b + a * b && r[1].grad == (a + b) * a + a * b
  {
    assert ProductShape(r, a, b);
    var cs := [4, 3, 2, 1, 0];
    assert cs[1..] == [3, 2, 1, 0] && cs[1..][1..] == [2, 1, 0];
    assert [2, 1, 0][1..] == [1, 0] && [1, 0][1..] == [0] && [0][1..] == [];
    assert r[4].grad == 1.0 + Inflow(m, r, cs, 4);
    assert r[3].grad == Inflow(m, r, cs, 3);
    assert r[2].grad == Inflow(m, r, cs, 2);
    assert r[1].grad == Inflow(m, r, cs, 1);
    assert r[0].grad == Inflow(m, r, cs, 0);
  }

  // ---- y = tanh(x) ----

  predicate TanhShape(g: Arena, x: real, t: real)
  {
    |g| == 2 && NodeIs(g, 0, x, Leaf, []) && NodeIs(g, 1, t, Op.Tanh, [0])
  }

  lemma TanhBuilt(m: MathLib, x: real)
    ensures var l := NewLeaf([], x);
      TanhShape(Operators.Tanh(m, l.arena, 0).arena, x, m.tanh(x)) && Fresh(Operators.Tanh(m, l.arena, 0).arena)
  {
  }

  lemma TanhReach(g: Arena, x: real, t: real)
    requires TanhShape(g, x, t)
    ensures Valid(g) && ReachDivisorsNonZero(g, 1) && Reach(g, 1) == {0, 1} && Elems([1, 0]) == {0, 1}
  {
    assert Reach(g, 0) == {0};
  }

  /** `y = x.tanh(); y.backward()` gives `x` gradient `1 - y^2`, the slope
      read from the stored output rather than recomputed (1 at x = 0, where
      y = tanh(0) = 0); `BackwardBy` shows `Backward(m, g, 1)` is such an `r`. */
  lemma TanhAdjoint(m: MathLib, g: Arena, r: Arena, x: real, t: real)
    requires TanhShape(g, x, t) && Fresh(g)
    requires AdjointHolds(m, g, 1, r, [1, 0])
    ensures r[0].grad == 1.0 - t * t
  {
    assert TanhShape(r, x, t);
    assert [1, 0][1..] == [0] && [0][1..] == [];
    assert r[1].grad == 1.0 + Inflow(m, r, [1, 0], 1);
    assert r[0].grad == Inflow(m, r, [1, 0], 0);
  }

  // ---- forward values at a = 2, b = 3 ----

  /** a + b = 5, a * b = 6, a - b = -1, and a / b is the real number 2/3. */
  lemma ForwardAtTwoThree(m: MathLib)
    ensures var l := NewLeaf(NewLeaf([], 2.0).arena, 3.0).arena;
      var s := Add(l, 0, 1); var p := Operators.Mul(l, 0, 1); var d := Sub(l, 0, 1); var q := Operators.Div(m, l, 0, 1);
      s.arena[s.node].data == 5.0 && p.arena[p.node].data == 6.0
      && d.arena[d.node].data == -1.0 && q.arena[q.node].data * 3.0 == 2.0
  {
  }
}
