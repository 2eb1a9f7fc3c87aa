/** `Value::backward`: reverse-mode differentiation over the walk. */
module Backprop {
  import opened Scalar
  import opened Value
  import opened Gradient
  import opened Traversal

  function Reverse(s: seq<Ref>): (r: seq<Ref>)
    ensures |r| == |s| && forall i :: 0 <= i < |s| ==> r[i] == s[|s| - 1 - i]
  {
    if s == [] then [] else Reverse(s[1..]) + [s[0]]
  }

  /** No node of `cs` is an operand of a node listed after it: once a node
      has pushed its gradient to its operands, its own gradient is final. */
  predicate ConsumersFirst(g: Arena, cs: seq<Ref>)
  {
    forall i, j :: 0 <= i < j < |cs| && cs[j] < |g| ==> cs[i] !in g[cs[j]].operands
  }

  /** Some node of `cs` has `x` as an operand. */
  predicate Feeds(g: Arena, cs: seq<Ref>, x: Ref)
  {
    exists i :: 0 <= i < |cs| && cs[i] < |g| && x in g[cs[i]].operands
  }

  predicate AllBelow(g: Arena, cs: seq<Ref>)
  {
    forall i :: 0 <= i < |cs| ==> cs[i] < |g|
  }

  /** Every division among the listed nodes has a non-zero divisor. */
  predicate ListedDivisorsNonZero(g: Arena, cs: seq<Ref>)
    requires Valid(g) && AllBelow(g, cs)
  {
    forall i :: 0 <= i < |cs| ==> DivisorNonZero(g, cs[i])
  }

  /** Every division reachable from `h` has a non-zero divisor; divisions
      elsewhere in the arena, which `backward` from `h` never visits, are free. */
  ghost predicate ReachDivisorsNonZero(g: Arena, h: Ref)
    requires Valid(g) && h < |g|
  {
    forall o :: o in Reach(g, h) ==> DivisorNonZero(g, o)
  }

  /** The loop of `backward`: `comput_gradient` on each node of `cs` in turn. */
  function Propagate(m: MathLib, g: Arena, cs: seq<Ref>): (r: Arena)
    requires Valid(g) && AllBelow(g, cs)
    ensures OnlyGradsChanged(g, r)
    ensures forall x :: 0 <= x < |g| && !Feeds(g, cs, x) ==> r[x] == g[x]
    decreases |cs|
  {
    if cs == [] then g
    else
      var g1 := ComputeGradient(m, g, cs[0]);
      SameShapeKeepsValid(g, g1);
      assert |g1| == |g|;
      assert AllBelow(g1, cs[1..]);
      FeedsTail(g, g1, cs);
      var r := Propagate(m, g1, cs[1..]);
      assert OnlyGradsChanged(g, r);
      assert forall x :: 0 <= x < |g| && !Feeds(g, cs, x) ==> x !in g[cs[0]].operands;
      r
  }

  /** A node fed by the tail of `cs` is fed by `cs`. */
  lemma FeedsTail(g: Arena, g': Arena, cs: seq<Ref>)
    requires SameShape(g, g') && cs != []
    ensures forall x :: Feeds(g', cs[1..], x) ==> Feeds(g, cs, x)
  {
    forall x | Feeds(g', cs[1..], x) ensures Feeds(g, cs, x) {
      var i :| 0 <= i < |cs[1..]| && cs[1..][i] < |g'| && x in g'[cs[1..][i]].operands;
      assert cs[i + 1] == cs[1..][i];
    }
  }

  /** Everything the nodes of `cs` send to `x` by the chain rule, read in the
      final arena `r`. */
  function Inflow(m: MathLib, r: Arena, cs: seq<Ref>, x: Ref): real
    requires Valid(r) && AllBelow(r, cs)
    decreases |cs|
  {
    if cs == [] then 0.0 else SlotSum(m, r, cs[0], x) + Inflow(m, r, cs[1..], x)
  }

  lemma {:induction false} InflowConcat(m: MathLib, r: Arena, a: seq<Ref>, b: seq<Ref>, x: Ref)
    requires Valid(r) && AllBelow(r, a) && AllBelow(r, b)
    ensures AllBelow(r, a + b) && Inflow(m, r, a + b, x) == Inflow(m, r, a, x) + Inflow(m, r, b, x)
    decreases |a|
  {
    if a != [] {
      assert (a + b)[1..] == a[1..] + b;
      InflowConcat(m, r, a[1..], b, x);
    } else {
      assert a + b == b;
    }
  }

  /** Taking out the consumer at position `i`. */
  lemma InflowSplit(m: MathLib, r: Arena, ds: seq<Ref>, i: nat, x: Ref)
    requires Valid(r) && AllBelow(r, ds) && i < |ds|
    ensures AllBelow(r, ds[..i] + ds[i + 1..])
    ensures Inflow(m, r, ds, x) == SlotSum(m, r, ds[i], x) + Inflow(m, r, ds[..i] + ds[i + 1..], x)
  {
    assert ds == ds[..i] + ([ds[i]] + ds[i + 1..]);
    assert ([ds[i]] + ds[i + 1..])[1..] == ds[i + 1..];
    InflowConcat(m, r, ds[..i], [ds[i]] + ds[i + 1..], x);
    InflowConcat(m, r, ds[..i], ds[i + 1..], x);
  }

  lemma MultisetRemove(cs: seq<Ref>, ds: seq<Ref>, i: nat)
    requires cs != [] && i < |ds| && ds[i] == cs[0] && multiset(cs) == multiset(ds)
    ensures multiset(cs[1..]) == multiset(ds[..i] + ds[i + 1..])
  {
    assert ds == ds[..i] + ([ds[i]] + ds[i + 1..]);
    assert cs == [cs[0]] + cs[1..];
    calc {
      multiset(cs[1..]) + multiset{cs[0]};
      multiset(cs);
      multiset(ds);
      multiset(ds[..i]) + (multiset{cs[0]} + multiset(ds[i + 1..]));
      multiset(ds[..i] + ds[i + 1..]) + multiset{cs[0]};
    }
    var a, b := multiset(cs[1..]), multiset(ds[..i] + ds[i + 1..]);
    assert a + multiset{cs[0]} == b + multiset{cs[0]};
    forall y ensures a[y] == b[y] {
      assert (a + multiset{cs[0]})[y] == a[y] + multiset{cs[0]}[y];
      assert (b + multiset{cs[0]})[y] == b[y] + multiset{cs[0]}[y];
    }
  }

  /** The inflow is a sum: it does not depend on the order of the consumers. */
  lemma {:induction false} InflowPermutation(m: MathLib, r: Arena, cs: seq<Ref>, ds: seq<Ref>, x: Ref)
    requires Valid(r) && AllBelow(r, cs) && multiset(cs) == multiset(ds)
    ensures AllBelow(r, ds) && Inflow(m, r, cs, x) == Inflow(m, r, ds, x)
    decreases |cs|
  {
    forall i | 0 <= i < |ds| ensures ds[i] < |r| {
      assert ds[i] in multiset(cs);
    }
    if cs != [] {
      assert cs[0] in multiset(ds);
      var i :| 0 <= i < |ds| && ds[i] == cs[0];
      MultisetRemove(cs, ds, i);
      assert AllBelow(r, cs[1..]) by {
        forall j | 0 <= j < |cs[1..]| ensures cs[1..][j] < |r| {
          assert cs[1..][j] == cs[j + 1];
        }
      }
      InflowPermutation(m, r, cs[1..], ds[..i] + ds[i + 1..], x);
      InflowSplit(m, r, ds, i, x);
    } else {
      assert |ds| == |multiset(ds)| == 0;
    }
  }

  /** A list without repetitions holds each of its elements once. */
  lemma {:induction false} DistinctMultiset(s: seq<Ref>)
    requires Distinct(s)
    ensures multiset(s) == multiset(Elems(s))
  {
    if s != [] {
      assert Distinct(s[1..]);
      DistinctMultiset(s[1..]);
      assert s == [s[0]] + s[1..];
      assert Elems(s) == Elems(s[1..]) + {s[0]};
      assert s[0] !in Elems(s[1..]);
    } else {
      assert Elems(s) == {};
    }
  }

  /** Two walks of distinct nodes over the same node set send the same inflow. */
  lemma InflowSameNodes(m: MathLib, r: Arena, cs: seq<Ref>, ds: seq<Ref>, x: Ref)
    requires Valid(r) && AllBelow(r, cs) && Distinct(cs) && Distinct(ds) && Elems(cs) == Elems(ds)
    ensures AllBelow(r, ds) && Inflow(m, r, cs, x) == Inflow(m, r, ds, x)
  {
    DistinctMultiset(cs);
    DistinctMultiset(ds);
    InflowPermutation(m, r, cs, ds, x);
  }

  /** `SlotSum` reads the structure, the data and the gradient of the consumer only. */
  lemma SlotSumFrame(m: MathLib, g: Arena, g': Arena, o: Ref, x: Ref)
    requires Valid(g) && OnlyGradsChanged(g, g') && o < |g| && g'[o].grad == g[o].grad
    ensures Valid(g') && SlotSum(m, g', o, x) == SlotSum(m, g, o, x)
  {
    SameShapeKeepsValid(g, g');
    assert g'[o] == g[o];
    assert Arg(g', o, 0) == Arg(g, o, 0) && Arg(g', o, 1) == Arg(g, o, 1);
  }

  /** Dropping the node just processed keeps consumers first, and no later
      node consumes it: its gradient is final. */
  lemma ConsumersFirstTail(g: Arena, g1: Arena, cs: seq<Ref>)
    requires SameShape(g, g1) && ConsumersFirst(g, cs) && cs != []
    ensures ConsumersFirst(g1, cs[1..]) && !Feeds(g1, cs[1..], cs[0])
  {
    forall i, j | 0 <= i < j < |cs[1..]| && cs[1..][j] < |g1|
      ensures cs[1..][i] !in g1[cs[1..][j]].operands
    {
      assert cs[1..][i] == cs[i + 1] && cs[1..][j] == cs[j + 1];
    }
    forall j | 0 <= j < |cs[1..]| && cs[1..][j] < |g1|
      ensures cs[0] !in g1[cs[1..][j]].operands
    {
      assert cs[1..][j] == cs[j + 1];
    }
  }

  /** Changing gradients keeps the arena well formed and the listed divisors
      non-zero, for the rest of the list as well. */
  lemma DivisorsKept(g: Arena, g1: Arena, cs: seq<Ref>)
    requires Valid(g) && OnlyGradsChanged(g, g1) && AllBelow(g, cs) && ListedDivisorsNonZero(g, cs)
    ensures Valid(g1) && AllBelow(g1, cs) && ListedDivisorsNonZero(g1, cs)
    ensures cs != [] ==> AllBelow(g1, cs[1..]) && ListedDivisorsNonZero(g1, cs[1..])
  {
    SameShapeKeepsValid(g, g1);
    forall i | 0 <= i < |cs| ensures DivisorNonZero(g1, cs[i]) {
      assert DivisorNonZero(g, cs[i]);
    }
    if cs != [] {
      forall i | 0 <= i < |cs[1..]| ensures cs[1..][i] < |g1| && DivisorNonZero(g1, cs[1..][i]) {
        assert cs[1..][i] == cs[i + 1];
      }
    }
  }

  /** The adjoint equation of the loop: after it, every node's gradient is
      its gradient before plus, for every node of `cs`, that node's final
      gradient times its slope with respect to the slots holding the node. */
  lemma {:induction false} PropagateAdjoint(m: MathLib, g: Arena, cs: seq<Ref>, x: Ref)
    requires Valid(g) && AllBelow(g, cs) && ConsumersFirst(g, cs) && ListedDivisorsNonZero(g, cs) && x < |g|
    ensures Valid(Propagate(m, g, cs)) && AllBelow(Propagate(m, g, cs), cs)
    ensures Propagate(m, g, cs)[x].grad == g[x].grad + Inflow(m, Propagate(m, g, cs), cs, x)
    decreases |cs|
  {
    var r := Propagate(m, g, cs);
    SameShapeKeepsValid(g, r);
    if cs != [] {
      var c := cs[0];
      var g1 := ComputeGradient(m, g, c);
      SameShapeKeepsValid(g, g1);
      LocalRuleIsSumRule(m, g, c);
      ConsumersFirstTail(g, g1, cs);
      DivisorsKept(g, g1, cs);
      PropagateAdjoint(m, g1, cs[1..], x);
      assert r == Propagate(m, g1, cs[1..]);
      assert c !in g[c].operands;
      SlotSumFrame(m, g, r, c, x);
    }
  }

  /** Reversing a topological order of distinct nodes puts consumers first. */
  lemma ReverseTopological(g: Arena, order: seq<Ref>)
    requires Topological(g, order) && Distinct(order)
    ensures ConsumersFirst(g, Reverse(order))
  {
    var rev := Reverse(order);
    var n := |order|;
    forall i, j | 0 <= i < j < |rev| && rev[j] < |g|
      ensures rev[i] !in g[rev[j]].operands
    {
      var q := n - 1 - j;
      assert rev[i] == order[n - 1 - i] && n - 1 - i > q;
      assert rev[i] !in order[..q];
      forall k | 0 <= k < |g[order[q]].operands|
        ensures g[order[q]].operands[k] != rev[i]
      {
        assert g[order[q]].operands[k] in order[..q];
      }
    }
  }

  /** Reversal keeps the listed nodes and their distinctness, and puts the
      last one first. */
  lemma ReverseKeepsNodes(s: seq<Ref>)
    ensures Elems(Reverse(s)) == Elems(s)
    ensures Distinct(s) ==> Distinct(Reverse(s))
    ensures |s| > 0 ==> Reverse(s)[0] == s[|s| - 1]
  {
    MirrorKeepsNodes(s, Reverse(s));
  }

  /** A listing read back to front has the same nodes, distinct if they were. */
  lemma MirrorKeepsNodes(s: seq<Ref>, r: seq<Ref>)
    requires |r| == |s| && forall i :: 0 <= i < |s| ==> r[i] == s[|s| - 1 - i]
    ensures Elems(r) == Elems(s)
    ensures Distinct(s) ==> Distinct(r)
  {
    var n := |s|;
    forall y | y in Elems(s) ensures y in Elems(r) {
      var i :| 0 <= i < n && s[i] == y;
      assert r[n - 1 - i] == y;
    }
    forall y | y in Elems(r) ensures y in Elems(s) {
      var i :| 0 <= i < n && r[i] == y;
      assert s[n - 1 - i] == y;
    }
    if Distinct(s) {
      forall i, j | 0 <= i < j < n ensures r[i] != r[j] {
        var i', j' := n - 1 - i, n - 1 - j;
        assert r[i] == s[i'] && r[j] == s[j'] && j' < i';
      }
    }
  }

  /** A listing of nodes no greater than an index of the arena stays inside it. */
  lemma BoundedListBelow(g: Arena, cs: seq<Ref>, h: Ref)
    requires h < |g| && forall y :: y in Elems(cs) ==> y <= h
    ensures AllBelow(g, cs)
  {
    forall i | 0 <= i < |cs| ensures cs[i] < |g| {
      assert cs[i] in Elems(cs);
    }
  }

  /** `collect_operands` then `reverse`: the walk of `backward`, consumers first. */
  function Schedule(g: Arena, h: Ref): (cs: seq<Ref>)
    requires Valid(g) && h < |g|
    ensures Elems(cs) == Reach(g, h) && Distinct(cs) && ConsumersFirst(g, cs)
    ensures |cs| > 0 && cs[0] == h && AllBelow(g, cs)
  {
    var order := CollectOperands(g, h);
    ReverseTopological(g, order);
    ReverseKeepsNodes(order);
    BoundedListBelow(g, Reverse(order), h);
    Reverse(order)
  }

  /** The root's gradient is set, not accumulated, to 1. */
  function Seed(g: Arena, h: Ref): (r: Arena)
    requires h < |g|
    ensures OnlyGradsChanged(g, r) && r[h].grad == 1.0
    ensures forall j :: 0 <= j < |g| && j != h ==> r[j] == g[j]
  {
    g[h := g[h].(grad := 1.0)]
  }

  /** `backward`: collect the walk, reverse it so the root comes first, set the
      root's gradient to 1, then run `comput_gradient` on every node in turn. */
  function Backward(m: MathLib, g: Arena, h: Ref): (r: Arena)
    requires Valid(g) && h < |g|
    ensures OnlyGradsChanged(g, r)
  {
    var rev := Schedule(g, h);
    var seeded := if |rev| > 0 then Seed(g, rev[0]) else g;
    SameShapeKeepsValid(g, seeded);
    assert AllBelow(seeded, rev);
    var r := Propagate(m, seeded, rev);
    OnlyGradsChangedTrans(g, seeded, r);
    r
  }

  /** The main theorem of `backward`: the root ends with gradient 1, and every
      other node ends with its earlier gradient plus what all reachable
      consumers send it by the chain rule, each consumer once and with its
      final gradient. Gradients accumulate: nothing is reset first. */
  lemma BackwardAdjoint(m: MathLib, g: Arena, h: Ref, x: Ref)
    requires Valid(g) && h < |g| && ReachDivisorsNonZero(g, h) && x < |g|
    ensures Valid(Backward(m, g, h)) && AllBelow(Backward(m, g, h), Schedule(g, h))
    ensures Backward(m, g, h)[x].grad
      == (if x == h then 1.0 else g[x].grad) + Inflow(m, Backward(m, g, h), Schedule(g, h), x)
  {
    BackwardUnfold(m, g, h);
    SeedReady(g, h);
    PropagateAdjoint(m, Seed(g, h), Schedule(g, h), x);
  }

  lemma BackwardUnfold(m: MathLib, g: Arena, h: Ref)
    requires Valid(g) && h < |g|
    ensures Valid(Seed(g, h)) && AllBelow(Seed(g, h), Schedule(g, h))
    ensures Backward(m, g, h) == Propagate(m, Seed(g, h), Schedule(g, h))
  {
    SameShapeKeepsValid(g, Seed(g, h));
  }

  /** After seeding, the walk still puts consumers first and no divisor on it became zero. */
  lemma SeedReady(g: Arena, h: Ref)
    requires Valid(g) && h < |g| && ReachDivisorsNonZero(g, h)
    ensures Valid(Seed(g, h)) && AllBelow(Seed(g, h), Schedule(g, h))
    ensures ConsumersFirst(Seed(g, h), Schedule(g, h)) && ListedDivisorsNonZero(Seed(g, h), Schedule(g, h))
  {
    var cs := Schedule(g, h);
    forall i | 0 <= i < |cs| ensures DivisorNonZero(g, cs[i]) {
      assert cs[i] in Elems(cs);
    }
    DivisorsKept(g, Seed(g, h), cs);
    assert ConsumersFirst(Seed(g, h), Schedule(g, h));
  }

  /** Nodes outside the reachable set, and the root itself, are nobody's
      operand within it. */
  lemma UnreachedNotFed(g: Arena, h: Ref, cs: seq<Ref>, x: Ref)
    requires Valid(g) && h < |g| && Elems(cs) <= Reach(g, h)
    requires x == h || x !in Reach(g, h)
    ensures !Feeds(g, cs, x)
  {
    forall i | 0 <= i < |cs| && cs[i] < |g|
      ensures x !in g[cs[i]].operands
    {
      assert cs[i] in Elems(cs);
      ReachClosed(g, h, cs[i]);
    }
  }

  /** `backward` changes the gradients of reachable nodes only, and sets the root's to 1. */
  lemma BackwardFrame(m: MathLib, g: Arena, h: Ref)
    requires Valid(g) && h < |g|
    ensures Backward(m, g, h)[h].grad == 1.0
    ensures forall x :: 0 <= x < |g| && x !in Reach(g, h) ==> Backward(m, g, h)[x] == g[x]
  {
    BackwardUnfold(m, g, h);
    SeedNotFed(g, h);
  }

  lemma SeedNotFed(g: Arena, h: Ref)
    requires Valid(g) && h < |g|
    ensures forall x :: 0 <= x < |g| && (x == h || x !in Reach(g, h)) ==> !Feeds(Seed(g, h), Schedule(g, h), x)
  {
    var cs := Schedule(g, h);
    var seeded := Seed(g, h);
    forall x | 0 <= x < |g| && (x == h || x !in Reach(g, h))
      ensures !Feeds(seeded, cs, x)
    {
      UnreachedNotFed(g, h, cs, x);
      FeedsSameShape(g, seeded, cs, x);
    }
  }

  lemma FeedsSameShape(g: Arena, g': Arena, cs: seq<Ref>, x: Ref)
    requires SameShape(g, g')
    ensures Feeds(g', cs, x) == Feeds(g, cs, x)
  {
    if Feeds(g', cs, x) {
      var i :| 0 <= i < |cs| && cs[i] < |g'| && x in g'[cs[i]].operands;
      assert g[cs[i]].operands == g'[cs[i]].operands;
    }
  }

  /** Two arenas of the same shape and data agree once the gradients of the
      same nodes are cleared and the rest is equal. */
  lemma ZeroedAgree(g: Arena, a: Arena, b: Arena, h: Ref)
    requires Valid(g) && h < |g| && OnlyGradsChanged(g, a) && OnlyGradsChanged(g, b)
    requires forall j :: 0 <= j < |g| && j in Reach(g, h) ==> a[j].grad == 0.0 && b[j].grad == 0.0
    requires forall j :: 0 <= j < |g| && j !in Reach(g, h) ==> a[j] == b[j]
    ensures a == b
  {
    forall j | 0 <= j < |g| ensures a[j] == b[j] {
      if j in Reach(g, h) {
        assert a[j].op == b[j].op && a[j].operands == b[j].operands && a[j].data == b[j].data;
      }
    }
  }

  /** `zero_grad` is idempotent. */
  lemma ZeroGradIdempotent(g: Arena, h: Ref)
    requires Valid(g) && h < |g|
    ensures Valid(ZeroGrad(g, h)) && ZeroGrad(ZeroGrad(g, h), h) == ZeroGrad(g, h)
  {
    var z := ZeroGrad(g, h);
    ReachSameShape(g, z, h);
    var z2 := ZeroGrad(z, h);
    OnlyGradsChangedTrans(g, z, z2);
    ZeroedAgree(g, z2, z, h);
  }

  /** Once gradients are cleared, any change confined to gradients inside the
      reachable set is cleared again by the next `zero_grad`. */
  lemma ZeroGradClearsReachable(g: Arena, z: Arena, b: Arena, h: Ref)
    requires Valid(g) && h < |g| && z == ZeroGrad(g, h)
    requires OnlyGradsChanged(z, b) && forall x :: 0 <= x < |z| && x !in Reach(z, h) ==> b[x] == z[x]
    ensures Valid(b) && ZeroGrad(b, h) == z
  {
    ReachSameShape(g, z, h);
    OnlyGradsChangedTrans(g, z, b);
    SameShapeKeepsValid(g, b);
    ReachSameShape(g, b, h);
    OnlyGradsChangedTrans(g, b, ZeroGrad(b, h));
    ZeroedAgree(g, ZeroGrad(b, h), z, h);
  }

  /** `zero_grad` undoes `backward` from the same root: a pass started from
      cleared gradients can be repeated after another `zero_grad` with the
      same outcome, which is why training loops call it between passes. */
  lemma ZeroGradUndoesBackward(m: MathLib, g: Arena, h: Ref)
    requires Valid(g) && h < |g|
    ensures Valid(Backward(m, ZeroGrad(g, h), h))
    ensures ZeroGrad(Backward(m, ZeroGrad(g, h), h), h) == ZeroGrad(g, h)
  {
    SameShapeKeepsValid(g, ZeroGrad(g, h));
    BackwardFrame(m, ZeroGrad(g, h), h);
    ZeroGradClearsReachable(g, ZeroGrad(g, h), Backward(m, ZeroGrad(g, h), h), h);
  }
}
