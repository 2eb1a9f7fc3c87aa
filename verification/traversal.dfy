/** Graph traversal: `collect_operands(_inner)` and `zero_grad(_inner)`.
    Both are depth-first walks over the operands that thread a visited set
    scoped to the call, keyed by node identity (here: the index). */
module Traversal {
  import opened Value

  /** The nodes reachable from `h` through operand edges, `h` included. */
  ghost function Reach(g: Arena, h: Ref): (s: set<Ref>)
    requires Valid(g) && h < |g|
    ensures h in s
    ensures forall x :: x in s ==> x <= h
    decreases h, 1, 0
  {
    {h} + ReachFrom(g, h, 0)
  }

  /** The nodes reachable from operands `k..` of `h`. */
  ghost function ReachFrom(g: Arena, h: Ref, k: nat): (s: set<Ref>)
    requires Valid(g) && h < |g| && k <= |g[h].operands|
    ensures forall x :: x in s ==> x < h
    ensures forall j :: k <= j < |g[h].operands| ==> g[h].operands[j] in s
    decreases h, 0, |g[h].operands| - k
  {
    if k == |g[h].operands| then {}
    else Reach(g, g[h].operands[k]) + ReachFrom(g, h, k + 1)
  }

  lemma ReachTransitive(g: Arena, h: Ref, x: Ref)
    requires Valid(g) && h < |g| && x in Reach(g, h)
    ensures Reach(g, x) <= Reach(g, h)
    decreases h, 1, 0
  {
    if x != h {
      ReachFromTransitive(g, h, 0, x);
    }
  }

  lemma ReachFromTransitive(g: Arena, h: Ref, k: nat, x: Ref)
    requires Valid(g) && h < |g| && k <= |g[h].operands| && x in ReachFrom(g, h, k)
    ensures Reach(g, x) <= ReachFrom(g, h, k)
    decreases h, 0, |g[h].operands| - k
  {
    var c := g[h].operands[k];
    if x in Reach(g, c) {
      ReachTransitive(g, c, x);
    } else {
      ReachFromTransitive(g, h, k + 1, x);
    }
  }

  /** Reachability is closed under operands. */
  lemma ReachClosed(g: Arena, h: Ref, x: Ref)
    requires Valid(g) && h < |g| && x in Reach(g, h)
    ensures forall k :: 0 <= k < |g[x].operands| ==> g[x].operands[k] in Reach(g, h)
  {
    ReachTransitive(g, h, x);
    assert forall k :: 0 <= k < |g[x].operands| ==> g[x].operands[k] in ReachFrom(g, x, 0);
  }

  /** Reachability depends on the operand lists only. */
  lemma ReachSameShape(g: Arena, g': Arena, h: Ref)
    requires Valid(g) && SameShape(g, g') && h < |g|
    ensures Valid(g') && Reach(g', h) == Reach(g, h)
    decreases h, 1, 0
  {
    SameShapeKeepsValid(g, g');
    ReachFromSameShape(g, g', h, 0);
  }

  lemma ReachFromSameShape(g: Arena, g': Arena, h: Ref, k: nat)
    requires Valid(g) && SameShape(g, g') && h < |g| && k <= |g[h].operands|
    ensures Valid(g') && ReachFrom(g', h, k) == ReachFrom(g, h, k)
    decreases h, 0, |g[h].operands| - k
  {
    SameShapeKeepsValid(g, g');
    if k < |g[h].operands| {
      ReachSameShape(g, g', g[h].operands[k]);
      ReachFromSameShape(g, g', h, k + 1);
    }
  }

  /** Every visited node below `bound` has been finished: all it reaches is
      visited too. Nodes still on the walk's stack are ancestors of the
      current node and so lie at or above `bound`. */
  ghost predicate Settled(g: Arena, vis: set<Ref>, bound: nat)
    requires Valid(g) && bound <= |g|
  {
    forall v :: v in vis && v < bound ==> Reach(g, v) <= vis
  }

  /** Finishing a child keeps the visited set settled below its parent. */
  lemma SettledAfterChild(g: Arena, vis: set<Ref>, c: Ref, h: Ref)
    requires Valid(g) && h < |g| && c < h && Settled(g, vis, h)
    ensures Settled(g, vis + Reach(g, c), h)
  {
    forall v | v in vis + Reach(g, c) && v < h
      ensures Reach(g, v) <= vis + Reach(g, c)
    {
      if v !in vis {
        ReachTransitive(g, c, v);
      }
    }
  }

  function Elems(s: seq<Ref>): set<Ref>
  {
    set x | x in s
  }

  predicate Distinct(s: seq<Ref>)
  {
    forall i, j :: 0 <= i < j < |s| ==> s[i] != s[j]
  }

  /** Every operand of every listed node is visited beforehand or listed earlier. */
  predicate TopoAfter(g: Arena, s: seq<Ref>, vis: set<Ref>)
  {
    forall i, k :: 0 <= i < |s| && s[i] < |g| && 0 <= k < |g[s[i]].operands| ==>
      g[s[i]].operands[k] in vis || g[s[i]].operands[k] in s[..i]
  }

  /** Every node of `s` appears after all of its operands. */
  predicate Topological(g: Arena, s: seq<Ref>)
  {
    forall i, k :: 0 <= i < |s| && s[i] < |g| && 0 <= k < |g[s[i]].operands| ==>
      g[s[i]].operands[k] in s[..i]
  }

  /** The result of a walk: the nodes collected in post-order, and the visited set. */
  datatype Walk = Walk(order: seq<Ref>, visited: set<Ref>)

  /** Gluing the walks of two consecutive operands. */
  lemma JoinWalks(g: Arena, vis: set<Ref>, a: seq<Ref>, visA: set<Ref>, b: seq<Ref>)
    requires Distinct(a) && Distinct(b) && Elems(b) !! visA && Elems(a) <= visA
    requires visA == vis + Elems(a)
    requires TopoAfter(g, a, vis) && TopoAfter(g, b, visA)
    ensures Distinct(a + b) && TopoAfter(g, a + b, vis) && Elems(a + b) == Elems(a) + Elems(b)
  {
    var s := a + b;
    forall i, j | 0 <= i < j < |s| ensures s[i] != s[j]
    {
      if j >= |a| && i < |a| {
        assert s[i] in Elems(a) && s[j] in Elems(b);
      }
    }
    forall i, k | 0 <= i < |s| && s[i] < |g| && 0 <= k < |g[s[i]].operands|
      ensures g[s[i]].operands[k] in vis || g[s[i]].operands[k] in s[..i]
    {
      var o := g[s[i]].operands[k];
      if i < |a| {
        assert s[..i] == a[..i];
      } else {
        assert s[i] == b[i - |a|];
        assert s[..i] == a + b[..i - |a|];
        if o !in vis && o !in b[..i - |a|] {
          assert o in Elems(a);
        }
      }
    }
    assert Elems(s) == Elems(a) + Elems(b);
  }

  /** `collect_operands_inner`: post-order, deduplicated depth-first walk.
      From a settled visited set it lists exactly the unvisited reachable
      nodes, each once, operands first, `h` last. */
  function Collect(g: Arena, h: Ref, vis: set<Ref>): (w: Walk)
    requires Valid(g) && h < |g| && Settled(g, vis, h + 1)
    ensures w.visited == vis + Reach(g, h)
    ensures Elems(w.order) == Reach(g, h) - vis
    ensures Distinct(w.order) && TopoAfter(g, w.order, vis)
    ensures h in vis ==> w.order == []
    ensures h !in vis ==> |w.order| > 0 && w.order[|w.order| - 1] == h
    decreases h, 1, 0
  {
    if h in vis then Walk([], vis)
    else
      var w := CollectFrom(g, h, 0, vis + {h});
      CollectRoot(g, h, vis, w);
      Walk(w.order + [h], w.visited)
  }

  /** Appending the root after its operands' walks. */
  lemma CollectRoot(g: Arena, h: Ref, vis: set<Ref>, w: Walk)
    requires Valid(g) && h < |g| && h !in vis
    requires w.visited == vis + {h} + ReachFrom(g, h, 0)
    requires Elems(w.order) == ReachFrom(g, h, 0) - (vis + {h})
    requires Distinct(w.order) && TopoAfter(g, w.order, vis + {h})
    ensures Distinct(w.order + [h]) && TopoAfter(g, w.order + [h], vis)
    ensures Elems(w.order + [h]) == Reach(g, h) - vis
  {
    var s := w.order + [h];
    assert Elems([h]) == {h};
    JoinWalks(g, vis, w.order, vis + Elems(w.order), [h]) by {
      forall i, k | 0 <= i < |w.order| && w.order[i] < |g| && 0 <= k < |g[w.order[i]].operands|
        ensures g[w.order[i]].operands[k] in vis || g[w.order[i]].operands[k] in w.order[..i]
      {
        assert w.order[i] in Elems(w.order);
      }
      forall k | 0 <= k < |g[h].operands|
        ensures g[h].operands[k] in vis + Elems(w.order)
      {
        assert g[h].operands[k] in ReachFrom(g, h, 0);
      }
      assert [h][..0] == [];
    }
  }

  /** The loop over the operands of `h` from slot `k` on. */
  function CollectFrom(g: Arena, h: Ref, k: nat, vis: set<Ref>): (w: Walk)
    requires Valid(g) && h < |g| && k <= |g[h].operands| && Settled(g, vis, h)
    ensures w.visited == vis + ReachFrom(g, h, k)
    ensures Elems(w.order) == ReachFrom(g, h, k) - vis
    ensures Distinct(w.order) && TopoAfter(g, w.order, vis)
    decreases h, 0, |g[h].operands| - k
  {
    if k == |g[h].operands| then Walk([], vis)
    else
      var c := g[h].operands[k];
      var w1 := Collect(g, c, vis);
      SettledAfterChild(g, vis, c, h);
      var w2 := CollectFrom(g, h, k + 1, w1.visited);
      JoinWalks(g, vis, w1.order, w1.visited, w2.order);
      Walk(w1.order + w2.order, w2.visited)
  }

  /** `collect_operands`: every node reachable from the root exactly once, each
      after all of its operands, the root last. */
  function CollectOperands(g: Arena, h: Ref): (order: seq<Ref>)
    requires Valid(g) && h < |g|
    ensures Elems(order) == Reach(g, h)
    ensures Distinct(order) && Topological(g, order)
    ensures |order| > 0 && order[|order| - 1] == h
  {
    Collect(g, h, {}).order
  }

  /** The result of a zeroing walk: the arena so far, and the visited set. */
  datatype Zeroed = Zeroed(arena: Arena, visited: set<Ref>)

  /** `zero_grad_inner`. The walk reads the fixed structure `g` while it
      rewrites the gradients of `cur`; the gradient of `h` is cleared before
      the visited check, so a revisited node is cleared again. */
  function ZeroInner(g: Arena, cur: Arena, h: Ref, vis: set<Ref>): (z: Zeroed)
    requires Valid(g) && OnlyGradsChanged(g, cur) && h < |g| && Settled(g, vis, h + 1)
    ensures OnlyGradsChanged(cur, z.arena)
    ensures z.visited == vis + Reach(g, h)
    ensures z.arena[h].grad == 0.0
    ensures forall j :: 0 <= j < |g| && j !in Reach(g, h) ==> z.arena[j] == cur[j]
    ensures forall j :: j in Reach(g, h) && j !in vis ==> z.arena[j].grad == 0.0
    ensures forall j :: j in Reach(g, h) ==> z.arena[j].grad == 0.0 || z.arena[j].grad == cur[j].grad
    decreases h, 1, 0
  {
    var cleared := cur[h := cur[h].(grad := 0.0)];
    if h in vis then Zeroed(cleared, vis)
    else ZeroFrom(g, cleared, h, 0, vis + {h})
  }

  /** The loop over the operands of `h` from slot `k` on. */
  function ZeroFrom(g: Arena, cur: Arena, h: Ref, k: nat, vis: set<Ref>): (z: Zeroed)
    requires Valid(g) && OnlyGradsChanged(g, cur) && h < |g| && k <= |g[h].operands|
    requires Settled(g, vis, h)
    ensures OnlyGradsChanged(cur, z.arena)
    ensures z.visited == vis + ReachFrom(g, h, k)
    ensures forall j :: 0 <= j < |g| && j !in ReachFrom(g, h, k) ==> z.arena[j] == cur[j]
    ensures forall j :: j in ReachFrom(g, h, k) && j !in vis ==> z.arena[j].grad == 0.0
    ensures forall j :: j in ReachFrom(g, h, k) ==> z.arena[j].grad == 0.0 || z.arena[j].grad == cur[j].grad
    decreases h, 0, |g[h].operands| - k
  {
    if k == |g[h].operands| then Zeroed(cur, vis)
    else
      var c := g[h].operands[k];
      var z1 := ZeroInner(g, cur, c, vis);
      SettledAfterChild(g, vis, c, h);
      OnlyGradsChangedTrans(g, cur, z1.arena);
      var z2 := ZeroFrom(g, z1.arena, h, k + 1, z1.visited);
      OnlyGradsChangedTrans(cur, z1.arena, z2.arena);
      assert ReachFrom(g, h, k) == Reach(g, c) + ReachFrom(g, h, k + 1);
      z2
  }

  /** `zero_grad`: every node reachable from the root gets gradient zero,
      every other node is left as it was, and no value changes. */
  function ZeroGrad(g: Arena, h: Ref): (r: Arena)
    requires Valid(g) && h < |g|
    ensures OnlyGradsChanged(g, r)
    ensures forall j :: 0 <= j < |g| ==>
      (j in Reach(g, h) ==> r[j].grad == 0.0) && (j !in Reach(g, h) ==> r[j] == g[j])
  {
    ZeroInner(g, g, h, {}).arena
  }
}
