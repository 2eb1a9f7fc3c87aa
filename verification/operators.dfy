/** The operator layer: every arithmetic or activation operator computes its
    forward value eagerly, wraps a raw scalar operand in a fresh leaf, and
    allocates a brand-new node recording the operator and the operand handles
    in argument order. No existing node is touched. */
module Operators {
  import opened Scalar
  import opened Value

  /** A leaf holding `c`, as the operators build for a scalar operand. */
  function ConstLeaf(c: real): Node
  {
    Node(c, 0.0, Leaf, [])
  }

  /** `r` is `g` with exactly the node `n` appended, and `r.node` is its handle. */
  predicate Appended(g: Arena, r: Built, n: Node)
  {
    |r.arena| == |g| + 1 && Extends(g, r.arena) && r.node == |g| && r.arena[r.node] == n
  }

  /** Allocates a node with grad 0 for an operator result. */
  function Alloc(g: Arena, op: Op, operands: seq<Ref>, v: real): (r: Built)
    ensures Appended(g, r, Node(v, 0.0, op, operands))
    ensures Valid(g) && (forall k :: 0 <= k < |operands| ==> operands[k] < |g|) ==> Valid(r.arena)
  {
    Built(g + [Node(v, 0.0, op, operands)], |g|)
  }

  /** Allocates the constant leaf for `c`, then the operator node over it. */
  function AllocWithConst(g: Arena, c: real, op: Op, operands: seq<Ref>, v: real): (r: Built)
    ensures Appended(g + [ConstLeaf(c)], r, Node(v, 0.0, op, operands))
    ensures Valid(g) && (forall k :: 0 <= k < |operands| ==> operands[k] < |g| + 1) ==> Valid(r.arena)
  {
    Alloc(NewLeaf(g, c).arena, op, operands, v)
  }

  // ---- add.rs ----

  /** `MVal + MVal`. */
  function Add(g: Arena, a: Ref, b: Ref): (r: Built)
    requires a < |g| && b < |g|
    ensures Appended(g, r, Node(g[a].data + g[b].data, 0.0, Plus, [a, b]))
    ensures Valid(g) ==> Valid(r.arena)
  {
    Alloc(g, Plus, [a, b], g[a].data + g[b].data)
  }

  /** `DataType + MVal`: the scalar becomes a fresh leaf in operand slot 0. */
  function ScalarAdd(g: Arena, c: real, b: Ref): (r: Built)
    requires b < |g|
    ensures Appended(g + [ConstLeaf(c)], r, Node(c + g[b].data, 0.0, Plus, [|g|, b]))
    ensures r.arena[r.node].operands[0] != r.arena[r.node].operands[1]
    ensures Valid(g) ==> Valid(r.arena)
  {
    AllocWithConst(g, c, Plus, [|g|, b], c + g[b].data)
  }

  /** `MVal + T`: the scalar becomes a fresh leaf in operand slot 1. */
  function AddScalar(g: Arena, a: Ref, c: real): (r: Built)
    requires a < |g|
    ensures Appended(g + [ConstLeaf(c)], r, Node(g[a].data + c, 0.0, Plus, [a, |g|]))
    ensures r.arena[r.node].operands[0] != r.arena[r.node].operands[1]
    ensures Valid(g) ==> Valid(r.arena)
  {
    AllocWithConst(g, c, Plus, [a, |g|], g[a].data + c)
  }

  // ---- sub.rs ----

  /** `MutableValue - MutableValue`. */
  function Sub(g: Arena, a: Ref, b: Ref): (r: Built)
    requires a < |g| && b < |g|
    ensures Appended(g, r, Node(g[a].data - g[b].data, 0.0, Minus, [a, b]))
    ensures Valid(g) ==> Valid(r.arena)
  {
    Alloc(g, Minus, [a, b], g[a].data - g[b].data)
  }

  /** `DataType - MutableValue`: `c - b` with `c` a fresh leaf in slot 0. */
  function ScalarSub(g: Arena, c: real, b: Ref): (r: Built)
    requires b < |g|
    ensures Appended(g + [ConstLeaf(c)], r, Node(c - g[b].data, 0.0, Minus, [|g|, b]))
    ensures r.arena[r.node].operands[0] != r.arena[r.node].operands[1]
    ensures Valid(g) ==> Valid(r.arena)
  {
    AllocWithConst(g, c, Minus, [|g|, b], c - g[b].data)
  }

  /** `MutableValue - T`: `a - c` with `c` a fresh leaf in slot 1. */
  function SubScalar(g: Arena, a: Ref, c: real): (r: Built)
    requires a < |g|
    ensures Appended(g + [ConstLeaf(c)], r, Node(g[a].data - c, 0.0, Minus, [a, |g|]))
    ensures r.arena[r.node].operands[0] != r.arena[r.node].operands[1]
    ensures Valid(g) ==> Valid(r.arena)
  {
    AllocWithConst(g, c, Minus, [a, |g|], g[a].data - c)
  }

  // ---- mul.rs ----

  /** `MVal * MVal`. */
  function Mul(g: Arena, a: Ref, b: Ref): (r: Built)
    requires a < |g| && b < |g|
    ensures Appended(g, r, Node(g[a].data * g[b].data, 0.0, Op.Mul, [a, b]))
    ensures Valid(g) ==> Valid(r.arena)
  {
    Alloc(g, Op.Mul, [a, b], g[a].data * g[b].data)
  }

  /** `DataType * MVal`: the constant is a fresh leaf in slot 0. */
  function ScalarMul(g: Arena, c: real, b: Ref): (r: Built)
    requires b < |g|
    ensures Appended(g + [ConstLeaf(c)], r, Node(c * g[b].data, 0.0, Op.Mul, [|g|, b]))
    ensures r.arena[r.node].operands[0] != r.arena[r.node].operands[1]
    ensures Valid(g) ==> Valid(r.arena)
  {
    AllocWithConst(g, c, Op.Mul, [|g|, b], c * g[b].data)
  }

  /** `MVal * T`: the constant is a fresh leaf in slot 1. */
  function MulScalar(g: Arena, a: Ref, c: real): (r: Built)
    requires a < |g|
    ensures Appended(g + [ConstLeaf(c)], r, Node(g[a].data * c, 0.0, Op.Mul, [a, |g|]))
    ensures r.arena[r.node].operands[0] != r.arena[r.node].operands[1]
    ensures Valid(g) ==> Valid(r.arena)
  {
    AllocWithConst(g, c, Op.Mul, [a, |g|], g[a].data * c)
  }

  // ---- div.rs ----

  /** `MutableValue / MutableValue`; no error for a zero denominator. */
  function Div(m: MathLib, g: Arena, a: Ref, b: Ref): (r: Built)
    requires a < |g| && b < |g|
    ensures Appended(g, r, Node(Quot(m, g[a].data, g[b].data), 0.0, Op.Div, [a, b]))
    ensures g[b].data != 0.0 ==> r.arena[r.node].data * g[b].data == g[a].data
    ensures Valid(g) ==> Valid(r.arena)
  {
    Alloc(g, Op.Div, [a, b], Quot(m, g[a].data, g[b].data))
  }

  /** `DataType / MutableValue`: the scalar is a fresh leaf numerator in slot 0. */
  function ScalarDiv(m: MathLib, g: Arena, c: real, b: Ref): (r: Built)
    requires b < |g|
    ensures Appended(g + [ConstLeaf(c)], r, Node(Quot(m, c, g[b].data), 0.0, Op.Div, [|g|, b]))
    ensures g[b].data != 0.0 ==> r.arena[r.node].data * g[b].data == c
    ensures r.arena[r.node].operands[0] != r.arena[r.node].operands[1]
    ensures Valid(g) ==> Valid(r.arena)
  {
    AllocWithConst(g, c, Op.Div, [|g|, b], Quot(m, c, g[b].data))
  }

  /** `MutableValue / T`: the scalar is a fresh leaf denominator in slot 1. */
  function DivScalar(m: MathLib, g: Arena, a: Ref, c: real): (r: Built)
    requires a < |g|
    ensures Appended(g + [ConstLeaf(c)], r, Node(Quot(m, g[a].data, c), 0.0, Op.Div, [a, |g|]))
    ensures c != 0.0 ==> r.arena[r.node].data * c == g[a].data
    ensures r.arena[r.node].operands[0] != r.arena[r.node].operands[1]
    ensures Valid(g) ==> Valid(r.arena)
  {
    AllocWithConst(g, c, Op.Div, [a, |g|], Quot(m, g[a].data, c))
  }

  // ---- others.rs ----

  /** `MVal::tanh`: one operand, the input itself. */
  function Tanh(m: MathLib, g: Arena, a: Ref): (r: Built)
    requires a < |g|
    ensures Appended(g, r, Node(m.tanh(g[a].data), 0.0, Op.Tanh, [a]))
    ensures Valid(g) ==> Valid(r.arena)
  {
    Alloc(g, Op.Tanh, [a], m.tanh(g[a].data))
  }

  /** `MVal::exp`: one operand, the input itself. */
  function Exp(m: MathLib, g: Arena, a: Ref): (r: Built)
    requires a < |g|
    ensures Appended(g, r, Node(m.exp(g[a].data), 0.0, Op.Exp, [a]))
    ensures Valid(g) ==> Valid(r.arena)
  {
    Alloc(g, Op.Exp, [a], m.exp(g[a].data))
  }

  /** `relu`, which the network layer calls: `max(0, x)` over one operand. */
  function Relu(g: Arena, a: Ref): (r: Built)
    requires a < |g|
    ensures Appended(g, r, Node(Scalar.Relu(g[a].data), 0.0, ReLU, [a]))
    ensures r.arena[r.node].data >= 0.0 && r.arena[r.node].data >= g[a].data
    ensures Valid(g) ==> Valid(r.arena)
  {
    Alloc(g, ReLU, [a], Scalar.Relu(g[a].data))
  }

  /** `MVal::pow(e)`: the exponent is wrapped as a fresh leaf in slot 1. */
  function Pow(m: MathLib, g: Arena, a: Ref, e: real): (r: Built)
    requires a < |g|
    ensures Appended(g + [ConstLeaf(e)], r, Node(m.powf(g[a].data, e), 0.0, Op.Pow, [a, |g|]))
    ensures r.arena[r.node].operands[0] != r.arena[r.node].operands[1]
    ensures Valid(g) ==> Valid(r.arena)
  {
    AllocWithConst(g, e, Op.Pow, [a, |g|], m.powf(g[a].data, e))
  }

  /** Allocating a node whose value is the forward formula of its operands
      keeps every node of the arena holding its forward value. */
  lemma AllocKeepsConsistent(m: MathLib, g: Arena, op: Op, operands: seq<Ref>, v: real)
    requires Valid(g) && Consistent(m, g) && op != Leaf && |operands| == Arity(op)
    requires forall k :: 0 <= k < |operands| ==> operands[k] < |g|
    requires v == Forward(m, op, g[operands[0]].data, if |operands| == 2 then g[operands[1]].data else 0.0)
    ensures Valid(Alloc(g, op, operands, v).arena) && Consistent(m, Alloc(g, op, operands, v).arena)
  {
    var n := Node(v, 0.0, op, operands);
    assert Alloc(g, op, operands, v).arena == g + [n];
    AppendKeepsConsistent(m, g, n);
  }

  /** The same for an operator node over a freshly allocated constant leaf. */
  lemma AllocWithConstKeepsConsistent(m: MathLib, g: Arena, c: real, op: Op, operands: seq<Ref>, v: real)
    requires Valid(g) && Consistent(m, g) && op != Leaf && |operands| == Arity(op)
    requires forall k :: 0 <= k < |operands| ==> operands[k] < |g| + 1
    requires var g1 := g + [ConstLeaf(c)];
      v == Forward(m, op, g1[operands[0]].data, if |operands| == 2 then g1[operands[1]].data else 0.0)
    ensures Consistent(m, AllocWithConst(g, c, op, operands, v).arena)
  {
    var g1 := NewLeaf(g, c).arena;
    assert g1 == g + [ConstLeaf(c)];
    AppendKeepsConsistent(m, g, ConstLeaf(c));
    AllocKeepsConsistent(m, g1, op, operands, v);
  }

  /** A binary node over two existing operands preserves the invariant. */
  lemma BinaryKeepsConsistent(m: MathLib, g: Arena, op: Op, a: Ref, b: Ref)
    requires Valid(g) && Consistent(m, g) && Arity(op) == 2 && a < |g| && b < |g|
    ensures Consistent(m, Alloc(g, op, [a, b], Forward(m, op, g[a].data, g[b].data)).arena)
  {
    AllocKeepsConsistent(m, g, op, [a, b], Forward(m, op, g[a].data, g[b].data));
  }

  /** A binary node whose left operand is a fresh constant preserves the invariant. */
  lemma ConstLeftKeepsConsistent(m: MathLib, g: Arena, op: Op, c: real, b: Ref)
    requires Valid(g) && Consistent(m, g) && Arity(op) == 2 && b < |g|
    ensures Consistent(m, AllocWithConst(g, c, op, [|g|, b], Forward(m, op, c, g[b].data)).arena)
  {
    var g1 := g + [ConstLeaf(c)];
    assert g1[|g|].data == c && g1[b] == g[b];
    AllocWithConstKeepsConsistent(m, g, c, op, [|g|, b], Forward(m, op, c, g[b].data));
  }

  /** A binary node whose right operand is a fresh constant preserves the invariant. */
  lemma ConstRightKeepsConsistent(m: MathLib, g: Arena, op: Op, a: Ref, c: real)
    requires Valid(g) && Consistent(m, g) && Arity(op) == 2 && a < |g|
    ensures Consistent(m, AllocWithConst(g, c, op, [a, |g|], Forward(m, op, g[a].data, c)).arena)
  {
    var g1 := g + [ConstLeaf(c)];
    assert g1[|g|].data == c && g1[a] == g[a];
    AllocWithConstKeepsConsistent(m, g, c, op, [a, |g|], Forward(m, op, g[a].data, c));
  }

  /** The three `+` constructors preserve the eager-forward invariant. */
  lemma AddKeepsConsistent(m: MathLib, g: Arena, a: Ref, b: Ref, c: real)
    requires Valid(g) && Consistent(m, g) && a < |g| && b < |g|
    ensures Consistent(m, Add(g, a, b).arena)
    ensures Consistent(m, ScalarAdd(g, c, b).arena) && Consistent(m, AddScalar(g, a, c).arena)
  {
    BinaryKeepsConsistent(m, g, Plus, a, b);
    ConstLeftKeepsConsistent(m, g, Plus, c, b);
    ConstRightKeepsConsistent(m, g, Plus, a, c);
  }

  /** The three `-` constructors preserve the eager-forward invariant. */
  lemma SubKeepsConsistent(m: MathLib, g: Arena, a: Ref, b: Ref, c: real)
    requires Valid(g) && Consistent(m, g) && a < |g| && b < |g|
    ensures Consistent(m, Sub(g, a, b).arena)
    ensures Consistent(m, ScalarSub(g, c, b).arena) && Consistent(m, SubScalar(g, a, c).arena)
  {
    BinaryKeepsConsistent(m, g, Minus, a, b);
    ConstLeftKeepsConsistent(m, g, Minus, c, b);
    ConstRightKeepsConsistent(m, g, Minus, a, c);
  }

  /** The three `*` constructors preserve the eager-forward invariant. */
  lemma MulKeepsConsistent(m: MathLib, g: Arena, a: Ref, b: Ref, c: real)
    requires Valid(g) && Consistent(m, g) && a < |g| && b < |g|
    ensures Consistent(m, Mul(g, a, b).arena)
    ensures Consistent(m, ScalarMul(g, c, b).arena) && Consistent(m, MulScalar(g, a, c).arena)
  {
    BinaryKeepsConsistent(m, g, Op.Mul, a, b);
    ConstLeftKeepsConsistent(m, g, Op.Mul, c, b);
    ConstRightKeepsConsistent(m, g, Op.Mul, a, c);
  }

  /** The three `/` constructors preserve the eager-forward invariant. */
  lemma DivKeepsConsistent(m: MathLib, g: Arena, a: Ref, b: Ref, c: real)
    requires Valid(g) && Consistent(m, g) && a < |g| && b < |g|
    ensures Consistent(m, Div(m, g, a, b).arena)
    ensures Consistent(m, ScalarDiv(m, g, c, b).arena) && Consistent(m, DivScalar(m, g, a, c).arena)
  {
    BinaryKeepsConsistent(m, g, Op.Div, a, b);
    ConstLeftKeepsConsistent(m, g, Op.Div, c, b);
    ConstRightKeepsConsistent(m, g, Op.Div, a, c);
  }

  /** `tanh`, `exp`, `relu` and `pow` preserve the eager-forward invariant. */
  lemma OthersKeepConsistent(m: MathLib, g: Arena, a: Ref, e: real)
    requires Valid(g) && Consistent(m, g) && a < |g|
    ensures Consistent(m, Tanh(m, g, a).arena) && Consistent(m, Exp(m, g, a).arena)
    ensures Consistent(m, Relu(g, a).arena) && Consistent(m, Pow(m, g, a, e).arena)
  {
    AllocKeepsConsistent(m, g, Op.Tanh, [a], m.tanh(g[a].data));
    AllocKeepsConsistent(m, g, Op.Exp, [a], m.exp(g[a].data));
    AllocKeepsConsistent(m, g, ReLU, [a], Scalar.Relu(g[a].data));
    AllocWithConstKeepsConsistent(m, g, e, Op.Pow, [a, |g|], m.powf(g[a].data, e));
  }
}
