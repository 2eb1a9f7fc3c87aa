/** The node record of the autodiff engine, stored in an arena.

    A handle to a node (the source's reference-counted `MVal`) is its index in
    the arena, so two handles are the same node exactly when the indices are
    equal: equality is by identity, never by the value a node holds. Every
    constructor appends, so a node's operands always sit at smaller indices
    (`Valid`): the graph is acyclic by construction. */
module Value {
  import opened Scalar

  /** A handle: the index of a node in the arena. */
  type Ref = nat

  /** The operator that produced a node. `Leaf` is the source's `Operator::None`. */
  datatype Op = Leaf | Plus | Minus | Mul | Div | Tanh | ReLU | Exp | Pow

  /** The number of operands a node built with `op` records. */
  function Arity(op: Op): nat
  {
    match op
    case Leaf => 0
    case Tanh | ReLU | Exp => 1
    case Plus | Minus | Mul | Div | Pow => 2
  }

  datatype Node = Node(data: real, grad: real, op: Op, operands: seq<Ref>)

  type Arena = seq<Node>

  /** A node constructed from handles and its result. */
  datatype Built = Built(arena: Arena, node: Ref)

  /** Every operand of a node was allocated before it. */
  predicate Valid(g: Arena)
  {
    forall i, k :: 0 <= i < |g| && 0 <= k < |g[i].operands| ==> g[i].operands[k] < i
  }

  /** `g'` only appended nodes to `g`: no existing node changed. */
  predicate Extends(g: Arena, g': Arena)
  {
    |g| <= |g'| && forall j :: 0 <= j < |g| ==> g'[j] == g[j]
  }

  /** Same nodes with the same operators and operands; data and grad may differ. */
  predicate SameShape(g: Arena, g': Arena)
  {
    |g| == |g'| && forall j :: 0 <= j < |g| ==> g'[j].op == g[j].op && g'[j].operands == g[j].operands
  }

  /** `g'` differs from `g` in grad fields at most. */
  predicate OnlyGradsChanged(g: Arena, g': Arena)
  {
    SameShape(g, g') && forall j :: 0 <= j < |g| ==> g'[j].data == g[j].data
  }

  lemma SameShapeKeepsValid(g: Arena, g': Arena)
    requires Valid(g) && SameShape(g, g')
    ensures Valid(g')
  {
    forall i, k | 0 <= i < |g'| && 0 <= k < |g'[i].operands|
      ensures g'[i].operands[k] < i
    {
      assert g'[i].operands == g[i].operands;
    }
  }

  lemma OnlyGradsChangedTrans(a: Arena, b: Arena, c: Arena)
    requires OnlyGradsChanged(a, b) && OnlyGradsChanged(b, c)
    ensures OnlyGradsChanged(a, c)
  {
  }

  /** `MVal::new` / `new_lab` / `default`: a fresh leaf with grad 0 and no operands. */
  function NewLeaf(g: Arena, v: real): (r: Built)
    ensures r.node == |g| && |r.arena| == |g| + 1 && Extends(g, r.arena)
    ensures r.arena[r.node].data == v && r.arena[r.node].grad == 0.0
    ensures r.arena[r.node].op == Leaf && r.arena[r.node].operands == []
    ensures Valid(g) ==> Valid(r.arena)
  {
    Built(g + [Node(v, 0.0, Leaf, [])], |g|)
  }

  /** `MVal::get`. */
  function Get(g: Arena, h: Ref): real
    requires h < |g|
  {
    g[h].data
  }

  /** `MVal::grad`. */
  function GetGrad(g: Arena, h: Ref): real
    requires h < |g|
  {
    g[h].grad
  }

  /** `MVal::set(val)`: overwrite the data of `h` in place with the data of `src`. */
  function Set(g: Arena, h: Ref, src: Ref): (r: Arena)
    requires h < |g| && src < |g|
    ensures SameShape(g, r)
    ensures Get(r, h) == Get(g, src) && GetGrad(r, h) == GetGrad(g, h)
    ensures forall j :: 0 <= j < |g| && j != h ==> r[j] == g[j]
  {
    g[h := g[h].(data := g[src].data)]
  }

  /** `MVal::set_grad(val)`: overwrite the grad of `h` in place with the grad of `src`. */
  function SetGrad(g: Arena, h: Ref, src: Ref): (r: Arena)
    requires h < |g| && src < |g|
    ensures OnlyGradsChanged(g, r)
    ensures GetGrad(r, h) == GetGrad(g, src)
    ensures forall j :: 0 <= j < |g| && j != h ==> r[j] == g[j]
  {
    g[h := g[h].(grad := g[src].grad)]
  }

  /** Overwriting a value keeps the handle: reading it back gives the new value,
      the gradient is untouched, and a second overwrite wins. */
  lemma SetThenGet(g: Arena, h: Ref, a: Ref, b: Ref)
    requires h < |g| && a < |g| && b < |g| && b != h
    ensures Get(Set(g, h, a), h) == Get(g, a)
    ensures Set(Set(g, h, a), h, b) == Set(g, h, b)
    ensures GetGrad(Set(Set(g, h, a), h, b), h) == GetGrad(g, h)
  {
  }

  /** The forward formula of each operator, from the data of its operands. */
  function Forward(m: MathLib, op: Op, x: real, y: real): real
  {
    match op
    case Leaf => x
    case Plus => x + y
    case Minus => x - y
    case Mul => x * y
    case Div => Quot(m, x, y)
    case Tanh => m.tanh(x)
    case ReLU => Relu(x)
    case Exp => m.exp(x)
    case Pow => m.powf(x, y)
  }

  /** The data of operand `k` of node `i`, or 0 when there is no such operand. */
  function Arg(g: Arena, i: Ref, k: nat): real
    requires Valid(g) && i < |g|
  {
    if k < |g[i].operands| then g[g[i].operands[k]].data else 0.0
  }

  /** Every operator node has the arity of its tag and holds the forward
      value of its operands' current data. */
  predicate Consistent(m: MathLib, g: Arena)
    requires Valid(g)
  {
    forall i :: 0 <= i < |g| && g[i].op != Leaf ==>
      |g[i].operands| == Arity(g[i].op) && g[i].data == Forward(m, g[i].op, Arg(g, i, 0), Arg(g, i, 1))
  }

  /** Recomputes the value of `h` from the leaves. */
  function Eval(m: MathLib, g: Arena, h: Ref): real
    requires Valid(g) && h < |g|
    decreases h
  {
    var n := g[h];
    if n.op == Leaf || |n.operands| != Arity(n.op) then n.data
    else
      var y := if |n.operands| == 2 then Eval(m, g, n.operands[1]) else 0.0;
      Forward(m, n.op, Eval(m, g, n.operands[0]), y)
  }

  /** The forward pass is eager: in a consistent arena every node already
      holds the value of its whole expression tree. */
  lemma {:induction false} EagerForward(m: MathLib, g: Arena, h: Ref)
    requires Valid(g) && Consistent(m, g) && h < |g|
    ensures g[h].data == Eval(m, g, h)
    decreases h
  {
    var n := g[h];
    if n.op != Leaf {
      assert |n.operands| == Arity(n.op);
      EagerForward(m, g, n.operands[0]);
      if |n.operands| == 2 {
        EagerForward(m, g, n.operands[1]);
      }
    }
  }

  /** Appending a node that holds the forward value of its operands keeps the
      arena consistent: no existing node reads the new one. */
  lemma AppendKeepsConsistent(m: MathLib, g: Arena, n: Node)
    requires Valid(g) && Valid(g + [n]) && Consistent(m, g)
    requires n.op != Leaf ==>
      |n.operands| == Arity(n.op) && n.data == Forward(m, n.op, Arg(g + [n], |g|, 0), Arg(g + [n], |g|, 1))
    ensures Consistent(m, g + [n])
  {
    var g' := g + [n];
    forall i | 0 <= i < |g'| && g'[i].op != Leaf
      ensures |g'[i].operands| == Arity(g'[i].op)
      ensures g'[i].data == Forward(m, g'[i].op, Arg(g', i, 0), Arg(g', i, 1))
    {
      if i < |g| {
        assert g'[i] == g[i];
        assert Arg(g', i, 0) == Arg(g, i, 0);
        assert Arg(g', i, 1) == Arg(g, i, 1);
      }
    }
  }
}
