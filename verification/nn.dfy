/** The neural-network layer built on the value engine: a neuron is a list of
    weight leaves, a bias leaf and an activation; a layer is a list of neurons
    fed the same input; a multi-layer perceptron chains layers, each one's
    outputs being the next one's inputs. Random initial values are a stream of
    draws in [-1, 1] supplied by the caller, one group per neuron (its
    weights' draws, then its bias's), consumed in allocation order.

    Forward passes build graph nodes in the arena. Their meaning is given by a
    separate numeric evaluation over `real` (`NeuronEval`, `LayerEval`,
    `MlpEval`) that reads the current values of the parameters. */
module Nn {
  import opened Scalar
  import opened Value
  import Operators

  /** `ActivationType`. */
  datatype Activation = Linear | Tanh | ReLU

  datatype Neuron = Neuron(weights: seq<Ref>, bias: Ref, act: Activation)

  datatype Layer = Layer(neurons: seq<Neuron>)

  datatype Mlp = Mlp(layers: seq<Layer>)

  /** Something built, together with the arena it lives in. */
  datatype Made<T> = Made(arena: Arena, item: T)

  // ---- handles and draws ----

  predicate RefsIn(g: Arena, rs: seq<Ref>)
  {
    forall i :: 0 <= i < |rs| ==> rs[i] < |g|
  }

  predicate NeuronIn(g: Arena, n: Neuron)
  {
    RefsIn(g, n.weights) && n.bias < |g|
  }

  predicate LayerIn(g: Arena, l: Layer)
  {
    forall k :: 0 <= k < |l.neurons| ==> NeuronIn(g, l.neurons[k])
  }

  predicate MlpIn(g: Arena, net: Mlp)
  {
    forall k :: 0 <= k < |net.layers| ==> LayerIn(g, net.layers[k])
  }

  /** Every draw lies in [-1, 1], the range `gen_range(-1.0..=1.0)` samples. */
  predicate UnitDraws(ds: seq<real>)
  {
    forall i :: 0 <= i < |ds| ==> -1.0 <= ds[i] <= 1.0
  }

  /** The values held by a list of nodes. */
  function Data(g: Arena, rs: seq<Ref>): (xs: seq<real>)
    requires RefsIn(g, rs)
    ensures |xs| == |rs| && forall i :: 0 <= i < |rs| ==> xs[i] == g[rs[i]].data
  {
    if rs == [] then [] else [g[rs[0]].data] + Data(g, rs[1..])
  }

  /** Appending nodes keeps every handle valid and every value. */
  lemma DataExtends(g: Arena, g': Arena, rs: seq<Ref>)
    requires Extends(g, g') && RefsIn(g, rs)
    ensures RefsIn(g', rs) && Data(g', rs) == Data(g, rs)
  {
    assert forall i :: 0 <= i < |rs| ==> g'[rs[i]] == g[rs[i]];
  }

  /** One fresh leaf per value, in order (`inp.into_iter().map(MVal::new)`). */
  function Leaves(g: Arena, vs: seq<real>): (r: Made<seq<Ref>>)
    ensures |r.item| == |vs| && |r.arena| == |g| + |vs| && Extends(g, r.arena)
    ensures forall i :: 0 <= i < |vs| ==> r.item[i] == |g| + i && r.arena[|g| + i] == Node(vs[i], 0.0, Leaf, [])
    ensures RefsIn(r.arena, r.item)
    ensures Valid(g) ==> Valid(r.arena)
    decreases |vs|
  {
    if vs == [] then Made(g, [])
    else
      var l := NewLeaf(g, vs[0]);
      var rest := Leaves(l.arena, vs[1..]);
      assert rest.arena[|g|] == l.arena[|g|];
      var hs := [l.node] + rest.item;
      assert forall i :: 1 <= i < |vs| ==> hs[i] == rest.item[i - 1];
      Made(rest.arena, hs)
  }

  /** The leaves hold the given values, in order. */
  lemma LeavesHoldValues(g: Arena, vs: seq<real>)
    ensures var r := Leaves(g, vs); Data(r.arena, r.item) == vs
  {
    var r := Leaves(g, vs);
    var xs := Data(r.arena, r.item);
    forall i | 0 <= i < |vs| ensures xs[i] == vs[i] {
      assert r.arena[r.item[i]] == Node(vs[i], 0.0, Leaf, []);
    }
  }

  // ---- Neuron ----

  /** `Neuron::new(neuron_inp)`: `neuron_inp` weight leaves, then the bias
      leaf, each taking the next draw; the activation is `Tanh`. */
  function NewNeuron(g: Arena, nin: nat, draws: seq<real>): (r: Made<Neuron>)
    requires |draws| == nin + 1
    ensures |r.arena| == |g| + nin + 1 && Extends(g, r.arena)
    ensures |r.item.weights| == nin && r.item.act == Activation.Tanh
    ensures forall i :: 0 <= i < nin ==> r.item.weights[i] == |g| + i && r.arena[|g| + i] == Node(draws[i], 0.0, Leaf, [])
    ensures r.item.bias == |g| + nin && r.arena[|g| + nin] == Node(draws[nin], 0.0, Leaf, [])
    ensures NeuronIn(r.arena, r.item)
    ensures Valid(g) ==> Valid(r.arena)
  {
    var ws := Leaves(g, draws[..nin]);
    var b := NewLeaf(ws.arena, draws[nin]);
    Made(b.arena, Neuron(ws.item, b.node, Activation.Tanh))
  }

  /** Initial parameters come from the draws, so they lie in [-1, 1]. */
  lemma NewNeuronInRange(g: Arena, nin: nat, draws: seq<real>)
    requires |draws| == nin + 1 && UnitDraws(draws)
    ensures var r := NewNeuron(g, nin, draws);
      (forall i :: 0 <= i < nin ==> -1.0 <= r.arena[r.item.weights[i]].data <= 1.0)
      && -1.0 <= r.arena[r.item.bias].data <= 1.0
  {
  }

  /** `Neuron::new_custom`: `Neuron::new`, then the activation overwritten. */
  function NewNeuronCustom(g: Arena, nin: nat, act: Activation, draws: seq<real>): (r: Made<Neuron>)
    requires |draws| == nin + 1
    ensures r.item.act == act
    ensures r.arena == NewNeuron(g, nin, draws).arena
    ensures r.item.weights == NewNeuron(g, nin, draws).item.weights && r.item.bias == NewNeuron(g, nin, draws).item.bias
  {
    var n := NewNeuron(g, nin, draws);
    Made(n.arena, n.item.(act := act))
  }

  /** `Neuron::parameters`: the weights in order, then the bias. */
  function NeuronParameters(n: Neuron): (ps: seq<Ref>)
    ensures |ps| == |n.weights| + 1 && ps[|n.weights|] == n.bias
    ensures forall i :: 0 <= i < |n.weights| ==> ps[i] == n.weights[i]
  {
    n.weights + [n.bias]
  }

  /** The activation applied to a pre-activation value. */
  function Activate(m: MathLib, act: Activation, s: real): real
  {
    match act
    case Linear => s
    case Tanh => m.tanh(s)
    case ReLU => Scalar.Relu(s)
  }

  /** Input `i` as `forward` reads it: the value given, or 0 when the input is short. */
  function InputOr0(xs: seq<real>, i: nat): real
  {
    if i < |xs| then xs[i] else 0.0
  }

  /** One term `w * inp` of the weighted sum, kept whole so that sums of such
      terms compare without unfolding the products. */
  function Weighted(w: real, x: real): real { w * x }

  /** `b + w_0 * x_0 + ... + w_{k-1} * x_{k-1}`, summed left to right. */
  function Affine(g: Arena, n: Neuron, xs: seq<real>, k: nat): real
    requires NeuronIn(g, n) && k <= |n.weights|
  {
    if k == 0 then g[n.bias].data
    else Affine(g, n, xs, k - 1) + Weighted(g[n.weights[k - 1]].data, InputOr0(xs, k - 1))
  }

  /** What the neuron computes on input values `xs`. */
  function NeuronEval(m: MathLib, g: Arena, n: Neuron, xs: seq<real>): real
    requires NeuronIn(g, n)
  {
    Activate(m, n.act, Affine(g, n, xs, |n.weights|))
  }

  lemma {:induction false} AffineExtends(g: Arena, g': Arena, n: Neuron, xs: seq<real>, k: nat)
    requires Extends(g, g') && NeuronIn(g, n) && k <= |n.weights|
    ensures NeuronIn(g', n) && Affine(g', n, xs, k) == Affine(g, n, xs, k)
  {
    assert g'[n.bias] == g[n.bias];
    if k > 0 {
      AffineExtends(g, g', n, xs, k - 1);
      assert g'[n.weights[k - 1]] == g[n.weights[k - 1]];
    }
  }

  /** Only the first `|weights|` inputs matter: extra ones are ignored, missing ones count as 0. */
  lemma {:induction false} AffineReadsPrefix(g: Arena, n: Neuron, xs: seq<real>, ys: seq<real>, k: nat)
    requires NeuronIn(g, n) && k <= |n.weights|
    requires forall i :: 0 <= i < k ==> InputOr0(xs, i) == InputOr0(ys, i)
    ensures Affine(g, n, xs, k) == Affine(g, n, ys, k)
  {
    if k > 0 {
      AffineReadsPrefix(g, n, xs, ys, k - 1);
    }
  }

  /** The node fed to weight `i`: the given input, or a fresh leaf 0 when the
      input is too short (`input.get(i).unwrap_or(MVal::new(0.0))`). */
  function InputNode(g: Arena, input: seq<Ref>, i: nat): (r: Built)
    requires RefsIn(g, input)
    ensures Extends(g, r.arena) && r.node < |r.arena|
    ensures r.arena[r.node].data == InputOr0(Data(g, input), i)
    ensures i < |input| ==> r == Built(g, input[i])
    ensures Valid(g) ==> Valid(r.arena)
  {
    if i < |input| then Built(g, input[i]) else NewLeaf(g, 0.0)
  }

  /** `sum + (w * x)`: the product node, then the sum node. */
  function Accumulate(g: Arena, s: Ref, w: Ref, x: Built): (r: Built)
    requires Extends(g, x.arena) && s < |g| && w < |g| && x.node < |x.arena|
    ensures |r.arena| == |x.arena| + 2 && Extends(x.arena, r.arena) && Extends(g, r.arena) && r.node == |x.arena| + 1
    ensures r.arena[r.node].op == Plus
    ensures r.arena[r.node].data == g[s].data + Weighted(g[w].data, x.arena[x.node].data)
    ensures Valid(x.arena) ==> Valid(r.arena)
  {
    assert x.arena[s] == g[s] && x.arena[w] == g[w];
    var p := Operators.Mul(x.arena, w, x.node);
    Operators.Add(p.arena, s, p.node)
  }

  /** The running sum of `Neuron::forward` after `k` weights. */
  function PartialSum(g: Arena, n: Neuron, input: seq<Ref>, k: nat): (r: Built)
    requires Valid(g) && NeuronIn(g, n) && RefsIn(g, input) && k <= |n.weights|
    ensures Valid(r.arena) && Extends(g, r.arena) && r.node < |r.arena|
    ensures r.arena[r.node].data == Affine(g, n, Data(g, input), k)
    ensures k == 0 ==> r == Built(g, n.bias)
    ensures k > 0 ==> r.node >= |g| && r.arena[r.node].op == Plus
    decreases k
  {
    if k == 0 then Built(g, n.bias)
    else
      var s := PartialSum(g, n, input, k - 1);
      var w := n.weights[k - 1];
      var x := InputNode(s.arena, input, k - 1);
      var r := Accumulate(s.arena, s.node, w, x);
      PartialSumStep(g, n, input, k, s, x, r);
      r
  }

  lemma PartialSumStep(g: Arena, n: Neuron, input: seq<Ref>, k: nat, s: Built, x: Built, r: Built)
    requires NeuronIn(g, n) && RefsIn(g, input) && 0 < k <= |n.weights|
    requires Extends(g, s.arena) && s.node < |s.arena| && s.arena[s.node].data == Affine(g, n, Data(g, input), k - 1)
    requires x.node < |x.arena| && x.arena[x.node].data == InputOr0(Data(s.arena, input), k - 1)
    requires r.node < |r.arena| && r.arena[r.node].data == s.arena[s.node].data + Weighted(s.arena[n.weights[k - 1]].data, x.arena[x.node].data)
    ensures r.arena[r.node].data == Affine(g, n, Data(g, input), k)
  {
    DataExtends(g, s.arena, input);
    assert s.arena[n.weights[k - 1]] == g[n.weights[k - 1]];
  }

  /** `Neuron::forward`: the weighted sum, then the activation node (none for `Linear`). */
  function NeuronForward(m: MathLib, g: Arena, n: Neuron, input: seq<Ref>): (r: Built)
    requires Valid(g) && NeuronIn(g, n) && RefsIn(g, input)
    ensures Valid(r.arena) && Extends(g, r.arena) && r.node < |r.arena|
    ensures r.arena[r.node].data == NeuronEval(m, g, n, Data(g, input))
    // a linear neuron without weights answers with its bias node; any other with a new node
    ensures n.act == Linear && |n.weights| == 0 ==> r == Built(g, n.bias)
    ensures n.act != Linear || |n.weights| > 0 ==> r.node >= |g|
  {
    var s := PartialSum(g, n, input, |n.weights|);
    match n.act
    case Tanh => Operators.Tanh(m, s.arena, s.node)
    case ReLU => Operators.Relu(s.arena, s.node)
    case Linear => s
  }

  /** Inputs beyond the neuron's weights do not change its output. */
  lemma ExtraInputsIgnored(m: MathLib, g: Arena, n: Neuron, input: seq<Ref>)
    requires Valid(g) && NeuronIn(g, n) && RefsIn(g, input) && |n.weights| <= |input|
    ensures RefsIn(g, input[..|n.weights|])
    ensures NeuronForward(m, g, n, input).arena[NeuronForward(m, g, n, input).node].data
         == NeuronForward(m, g, n, input[..|n.weights|]).arena[NeuronForward(m, g, n, input[..|n.weights|]).node].data
  {
    var cut := input[..|n.weights|];
    assert RefsIn(g, cut);
    AffineReadsPrefix(g, n, Data(g, input), Data(g, cut), |n.weights|);
  }

  /** Missing inputs behave exactly like inputs equal to 0. */
  lemma MissingInputsAreZero(m: MathLib, g: Arena, n: Neuron, xs: seq<real>, pad: nat)
    requires NeuronIn(g, n)
    ensures NeuronEval(m, g, n, xs) == NeuronEval(m, g, n, xs + seq(pad, i => 0.0))
  {
    AffineReadsPrefix(g, n, xs, xs + seq(pad, i => 0.0), |n.weights|);
  }

  // ---- Layer ----

  /** The number of parameters of a layer of `nout` neurons over `nin` inputs:
      `nin + 1` per neuron. */
  function LayerParamCount(nin: nat, nout: nat): nat
  {
    if nout == 0 then 0 else (nin + 1) + LayerParamCount(nin, nout - 1)
  }

  lemma {:induction false} LayerParamCountIsProduct(nin: nat, nout: nat)
    ensures LayerParamCount(nin, nout) == nout * (nin + 1)
  {
    if nout > 0 {
      LayerParamCountIsProduct(nin, nout - 1);
    }
  }

  /** One group of `width` draws per neuron. */
  predicate Groups(draws: seq<seq<real>>, width: nat)
  {
    forall k :: 0 <= k < |draws| ==> |draws[k]| == width
  }

  /** Every neuron has `nin` weights and activation `act`. */
  predicate Shaped(ns: seq<Neuron>, nin: nat, act: Activation)
  {
    forall k :: 0 <= k < |ns| ==> |ns[k].weights| == nin && ns[k].act == act
  }

  lemma ShapedCons(n: Neuron, ns: seq<Neuron>, nin: nat, act: Activation)
    requires |n.weights| == nin && n.act == act && Shaped(ns, nin, act)
    ensures Shaped([n] + ns, nin, act)
  {
    forall k | 1 <= k < |ns| + 1 ensures ([n] + ns)[k] == ns[k - 1] {
    }
  }

  /** `Layer::new(neuron_inp, layer_out)`: `layer_out` neurons, each with
      `neuron_inp` weights and `Tanh`, allocated one after the other. */
  function NewLayer(g: Arena, nin: nat, nout: nat, draws: seq<seq<real>>): (r: Made<Layer>)
    requires |draws| == nout && Groups(draws, nin + 1)
    ensures |r.item.neurons| == nout && Extends(g, r.arena) && LayerIn(r.arena, r.item)
    ensures Shaped(r.item.neurons, nin, Activation.Tanh)
    ensures Valid(g) ==> Valid(r.arena)
    decreases nout
  {
    if nout == 0 then Made(g, Layer([]))
    else
      var n := NewNeuron(g, nin, draws[0]);
      var rest := NewLayer(n.arena, nin, nout - 1, draws[1..]);
      NeuronInExtends(n.arena, rest.arena, n.item);
      LayerInCons(rest.arena, n.item, rest.item);
      ShapedCons(n.item, rest.item.neurons, nin, Activation.Tanh);
      Made(rest.arena, Layer([n.item] + rest.item.neurons))
  }

  lemma NeuronInExtends(g: Arena, g': Arena, n: Neuron)
    requires Extends(g, g') && NeuronIn(g, n)
    ensures NeuronIn(g', n)
  {
  }

  lemma LayerInCons(g: Arena, n: Neuron, l: Layer)
    requires NeuronIn(g, n) && LayerIn(g, l)
    ensures LayerIn(g, Layer([n] + l.neurons))
  {
    forall k | 1 <= k < |l.neurons| + 1 ensures ([n] + l.neurons)[k] == l.neurons[k - 1] {
    }
  }

  /** `Layer::new_custom`: every neuron through `Neuron::new_custom`. */
  function NewLayerCustom(g: Arena, nin: nat, nout: nat, act: Activation, draws: seq<seq<real>>): (r: Made<Layer>)
    requires |draws| == nout && Groups(draws, nin + 1)
    ensures |r.item.neurons| == nout && Shaped(r.item.neurons, nin, act)
    decreases nout
  {
    if nout == 0 then Made(g, Layer([]))
    else
      var n := NewNeuronCustom(g, nin, act, draws[0]);
      var rest := NewLayerCustom(n.arena, nin, nout - 1, act, draws[1..]);
      ShapedCons(n.item, rest.item.neurons, nin, act);
      Made(rest.arena, Layer([n.item] + rest.item.neurons))
  }

  /** One step of `Layer::new`: the first neuron, then the rest of the layer. */
  lemma NewLayerStep(g: Arena, nin: nat, nout: nat, draws: seq<seq<real>>)
    requires nout > 0 && |draws| == nout && Groups(draws, nin + 1)
    ensures var n := NewNeuron(g, nin, draws[0]);
      var rest := NewLayer(n.arena, nin, nout - 1, draws[1..]);
      NewLayer(g, nin, nout, draws) == Made(rest.arena, Layer([n.item] + rest.item.neurons))
  {
  }

  lemma NewLayerCustomStep(g: Arena, nin: nat, nout: nat, act: Activation, draws: seq<seq<real>>)
    requires nout > 0 && |draws| == nout && Groups(draws, nin + 1)
    ensures var n := NewNeuron(g, nin, draws[0]);
      var rest := NewLayerCustom(n.arena, nin, nout - 1, act, draws[1..]);
      NewLayerCustom(g, nin, nout, act, draws) == Made(rest.arena, Layer([n.item.(act := act)] + rest.item.neurons))
  {
  }

  /** The neurons `ns` with their activation replaced by `act`. */
  function WithAct(ns: seq<Neuron>, act: Activation): (r: seq<Neuron>)
    ensures |r| == |ns| && forall k :: 0 <= k < |ns| ==> r[k] == ns[k].(act := act)
  {
    if ns == [] then [] else [ns[0].(act := act)] + WithAct(ns[1..], act)
  }

  lemma WithActCons(n: Neuron, ns: seq<Neuron>, act: Activation)
    ensures WithAct([n] + ns, act) == [n.(act := act)] + WithAct(ns, act)
  {
    assert ([n] + ns)[1..] == ns;
  }

  /** The inductive step of `NewLayerCustomIsNewLayer`, on the built values alone. */
  lemma CustomCons(l: Made<Layer>, c: Made<Layer>, n: Neuron, rest: Made<Layer>, restc: Made<Layer>, act: Activation)
    requires l == Made(rest.arena, Layer([n] + rest.item.neurons))
    requires c == Made(restc.arena, Layer([n.(act := act)] + restc.item.neurons))
    requires restc == Made(rest.arena, Layer(WithAct(rest.item.neurons, act)))
    ensures c == Made(l.arena, Layer(WithAct(l.item.neurons, act)))
  {
    WithActCons(n, rest.item.neurons, act);
  }

  /** `new_custom` builds the same arena and neurons as `new`, except that
      every neuron carries the chosen activation. */
  lemma {:induction false} NewLayerCustomIsNewLayer(g: Arena, nin: nat, nout: nat, act: Activation, draws: seq<seq<real>>)
    requires |draws| == nout && Groups(draws, nin + 1)
    ensures var l := NewLayer(g, nin, nout, draws);
      NewLayerCustom(g, nin, nout, act, draws) == Made(l.arena, Layer(WithAct(l.item.neurons, act)))
    decreases nout
  {
    if nout > 0 {
      var d := draws[1..];
      var n := NewNeuron(g, nin, draws[0]);
      var l, c := NewLayer(g, nin, nout, draws), NewLayerCustom(g, nin, nout, act, draws);
      var rest, restc := NewLayer(n.arena, nin, nout - 1, d), NewLayerCustom(n.arena, nin, nout - 1, act, d);
      NewLayerCustomIsNewLayer(n.arena, nin, nout - 1, act, d);
      NewLayerStep(g, nin, nout, draws);
      NewLayerCustomStep(g, nin, nout, act, draws);
      CustomCons(l, c, n.item, rest, restc, act);
    }
  }

  /** What a layer computes: one value per neuron, in neuron order, all on the same input. */
  function LayerEval(m: MathLib, g: Arena, ns: seq<Neuron>, xs: seq<real>): (ys: seq<real>)
    requires forall k :: 0 <= k < |ns| ==> NeuronIn(g, ns[k])
    ensures |ys| == |ns|
  {
    if ns == [] then [] else [NeuronEval(m, g, ns[0], xs)] + LayerEval(m, g, ns[1..], xs)
  }

  lemma {:induction false} LayerEvalExtends(m: MathLib, g: Arena, g': Arena, ns: seq<Neuron>, xs: seq<real>)
    requires Extends(g, g') && forall k :: 0 <= k < |ns| ==> NeuronIn(g, ns[k])
    ensures forall k :: 0 <= k < |ns| ==> NeuronIn(g', ns[k])
    ensures LayerEval(m, g', ns, xs) == LayerEval(m, g, ns, xs)
  {
    forall k | 0 <= k < |ns| ensures NeuronIn(g', ns[k]) {
      AffineExtends(g, g', ns[k], xs, 0);
    }
    if ns != [] {
      AffineExtends(g, g', ns[0], xs, |ns[0].weights|);
      LayerEvalExtends(m, g, g', ns[1..], xs);
    }
  }

  /** `Layer::forward` over the neurons `ns`: each neuron gets the same input,
      and the outputs are collected in neuron order. */
  function NeuronsForward(m: MathLib, g: Arena, ns: seq<Neuron>, input: seq<Ref>): (r: Made<seq<Ref>>)
    requires Valid(g) && RefsIn(g, input) && forall k :: 0 <= k < |ns| ==> NeuronIn(g, ns[k])
    ensures Valid(r.arena) && Extends(g, r.arena) && RefsIn(r.arena, r.item)
    ensures |r.item| == |ns|
    ensures Data(r.arena, r.item) == LayerEval(m, g, ns, Data(g, input))
    decreases |ns|
  {
    if ns == [] then Made(g, [])
    else
      var o := NeuronForward(m, g, ns[0], input);
      DataExtends(g, o.arena, input);
      LayerEvalExtends(m, g, o.arena, ns[1..], Data(g, input));
      var rest := NeuronsForward(m, o.arena, ns[1..], input);
      DataCons(rest.arena, o.node, rest.item);
      Made(rest.arena, [o.node] + rest.item)
  }

  lemma DataCons(g: Arena, h: Ref, rs: seq<Ref>)
    requires h < |g| && RefsIn(g, rs)
    ensures RefsIn(g, [h] + rs) && Data(g, [h] + rs) == [g[h].data] + Data(g, rs)
  {
    assert ([h] + rs)[1..] == rs;
  }

  function LayerForward(m: MathLib, g: Arena, l: Layer, input: seq<Ref>): (r: Made<seq<Ref>>)
    requires Valid(g) && RefsIn(g, input) && LayerIn(g, l)
    ensures Valid(r.arena) && Extends(g, r.arena) && RefsIn(r.arena, r.item)
    ensures |r.item| == |l.neurons|
    ensures Data(r.arena, r.item) == LayerEval(m, g, l.neurons, Data(g, input))
  {
    NeuronsForward(m, g, l.neurons, input)
  }

  /** `Layer::parameters`: the neurons' parameters, concatenated in neuron order. */
  function NeuronsParameters(ns: seq<Neuron>): (ps: seq<Ref>)
  {
    if ns == [] then [] else NeuronParameters(ns[0]) + NeuronsParameters(ns[1..])
  }

  function LayerParameters(l: Layer): seq<Ref>
  {
    NeuronsParameters(l.neurons)
  }

  /** A layer of neurons with `nin` weights each has `(nin + 1)` parameters per neuron. */
  lemma {:induction false} LayerParameterCount(ns: seq<Neuron>, nin: nat)
    requires forall k :: 0 <= k < |ns| ==> |ns[k].weights| == nin
    ensures |NeuronsParameters(ns)| == LayerParamCount(nin, |ns|) == |ns| * (nin + 1)
  {
    LayerParamCountIsProduct(nin, |ns|);
    if ns != [] {
      LayerParameterCount(ns[1..], nin);
    }
  }

  // ---- MLP ----

  /** One list of neuron groups per layer: layer `k` takes `outs[k]` groups of
      `InputsOf(nin, outs, k) + 1` draws. */
  predicate MlpDraws(draws: seq<seq<seq<real>>>, nin: nat, outs: seq<nat>)
  {
    |draws| == |outs|
    && forall k :: 0 <= k < |outs| ==> |draws[k]| == outs[k] && Groups(draws[k], InputsOf(nin, outs, k) + 1)
  }

  lemma MlpDrawsTail(draws: seq<seq<seq<real>>>, nin: nat, outs: seq<nat>)
    requires outs != [] && MlpDraws(draws, nin, outs)
    ensures |draws[0]| == outs[0] && Groups(draws[0], nin + 1) && MlpDraws(draws[1..], outs[0], outs[1..])
  {
    forall k | 0 <= k < |outs| - 1 ensures InputsOf(outs[0], outs[1..], k) == InputsOf(nin, outs, k + 1) {
    }
  }

  function ParamCount(nin: nat, outs: seq<nat>): nat
    decreases |outs|
  {
    if outs == [] then 0 else LayerParamCount(nin, outs[0]) + ParamCount(outs[0], outs[1..])
  }

  /** The number of inputs of each neuron of layer `k`. */
  function InputsOf(nin: nat, outs: seq<nat>, k: nat): nat
    requires k < |outs|
  {
    if k == 0 then nin else outs[k - 1]
  }

  /** Layer `k` has `outs[k]` neurons, each with `InputsOf(nin, outs, k)` weights. */
  predicate Wired(net: Mlp, nin: nat, outs: seq<nat>)
  {
    |net.layers| == |outs|
    && forall k :: 0 <= k < |outs| ==>
      |net.layers[k].neurons| == outs[k]
      && forall j :: 0 <= j < outs[k] ==> |net.layers[k].neurons[j].weights| == InputsOf(nin, outs, k)
  }

  lemma WiredTail(net: Mlp, nin: nat, outs: seq<nat>)
    requires outs != [] && Wired(net, nin, outs)
    ensures Wired(Mlp(net.layers[1..]), outs[0], outs[1..])
  {
    forall k | 0 <= k < |outs| - 1 ensures InputsOf(outs[0], outs[1..], k) == InputsOf(nin, outs, k + 1) {
    }
  }

  /** `MLP::new(neuron_inp, layer_outs)`: one layer per entry of `layer_outs`;
      the first has `neuron_inp` inputs per neuron, every later one as many
      inputs as the layer before it has neurons. */
  function NewMlp(g: Arena, nin: nat, outs: seq<nat>, draws: seq<seq<seq<real>>>): (r: Made<Mlp>)
    requires MlpDraws(draws, nin, outs)
    ensures Wired(r.item, nin, outs) && Extends(g, r.arena) && MlpIn(r.arena, r.item)
    ensures LayersActAre(r.item.layers, Activation.Tanh)
    ensures Valid(g) ==> Valid(r.arena)
    decreases |outs|
  {
    if outs == [] then Made(g, Mlp([]))
    else
      MlpDrawsTail(draws, nin, outs);
      var l := NewLayer(g, nin, outs[0], draws[0]);
      var rest := NewMlp(l.arena, outs[0], outs[1..], draws[1..]);
      LayerInExtends(l.arena, rest.arena, l.item);
      WiredCons(l.item, rest.item, nin, outs);
      MlpCons(rest.arena, l.item, rest.item, Activation.Tanh);
      Made(rest.arena, Mlp([l.item] + rest.item.layers))
  }

  lemma LayerInExtends(g: Arena, g': Arena, l: Layer)
    requires Extends(g, g') && LayerIn(g, l)
    ensures LayerIn(g', l)
  {
    forall k | 0 <= k < |l.neurons| ensures NeuronIn(g', l.neurons[k]) {
      AffineExtends(g, g', l.neurons[k], [], 0);
    }
  }

  /** Every neuron of every layer has activation `act`. */
  predicate LayersActAre(ls: seq<Layer>, act: Activation)
  {
    forall k :: 0 <= k < |ls| ==> forall j :: 0 <= j < |ls[k].neurons| ==> ls[k].neurons[j].act == act
  }

  lemma ActsCons(l: Layer, ls: seq<Layer>, act: Activation)
    requires forall j :: 0 <= j < |l.neurons| ==> l.neurons[j].act == act
    requires LayersActAre(ls, act)
    ensures LayersActAre([l] + ls, act)
  {
    forall k | 1 <= k < |ls| + 1 ensures ([l] + ls)[k] == ls[k - 1] {
    }
  }

  lemma MlpCons(g: Arena, l: Layer, net: Mlp, act: Activation)
    requires LayerIn(g, l) && MlpIn(g, net)
    requires forall j :: 0 <= j < |l.neurons| ==> l.neurons[j].act == act
    requires LayersActAre(net.layers, act)
    ensures MlpIn(g, Mlp([l] + net.layers)) && LayersActAre([l] + net.layers, act)
  {
    ActsCons(l, net.layers, act);
    forall k | 1 <= k < |net.layers| + 1 ensures ([l] + net.layers)[k] == net.layers[k - 1] {
    }
  }

  /** A first layer over `nin` inputs in front of a network wired for its outputs. */
  lemma WiredCons(l: Layer, rest: Mlp, nin: nat, outs: seq<nat>)
    requires outs != [] && |l.neurons| == outs[0]
    requires forall j :: 0 <= j < outs[0] ==> |l.neurons[j].weights| == nin
    requires Wired(rest, outs[0], outs[1..])
    ensures Wired(Mlp([l] + rest.layers), nin, outs)
  {
    var net := Mlp([l] + rest.layers);
    forall k | 1 <= k < |outs|
      ensures net.layers[k] == rest.layers[k - 1] && InputsOf(nin, outs, k) == InputsOf(outs[0], outs[1..], k - 1)
    {
    }
  }

  /** `MLP::new_custom`: `MLP::new` with every layer built by `Layer::new_custom`. */
  function NewMlpCustom(g: Arena, nin: nat, outs: seq<nat>, act: Activation, draws: seq<seq<seq<real>>>): (r: Made<Mlp>)
    requires MlpDraws(draws, nin, outs)
    ensures Wired(r.item, nin, outs)
    ensures LayersActAre(r.item.layers, act)
    decreases |outs|
  {
    if outs == [] then Made(g, Mlp([]))
    else
      MlpDrawsTail(draws, nin, outs);
      var l := NewLayerCustom(g, nin, outs[0], act, draws[0]);
      var rest := NewMlpCustom(l.arena, outs[0], outs[1..], act, draws[1..]);
      WiredCons(l.item, rest.item, nin, outs);
      ActsCons(l.item, rest.item.layers, act);
      Made(rest.arena, Mlp([l.item] + rest.item.layers))
  }

  /** The layers `ls` with every neuron's activation replaced by `act`. */
  function LayersWithAct(ls: seq<Layer>, act: Activation): (r: seq<Layer>)
    ensures |r| == |ls| && forall k :: 0 <= k < |ls| ==> r[k] == Layer(WithAct(ls[k].neurons, act))
  {
    if ls == [] then [] else [Layer(WithAct(ls[0].neurons, act))] + LayersWithAct(ls[1..], act)
  }

  /** One step of `MLP::new` and `MLP::new_custom`: the first layer, then the rest. */
  lemma NewMlpStep(g: Arena, nin: nat, outs: seq<nat>, act: Activation, draws: seq<seq<seq<real>>>)
    requires outs != [] && MlpDraws(draws, nin, outs)
    ensures var l := NewLayer(g, nin, outs[0], draws[0]);
      var rest := NewMlp(l.arena, outs[0], outs[1..], draws[1..]);
      NewMlp(g, nin, outs, draws) == Made(rest.arena, Mlp([l.item] + rest.item.layers))
    ensures var l := NewLayerCustom(g, nin, outs[0], act, draws[0]);
      var rest := NewMlpCustom(l.arena, outs[0], outs[1..], act, draws[1..]);
      NewMlpCustom(g, nin, outs, act, draws) == Made(rest.arena, Mlp([l.item] + rest.item.layers))
  {
  }

  /** `new_custom` builds the same arena and wiring as `new`, except that every
      neuron carries the chosen activation. */
  lemma {:induction false} NewMlpCustomIsNewMlp(g: Arena, nin: nat, outs: seq<nat>, act: Activation, draws: seq<seq<seq<real>>>)
    requires MlpDraws(draws, nin, outs)
    ensures var net := NewMlp(g, nin, outs, draws);
      NewMlpCustom(g, nin, outs, act, draws) == Made(net.arena, Mlp(LayersWithAct(net.item.layers, act)))
    decreases |outs|
  {
    if outs != [] {
      MlpDrawsTail(draws, nin, outs);
      NewLayerCustomIsNewLayer(g, nin, outs[0], act, draws[0]);
      var l := NewLayer(g, nin, outs[0], draws[0]);
      NewMlpCustomIsNewMlp(l.arena, outs[0], outs[1..], act, draws[1..]);
      NewMlpStep(g, nin, outs, act, draws);
      var ls := NewMlp(l.arena, outs[0], outs[1..], draws[1..]).item.layers;
      assert ([l.item] + ls)[1..] == ls;
    }
  }

  /** `MLP::parameters`: every layer's parameters, concatenated in layer order. */
  function LayersParameters(ls: seq<Layer>): seq<Ref>
  {
    if ls == [] then [] else LayerParameters(ls[0]) + LayersParameters(ls[1..])
  }

  function MlpParameters(net: Mlp): seq<Ref>
  {
    LayersParameters(net.layers)
  }

  /** An MLP wired as `MLP::new` wires it has `ParamCount` parameters. */
  lemma {:induction false} MlpParameterCount(net: Mlp, nin: nat, outs: seq<nat>)
    requires Wired(net, nin, outs)
    ensures |MlpParameters(net)| == ParamCount(nin, outs)
    decreases |outs|
  {
    if outs != [] {
      LayerParameterCount(net.layers[0].neurons, nin);
      WiredTail(net, nin, outs);
      MlpParameterCount(Mlp(net.layers[1..]), outs[0], outs[1..]);
    }
  }

  /** What the MLP computes: each layer's values feed the next. */
  function MlpEval(m: MathLib, g: Arena, ls: seq<Layer>, xs: seq<real>): seq<real>
    requires forall k :: 0 <= k < |ls| ==> LayerIn(g, ls[k])
  {
    if ls == [] then xs
    else
      assert LayerIn(g, ls[0]);
      MlpEval(m, g, ls[1..], LayerEval(m, g, ls[0].neurons, xs))
  }

  lemma {:induction false} MlpEvalExtends(m: MathLib, g: Arena, g': Arena, ls: seq<Layer>, xs: seq<real>)
    requires Extends(g, g') && forall k :: 0 <= k < |ls| ==> LayerIn(g, ls[k])
    ensures forall k :: 0 <= k < |ls| ==> LayerIn(g', ls[k])
    ensures MlpEval(m, g', ls, xs) == MlpEval(m, g, ls, xs)
    decreases |ls|
  {
    forall k | 0 <= k < |ls| ensures LayerIn(g', ls[k]) {
      LayerEvalExtends(m, g, g', ls[k].neurons, xs);
    }
    if ls != [] {
      LayerEvalExtends(m, g, g', ls[0].neurons, xs);
      MlpEvalExtends(m, g, g', ls[1..], LayerEval(m, g, ls[0].neurons, xs));
    }
  }

  /** The loop of `MLP::forward` over the layers `ls`. */
  function LayersForward(m: MathLib, g: Arena, ls: seq<Layer>, input: seq<Ref>): (r: Made<seq<Ref>>)
    requires Valid(g) && RefsIn(g, input) && forall k :: 0 <= k < |ls| ==> LayerIn(g, ls[k])
    ensures Valid(r.arena) && Extends(g, r.arena) && RefsIn(r.arena, r.item)
    ensures |r.item| == if ls == [] then |input| else |ls[|ls| - 1].neurons|
    ensures Data(r.arena, r.item) == MlpEval(m, g, ls, Data(g, input))
    decreases |ls|
  {
    if ls == [] then Made(g, input)
    else
      var o := LayerForward(m, g, ls[0], input);
      var tail := ls[1..];
      MlpEvalExtends(m, g, o.arena, tail, LayerEval(m, g, ls[0].neurons, Data(g, input)));
      assert tail != [] ==> tail[|tail| - 1] == ls[|ls| - 1];
      LayersForward(m, o.arena, tail, o.item)
  }

  /** `MLP::forward(inp)`: the raw inputs become fresh leaves, then every layer
      runs on the previous one's outputs. */
  function MlpForward(m: MathLib, g: Arena, net: Mlp, inp: seq<real>): (r: Made<seq<Ref>>)
    requires Valid(g) && MlpIn(g, net)
    ensures Valid(r.arena) && Extends(g, r.arena) && RefsIn(r.arena, r.item)
    ensures |r.item| == if net.layers == [] then |inp| else |net.layers[|net.layers| - 1].neurons|
    ensures Data(r.arena, r.item) == MlpEval(m, g, net.layers, inp)
  {
    var leaves := Leaves(g, inp);
    LeavesHoldValues(g, inp);
    MlpEvalExtends(m, g, leaves.arena, net.layers, inp);
    LayersForward(m, leaves.arena, net.layers, leaves.item)
  }
}
