# micrograd in Dafny

A model of the Rust `micrograd` crate, a scalar reverse-mode automatic
differentiation engine in the style of Karpathy's micrograd, and of the
character-bigram demos built on it. The model covers three parts of the
repository:

- **The value engine** (`micrograd/src/value/`). An `MVal` is a handle to a
  shared, mutable `Value` node. A node records its data, its gradient, the
  operator that produced it and its operands. The `+ - * /` operators,
  `tanh`, `exp` and `pow` compute the forward value eagerly and allocate a new
  node. `backward` collects the graph in post-order, reverses it, seeds the
  root with gradient 1 and runs `comput_gradient` on every node. `zero_grad`
  clears the gradients of everything reachable.
- **The network layer** (`micrograd/src/nn/mod.rs`). It covers `Neuron`,
  `Layer` and `MLP`: construction, `forward` and `parameters`.
- **The bigram demos** (`micrograd_demos/src/make_more/` and
  `micrograd_demos/src/bigram/`). They cover `char_to_index` and
  `index_to_char`, the reading of names from text, and the 27 x 27 count
  table.

## How the model is built

- **Arena.** Nodes live in an arena `seq<Node>`, and a handle is an index
  into it (`Value.Ref`). Handle identity, which the source implements by
  comparing `Rc` pointers (`value/mod.rs:370-385`), is index equality.
  Constructors only append. So every operand index is smaller than the index
  of its node (`Value.Valid`), and that order drives every induction.
- **Floating point.** `f64` is modelled as `real`. The floating-point library
  calls (`tanh`, `exp`, `powf`) and the IEEE value of `x / 0` are a
  caller-supplied `Scalar.MathLib` record.
- **Operations.** Every operation is a pure function from an arena to a new
  arena.
- **`comput_gradient`.** Its aliasing test is `try_borrow_mut`, which fails
  exactly when both operand slots hold the same node. The model states it as
  the comparison `operands[0] == operands[1]`. Its per-operator rules are
  proved equal to the sum rule: each node receives `out.grad` times the sum
  of the slopes of the slots that hold it.
- **`backward`.** Its main theorem, `Backprop.BackwardAdjoint`, is the adjoint
  equation. The root ends with gradient 1, and every other node gains the
  chain-rule inflow from all of its reachable consumers, read in the final
  arena.
- **Random initial weights.** The random draws of `Neuron::new` are a
  parameter: one group of `nin + 1` reals per neuron.

## Where the model fills in or follows the code

- **Wrong operand counts.** In `comput_gradient`, every rule is guarded by
  an operand-count test, and a node that fails the test is silently skipped
  (`value/mod.rs:179`, `202`, `214`, `226`, `239`, `247`, `255`, `263`).
  Nothing fails. `Gradient.ComputeGradient` and `Gradient.SlotSum` skip such
  a node in the same way.
- **ReLU.** `Neuron::forward` calls `sum.relu()` (`nn/mod.rs:129`), and the
  comment at `nn/mod.rs:35` offers ReLU as an activation. But the crate
  defines no `relu` constructor, only the gradient rule
  (`value/mod.rs:246-253`). The comment at `value/mod.rs:250` gives the
  forward value as `y = max(0,x)`, and `Operators.Relu` builds that node.
- **The `visited` field.** `add.rs` (for example line 21) and `others.rs`
  (lines 13, 25, 39, 48) initialise a `visited: false` field. The `Value`
  struct in `value/mod.rs:98-105` does not declare it, and `mul.rs` does not
  set it. The traversals use a visited set scoped to the call, as
  `value/mod.rs` does, so the model has no such field.
- **`sub.rs` and `div.rs`.** These two operator files are written against a
  `MutableValue` handle (`sub.rs:3`, `8-21`; `div.rs:3`, `8-21`), which
  `value/mod.rs` does not declare: it declares `MVal` (`value/mod.rs:115`).
  They also build `Value` without the `label` field that
  `value/mod.rs:98-105` declares. The model reads them as `MVal` operators
  built like those of `add.rs` and `mul.rs`. `Operators.Sub`,
  `Operators.ScalarSub`, `Operators.SubScalar`, `Operators.Div`,
  `Operators.ScalarDiv` and `Operators.DivScalar` allocate the same node
  shape, with the same data, operands and operator, that the two files give.
- **The two bigram demos.** `make_more/utils.rs` and `bigram/mod.rs:40-53`
  carry identical copies of `char_to_index`/`index_to_char`, and both demos
  count with the same loops. One model serves both.
- **No closing bigram.** The loops count the bigram from '.' to the first
  character of a name and each bigram inside the name. They never count the
  one from the last character back to '.'. `Bigram.CountNameTotal` states
  this.

## Model

| member | source | states |
|---|---|---|
| `Scalar.Quot` | micrograd/src/value/div.rs:11-21 | for a non-zero divisor the quotient times the divisor gives back the numerator; for a zero divisor it is the library's IEEE result |
| `Scalar.Relu` | micrograd/src/value/mod.rs:246-253 | the forward value of a ReLU node is non-negative, at least its input, and equal to the input or 0 |
| `Value.NewLeaf` | micrograd/src/value/mod.rs:117-126 | a new leaf gets a handle distinct from every existing one, holds the given value with gradient 0 and no operands, and no existing node changes |
| `Value.Set` | micrograd/src/value/mod.rs:139-142 | overwriting data keeps the handle and the structure; the node reads back the source's value, its gradient is kept, and every other node is untouched |
| `Value.SetGrad` | micrograd/src/value/mod.rs:131-134 | overwriting a gradient changes that gradient only, to the source's gradient |
| `Value.SetThenGet` | micrograd/src/value/mod.rs:136-142 | get after set returns the value set, also when a node is set from itself; of two sets from other nodes the second wins; sets never touch the gradient |
| `Value.EagerForward` | micrograd/src/value/mod.rs:107-115 | in an arena whose operator nodes hold their forward values, every node's data equals the value of its whole expression tree evaluated from the leaves |
| `Operators.Add` | micrograd/src/value/add.rs:11-23 | `a + b` appends exactly one `Plus` node over `[a, b]` in argument order, with data `a + b` and gradient 0; existing nodes are untouched |
| `Operators.ScalarAdd` | micrograd/src/value/add.rs:31-52 | `c + b` first appends a leaf for the constant `c`, then the `Plus` node with that leaf in slot 0; the two slots are different nodes |
| `Operators.AddScalar` | micrograd/src/value/add.rs:62-84 | `a + c` appends the constant leaf, then the node with it in slot 1 |
| `Operators.Sub` | micrograd/src/value/sub.rs:11-21 | `a - b` appends one `Minus` node over `[a, b]` with data `a - b` |
| `Operators.ScalarSub` | micrograd/src/value/sub.rs:28-45 | `c - b`: constant leaf in slot 0, then the `Minus` node; slots distinct |
| `Operators.SubScalar` | micrograd/src/value/sub.rs:55-73 | `a - c`: constant leaf in slot 1; slots distinct |
| `Operators.Mul` | micrograd/src/value/mul.rs:11-22 | `a * b` appends one `Mul` node over `[a, b]` with data `a * b` |
| `Operators.ScalarMul` | micrograd/src/value/mul.rs:29-48 | `c * b`: constant leaf in slot 0; slots distinct |
| `Operators.MulScalar` | micrograd/src/value/mul.rs:58-77 | `a * c`: constant leaf in slot 1; slots distinct |
| `Operators.Div` | micrograd/src/value/div.rs:11-21 | `a / b` appends one `Div` node; with a non-zero divisor its data times `b` is `a`; a zero divisor raises no error |
| `Operators.ScalarDiv` | micrograd/src/value/div.rs:28-45 | `c / b`: constant numerator leaf in slot 0; exact quotient for a non-zero divisor |
| `Operators.DivScalar` | micrograd/src/value/div.rs:55-73 | `a / c`: constant divisor leaf in slot 1; exact quotient for `c != 0` |
| `Operators.Tanh` | micrograd/src/value/others.rs:5-15 | appends one `Tanh` node whose only operand is the input |
| `Operators.Exp` | micrograd/src/value/others.rs:17-27 | appends one `Exp` node whose only operand is the input |
| `Operators.Relu` | micrograd/src/nn/mod.rs:127-131 | appends one `ReLU` node over the input whose value is non-negative and at least the input |
| `Operators.Pow` | micrograd/src/value/others.rs:29-50 | appends a leaf for the exponent, then the `Pow` node over `[base, exponent leaf]`; the slots are distinct |
| `Operators.AddKeepsConsistent` | micrograd/src/value/add.rs:11-84 | each of the three `+` forms keeps every node of the arena holding its forward value (the invariant behind `EagerForward`) |
| `Operators.SubKeepsConsistent` | micrograd/src/value/sub.rs:11-73 | the same for the three `-` forms |
| `Operators.MulKeepsConsistent` | micrograd/src/value/mul.rs:11-77 | the same for the three `*` forms |
| `Operators.DivKeepsConsistent` | micrograd/src/value/div.rs:11-73 | the same for the three `/` forms, a zero divisor included |
| `Operators.OthersKeepConsistent` | micrograd/src/value/others.rs:5-50 | the same for `tanh`, `exp`, `relu` and `pow` |
| `Gradient.ComputeGradient` | micrograd/src/value/mod.rs:171-273 | the local rule changes gradients only, and only those of the node's own operands |
| `Gradient.SumRulePlus` | micrograd/src/value/mod.rs:178-200 | after the `+` rule, each node gains `out.grad` times the number of slots holding it (so `a + a` gives 2) |
| `Gradient.SumRuleMinus` | micrograd/src/value/mod.rs:201-212 | after the `-` rule, each node gains `out.grad` times its summed slot slopes `+1`/`-1` (so `a - a` gives nothing) |
| `Gradient.SumRuleMul` | micrograd/src/value/mod.rs:213-224 | after the `*` rule, each slot passes the other slot's data; `a * a` gives `2a` |
| `Gradient.SumRuleDivDistinct` | micrograd/src/value/mod.rs:225-237 | with distinct numerator and non-zero divisor: numerator gains `out.grad / y`, divisor gains `-out.grad * x / y^2` |
| `Gradient.SumRuleDivSelf` | micrograd/src/value/mod.rs:225-237 | for `a / a` the two slopes cancel, which is exactly why the source adds nothing |
| `Gradient.SumRuleUnary` | micrograd/src/value/mod.rs:238-271 | `tanh`, `relu`, `exp` and `pow` feed their first operand only, with slopes `1 - y^2`, `y > 0 ? 1 : 0`, `y`, `n * x^(n-1)`; the exponent leaf and leaves get nothing |
| `Gradient.SumRuleAt` | micrograd/src/value/mod.rs:171-273 | whatever the operator and aliasing, the rule adds exactly `out.grad` times the sum of slopes of the slots holding each node |
| `Gradient.LocalRuleIsSumRule` | micrograd/src/value/mod.rs:171-273 | the sum rule for all nodes of the arena at once |
| `Gradient.SelfUseIsSumOfSlopes` | micrograd/src/value/mod.rs:186-236 | the dedicated aliased formulas (`2`, `0`, `2x`, `0`) equal the sum of the two slot slopes |
| `Gradient.SlopesMatchForwardArith` | micrograd/src/value/mod.rs:187-221 | the slopes of `+`, `-`, `*` are the derivatives of their forward formulas: the exact finite difference in each slot is `t` times the slope (for `*` in both slots, plus `t^2`) |
| `Gradient.SlopesMatchForwardDiv` | micrograd/src/value/mod.rs:229-231 | the numerator slope of `/` is the derivative `1 / y` of the forward formula |
| `Gradient.SlopesMatchForwardDivisor` | micrograd/src/value/mod.rs:229-233 | the divisor slope `-x / y^2` times `t`, scaled by `y / (y + t)`, is the exact finite difference |
| `Traversal.Collect` | micrograd/src/value/mod.rs:333-347 | from a settled visited set: lists every unvisited reachable node exactly once, each after its operands, the root last; the visited set grows by exactly the reachable set; a visited root gives nothing |
| `Traversal.CollectFrom` | micrograd/src/value/mod.rs:340-343 | the loop over the operands lists the unvisited nodes reachable from them, once each, and each after its own operands |
| `Traversal.CollectOperands` | micrograd/src/value/mod.rs:319-322 | the walk lists exactly the nodes reachable from the root, without repetition, in topological order, root last |
| `Traversal.ZeroInner` | micrograd/src/value/mod.rs:356-367 | clears the root's gradient even when visited, clears every newly visited reachable node, changes nothing outside the reachable set and no data |
| `Traversal.ZeroFrom` | micrograd/src/value/mod.rs:363-365 | the loop over the operands clears what it newly visits and leaves the rest |
| `Traversal.ZeroGrad` | micrograd/src/value/mod.rs:349-354 | every node reachable from the root ends with gradient 0; every other node and every value is unchanged |
| `Backprop.Reverse` | micrograd/src/value/mod.rs:301-302 | the walk read back to front |
| `Backprop.ReverseTopological` | micrograd/src/value/mod.rs:301-302 | reversing a repetition-free topological order puts every consumer before its operands |
| `Backprop.Schedule` | micrograd/src/value/mod.rs:301-302 | the reversed walk holds exactly the reachable nodes, once each, root first, consumers first |
| `Backprop.Seed` | micrograd/src/value/mod.rs:305-307 | the root's gradient is set to 1, not accumulated; nothing else changes |
| `Backprop.Propagate` | micrograd/src/value/mod.rs:309-316 | the loop changes gradients only, and only of nodes some listed node consumes |
| `Backprop.PropagateAdjoint` | micrograd/src/value/mod.rs:305-316 | with consumers first, every node's final gradient is its start gradient plus the chain-rule inflow from all listed consumers, read in the final arena |
| `Backprop.InflowPermutation` | micrograd/src/value/mod.rs:311-316 | the inflow is a sum: any reordering of the consumers sends the same total |
| `Backprop.Backward` | micrograd/src/value/mod.rs:300-317 | `backward` changes gradients only |
| `Backprop.BackwardAdjoint` | micrograd/src/value/mod.rs:300-317 | the root ends at 1 and every node gains its full reverse-mode inflow from its reachable consumers; gradients accumulate on top of what they held |
| `Backprop.BackwardFrame` | micrograd/src/value/mod.rs:300-317 | `backward` sets the root's gradient to 1 and leaves unreachable nodes untouched |
| `Backprop.ZeroGradIdempotent` | micrograd/src/value/mod.rs:349-367 | two `zero_grad` calls do what one does |
| `Backprop.ZeroGradClearsReachable` | micrograd/src/value/mod.rs:349-367 | after `zero_grad`, any gradient change confined to the reachable nodes is undone by the next `zero_grad` |
| `Backprop.ZeroGradUndoesBackward` | micrograd/src/value/mod.rs:300-367 | `zero_grad` after `backward` from a zeroed graph restores the zeroed graph, so each training pass starts from the same state |
| `Scenarios.BackwardBy` | micrograd/src/value/mod.rs:300-317 | `backward` satisfies the adjoint equation read through any listing of the reachable nodes |
| `Scenarios.SumBuilt` | micrograd/src/value/add.rs:11-23 | two leaves and `a + b` build the three-node graph with data `a + b` |
| `Scenarios.SumAdjoint` | micrograd/src/value/mod.rs:178-189 | any arena meeting the adjoint equation of `c = a + b` gives each input one more unit of gradient |
| `Scenarios.SumBackward` | micrograd/src/value/mod.rs:178-189 | `c = a + b; c.backward()` adds 1 to each input's gradient and sets `c`'s to 1, also when `a` and `b` hold equal values |
| `Scenarios.SelfBuilt` | micrograd/src/value/mul.rs:11-22 | `a + a`, `a - a`, `a * a`, `a / a` build one node whose two slots both hold `a` |
| `Scenarios.SelfAdjoint` | micrograd/src/value/mod.rs:186-236 | for a leaf used in both slots the adjoint equation gives it the sum of both slot slopes |
| `Scenarios.SelfAddAdjoint` | micrograd/src/value/mod.rs:190-197 | `a + a` gives `a` gradient 2 |
| `Scenarios.SelfMulAdjoint` | micrograd/src/value/mod.rs:219-221 | `a * a` gives `a` gradient `2a` |
| `Scenarios.SelfSubAdjoint` | micrograd/src/value/mod.rs:209-210 | `a - a` gives `a` gradient 0 |
| `Scenarios.SelfDivAdjoint` | micrograd/src/value/mod.rs:234-235 | `a / a` gives `a` gradient 0 |
| `Scenarios.SelfAddBackward` | demos/src/micro_grad.rs:55-60 | the demo's `b = a.clone() + a; b.backward()` leaves `a` with gradient 2, not 1 |
| `Scenarios.SelfSubBackward` | micrograd/src/value/mod.rs:204-210 | `c = a - a; c.backward()` leaves `a` with gradient 0 |
| `Scenarios.SelfDivBackward` | micrograd/src/value/mod.rs:230-235 | `c = a / a; c.backward()` leaves `a` with gradient 0 |
| `Scenarios.DiamondBuilt` | micrograd/src/value/add.rs:11-23 | `d = a + b; e = a * b; f = d + e` builds a five-node graph with two paths from each input |
| `Scenarios.DiamondAdjoint` | micrograd/src/value/mod.rs:178-224 | the adjoint equation gives `a` gradient `1 + b` and `b` gradient `1 + a` |
| `Scenarios.DiamondBackward` | micrograd/src/value/mod.rs:300-317 | `f.backward()` adds up both paths: `a` gets `1 + b`, `b` gets `1 + a` |
| `Scenarios.ProductBuilt` | demos/src/micro_grad.rs:62-69 | the demo's `d = a * b; e = a + b; f = d * e` builds a five-node graph sharing both inputs |
| `Scenarios.ProductAdjoint` | demos/src/micro_grad.rs:62-71 | `f.backward()` gives `a` gradient `(a + b) * b + a * b` and `b` gradient `(a + b) * a + a * b` (-3 and -8 at the demo's values) |
| `Scenarios.TanhBuilt` | micrograd/src/value/others.rs:5-15 | `x.tanh()` builds a `Tanh` node over the leaf `x` |
| `Scenarios.TanhAdjoint` | micrograd/src/value/mod.rs:238-245 | `y = x.tanh(); y.backward()` gives `x` gradient `1 - y^2` |
| `Scenarios.ForwardAtTwoThree` | micrograd/src/value/div.rs:11-21 | at `a = 2, b = 3`: `a + b = 5`, `a * b = 6`, `a - b = -1`, and `(a / b) * 3 = 2` |
| `Nn.Leaves` | micrograd/src/nn/mod.rs:238 | one fresh zero-gradient leaf per input value, appended in order, nothing existing changed |
| `Nn.LeavesHoldValues` | micrograd/src/nn/mod.rs:238 | the leaves hold the input values, in order |
| `Nn.NewNeuron` | micrograd/src/nn/mod.rs:94-106 | `nin` weight leaves then the bias leaf, fresh and in draw order, with activation `Tanh` |
| `Nn.NewNeuronInRange` | micrograd/src/nn/mod.rs:96-103 | with draws in `[-1, 1]`, every initial weight and the bias lie in `[-1, 1]` |
| `Nn.NewNeuronCustom` | micrograd/src/nn/mod.rs:109-113 | the same arena, weights and bias as `Neuron::new`, with the chosen activation |
| `Nn.NeuronParameters` | micrograd/src/nn/mod.rs:135-139 | the weights in order, then the bias |
| `Nn.InputNode` | micrograd/src/nn/mod.rs:122 | the input at the position when there is one, else a fresh node holding 0 |
| `Nn.Accumulate` | micrograd/src/nn/mod.rs:123 | `sum + w * x` appends the product and the sum node, whose value is the old sum plus `w * x` |
| `Nn.PartialSum` | micrograd/src/nn/mod.rs:118-125 | after `k` weights the running node holds `b + w_0 x_0 + ... + w_{k-1} x_{k-1}`, missing inputs counting as 0 |
| `Nn.NeuronForward` | micrograd/src/nn/mod.rs:118-132 | the output node holds the activation of the affine sum of the input values; `Linear` adds no node |
| `Nn.ExtraInputsIgnored` | micrograd/src/nn/mod.rs:118-125 | inputs beyond the number of weights do not change the output value |
| `Nn.MissingInputsAreZero` | micrograd/src/nn/mod.rs:122 | a short input behaves exactly like one padded with zeros |
| `Nn.NewLayer` | micrograd/src/nn/mod.rs:150-156 | `layer_out` neurons with `neuron_inp` weights each, all `Tanh`, built in the arena |
| `Nn.NewLayerCustom` | micrograd/src/nn/mod.rs:159-169 | `layer_out` neurons with `neuron_inp` weights each and the chosen activation |
| `Nn.NewLayerCustomIsNewLayer` | micrograd/src/nn/mod.rs:159-169 | `Layer::new_custom` builds the same arena and neurons as `Layer::new`, except for the activation |
| `Nn.NeuronsForward` | micrograd/src/nn/mod.rs:173-179 | one output per neuron, in neuron order, each the neuron's value on the same input |
| `Nn.LayerForward` | micrograd/src/nn/mod.rs:173-179 | `Layer::forward` returns as many outputs as neurons, holding the layer's values on the input |
| `Nn.LayerParameterCount` | micrograd/src/nn/mod.rs:182-188 | a layer of `n` neurons over `nin` inputs has `n * (nin + 1)` parameters |
| `Nn.NewMlp` | micrograd/src/nn/mod.rs:202-211 | one layer per entry of `layer_outs`; each neuron of layer `k` has as many weights as layer `k - 1` has neurons (`neuron_inp` for the first); all `Tanh` |
| `Nn.NewMlpCustom` | micrograd/src/nn/mod.rs:214-231 | the same wiring with the chosen activation throughout |
| `Nn.NewMlpCustomIsNewMlp` | micrograd/src/nn/mod.rs:214-231 | `MLP::new_custom` builds the same arena and wiring as `MLP::new`, except for the activation |
| `Nn.MlpParameterCount` | micrograd/src/nn/mod.rs:247-253 | an MLP wired by `MLP::new` has `sum_k outs[k] * (inputs_k + 1)` parameters |
| `Nn.LayersForward` | micrograd/src/nn/mod.rs:239-243 | each layer runs on the previous layer's outputs; the result has the last layer's width and holds the composed values |
| `Nn.MlpForward` | micrograd/src/nn/mod.rs:237-244 | `MLP::forward` outputs the composition of the layers on the raw inputs, as many values as the last layer has neurons |
| `Bigram.CharToIndex` | micrograd_demos/src/make_more/utils.rs:1-7 | index 0 exactly for '.', and never above 159 |
| `Bigram.IndexToChar` | micrograd_demos/src/make_more/utils.rs:9-14 | '.' exactly for index 0 |
| `Bigram.AlphabetIndices` | micrograd_demos/src/make_more/utils.rs:1-7 | '.' and 'a'..'z' get the indices 0..26, letters in alphabet order |
| `Bigram.CharRoundTrip` | micrograd_demos/src/make_more/utils.rs:1-14 | `index_to_char(char_to_index(c)) == c` on the alphabet |
| `Bigram.IndexRoundTrip` | micrograd_demos/src/make_more/utils.rs:1-14 | `char_to_index(index_to_char(i)) == i` for 0..26, and 1..26 name the letters |
| `Bigram.ByteRoundTrip` | micrograd_demos/src/make_more/utils.rs:1-14 | the character round trip also holds for every code point 97..254 |
| `Bigram.LastByteHasNoWayBack` | micrograd_demos/src/make_more/utils.rs:9-14 | U+00FF maps to 159, which `index_to_char` cannot convert back without overflowing |
| `Bigram.IndexTruncates` | micrograd_demos/src/make_more/utils.rs:6 | `as u8` drops high bits (U+0161 shares 'a''s index) and characters below 'a' other than '.' underflow |
| `Bigram.Trim` | micrograd_demos/src/make_more/bigram.rs:13 | the result neither starts nor ends with whitespace and is no longer than the line |
| `Bigram.TrimCutsWhitespace` | micrograd_demos/src/make_more/bigram.rs:13 | the result is a contiguous piece of the line, and what it cuts on either side is whitespace |
| `Bigram.TrimEmptyIffBlank` | micrograd_demos/src/make_more/bigram.rs:13-14 | a line trims to nothing exactly when it is whitespace only |
| `Bigram.TrimIdempotent` | micrograd_demos/src/make_more/bigram.rs:13 | trimming twice is trimming once |
| `Bigram.Lines` | micrograd_demos/src/make_more/bigram.rs:12 | no line holds a line feed |
| `Bigram.FinalNewlineOptional` | micrograd_demos/src/make_more/bigram.rs:12 | a final line ending adds no empty line |
| `Bigram.Names` | micrograd_demos/src/make_more/bigram.rs:11-14 | no more names than lines |
| `Bigram.NamesAreTrimmed` | micrograd_demos/src/make_more/bigram.rs:11-14 | every name is non-empty and has no whitespace at either end |
| `Bigram.NamesSkipBlank` | micrograd_demos/src/make_more/bigram.rs:11-14 | a blank line contributes no name; any other line contributes its trimmed text, in order |
| `Bigram.EmptyTable` | micrograd_demos/src/make_more/bigram.rs:17 | a 27 x 27 table of zeros |
| `Bigram.Cell` | micrograd_demos/src/make_more/bigram.rs:23-24 | `% 27` keeps every index inside the table |
| `Bigram.Bump` | micrograd_demos/src/make_more/bigram.rs:25 | `+= 1` raises exactly one cell by one |
| `Bigram.Bigrams` | micrograd_demos/src/make_more/bigram.rs:20-27 | a name records exactly one bigram per character |
| `Bigram.BigramsAt` | micrograd_demos/src/make_more/bigram.rs:20-26 | the `k`-th bigram pairs the previous character ('.' at the start) with character `k` |
| `Bigram.CountName` | micrograd_demos/src/make_more/bigram.rs:20-27 | counting a name keeps the table 27 x 27 |
| `Bigram.CountNameCells` | micrograd_demos/src/make_more/bigram.rs:20-27 | counting a name adds to every cell the number of the name's bigrams falling in it |
| `Bigram.CountAll` | micrograd_demos/src/make_more/bigram.rs:18-28 | counting all names keeps the table 27 x 27 |
| `Bigram.CountAllCells` | micrograd_demos/src/make_more/bigram.rs:18-28 | every cell ends with its start value plus the multiplicity of that bigram over all names |
| `Bigram.CountAllGrows` | micrograd_demos/src/make_more/bigram.rs:25 | no count ever decreases |
| `Bigram.FirstBigramFromDot` | micrograd_demos/src/make_more/bigram.rs:20-25 | a name's first character is counted in the row of '.' |
| `Bigram.BumpTotal` | micrograd_demos/src/make_more/bigram.rs:25 | each `+= 1` adds exactly one to the table total |
| `Bigram.CountNameTotal` | micrograd_demos/src/make_more/bigram.rs:20-27 | a name adds exactly as many counts as it has characters (no closing bigram) |
| `Bigram.CountAllTotal` | micrograd_demos/src/make_more/bigram.rs:18-28 | all names add exactly their total length |
| `Bigram.EmptyTotal` | micrograd_demos/src/make_more/bigram.rs:17 | the fresh table sums to 0 |
| `Bigram.CountFromEmpty` | micrograd_demos/src/make_more/bigram.rs:17-28 | from zeros, every cell is the multiplicity of its bigram and the total is the number of characters |
| `Bigram.BigramTable` | micrograd_demos/src/make_more/bigram.rs:6-28 | the table built from a file's text counts the bigrams of its trimmed, non-blank lines, with total their length |
| `Bigram.CountBigrams` | micrograd_demos/src/bigram/mod.rs:17-32 | the imperative loops compute the counting fold, count the names in `i`, and the total is the number of characters |

## Left out

- Floating point: `f64` is `real`. `tanh`, `exp`, `powf` and the IEEE value
  of `x / 0` are opaque library parameters, so NaN and infinity propagation
  and rounding are not modelled.
- `Rc<RefCell<…>>` sharing and borrowing are modelled by an arena of nodes
  with index handles. The `try_borrow_mut` aliasing test is index equality,
  and a borrow panic cannot arise in the modelled operations.
- Labels (`new_lab`, the `label` field, `format!` of labels), `Debug` and
  `Display` (`value/display.rs`), and `backward_debug`, which is `backward`
  plus printing: output only.
- `IntoValue` conversions (`value/data_type.rs`): every scalar is a `real`
  at the call.
- `value.rs` and `value/tanh.rs` are an earlier version of the engine, built
  on a `MutableValue` type; they are not part of this model. `sub.rs` and
  `div.rs` use the same `MutableValue` name but are modelled as `MVal`
  operators (see "Where the model fills in or follows the code").
- Random initialisation: `rand::thread_rng` is replaced by caller-supplied
  draws, one group of `nin + 1` per neuron. `Nn.UnitDraws` states the
  `[-1, 1]` range that `gen_range(-1.0..=1.0)` samples.
- Backprop.BackwardAdjoint: requires every division reachable from the root
  to have a non-zero divisor (`Backprop.ReachDivisorsNonZero`), because the
  exact slope equation does not hold for IEEE infinities. Divisions elsewhere
  in the arena are unconstrained. `Backprop.Backward` itself has no such
  requirement.
- Backprop.PropagateAdjoint: requires every division among the listed nodes
  to have a non-zero divisor (`Backprop.ListedDivisorsNonZero`), for the same
  reason. Unlisted nodes are unconstrained.
- Scenarios.BackwardBy: requires every division reachable from the root to
  have a non-zero divisor, as `Backprop.BackwardAdjoint` does.
- Scenarios.SelfMulAdjoint: stated for any arena satisfying the adjoint
  equation (`AdjointHolds`), which `Scenarios.BackwardBy` shows `Backward`
  satisfies. It is not stated about `Backward` directly, because that
  unfolding involves products of reals that are too costly for the solver.
- Scenarios.TanhAdjoint: stated through `AdjointHolds` like
  `SelfMulAdjoint`, for the same reason.
- Scenarios.ProductAdjoint: stated through `AdjointHolds` like
  `SelfMulAdjoint`, for the same reason.
- Nn.InputNode: for a missing input, `forward` evaluates
  `unwrap_or(&MVal::new(0.0))` and so allocates an unused zero leaf on every
  iteration. The model allocates the leaf only when the input is missing.
  Those extra leaves are referenced by nothing and change no value or
  gradient.
- Nn.ExtraInputsIgnored: states that the output value is unchanged, not that
  the arenas built are equal. The arenas differ only in intermediate nodes.
- `Neuron::forward` calls `relu`, which the crate does not define. The model
  uses `max(0, x)`, the forward value given in the comment at
  `value/mod.rs:250` (see `Operators.Relu`).
- Bigram.CharToIndex: requires that `c as u8 - b'a'` does not underflow
  (`Bigram.Indexable`). In a debug build the source panics there; in a
  release build it wraps, and the wrapped value is not modelled.
- Bigram.IndexToChar: requires that `b'a' + i as u8` does not overflow
  (`Bigram.Printable`), for the same reason.
- Bigram.CountAll: counts are unbounded naturals; the `u64` overflow panic
  after 2^64 increments is not modelled.
- Bigram.Lines: its contract states only that no line holds a line feed. The
  split itself (after each `\n`, a `\r` before it dropped, a bare `\r` kept)
  is stated through `Bigram.FinalNewlineOptional` and `Bigram.NamesSkipBlank`,
  not as a full characterisation of `str::lines`.
- `fs::read_to_string` and its `expect`: the model starts from the file's
  text.
- Heatmap plotting (`plot_2d_heatmap`, `draw_lookup`, `draw_labels`) and the
  `dbg!` print: output only.
- The demos outside the bigram ones (`binary_classifier`, `demos/`) and the
  `charts` crate are callers, not part of the core.
