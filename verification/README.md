# LCPDTE: the plaintext meaning of the encrypted decision-tree evaluation

This project models the decision-tree protocol of the repository on exact slot values and proves what it is for: a
forest of XGBoost trees, packed into padded trees, order-preserving keys and encrypted bits, evaluates in every slot to
the leaf value that the slot's row reaches in the raw tree. It also proves the exact algebra kernels that serve the
protocol: the linear solver and Hermite interpolation behind the bootstrapping tables, the full-slot form of the
homomorphic linear transforms, the packed look-up table and the level-order threshold layout.

How the files follow the program:

- `Complex`, `Arith`, `Options`: exact complex numbers and slot vectors, powers of two, an option type.
- `He`, `Boot`: ciphertexts as heap objects with a slot vector, degree, level and pending rescales, the constant
  short-circuits of `he/operations.go` (which hand operands back, so aliasing is real), and the batched bootstrap.
- `Cmp`, `Prod`, `Select`, `Parity`, `TwoStageSelect`, `ComplexSplit`: the comparison tree, the subset products and
  one-hot vectors, and the selections of `tree/`.
- `Walk`, `Level`, `State`, `Schedule`, `Queue`, `Forest`, `Budget`: the padded walk, one level, one tree's state, the
  scheduler, the forest loop, and the level budget.
- `Float32`, `RawTrees`, `Borders`, `Convert`, `Meaning`, `Packing`: keys, raw trees and their generator, thresholds,
  padding, its correctness, and the end-to-end statement.
- `LinearSolve`, `Hermite`, `Diagonals`, `PackedLut`, `BorderLevels`: the kernels.

Conventions. Contracts on ciphertexts equate whole slot vectors. An operation without a `modifies` clause changes no
object that existed before the call; that is how the frame properties are stated. `meta` carries Lattigo's bookkeeping:
`degree`, `level`, `pending` (moduli by which the scale is above the default one) and `aligned` (every ciphertext sum so
far met equal pending counts); multiplication requires operands of degree at most one, because the evaluator refuses
others and the source drops that error. Values the Go code keeps in slices that are never shared are sequence variables;
objects and buffers it updates in place (ciphertexts, tree states, the queue, the index cache, the batch, the padded
tree's slices, the matrix, the threshold array, the level table) are classes and arrays.

## Where the code does less than one would expect

- In a forest of depth two or more, a tree shallower than the deepest one cannot be evaluated: its padded form has a last
  level without an inner node (`Meaning.InnerOnLastLevelIff`), the feature bits selected there are the scalar 0 in both
  ablation modes, and `uncplx` turns them into nothing but empty values (`Level.SelectBits` gives both directions;
  `tree/main_tree.go:214`), which the comparison then dereferences. At depth one a padded root is answered with the scalar
  0 before any selection, so a mixed forest of depth zero and one trees does evaluate.
- Leaf values that are integers are Gaussian integers to Lattigo and leave no pending rescale, so the rescale after a leaf
  column of the two-stage form drives the sum of such a column one modulus below the default scale; and if the column is a
  unit vector it is the stored one-hot ciphertext itself that is rescaled in place. `Select.SelectLeaves` says exactly which
  ciphertexts change and how, `Select.UnitLeafRescalesOneHot` runs an instance. The slots, and so the outputs, are right in
  every case; the worn ciphertexts belong to the finished tree alone.
- A feature value -0 sorts below a threshold +0, and a NaN sorts by its sign instead of taking the default direction.
  `Meaning.FaithfulIffSameBranch` gives the exact condition.
- Comparing only the leading P bits of a key agrees with the full comparison for every feature value exactly when the
  threshold key's other bits are zero: `Float32.LeadingBitsDecide`.
- A forest whose trees are all single leaves has depth 0, and the evaluation loop never ends: a turn skips the trees it
  picks and pushes them back (`Queue.IdleTurn`).
- A batch of more than twice `Logbase` ciphertexts panics before anything is touched (`Boot.MultiBootstrap_FeatureTree`,
  `Boot.MultiBootstrapCT`), so the forest loop is stated for batches that cannot exceed it.

## Model

| member | source | states |
|---|---|---|
| Packing.EvalModel | pack/packing.go:29-71 | End to end: packing a model with its row-major input and running the forest loop yields, in slot s of output i, float64 of what the reference evaluation of raw tree i returns on row s, in both ablation modes, for every even number of key bits and every k whose batches fit the bootstrap, in the least possible number of rounds; refused for too few rows; for a tree without unit leaf columns the output's scale is stated, too |
| Forest.EvalForest | tree/main_tree.go:229-415 | For every forest of admissible trees, whatever the leaf values, the loop ends after exactly Rounds(depths, k) rounds, each output slot holds the leaf its walk over key bits reaches, no input ciphertext is changed, and without unit leaf columns the output has one pending rescale if some leaf value is not an integer and none otherwise |
| Forest.Turn | tree/main_tree.go:263-408 | One turn keeps every tree's state, the ownership of ciphertexts and the queue consistent, changes no ciphertext but those of trees with a unit leaf column, and brings the end exactly one round nearer |
| Forest.RunRound | tree/main_tree.go:280-398 | Compare, refresh and advance: exactly the picked trees move one level, every state and every encrypted input stays what it describes, and no older ciphertext changes but those of trees with a unit leaf column |
| Forest.ComputeSelectors | tree/main_tree.go:280-357 | The round's selectors hold the branch bits of the picked trees, ready for the bootstrap, and are pairwise different new ciphertexts |
| Forest.RefreshKeepsInputs | tree/main_tree.go:359-362 | Scaling the selectors in place inside the bootstrap touches no feature ciphertext and no ciphertext of any tree state; the refreshed bits are new and belong to nobody |
| Forest.AdvanceAll | tree/main_tree.go:363-398 | Distinct picked trees each advance one level, the others do not change, and no ciphertext comes to belong to two trees or to a tree and the inputs |
| Forest.ApartStep | tree/main_tree.go:363-398 | When one tree takes over a refreshed bit that belonged to nobody and new ciphertexts, still no ciphertext belongs to two trees or to the inputs |
| State.Advance | tree/main_tree.go:364-397 | A refreshed branch bit extends the products and one-hot vectors of the right parity to the longer path; after the last level the output is the leaf value of every slot; no older ciphertext changes unless a leaf column is a unit vector, and then only the tree's own |
| State.StartsRunning | tree/main_tree.go:233-245 | A new state describes every slot standing at the root |
| State.PartsStep | tree/main_tree.go:370-382 | A new bit extends the even part of the path at even depths, the odd part at odd depths, and leaves the other alone |
| State.UpdateVectors | tree/main_tree.go:370-383 | The state update in both ablation modes keeps products and one-hot vectors equal to what the extended path says |
| State.Finalize | tree/main_tree.go:388-396 | The last selection puts the leaf value of every slot into out, with the stated scale when no column is a unit vector, and marks the tree done |
| Level.LevelSelector | tree/main_tree.go:286-354 | The selector of one level is 1 exactly in the slots whose feature bits are at least the threshold bits of the node they stand at, and is SelectorCost levels below the top |
| Level.GatherLevel | tree/main_tree.go:290-322 | The gathered rows are the operands of the level's nodes, constants 0 and 1 for padded ones |
| Level.SelectBits | tree/main_tree.go:332-349 | Below the root the selected and split feature bits are those every slot's node compares if the level has an inner node, and all of them empty values exactly if it has none |
| Level.UncplxHalfPack | tree/main_tree.go:212-227 | Twice the real and imaginary parts of the half-scaled packing are the two key bits, most significant first |
| Walk.PaddedGoesLeft | tree/main_tree.go:298-307 | A padded node, all zeros against all ones, always sends the walk left |
| Schedule.RoundShrinks | tree/main_tree.go:263-273 | Advancing the min(k, active) deepest unfinished trees lowers max(max depth, ceil(work / k)) by exactly one |
| Schedule.LowerBound | tree/main_tree.go:263-408 | No schedule of at most k distinct trees a round finishes in fewer rounds |
| Schedule.NothingLeft | tree/main_tree.go:263-408 | No tree is unfinished exactly when the number of rounds left is zero |
| Queue.PickTrees | tree/main_tree.go:264-271 | A round picks min(k, active) distinct trees, none shallower than one left in the queue, and every other unfinished tree keeps its one item |
| Queue.TreePQ.Pop | tree/main_tree.go:68-82 | Pop removes an item of the greatest priority, and among those one that was made first |
| Queue.PushBack | tree/main_tree.go:401-407 | Pushing the unfinished picked trees back restores one item per unfinished tree with its remaining depth as priority |
| Queue.StepKeepsQueued | tree/main_tree.go:401-407 | The items left in the queue stay right while the picked trees advance |
| Queue.IdleTurn | tree/main_tree.go:263-287 | A turn on trees of depth 0 leaves the same trees in the queue, so the loop never ends |
| Budget.BudgetExact | main.go:94 | With the configured MaxLv every bootstrap of a tree of depth D is entered at level 3 or more, the deepest at exactly 3, and one level less would not do, for every key width |
| Budget.TableIsCost | main.go:28 | Entries 1 to 27 of the level table are the cost of the deepest comparison on 32-bit keys; entry 0 belongs to no comparison |
| Budget.EnoughLevelsIff | he/base.go:69-99 | A level budget is enough for all depths exactly when it is enough for the deepest comparison |
| TwoStageSelect.SelAblation | tree/main_tree.go:167-210 | The two-stage selection costs as many levels as the single-vector one |
| Cmp.CmpGeBits | tree/cmp.go:15-129 | The result is exactly 1 where the first MSB-first number is at least the second and 0 elsewhere, fresh, aligned, at degree 1, ceil(log2 n) + 2 levels down, for every n >= 1; no operand changes |
| Cmp.Solve | tree/cmp.go:97-113 | S is half the lexicographic sign of the segment and C its equality flag; C is missing exactly on tail segments, and degrees, levels and pending rescales are as stated |
| Cmp.LargestPowerOfTwoLessThan | tree/cmp.go:7-13 | The largest power of two below L, for L >= 2 |
| Cmp.SignIsOrder | tree/cmp.go:21-28 | The lexicographic sign of the bit differences is the order of the two numbers |
| Cmp.CombineVec | tree/cmp.go:72-94 | Sign and equality flag of a concatenation from those of its halves |
| Cmp.PairVec | tree/cmp.go:37-68 | The pair polynomials are half the sign and the equality flag of two digits |
| Cmp.GeFromHalfSign | tree/cmp.go:117-126 | 2 * (0.5 + s * (0.5 - s)) turns half the sign into the 0/1 answer |
| Prod.BalancedProducts | tree/prod_method.go:9-44 | prods[mask] is the product of the selected bits of every mask, at ceil(log2 popcount) levels down, computed from entries that are already filled; given entries are handed on unchanged |
| Prod.MultiplyHalves | tree/prod_method.go:23-41 | A mask of two or more bits splits into two smaller masks with half the bits each, and the product is one level below the deeper half |
| Prod.LowHalf | tree/prod_method.go:23-38 | The loop cuts a mask at a bit position so that the low part has half of its bits |
| Prod.OneHotFromProdsIterative | tree/prod_method.go:46-65 | Entry i of the result is 1 exactly in the slots whose bits spell i |
| Prod.Butterfly | tree/prod_method.go:53-63 | One subtraction step turns subset tests on l + 1 bits into tests that are exact on one bit more |
| Prod.OneHotUpdateFromPrev | tree/prod_method.go:67-82 | The incremental form gives the one-hot vector of the extended bit string |
| Select.Select1D | tree/main_tree.go:84-117 | Each slot gets the value its one-hot vector points at, at the stated level and scale; the only older ciphertext that changes is the one in RescaledOperands, which loses a level and a pending rescale, keeps its slots and is the result itself |
| Select.SelectLeaves | tree/main_tree.go:106-115 | Of the one-hot ciphertexts exactly the one that a unit vector of leaf values singles out changes, and it loses a level and a pending rescale; the sum of a column is one modulus below the default scale exactly if it is all integers with a nonzero one |
| Select.RescaledOperandsIff | tree/main_tree.go:106-115 | The set of operands a selection may rescale is not empty exactly when leaf values with a rescale form a unit vector, and it holds the one-hot entry of the 1 |
| Select.UnitLeafRescalesOneHot | tree/main_tree.go:106-115 | Selecting between the leaf values 1.0 and 0.0 returns the first one-hot ciphertext itself, one level lower and one modulus below the default scale |
| Select.UnitIndexMeaning | tree/main_tree.go:106-109 | The index the short-circuits single out is the position of the only 1 among zeros |
| Select.FractionIff | he/operations.go:122-130 | The scalars that cost a pending rescale in a product are exactly those that are no integers |
| Parity.SplitInterleave | tree/main_tree.go:127-144 | Splitting a path into its even- and odd-depth bits and interleaving them gives the path back |
| Parity.InterleaveSplit | tree/main_tree.go:127-144 | Interleaving is into [0, 2^depth) and splitting gives the parts back: a bijection |
| Parity.InterleaveIndex | tree/main_tree.go:127-144 | The loop over the bit arrays computes the interleaving |
| Parity.IdxMapCache.BuildIdxMap | tree/main_tree.go:146-165 | With or without a cached table the result is the interleaving table, and the cache stays right |
| TwoStageSelect.SelectByParity | tree/main_tree.go:167-210 | For every depth, path and list of values each slot gets values[path], in one stage or two; besides the index cache, only one-hot ciphertexts that a unit column of leaf values singles out are written, and the scale of a leaf selection without one is stated |
| TwoStageSelect.TwoStagePick | tree/main_tree.go:185-198 | Picking a column by the even part and then by the odd part is picking by the path |
| TwoStageSelect.KeptScales | tree/main_tree.go:190-198 | If every column of leaf values keeps its scale, none is a unit vector, and the values are all zero or not all integers |
| ComplexSplit.Uncplx | tree/main_tree.go:212-227 | Every packed ciphertext yields its two bit vectors at its own level; a constant first element yields only empty values |
| He.Scheme.AddNew | he/operations.go:45-70 | The slotwise sum, the operand itself for a zero constant, otherwise a fresh ciphertext with the larger scale |
| He.Scheme.SubNew | he/operations.go:78-98 | The slotwise difference, the operand itself for a zero subtrahend, a fresh ciphertext otherwise |
| He.Scheme.MulNew | he/operations.go:106-168 | The slotwise product; the constants 0 and 1 give a scalar and the operand itself; otherwise fresh, with degrees and scales added or relinearised |
| He.Scheme.Relin | he/operations.go:191-196 | In place: same slots and scale, degree one; constants are left alone |
| He.Scheme.Rescale | he/operations.go:176-181 | In place: same slots and degree, one level and one pending rescale less, nothing at level 0; constants are left alone |
| Boot.MultiBootstrapCT | he/bts.go:118-146 | Constants stay; every ciphertext comes back at its own index as a fresh one at the top level with the same bits, no two the same; a batch of more than twice Logbase ciphertexts is refused with nothing changed |
| Boot.MultiBootstrap_FeatureTree | he/bts.go:66-116 | Up to Logbase bits in the real part, up to twice as many split over real and imaginary part, each returned in its own place; refused exactly for more |
| Boot.Batched_binBootstrap_Notcomplex | he/bts.go:380-411 | Packing, bootstrapping with bit-extraction tables and unpacking is the identity on bits; only the batch's own ciphertexts are scaled |
| Boot.Batched_binBootstrap_complex | he/bts.go:413-455 | The same through both parts of one complex ciphertext |
| Boot.PackedBit | he/bts.go:386-406 | Bit i of the packed number is the i-th packed bit |
| Boot.PackedInBase | he/bts.go:386-397 | Every packed value is below Base |
| Float32.Float64Reads | pack/packing.go:186-201 | Every finite pattern has the value that binary32 gives it: sign, exponent less 127, fraction with its leading 1, subnormals included |
| Float32.Float64One | pack/packing.go:186-201 | The pattern 0x3F800000 is 1.0 and the pattern 0 is 0.0 |
| Float32.Float64Negates | pack/packing.go:186-201 | Setting the sign bit negates the value |
| Float32.Float64Doubles | pack/packing.go:186-201 | One more in the exponent field of a positive normal number doubles it, as long as it stays finite |
| Float32.Float64Steps | pack/packing.go:186-201 | Within one exponent, and over the subnormals and exponent 1 together, consecutive patterns are one fixed step apart |
| Float32.FloatLessIsLess | treeio/gen_tree.go:195-199 | On finite numbers x < y is the order of the float64 values; infinities lie beyond them and a NaN is never less |
| Float32.KeyOrder | pack/packing.go:224-230 | Keys compare as the numbers do, except exactly for -0 against +0 |
| Float32.KeyGeIsNotLess | tree/precompute_border.go:11-17 | key(x) >= key(t) is not (x < t), exactly but for x = -0, t = +0 |
| Float32.MagnitudeMono | pack/packing.go:224-230 | Positive bit patterns are ordered as the binary32 numbers they encode |
| Float32.KeyStringSpells | pack/packing.go:232-240 | The first P key bits, most significant first, spell the key shifted right by 32 - P |
| Float32.LeadingBitsDecide | tree/main_tree.go:287-317 | P leading bits decide as the whole key does, for every feature, exactly when the threshold's other bits are zero |
| RawTrees.EvalRow | treeio/gen_tree.go:173-200 | The loop returns RowValue: the value of the leaf that the row's branches reach, default directions included, or nothing when it walks off the tree |
| RawTrees.GenTree | treeio/gen_tree.go:101-161 | For all random draws a node is inner exactly if it is above the last level and not a pruned node off the kept path of a sparse tree; inner nodes have heap links, the drawn feature below F and the drawn threshold, leaves have no links, feature -1 and the drawn value, and no default goes left |
| RawTrees.KeptPath | treeio/gen_tree.go:112-123 | The upward loop marks exactly the drawn leaf and its heap ancestors |
| RawTrees.GeneratedDepth | treeio/gen_tree.go:101-161 | Every generated tree has a maximal depth equal to the configured one |
| RawTrees.GeneratedDepthFrom | pack/packing.go:149-159 | From every node the depth is at most the configured one, and equal to it from the drawn leaf and its ancestors |
| Borders.BuildBorders | pack/packing.go:89-137 | The list of a feature holds exactly the thresholds that some inner node of some tree has on it, each once, sorted by value, or a single zero if there is none, and the map inverts the list |
| Borders.CollectThresholds | pack/packing.go:90-106 | A number is in a feature's set exactly if an inner node of one of the trees has it as threshold on that feature |
| Borders.IndexRecovers | pack/packing.go:130-134 | A stored threshold index recovers the threshold's exact bits |
| Convert.Rec | pack/packing.go:188-218 | The recursion writes exactly the entries under its node, each as the raw node behind it dictates, and leaves all others |
| Convert.FillConstSubtree | pack/packing.go:174-186 | Below the end of the raw tree every node is marked and every leaf takes the one value |
| Convert.ConvertRawTree | pack/packing.go:161-222 | The arrays built by the recursion are the complete tree of the raw nodes behind each position |
| Convert.GraftNode | pack/packing.go:216-217 | A node and its two disjoint subtrees make up the subtree |
| Meaning.ReachIsRawLeaf | pack/packing.go:161-222 | For D at least the raw depth, the padded walk over key bits ends in the value of the leaf the raw walk reaches |
| Meaning.StepTracksRow | pack/packing.go:204-217 | One padded step follows one raw step, or stays at its end |
| Meaning.FaithfulIffSameBranch | treeio/gen_tree.go:180-199 | Key comparison and float comparison take the same branch exactly if a NaN's sign is on its default side and -0 does not meet +0 |
| Meaning.FaithfulRowIff | treeio/gen_tree.go:180-199 | A row meets the condition of the end-to-end statement exactly if at every inner node the key comparison takes the raw tree's branch |
| Meaning.PlainThresholdsIff | tree/main_tree.go:287-317 | A tree's thresholds are served by P bits exactly if none is a NaN and, for every feature value, the leading P bits compare with each as the whole key does |
| Meaning.InnerOnLastLevelIff | tree/main_tree.go:212-216 | The last level of a padded tree has an inner node exactly when the raw tree is D deep, and then every level has one |
| Meaning.GeneratedEvaluable | treeio/gen_tree.go:101-161 | A generated tree converted at its own depth can be evaluated |
| Packing.EncryptBitsFromFloat32Slots | pack/packing.go:242-259 | Ciphertext bi holds key bits 2bi and 2bi+1 of every slot, halved, for every P up to 32 |
| Packing.ColumnsAreRows | treeio/gen_tree.go:163-170 | The slot's values over all reshaped features are the input row that the reference evaluation slices out |
| Packing.ReshapeToFeatureSlots | pack/packing.go:73-87 | Feature f of slot i is entry i * F + f; refused for too few rows |
| Packing.ModelMaxDepth | pack/packing.go:139-147 | The greatest depth of the model's trees |
| Packing.BordersCover | pack/packing.go:204-211 | The conversion never misses a threshold in the maps |
| Packing.PackBundle | pack/packing.go:29-71 | From the row-major input and the raw trees: the reshaped columns, the borders, the encrypted bits and the padded forest describe the same rows, features, thresholds and trees; refused exactly for too few rows |
| Packing.FractionalLeavesKeepScale | tree/main_tree.go:388-394 | Leaf values that are zero or not integers make every column keep its scale: nothing is worn down, and an output is a scalar or has exactly one pending rescale |
| LinearSolve.SolveLinearSystem | he/util_poly.go:259-295 | Elimination meets a zero pivot exactly when the matrix is singular; otherwise the result is the only solution of the system as it was passed in |
| LinearSolve.EliminateColumn | he/util_poly.go:261-284 | One column step keeps the solutions and the kernel, and extends the echelon shape or proves a nontrivial kernel |
| LinearSolve.NoPivotNoKernel | he/util_poly.go:262-270 | A half-eliminated matrix without a pivot in the next column is singular |
| LinearSolve.TriangularSolution | he/util_poly.go:286-292 | Back substitution yields the only solution, and unit triangular systems are nonsingular |
| LinearSolve.BackSubstitute | he/util_poly.go:286-292 | Every equation of the triangular system holds for the computed vector |
| Hermite.HermiteInterpolation | he/util_poly.go:8-49 | For distinct nodes the result is the only polynomial with n(k+1) coefficients that takes the table's values and has vanishing derivatives of order 1 to k at the nodes |
| Hermite.HermiteNonsingular | he/util_poly.go:12-44 | For distinct nodes the constraint matrix is nonsingular, for all n and k |
| Hermite.RowIsDerivative | he/util_poly.go:26-36 | A matrix row applied to coefficients is the m-th derivative at the node |
| Hermite.DerivAtIsEval | he/util_poly.go:23-36 | That derivative is the value of the m-fold formal derivative |
| Hermite.ManyRootsZero | he/util_poly.go:12-44 | A polynomial with as many roots, counted with multiplicity, as coefficients is zero |
| Diagonals.NewTransformSpec | integer/homchain/spec.go:190-231 | Accepts exactly square matrices of size 2^j with 2^k words, for some j and k; the stored diagonals are the matrix's and none is all zero |
| Diagonals.FullSlot | integer/homchain/spec.go:237-297 | Refused exactly if a repeated-row form has a word count or a half-width that is no 2^k; the masked signed offsets, also where two share an index for one word, give exactly the block-diagonal form of the matrix, and no all-zero diagonal survives |
| Diagonals.PowerOfTwoIff | integer/homchain/matrix.go:194-196 | n > 0 and n & (n - 1) == 0 exactly for the numbers 2^k |
| Diagonals.MaskWraps | integer/homchain/spec.go:209 | Masking with n - 1, for n = 2^k, is wrapping around at n |
| Diagonals.EvaluatePlaintext | integer/homchain/spec.go:324-361 | In both layouts and any order of the diagonals, every word is multiplied by the matrix, with nothing from another word; refused exactly for the wrong length |
| Diagonals.LayoutsAgree | integer/homchain/spec.go:233-236 | The repeated-row and the full-slot form of a matrix compute the same |
| Diagonals.TotalIsApplied | integer/homchain/spec.go:337-360 | The sum over the diagonals at a slot is its row of the matrix times its word |
| Diagonals.PartStep | integer/homchain/spec.go:250-279 | One offset changes exactly its own entries of its own diagonal, colliding or not |
| PackedLut.EvaluatePacked | integer/homchain/a2b_kernel_n16.go:756-786 | On sixteenth roots of unity one packed evaluation, split by conjugation, gives the two outputs of evaluating both tables separately and adding conjugates |
| PackedLut.NewPackedLUT | integer/homchain/a2b_kernel_n16.go:335-378 | Accepts exactly two tables of degree 15 and builds the packed coefficients |
| PackedLut.PackedValue | integer/homchain/a2b_kernel_n16.go:331-334 | On an n-th root of unity the packed polynomial is Re ID + i Re MSB |
| PackedLut.ConjugateFunction | integer/homchain/a2b_kernel_n16.go:344-371 | Conjugating coefficients at paired positions conjugates the value on roots of unity |
| BorderLevels.PrecomputeBorder | tree/precompute_border.go:75-103 | Every returned key is 32 scalar bits; read back, the levels are complete and as few as can hold the thresholds; walking a float's key down them ends at the padding plus the number of thresholds the float is not less than, for every float but a NaN, exactly unless it is -0 and +0 is a threshold; the thresholds are the sorted input, each entry not above its predecessor replaced by the next float, which is below every strictly ascending sequence above the input |
| BorderLevels.KeysReached | tree/precompute_border.go:86-89 | The number of threshold keys at most a float's key is the number of thresholds it is not less than, exactly but for -0 with +0 among them |
| BorderLevels.NextUpKey | tree/precompute_border.go:80-84 | The next float is the one with the next key, stepping over +0 from -0, and infinity is its own |
| BorderLevels.MakeDistinct | tree/precompute_border.go:80-84 | The in-place loop yields the least sequence above its input that ascends strictly until infinity |
| BorderLevels.PadBorders | tree/precompute_border.go:35-51 | Zeros in front up to the least 2^n - 1 keys with n >= 1 |
| BorderLevels.MakeBorderLevels | tree/precompute_border.go:53-70 | n levels, level lv holding 2^lv keys, entry j being padded[(2j+1) * 2^(n-1-lv) - 1] |
| BorderLevels.LevelTable.Helper | tree/precompute_border.go:55-67 | The recursion appends each subtree's keys to the levels below it, in order, and to no other |
| BorderLevels.WalkCounts | tree/precompute_border.go:53-70 | Going to child 2j + (x >= key) for n levels ends at the number of keys at most x |

## Left out

- Lattigo: encoding, encryption, key switching, DFT and EvalMod; the evaluator is taken to act exactly on slots, and bootstrapping to apply integer tables to slot values in [0, Base) and return fresh ciphertexts at MaxLv.
- CKKS noise, floating-point rounding, int64 overflow and parameter generation; reals and integers are exact and unbounded.
- cmplx.Abs: pivots are compared by the square of the absolute value, which orders the same.
- container/heap and sort.Slice: Pop is any removal of a least item, sorting any arrangement by value; their own algorithms are not modelled.
- Leaf values and thresholds that are infinite or NaN as reals: Float64 gives an infinite leaf the number of its bit pattern, and NaN thresholds are excluded where rows are compared.
- LinearSolve.SolveLinearSystem: the rows of the matrix are values in an array, so rows that share memory are not modelled; the source goes on with infinities where the result here is None.
- Hermite.HermiteInterpolation: the nodes are powers of a given z with distinct powers instead of exp(2 pi i / n), whose real coordinates are not exact; the fixed-order variants of the same file repeat it with one derivative.
- PackedLut.EvaluatePacked: levels, scales, profiles and state checks of the surrounding kernel are not modelled.
- Diagonals.EvaluatePlaintext: coefficient precision and nil checks are not modelled, and cloning is invisible because specifications are values.
- RawTrees.GenTree: random numbers are inputs, one per node and kind; SplitType is dropped.
- Packing.EvalModel: needs trees as deep as the model (or a model of depth one), comparisons that survive the key order, and thresholds whose bits beyond P are zero (always so at P = 32), each with its exact condition stated above; the scale of an output is not stated when a leaf column is a unit vector.
- Forest.EvalForest: for trees of depth one or more the branches for trees already done, for depths past D and for an empty pick cannot be reached and are not written out; progress hooks and timing are left out.
- pendingSel of a tree state is set and cleared within one round; it is the round's local sequence of selectors here.
- TwoStageSelect.SelectByParity: the row-first form for a longer odd vector cannot be reached, because the even vector is never shorter.
- Summing the outputs, the base-score margin, error statistics, the comparison-only mode, JSON parsing and command-line programs: easy members or input and output.
- Key profiles, digests, certificates and traces in integer/homchain and ckksint: field comparisons.
