# Mux2LUT in Dafny

Mux2LUT maps a wide multiplexer (a mux with `mux_size` data inputs) onto a
given stock of lookup tables (LUTs). The stock is given as "LUT size ->
number of LUTs". A fixed table says which mux fan-in (2, 4 or 8 data inputs)
a LUT of each size can implement. The fitter packs the mux layer by layer.

- Every node of a layer carries a label, one digit per select line.
- The fitter tries the largest fan-in still in stock first.
- It commits the first run of unused nodes that the mux checker accepts.
- A committed LUT is always the smallest LUT left for that fan-in.
- The merged label goes on the group's first node; the other members are
  retired with the label `[-1] * L`.
- When the layer is packed, the retired rows are deleted. The survivors are
  the inputs of the next layer.
- `fit` seeds the first layer with the binary code of each data input. It
  repeats layers until one node is left, or until a layer uses no LUT.

`mux.py` decodes select inputs MSB-first and returns the data input they
select.

The project has seven modules, one per file:

- `binary.dfy` (module `Binary`): powers of two, the MSB-first value of a
  digit sequence, the L-digit binary label and integer `ceil(log2 n)`. Label
  encoding and decoding are proved inverse.
- `mux.dfy` (module `SelectMux`): class `Mux` of mux.py, whose `Evaluate` has
  a loop invariant tied to the binary value of the select digits.
- `inventory.dfy` (module `LutInventory`): `lut2mux_map` and the buckets the
  constructor builds.
  - The buckets are built by the grouping loop, then sorted with an
    insertion sort proved to sort and to permute.
  - The keys are sorted by `sorted(mux_dict.keys())`.
- `packing.dfy` (module `Packing`): the label side of `fit_layer`.
  - The label matrix is an `array2<int>` that is rewritten in place.
  - Candidate groups are gathered and padded.
  - The scan finds the first fit.
  - The retired rows are deleted into a fresh matrix.
- `layer.dfy` (module `Layer`): the loop invariant of `fit_layer`'s packing
  loop, in two halves.
  - The inventory half: every LUT taken left the stock, buckets stay sorted,
    non-empty and keyed by fan-in, and LUTs are taken in layer order.
  - The label half: the groups are disjoint increasing runs, and each one is
    the first fit in scan order. The matrix equals the input after those
    commits.
  - One lemma covers each step of the loop.
- `greedy.dfy` (module `Greedy`): the greedy side of the packing loop.
  - A log of the drops: for each fan-in the loop gave up, the number of
    commits made before it gave up.
  - The inventory before each commit (the stock history).
  - The stopping rule, and `LayerPacked`, which bundles everything one run
    of the packing loop guarantees.
- `fitter.dfy` (module `Fitting`): class `Fitter` with its constructor,
  `FitLayer` and `Fit`.
  - The loop of `fit` is the method `FitLayers`. Each iteration calls
    `NextLayer`, which is one call of `fit_layer`.
  - A ghost `Trace` records every run of `fit_layer` made by `fit`, oldest
    first. The first entry holds the binary seed labels and the inventory
    `fit` was given. Each later run is related to the one before it by
    `LayerFitted`, which is `LayerPacked` followed by the deletion of the
    retired rows.

The mux checker `Mux.get_mux_params` decides whether a candidate group
fits. Its code is not part of this model. It is a function-typed parameter
`check`, and every property of `FitLayer` and `Fit` holds for any checker
that meets two conditions:

- every merged label it returns has the width of the labels (`KeepsWidth`);
- it rejects a group made only of padding rows (`RejectsPadding`).

Over a layer, the model proves:

- the inventory loses exactly the LUTs the layer used (a multiset identity);
- each commit takes the smallest LUT of its fan-in's bucket, and the LUTs of
  a layer never grow in fan-in and, within one fan-in, never shrink in size;
- largest fan-in first: a commit uses fan-in m only after every larger
  fan-in still in stock was dropped, and a dropped fan-in is never used
  again in that layer;
- a fan-in is dropped only after the checker rejected the candidate at
  every start index, given the nodes the earlier commits used;
- each committed group is the first start index the checker accepts for its
  fan-in;
- the retired rows are exactly the ones deleted, and the other rows keep
  their order;
- rows of nodes that no group took are unchanged;
- every pass of the packing loop starts with a node unpacked, and every
  pass after the first starts with at least two. So with two or more
  nodes the loop stops as soon as at most one is left unpacked, and with
  a single node it tries exactly one fan-in (none without LUTs);
- the early return is taken only when every fan-in left in stock has been
  dropped, and then either at least two nodes are unpacked or the stock
  was empty to begin with. With a node and an empty stock it is always
  taken.

Over the whole of `fit`, the model proves:

- `fit` runs `fit_layer` first on the binary labels of the data inputs,
  then on each run's output. `used_lut_list` becomes None exactly when the
  last run used no LUT. Otherwise every run used LUTs, at most one node is
  left, and the list gained one entry per run;
- every layer that `fit` keeps consumes at least one LUT. So the number of
  layers is at most the initial number of LUTs, and this bound is what
  makes `fit` terminate.

One claim one might expect does not hold of the code: that the number of
nodes strictly falls from layer to layer. A layer whose only commit is a
group with a single real node plus padding keeps the node count. The model
therefore proves termination of `fit` by the LUT stock, which is what the
code actually guarantees.

## Model

| member | source | states |
|---|---|---|
| Binary.BinaryLabel | Fitter.py:170-176 | the label of d has exactly L digits, each 0 or 1 |
| Binary.CeilLog2 | Fitter.py:169 | L is the least number of select lines with n <= 2^L |
| Binary.BinValueOfLabel | Fitter.py:173-176 | decoding the L-digit label of d (d < 2^L) MSB-first gives back d |
| Binary.LabelOfBinValue | mux.py:35-36 | a bit string has a value below 2^length and is the label of that value, so label encoding and decoding are inverse bijections |
| SelectMux.IndexInRange | mux.py:35-38 | when the first k control entries are bits, the decoded index lies in [0, 2^k) |
| SelectMux.SelectsLabelledInput | mux.py:35-38 | feeding the L-bit label of d as control inputs selects data input d |
| SelectMux.ControlTailIgnored | mux.py:35-36 | control entries beyond the first numControlInputs do not change the selection |
| SelectMux.StepValue | mux.py:36 | one accumulator step of evaluate turns the scaled value of the first i digits into that of the first i+1 |
| SelectMux.Mux.constructor | mux.py:12-21 | both counts are stored unchecked |
| SelectMux.Mux.Evaluate | mux.py:23-38 | the result is the data input at the MSB-first value of the first numControlInputs control entries (negative indices count from the end, as in Python); no field changes |
| LutInventory.Lut2MuxIsMuxCapacity | Fitter.py:17-18 | the table is defined exactly on sizes 3..12; each size s maps to 2^k for the largest k with 2^k + k <= s; every value is 2, 4 or 8 |
| LutInventory.RepeatCount | Fitter.py:43 | `[lut_size] * num_of_lut` holds num_of_lut copies of lut_size and nothing else |
| LutInventory.Insert | Fitter.py:48 | inserting into a sorted list gives a sorted list with the element added |
| LutInventory.SortAscending | Fitter.py:48 | `list.sort()` gives an ascending permutation of the bucket |
| LutInventory.SortedKeys | Fitter.py:86 | the fan-ins to try are exactly the keys, in strictly ascending order |
| LutInventory.GroupStep | Fitter.py:38-44 | one pass of the grouping loop adds the sizes just visited to the buckets, without disturbing the other sizes' counts |
| LutInventory.GroupBySize | Fitter.py:38-44 | after the first constructor loop, there is a bucket for exactly the fan-ins of the set's sizes, holding each size as often as the set says |
| LutInventory.SortBuckets | Fitter.py:47-49 | the second loop keeps the keys and sorts every bucket into a permutation of itself |
| LutInventory.SortedBucketsOf | Fitter.py:38-49 | after both loops the map is well formed: keys are fan-ins of the table, buckets are sorted and hold only sizes of their fan-in, each as many times as the set says; no bucket is empty when no count is 0 |
| LutInventory.BucketsNonEmpty | Fitter.py:43 | with no count of 0 every bucket holds at least one LUT |
| Packing.CountFalseNone | Fitter.py:82 | at the start of a layer all n nodes are unused |
| Packing.CountFalseFlip | Fitter.py:131-132 | flagging one unused node lowers the number of unused nodes by one |
| Packing.CandidateOfNothing | Fitter.py:117-119 | a candidate with no real member is the all-padding group |
| Packing.ApplyAt | Fitter.py:139-141 | after a layer's commits, a group's first member holds its merged label, its other members hold the retired label, and rows no group took are unchanged |
| Packing.SurvivorsAppend | Fitter.py:158 | deleting retired rows distributes over concatenation, so the remaining rows keep their order |
| Packing.SurvivorsExact | Fitter.py:153-158 | a row survives iff it is in the matrix and is not the retired label; survivors plus retired rows account for every row |
| Packing.SurvivorsOfLive | Fitter.py:158 | a matrix with no retired row is left unchanged by the deletion |
| Packing.SetRow | Fitter.py:139 | assigning one row changes that row only |
| Packing.StampGroup | Fitter.py:139-141 | the matrix afterwards is the commit of the group: merged label on the first member, retired label on the rest, all other rows kept |
| Packing.MarkUsed | Fitter.py:131-132 | flags go from False to True exactly for the group's members, and the number of unused nodes drops by the group's size |
| Packing.GroupFrom | Fitter.py:107-115 | a candidate group has at most mux_size members, all between the start index and n |
| Packing.GroupFromShape | Fitter.py:107-115 | a candidate group is strictly increasing and holds only unused nodes |
| Packing.GroupSkipsNone | Fitter.py:110-115 | an unused node at or after the start that is left out of the group lies beyond a full group |
| Packing.CollectCandidates | Fitter.py:107-119 | the inner loops gather exactly the candidate group for start i and the rows of its members from the layer's input, padded with dummy rows up to mux_size |
| Packing.PadWithDummies | Fitter.py:117-119 | the candidate is the gathered rows followed by mux_size minus that many dummy rows |
| Packing.FindFit | Fitter.py:106-125 | either the checker accepts the candidate at the returned start and rejects those at every earlier start (first fit), or it rejects every start |
| Packing.FindDeactivated | Fitter.py:153-156 | the list holds exactly the indices of the rows equal to the retired label, in ascending order, as many as there are such rows |
| Packing.DeleteDeactivated | Fitter.py:153-158 | the new matrix holds, in their original order, exactly the rows that are not the retired label |
| Layer.LayerOrderPairs | Fitter.py:86-94 | along one layer the fan-in of the LUTs used never grows, and within one fan-in the LUT sizes never shrink |
| Layer.UsedFromInventory | Fitter.py:134-138 | the inventory total falls by as many LUTs as were used |
| Layer.InventoryStart | Fitter.py:82-86 | at the start of a layer nothing is used and every key is still to be tried |
| Layer.InventorySkip | Fitter.py:94 | dropping a fan-in after a failed scan keeps the list of fan-ins to try ascending and keyed |
| Layer.TakeSmallestBuckets | Fitter.py:134-146 | popping bucket m, taking its front and putting back a non-empty rest changes bucket m only, by its front; the key stays iff LUTs are left |
| Layer.TakeShape | Fitter.py:144-146 | a commit keeps the map well formed, and no empty bucket is put back |
| Layer.TakePool | Fitter.py:134-138 | the LUTs used plus the LUTs left stay the LUTs the layer started with |
| Layer.TakeSuffix | Fitter.py:137 | each bucket only ever loses LUTs from its front |
| Layer.TakeStock | Fitter.py:134-146 | a commit keeps the whole stock half of the loop invariant |
| Layer.TakeFollows | Fitter.py:137-138 | the LUT taken may follow the LUTs taken before it in the layer |
| Layer.LayerOrderSnoc | Fitter.py:138 | a LUT that may follow the last one extends the layer order |
| Layer.TakeNext | Fitter.py:144-147 | after a commit the layer can only take fan-ins up to m, and the rest of bucket m is no smaller than the LUT taken |
| Layer.TakeAvail | Fitter.py:144-147 | the fan-ins left after a commit are ascending keys of the new map; m stays iff its bucket still has LUTs |
| Layer.TakeOrder | Fitter.py:134-147 | the LUT taken for the largest fan-in left is of that fan-in, and a commit keeps the order half of the invariant |
| Layer.LargestInStock | Fitter.py:94-137 | the largest fan-in left has a non-empty bucket whose front LUT implements it |
| Layer.TakeKeeps | Fitter.py:134-147 | both stock and order halves survive a commit |
| Layer.PackingStart | Fitter.py:82-84 | the label half holds before the first commit |
| Layer.PackingDone | Fitter.py:92-150 | on leaving the loop, the groups are disjoint increasing runs of size count <= n, each the first fit, and the matrix is the input after them |
| Layer.UnusedRowsKept | Fitter.py:139-141 | rows of unused nodes are still the layer's input rows, so the in-place rewriting never changes what later scans read |
| Layer.CommitShape | Fitter.py:106-139 | an accepted group is non-empty, increasing, made of unused nodes, and its merged label has the label width |
| Layer.CommitKeeps | Fitter.py:125-148 | a commit for the largest fan-in left keeps both halves of the loop invariant |
| Layer.PackingCommit | Fitter.py:130-143 | committing an explained group keeps the label half |
| Layer.CommitGrouping | Fitter.py:131-132 | the new group shares no node with the earlier groups |
| Layer.CommitCovered | Fitter.py:131-143 | the new flags are the members of all groups, and count grows by the group's size |
| Layer.CommitExplains | Fitter.py:123-139 | the new commit is the first fit of its LUT's fan-in given the nodes used before it |
| Layer.ApplySnoc | Fitter.py:139-141 | a commit after the earlier ones is the last step of applying all of them |
| Fitting.LayersSnoc | Fitter.py:192 | appending a non-empty layer in layer order keeps the layers ordered and adds its LUTs to the flattened list |
| Fitting.FitStart | Fitter.py:168-179 | fit's invariant holds before the first layer |
| Fitting.FitStep | Fitter.py:182-192 | a layer that used LUTs keeps fit's invariant for the extended layer list and strictly lowers the stock |
| Fitting.SeedsDecode | Fitter.py:171-176 | the seed rows are the select codes of the data inputs: row i is a bit string of width L whose MSB-first value (the one mux.py decodes) is i, so the mux_size seeds are pairwise distinct |
| Fitting.SeedLabels | Fitter.py:169-176 | row i of the first layer is the L-digit binary label of i |
| Fitting.TracedRun | Fitter.py:179-191 | the last run of a trace started from more than one row and is a run of fit_layer on what the run before it left; the runs before it form a trace |
| Fitting.LayerFittedStock | Fitter.py:134-147 | one run of fit_layer leaves the inventory well formed, loses exactly the LUTs it used, and uses them in layer order |
| Fitting.TracedProgress | Fitter.py:179-192 | when every run used LUTs, the runs together used exactly the LUTs that left the inventory, each run in layer order, and there are no more runs than initial LUTs |
| Fitting.Fitter.constructor | Fitter.py:20-49 | mux_dict has a bucket exactly for each fan-in some size of the set maps to; each bucket is ascending and holds each size of its fan-in as many times as the set says; no bucket is empty when no count is 0 |
| Fitting.Fitter.PackLayer | Fitter.py:79-150 | LayerPacked: the stock loses exactly the LUTs used, each the smallest of its bucket at the time; the groups are disjoint, each the first fit of its fan-in; the matrix is the input with the groups' commits; fan-ins are tried largest first and dropped only after every start was rejected; every pass starts with a node unpacked and every pass after the first with two, so with at most one node the loop makes at most one pass, and with two or more it stops as soon as at most one is unpacked; it returns early only with a node unpacked and once every fan-in in stock was dropped, and always when there are nodes but no LUT |
| Fitting.Fitter.TryLargest | Fitter.py:93-148 | one pass over the largest fan-in m left keeps the loop invariant. Without a fit, the checker rejected every start, m is dropped and logged, and nothing else changes. With a fit, one group is added: the first fit for m. Its LUT is the front of bucket m, the inventory becomes the bucket without it, and m stays to be tried iff LUTs are left |
| Fitting.Fitter.CommitFit | Fitter.py:125-148 | the commit branch keeps the loop invariant. It adds the group, its merged label and start. The LUT used is the front of the fan-in's bucket, and the inventory loses exactly it. The rows become the commit of the group, count grows by the group's size, and the fan-in is put back iff its bucket is not empty |
| Fitting.Fitter.TakeLut | Fitter.py:134-146 | the LUT taken is the front (smallest) of bucket m; the bucket is put back without it exactly when LUTs are left |
| Fitting.Fitter.CommitGroup | Fitter.py:131-147 | the effects of one commit: flags of the group set, smallest LUT moved to used_list, rows of the group rewritten, count raised by the group size, fan-in put back iff its bucket still has LUTs |
| Fitting.Fitter.FitLayer | Fitter.py:65-160 | fit_layer: everything LayerPacked states of the packing loop; on the early return the rewritten input matrix itself, otherwise a fresh matrix holding the surviving rows in order |
| Fitting.Fitter.NextLayer | Fitter.py:182 | one call of fit_layer inside fit: the trace gains the run (LUTs used, rows out, inventory left) and stays a trace; a run that used LUTs lowers the stock |
| Fitting.Fitter.Fit | Fitter.py:162-192 | the trace starts from the binary seed labels and the inventory fit was given, and each run is fit_layer on the previous run's output; used_lut_list becomes None only when the last run used no LUT (every earlier run used some); otherwise every run used LUTs, at most one node is left, and the list is the old one plus one entry per run |
| Fitting.Fitter.FitLayers | Fitter.py:178-192 | the loop of fit from given labels: the same trace, None and list guarantees as Fit |
| Greedy.HistoryPool | Fitter.py:134-146 | along the stock history the inventory stays well formed with no empty bucket, and the LUTs used up to commit k plus the LUTs left are the LUTs the layer started with |
| Greedy.HistoryStep | Fitter.py:134-146 | taking the smallest LUT of a bucket keeps the inventory well formed and moves that LUT from the stock to the used list |
| Greedy.HistorySnoc | Fitter.py:134-138 | a commit with the front LUT of bucket m extends the stock history by the map it leaves |
| Greedy.GreedyStart | Fitter.py:82-86 | at the start of a layer the greedy invariant holds with nothing used and nothing dropped |
| Greedy.GreedyDrop | Fitter.py:94-125 | dropping the largest fan-in left after its scan rejected every start keeps the greedy invariant, logged at the current number of commits |
| Greedy.DropKeeps | Fitter.py:94-125 | a drop after a scan that rejected every start keeps the whole loop invariant, and the fan-in was not dropped before |
| Greedy.GreedyCommit | Fitter.py:125-147 | a commit with the front LUT of the largest fan-in left keeps the greedy invariant; the fan-in stays to be tried iff its bucket still has LUTs |
| Greedy.CommitPending | Fitter.py:144-147 | after a commit every fan-in in stock is still to be tried or dropped, and those to try stay below every dropped one |
| Greedy.CommitDroppedForGood | Fitter.py:94-138 | a commit uses a fan-in smaller than every fan-in dropped before it |
| Greedy.CommitKeepsDrops | Fitter.py:106-125 | a new commit leaves the explanation of earlier drops unchanged |
| Greedy.CommitLargestFirst | Fitter.py:86-94 | a commit for the largest fan-in left comes after every larger fan-in in stock was dropped |
| Greedy.StopsCommit | Fitter.py:92-150 | a commit made with a node unpacked, and with two unpacked unless it is the first pass, keeps the stopping rule |
| Greedy.StopsDrop | Fitter.py:92-150 | a drop made with a node unpacked, and with two unpacked unless it is the first pass, keeps the stopping rule |
| Greedy.PackingExit | Fitter.py:92-150 | when the packing loop ends, by running out of nodes, reaching at most one unpacked node, or running out of fan-ins (early return), everything LayerPacked states holds |
| Greedy.ExitStock | Fitter.py:92-148 | at loop exit the inventory lost exactly the LUTs used, each bucket only from its front, following the stock history, with drops explained and largest-first order kept |
| Greedy.ExitCounts | Fitter.py:92-150 | at loop exit the groups are disjoint first fits, the matrix is the input after them, the loop stopped early only with a node unpacked and once every fan-in in stock was dropped, it did stop early when there were nodes but no LUT, it otherwise stopped with at most one node unpacked, and with at most one node it made at most one pass |

## Left out

- Console output and test drivers are left out: the `print` calls in `fit`, `pretty_print`, `execute_test` and the `__main__` block.
- `init_graph` is left out: it is never called and adds an int to a `range`, which raises in Python 3. The fields it sets (`graph_edges`, `data_input_nodes`, `control_input_nodes`) are never read. The getter `get_mux_dict` is the field `muxDict` itself.
- The body of `Mux.get_mux_params` (Fitter.py:123) is not part of this model. The checker is the parameter `check`, constrained only by `KeepsWidth` and `RejectsPadding`.
- If the checker accepted an all-padding group, the source would fail with an IndexError at Fitter.py:139. `RejectsPadding` excludes this case.
- lut.py (`Lut.evaluate`, a single table read) is not part of this model.
- numpy: the label matrix is an `array2<int>` rather than a float matrix.
  - `np.empty`'s contents are never observable, because every row is written before it is read.
  - The reused candidate buffer is a fresh sequence per start index.
- Floating-point `ceil(log2(mux_size))` is the integer `CeilLog2`. It is exact for every mux_size >= 1, while floating-point rounding for very large sizes is not modelled. A mux_size of 0 makes `log2` raise, so `Fit` requires `muxSize >= 1`.
- The `'{0:0Lb}'` formatting is the integer function `BinaryLabel`.
- `fit_layer` is a static method taking `mux_dict`. Its only call site passes `self.mux_dict`, so the model runs it on the field `muxDict`.
- The `IndexError` raised by `available_muxes.pop()` on an empty list (Fitter.py:93-101) is an explicit emptiness test that takes the early return.
- The `lut_list is None` branch (Fitter.py:135-136) can never run, because `dict.pop` never returns None. It is not modelled.
- Fitting.Fitter.constructor: it requires every LUT size to be in `lut2mux_map`.
  - The source files an unsupported size under the key None (Fitter.py:39).
  - `fit_layer` then fails when it sorts or uses that key.
- Fitting.Fitter.PackLayer: it requires no bucket to be empty.
  - A LUT-set entry with count 0 makes an empty bucket (Fitter.py:43), and `lut_list.pop(0)` on it raises (Fitter.py:137).
  - The constructor guarantees this requirement only when every count is positive.
- SelectMux.Mux.Evaluate: the control list must have at least numControlInputs entries, and the decoded index must be a valid Python index of the data list. Inputs outside these requirements raise IndexError in the source.
- Fitting.Fitter.TakeLut: the source stamps the group's rows between popping bucket m and putting its rest back. Nothing reads the map in between, so the model does the pop and the put-back in one step.
- Fitting.Fitter.Fit: it requires `usedLutList` to be a list. Calling `fit` again after a failed fit would append to None and raise.
- LUT counts are natural numbers (`lutSet: map<nat, nat>`). This rules out the negative counts that Fitter.py:43 accepts, where `[s] * c` with a negative c gives an empty list, just as a count of 0 does.
- The constructor's dictionary iteration order is modelled as arbitrary. The buckets after sorting do not depend on it.
- Fitting.Fitter.Fit: its ensures do not claim that the node count falls strictly from layer to layer, because the code does not guarantee it. Instead, termination and the bound on the number of layers come from the LUT stock.
