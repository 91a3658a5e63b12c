# Roads, truth tables and logic gates, verified

A Dafny model of the computational core of three Python modules of a small
set of school-exam helpers:

- **solver_1.py**: the road graph and its matcher.
  - A graph of settlements (one-letter names) and undirected roads, kept as sorted name pairs.
  - A 0/1 adjacency matrix, rebuilt after every change.
  - A brute-force search for the assignment of graph nodes to the labels of a distance table: the first permutation of the nodes, in `itertools.permutations` order, whose road structure agrees with the table.
  - The selection and naming logic of the drawing canvas.
  - Modules `Roads` (graph.dfy) and `Drawing` (canvas.dfy).
- **solver_2_task.py**: the formula object and the truth-table matcher.
  - The formula object rewrites the logic symbols, lists the variables, and builds the truth table row by row without repeats.
  - The matcher finds which column order and which choice of rows of a full truth table explains a partially filled fragment.
  - Modules `Formulas` (formula.dfy) and `TruthTables` (truth_table.dfy).
- **logElement.py**: a network of NOT, AND and OR gates.
  - Writing an input recomputes the gate and pushes its result into input 1 or 2 of the linked gate, recursively.
  - Module `LogicGates` (log_element.dfy).

The module `Permutations` (permutations.dfy) states the enumeration order of
`itertools.permutations`. `Arrangements(s, k)` lists the k-permutations of `s`:
the first element is taken from each position in turn, and the rest are
arranged recursively from what remains. The module proves that every
arrangement is drawn from `s` without reuse and that every such draw is
listed. The module `Wrappers` (wrappers.dfy) holds `Option`.

Design choices:

- **Graph, canvas, formula object and gates are classes.** Their methods update fields in place, and each method's `ensures` states the new state.
- **Read-only loops are methods.** `check_ans`, `solve`, `_check_mapping`, `find_isomorphism` and `_get_next_node_name` are methods with loops, proved against predicates and functions over sequences.
- **Gate subclasses become one class.** TNot, TAnd and TOr differ only in `calc`, so one class carries a `kind`.
- **Propagation takes a ghost `chain`.** A setter receives the element and everything its writes reach. It is proved to leave the chain as the function `Cascade` computes from the old state. `Cascade` is then proved to settle each gate at its `calc` value, with each linked input holding its predecessor's result.

## Model

| member | source | states |
|---|---|---|
| Roads.SortedPairSymmetric | solver_1.py:30-31 | (a, b) and (b, a) are stored as the same road, in ascending order, joining exactly a and b |
| Roads.AdjacencyBySortedPair | solver_1.py:42-54 | a matrix of the stored roads is symmetric, and entry [i][j] is 1 exactly when the sorted pair of nodes i and j is a road, else 0 |
| Roads.Graph.constructor | solver_1.py:14-20 | a new graph has no nodes, no roads and an empty matrix, and is consistent |
| Roads.Graph.AddNode | solver_1.py:22-26 | a known name changes nothing (idempotent); a new name is appended after the earlier nodes; the roads are kept and the matrix matches again |
| Roads.Graph.AddEdge | solver_1.py:28-40 | afterwards both ends are nodes, the missing ends are appended in order a, b, the sorted pair is added to the roads, and the matrix matches |
| Roads.Graph.UpdateAdjacencyMatrix | solver_1.py:42-54 | the rebuilt matrix is n×n for n nodes, with 1 exactly at both entries of every road and 0 elsewhere |
| Roads.Graph.CheckMapping | solver_1.py:74-105 | true exactly when, for every ordered pair of nodes, the matrix bit agrees with whether the table cell at the mapped labels' positions is filled |
| Roads.Graph.FindIsomorphism | solver_1.py:56-72 | the result is the zip of the first permutation, in enumeration order, that the check accepts, with no earlier one accepted; when none is accepted, the nodes zipped with the labels in order |
| Roads.ArrangementIsOrdering | solver_1.py:62 | every permutation enumerated is a duplicate-free reordering of all the nodes |
| Roads.ArrangementIsProblem | solver_1.py:62-67 | every permutation enumerated, with at least as many labels as nodes and a table large enough, is a valid input of the check |
| Roads.MappedIndex | solver_1.py:90-95 | with distinct labels, the table index of node i is the position of that node in the permutation |
| Roads.FittingTableIsSymmetric | solver_1.py:84-103 | a table that some mapping fits has its filled cells placed symmetrically |
| Roads.OwnTableFitsFirst | solver_1.py:56-68 | a table copied from the graph's own matrix is fitted by the identity mapping, which is the first permutation tried |
| Roads.AddEdgeAsWritten | solver_1.py:28-40 | `add_edge` in its written order: the road is stored first, then each missing end is added and the matrix rebuilt; when that order succeeds, the road is stored, both ends are nodes and the old nodes keep their places |
| Roads.AddEdgeAsWrittenFailsIffBothNew | solver_1.py:28-40 | `add_edge` as written fails exactly when both ends are new and different; otherwise it ends in the state Roads.Graph.AddEdge produces |
| Roads.AddEdgeAsWrittenCounterexample | solver_1.py:31-38 | drawing the first road between two new places of an empty graph fails as written |
| Drawing.GraphCanvas.constructor | solver_1.py:114-118 | a new canvas refers to the given graph and has nothing selected |
| Drawing.GraphCanvas.HandleNodeClick | solver_1.py:150-161 | clicking a selected node deselects it; with nothing selected the node becomes selected; a second node adds the road between the two and empties the selection; at most one node stays selected |
| Drawing.GraphCanvas.AddEdgeBetweenSelected | solver_1.py:163-174 | with exactly two nodes selected the road between them is added and the selection emptied; otherwise nothing changes |
| Drawing.GraphCanvas.NextNodeName | solver_1.py:186-195 | the name is the first letter not used as a node name, and "Я" only when every letter is used |
| Drawing.GraphCanvas.CreateNewNode | solver_1.py:176-180 | the name `_get_next_node_name` gives becomes a node: the first letter not yet a node, or the fallback "Я" exactly when every letter is used; a new name is appended, the roads stay, and the name is new whenever fewer nodes than letters exist |
| Drawing.LettersDistinct | solver_1.py:189 | the letters of the alphabet are pairwise different |
| Drawing.FreeLetterExists | solver_1.py:186-195 | with fewer nodes than letters some letter is free |
| Permutations.Arrangements | solver_2_task.py:140-141 | `itertools.permutations(s, k)` in emission order, first position slowest; the list is empty exactly when k exceeds the length of s |
| Permutations.ArrangementsDrawn | solver_2_task.py:140-141 | every k-permutation has k elements, drawn without reuse |
| Permutations.ArrangementsComplete | solver_2_task.py:140-141 | every draw of k elements without reuse is enumerated |
| Permutations.FirstArrangementIsPrefix | solver_1.py:62 | the first permutation enumerated keeps the original order |
| Permutations.DrawnFromDistinct | solver_2_task.py:140 | drawing from distinct elements gives distinct elements, all from the source |
| TruthTables.CheckAns | solver_2_task.py:126-133 | true exactly when every filled cell of the fragment equals the candidate's cell at the same place |
| TruthTables.ErasedCandidateAgrees | solver_2_task.py:128-133 | a fragment made by blanking cells of a candidate, or left entirely blank, is matched by that candidate |
| TruthTables.Reorder | solver_2_task.py:146 | the reordered table keeps its rows, each with the chosen variable columns plus the F column |
| TruthTables.Pick | solver_2_task.py:149 | the candidate's rows are the table rows at the chosen positions, in that order |
| TruthTables.Solve | solver_2_task.py:135-152 | a returned solution passes the check, is built from its own permutations, and every earlier column order and earlier row choice fails; None exactly when no combination passes |
| TruthTables.ColOrderIsPermutation | solver_2_task.py:141 | every column order is a permutation of the variable columns 0 .. w-2 |
| TruthTables.RowChoiceIsDistinct | solver_2_task.py:140 | every row choice is k distinct row positions of the table |
| TruthTables.CandidateShape | solver_2_task.py:144-149 | every candidate has k rows; each row keeps the F column last and shows the picked row with its variable columns reordered |
| TruthTables.NoMatchIsExhaustive | solver_2_task.py:135-152 | when nothing is found, no column permutation with any choice of k distinct rows matches |
| Formulas.Formule.constructor | solver_2_task.py:11-26 | the stored form is the text with every logic symbol rewritten, the variable list is that of the text, and the table is empty |
| Formulas.GuardedReplace | solver_2_task.py:14-18 | a `replace` guarded by a membership test has the effect of the plain `replace` |
| Formulas.PipelineIsTranslate | solver_2_task.py:14-18 | the five replaces in sequence rewrite each character on its own, as one left-to-right pass |
| Formulas.TranslateRemovesSymbols | solver_2_task.py:14-18 | no ∨, ∧, ¬, ≡ or → survives the rewrite |
| Formulas.TranslateKeepsPlainText | solver_2_task.py:14-18 | text without those symbols is left unchanged |
| Formulas.SelectedInOrder | solver_2_task.py:21-24 | after each candidate, the list holds exactly the candidates so far that occur in the text, in candidate order |
| Formulas.VariablesInOrder | solver_2_task.py:20-24 | the variable list holds exactly the letters of x, y, z, w, u, F that occur in the text, each once, in that order |
| Formulas.Assignment | solver_2_task.py:30-35 | each step of the loops assigns five values, each 0 or 1 |
| Formulas.AssignmentAt | solver_2_task.py:30-35 | the loops reach the values x, y, z, w, u at step 16x+8y+4z+2w+u, with x slowest |
| Formulas.AccumulateStep | solver_2_task.py:41-42 | one more step of the loops adds that step's row unless the table already holds it |
| Formulas.PrintStep | solver_2_task.py:35-42 | the row the loop body builds and adds is the row of that step |
| Formulas.Formule.PrintTable | solver_2_task.py:28-42 | the table grows by the rows of the 32 assignments in loop order, each added only when absent; a row holds the values of the variables the formula names, then F (the corrected columns, see Findings) |
| Formulas.AccumulateKeeps | solver_2_task.py:41-42 | rows already in the table stay |
| Formulas.AccumulateGains | solver_2_task.py:41-42 | every row produced is in the table afterwards |
| Formulas.AccumulateOnly | solver_2_task.py:41-42 | the table gains no row that was not produced |
| Formulas.AccumulateDistinct | solver_2_task.py:41-42 | a table without repeated rows stays so, and grows by at most one row per step |
| Formulas.PrintedTableShape | solver_2_task.py:28-42 | from an empty table: no row twice, at most 32 rows, each as wide as the formula names variables among x, y, z, w, u, plus F |
| Formulas.ProjectWidth | solver_2_task.py:36-37 | the values taken for a row are one per variable the formula names |
| Formulas.NamedCountSelected | solver_2_task.py:21-24 | after i candidates, the variable list is as long as the count of named variables among them |
| Formulas.RowWidth | solver_2_task.py:20-24 | the variables named among x, y, z, w, u number `len(spisok)`, less one when the formula contains F, which is no loop variable |
| Formulas.IntendedTableFunctional | solver_2_task.py:35-39 | with rows built from the formula's own variables, a formula depending only on them gives a table in which equal variable columns mean equal F |
| Formulas.AsWrittenIsIntendedForLeadingVariables | solver_2_task.py:37 | when the variables are the first k of x, y, z, w, u, the rows as written are the intended ones |
| Formulas.YAndWVariables | solver_2_task.py:21-24 | the formula y∧w names y and w |
| Formulas.YAndWDependsOnItsVariables | solver_2_task.py:39 | the value of y∧w depends on y and w alone |
| Formulas.AsWrittenTableNotFunctional | solver_2_task.py:35-42 | as written, the table of y∧w holds rows [0, 1, 0] and [0, 1, 1]: equal variable columns, different F |
| LogicGates.Store | logElement.py:44-55 | a write stores the value in the chosen input, keeps the other, and sets the result to the gate's `calc` value; a plain element keeps its result |
| LogicGates.CascadeSettles | logElement.py:44-60 | after a write runs down a chain, the written input holds the value, each result is its gate's `calc` value, each linked input holds its predecessor's result, and every other input is as before |
| LogicGates.CascadeIdempotent | logElement.py:44-60 | writing the same value again changes nothing |
| LogicGates.LogElement.constructor | logElement.py:34-40 | a new element has both inputs and the result False, no successor and `nextIn` 0 |
| LogicGates.LogElement.Link | logElement.py:41-43 | only the successor and the port it feeds change |
| LogicGates.LogElement.Recalc | logElement.py:64-85 | NOT gives not in1, AND gives in1 and in2, OR gives in1 or in2, and the base element keeps its result |
| LogicGates.LogElement.SetIn1 | logElement.py:44-51 | only the chain changes, no link changes, and the chain's inputs and results become the cascade of the write into input 1 |
| LogicGates.LogElement.SetIn2 | logElement.py:53-60 | the same for input 2 |
| LogicGates.LogElement.Propagate | logElement.py:47-51 | a linked element writes its result into input `nextIn` of the next one, whose chain takes it on; the element itself is untouched |
| LogicGates.Forwarded | logElement.py:44-51 | the whole chain's cascade is the head's store followed by the cascade of its result into the rest |
| LogicGates.NotDemo | logElement.py:71-73 | a fresh NOT gate given False shows True |
| LogicGates.NandRound | logElement.py:93-95 | in the AND-into-NOT circuit, writing A then B shows not (A and B) |
| LogicGates.NandDemo | logElement.py:86-95 | the circuit prints the NAND table 1, 1, 1, 0 |
| LogicGates.NegateInto | logElement.py:116-117 | a value written into a NOT gate reaches the linked AND input negated |
| LogicGates.XorNegate | logElement.py:116-117 | after writing B and A into the NOT gates, the ANDs hold not B and not A |
| LogicGates.XorCombine | logElement.py:118-120 | after writing A and B into the ANDs, the OR shows A xor B |
| LogicGates.XorRound | logElement.py:116-120 | the four writes of one line leave the wiring intact and show A xor B |
| LogicGates.XorDemo | logElement.py:97-120 | the five-gate circuit prints the XOR table 0, 1, 1, 0 |

## Left out

- The game solver is not part of this model: no source for it is available.
- The Qt and Tk user interface is not modelled. This covers painting, mouse handling, `_is_point_near`, the matrix input widget, the main windows, `Entry_table` and `Formule.draw_table`.
- Node positions on the canvas (`node_positions`) are not modelled; `Drawing.GraphCanvas.CreateNewNode` drops the click coordinates.
- Python's `eval` of the rewritten formula is a function parameter `ev` from the values [x, y, z, w, u] to the number `int(eval(form))` gives.
- numpy arrays are sequences of sequences: `TruthTables.Reorder` and `TruthTables.Pick` state the two fancy-indexing expressions that are used.
- The `Solver` class (which only stores the two arrays) is replaced by passing them to `TruthTables.Solve` and `TruthTables.CheckAns`.
- `TruthTables.Solve` requires non-empty tables of equal width. The source raises on an empty table or on a fragment wider than the table. It accepts a narrower fragment: it then takes the table column at the fragment's last index as F and compares only the fragment's columns. The model leaves that case out because the only caller builds the fragment as wide as the table.
- Roads.Graph.CheckMapping: takes the permutation and the labels instead of the dictionary `dict(zip(perm, labels))`. The labels are looked up, as `list(mapping.values()).index` does, among the first n labels.
- Roads.Graph.FindIsomorphism: requires at least as many labels as nodes and a table at least that large. With fewer, the mapping lookup or the table indexing raises.
- Roads.Graph.AddEdge: adds the end nodes before storing the road (see Findings); the order as written is modelled by `Roads.AddEdgeAsWritten`.
- LogicGates.LogElement.SetIn1: requires the chain of elements its writes reach to be finite and free of cycles. With a cycle of links the Python setters recurse without end.
- LogicGates.LogElement.SetIn2: the same acyclic-chain requirement as SetIn1.
- Gate inputs are `bool`. The demos write the ints 0 and 1, so in Python `and`/`or` can return those ints, but `int(...)` prints the same truth values either way.
- The gate classes TNot, TAnd, TOr and TLog2In become one class with a `kind`: the four classes differ only in `calc`, and TLog2In adds nothing of its own.
- The module-level demo loops print their tables. Here `LogicGates.NandDemo` and `LogicGates.XorDemo` return the printed results as a sequence.
- The check `if noviy_spisok not in self.tablitsa: append` is written `table := AddIfAbsent(table, row)`.
- Formulas.Formule.PrintTable: builds the rows from the variables the formula names (see Findings). The slice `peremennye[:len(self.spisok)]` as written is the `Leading` column choice, used by `Formulas.AsWrittenTableNotFunctional`.
- The commented-out road/car code of logElement.py, shapes.py and canvas.py are not part of this model.

## Findings

| source | as written | input that shows it | evidently intended | confidence | as-written member | corrected member |
|---|---|---|---|---|---|---|
| solver_1.py:28-40 | `add_edge` stores the road first. A missing first end is then added with `add_node`, whose matrix rebuild looks up both ends of every road before the second end exists. | `add_edge("А", "Б")` on an empty graph: `nodes.index("Б")` raises ValueError | add both ends, then the road, then rebuild | high, not executed | Roads.AddEdgeAsWrittenCounterexample | Roads.Graph.AddEdge |
| solver_2_task.py:37 | each row takes the first `len(spisok)` of x, y, z, w, u, whatever letters the formula names | formula y∧w: its columns, headed y and w, show x and y; rows [0, 1, 0] and [0, 1, 1] both appear | the values of the variables the formula names | high, not executed | Formulas.AsWrittenTableNotFunctional | Formulas.IntendedTableFunctional |
