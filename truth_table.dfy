/**
 * The truth-table matcher of solver_2_task.py (class `Solver`): a partially
 * filled fragment of a truth table (blank cells are None) is matched against
 * the full table of a formula by reordering the variable columns, with the
 * function column F kept last, and choosing k distinct rows in order.
 */
module TruthTables {
  import opened Wrappers
  import opened Permutations

  type Cell = Option<int>

  /** `len(m[0])`, taken as 0 for a table without rows. */
  function Width<T>(m: seq<seq<T>>): nat {
    if |m| == 0 then 0 else |m[0]|
  }

  /** The shape numpy gives a list of equal-length rows. */
  predicate Rectangular<T>(m: seq<seq<T>>) {
    forall r :: 0 <= r < |m| ==> |m[r]| == Width(m)
  }

  /** A blank cell accepts anything; a filled one only its own value. */
  predicate CellAgrees(c: Cell, v: int) {
    c.None? || c.value == v
  }

  /** `ans` covers every cell that `check_ans` visits. */
  predicate Covers(matrix: seq<seq<Cell>>, ans: seq<seq<int>>) {
    && Rectangular(matrix)
    && |ans| >= |matrix|
    && forall y :: 0 <= y < |matrix| ==> |ans[y]| >= Width(matrix)
  }

  /** Every filled cell of the fragment equals the candidate's cell at the same place. */
  predicate Agrees(matrix: seq<seq<Cell>>, ans: seq<seq<int>>)
    requires Covers(matrix, ans)
  {
    forall y, x :: 0 <= y < |matrix| && 0 <= x < Width(matrix) ==> CellAgrees(matrix[y][x], ans[y][x])
  }

  /** `check_ans`: row by row, cell by cell, false at the first filled cell that differs. */
  method CheckAns(matrix: seq<seq<Cell>>, ans: seq<seq<int>>) returns (ok: bool)
    requires Covers(matrix, ans)
    ensures ok == Agrees(matrix, ans)
  {
    for y := 0 to |matrix|
      invariant forall p, x :: 0 <= p < y && 0 <= x < Width(matrix) ==> CellAgrees(matrix[p][x], ans[p][x])
    {
      for x := 0 to |matrix[0]|
        invariant forall q :: 0 <= q < x ==> CellAgrees(matrix[y][q], ans[y][q])
      {
        if matrix[y][x] != Some(ans[y][x]) && matrix[y][x].Some? {
          return false;
        }
      }
    }
    return true;
  }

  /** Erasing cells of a candidate gives a fragment that the candidate matches; an all-blank fragment is matched by anything of its shape. */
  lemma ErasedCandidateAgrees(matrix: seq<seq<Cell>>, ans: seq<seq<int>>)
    requires Covers(matrix, ans)
    requires forall y, x :: 0 <= y < |matrix| && 0 <= x < Width(matrix) ==>
               matrix[y][x] == None || matrix[y][x] == Some(ans[y][x])
    ensures Agrees(matrix, ans)
  {
  }

  /** `new_table = true_table[:, col_perm + (last,)]`: columns reordered, column `last` appended. */
  function Reorder(table: seq<seq<int>>, colPerm: seq<nat>, last: nat): (t: seq<seq<int>>)
    requires Rectangular(table) && last < Width(table)
    requires forall c :: 0 <= c < |colPerm| ==> colPerm[c] < Width(table)
    ensures |t| == |table|
    ensures forall r :: 0 <= r < |t| ==> |t[r]| == |colPerm| + 1
  {
    seq(|table|, r requires 0 <= r < |table| =>
      seq(|colPerm|, c requires 0 <= c < |colPerm| => table[r][colPerm[c]]) + [table[r][last]])
  }

  /** `new_table[row_perm, :]`: the rows at the given positions, in that order. */
  function Pick(t: seq<seq<int>>, rowPerm: seq<nat>): (p: seq<seq<int>>)
    requires forall i :: 0 <= i < |rowPerm| ==> rowPerm[i] < |t|
    ensures |p| == |rowPerm| && forall i :: 0 <= i < |p| ==> p[i] == t[rowPerm[i]]
  {
    seq(|rowPerm|, i requires 0 <= i < |rowPerm| => t[rowPerm[i]])
  }

  /** What `solve` demands of its inputs: both tables non-empty and rectangular, of equal width. */
  predicate WellShaped(matrix: seq<seq<Cell>>, table: seq<seq<int>>) {
    && |table| > 0 && Rectangular(table) && Width(table) >= 1
    && |matrix| > 0 && Rectangular(matrix) && Width(matrix) == Width(table)
  }

  /** A column order of the variable columns: the positions 0 .. w-2, each once. */
  predicate IsColPerm(colPerm: seq<nat>, w: nat) {
    w >= 1 && |colPerm| == w - 1 && forall c :: 0 <= c < |colPerm| ==> colPerm[c] < w - 1
  }

  /** k row positions of a table with n rows. */
  predicate IsRowPerm(rowPerm: seq<nat>, n: nat, k: nat) {
    |rowPerm| == k && forall i :: 0 <= i < k ==> rowPerm[i] < n
  }

  /** The candidate `solve` builds for one column order and one row choice. */
  function Candidate(table: seq<seq<int>>, colPerm: seq<nat>, rowPerm: seq<nat>): seq<seq<int>>
    requires Rectangular(table) && IsColPerm(colPerm, Width(table)) && IsRowPerm(rowPerm, |table|, |rowPerm|)
  {
    Pick(Reorder(table, colPerm, Width(table) - 1), rowPerm)
  }

  /** The candidate for (colPerm, rowPerm) passes `check_ans`. */
  predicate Matches(matrix: seq<seq<Cell>>, table: seq<seq<int>>, colPerm: seq<nat>, rowPerm: seq<nat>) {
    && WellShaped(matrix, table)
    && IsColPerm(colPerm, Width(table))
    && IsRowPerm(rowPerm, |table|, |matrix|)
    && Agrees(matrix, Candidate(table, colPerm, rowPerm))
  }

  /** `permutations(range(n_cols - 1))` */
  function ColOrders(w: nat): seq<seq<nat>>
    requires w >= 1
  {
    Arrangements(Range(w - 1), w - 1)
  }

  /** `permutations(range(n_rows), k)` */
  function RowChoices(n: nat, k: nat): seq<seq<nat>> {
    Arrangements(Range(n), k)
  }

  datatype Solution = Solution(answer: seq<seq<int>>, rowPerm: seq<nat>, colPerm: seq<nat>)

  /**
   * `solve`: column orders outermost, row choices inside, both in
   * `itertools.permutations` order; the first candidate that passes
   * `check_ans` is returned with its row and column permutations, and
   * `(None, None, None)` (here None) when no candidate passes.
   */
  method Solve(matrix: seq<seq<Cell>>, table: seq<seq<int>>) returns (r: Option<Solution>)
    requires WellShaped(matrix, table)
    ensures r.Some? ==>
      var cols := ColOrders(Width(table));
      var rows := RowChoices(|table|, |matrix|);
      exists ci, ri :: 0 <= ci < |cols| && 0 <= ri < |rows|
        && Matches(matrix, table, cols[ci], rows[ri])
        && r.value == Solution(Candidate(table, cols[ci], rows[ri]), rows[ri], cols[ci])
        && (forall c, q :: 0 <= c < ci && 0 <= q < |rows| ==> !Matches(matrix, table, cols[c], rows[q]))
        && (forall q :: 0 <= q < ri ==> !Matches(matrix, table, cols[ci], rows[q]))
    ensures r.None? ==>
      var cols := ColOrders(Width(table));
      var rows := RowChoices(|table|, |matrix|);
      forall ci, ri :: 0 <= ci < |cols| && 0 <= ri < |rows| ==> !Matches(matrix, table, cols[ci], rows[ri])
  {
    var n, w := |table|, |table[0]|;
    var k := |matrix|;
    var rows := RowChoices(n, k);
    var cols := ColOrders(w);
    for ci := 0 to |cols|
      invariant forall c, q :: 0 <= c < ci && 0 <= q < |rows| ==> !Matches(matrix, table, cols[c], rows[q])
    {
      var colPerm := cols[ci];
      ColOrderIsPermutation(w, colPerm);
      var newTable := Reorder(table, colPerm, |matrix[0]| - 1);
      for ri := 0 to |rows|
        invariant forall q :: 0 <= q < ri ==> !Matches(matrix, table, colPerm, rows[q])
      {
        var rowPerm := rows[ri];
        RowChoiceIsDistinct(n, k, rowPerm);
        var posAns := Pick(newTable, rowPerm);
        var ok := CheckAns(matrix, posAns);
        if ok {
          return Some(Solution(posAns, rowPerm, colPerm));
        }
      }
    }
    return None;
  }

  /** Numbers drawn without reuse from `range(n)` are distinct and below n. */
  lemma DrawnIndices(n: nat, p: seq<nat>)
    requires multiset(p) <= multiset(Range(n))
    ensures NoDups(p) && forall i :: 0 <= i < |p| ==> p[i] < n
  {
    assert NoDups(Range(n));
    DrawnFromDistinct(Range(n), p);
    forall i | 0 <= i < |p| ensures p[i] < n {
      assert p[i] in p;
      assert p[i] in Range(n);
    }
  }

  /** Every column order is a permutation of 0 .. w-2. */
  lemma ColOrderIsPermutation(w: nat, colPerm: seq<nat>)
    requires w >= 1 && colPerm in ColOrders(w)
    ensures IsColPerm(colPerm, w) && NoDups(colPerm)
    ensures multiset(colPerm) == multiset(Range(w - 1))
  {
    ArrangementsDrawn(Range(w - 1), w - 1);
    DrawnIndices(w - 1, colPerm);
    SameSizeSubMultiset(colPerm, Range(w - 1));
  }

  /** Every row choice is k distinct row positions of the table. */
  lemma RowChoiceIsDistinct(n: nat, k: nat, rowPerm: seq<nat>)
    requires rowPerm in RowChoices(n, k)
    ensures IsRowPerm(rowPerm, n, k) && NoDups(rowPerm)
  {
    ArrangementsDrawn(Range(n), k);
    DrawnIndices(n, rowPerm);
  }

  /**
   * Every candidate keeps the F column last and otherwise shows, for each of
   * its k rows, the picked truth-table row with its variable columns in the
   * chosen order; the picked rows are distinct rows of the table.
   */
  lemma CandidateShape(table: seq<seq<int>>, k: nat, colPerm: seq<nat>, rowPerm: seq<nat>)
    requires |table| > 0 && Rectangular(table) && Width(table) >= 1
    requires colPerm in ColOrders(Width(table)) && rowPerm in RowChoices(|table|, k)
    ensures IsColPerm(colPerm, Width(table)) && IsRowPerm(rowPerm, |table|, k) && NoDups(rowPerm)
    ensures var cand := Candidate(table, colPerm, rowPerm);
      && |cand| == k
      && forall i :: 0 <= i < k ==>
           && |cand[i]| == Width(table)
           && cand[i][Width(table) - 1] == table[rowPerm[i]][Width(table) - 1]
           && forall c :: 0 <= c < Width(table) - 1 ==> cand[i][c] == table[rowPerm[i]][colPerm[c]]
  {
    ColOrderIsPermutation(Width(table), colPerm);
    RowChoiceIsDistinct(|table|, k, rowPerm);
  }

  /**
   * When `solve` finds nothing, no column permutation together with any choice
   * of k distinct rows matches: the search is exhaustive.
   */
  lemma NoMatchIsExhaustive(matrix: seq<seq<Cell>>, table: seq<seq<int>>, colPerm: seq<nat>, rowPerm: seq<nat>)
    requires WellShaped(matrix, table)
    requires forall ci, ri :: 0 <= ci < |ColOrders(Width(table))| && 0 <= ri < |RowChoices(|table|, |matrix|)| ==>
               !Matches(matrix, table, ColOrders(Width(table))[ci], RowChoices(|table|, |matrix|)[ri])
    requires multiset(colPerm) == multiset(Range(Width(table) - 1))
    requires |rowPerm| == |matrix| && multiset(rowPerm) <= multiset(Range(|table|))
    ensures !Matches(matrix, table, colPerm, rowPerm)
  {
    var cols := ColOrders(Width(table));
    var rows := RowChoices(|table|, |matrix|);
    assert |colPerm| == |multiset(colPerm)| == |multiset(Range(Width(table) - 1))| == Width(table) - 1;
    ArrangementsComplete(Range(Width(table) - 1), Width(table) - 1, colPerm);
    ArrangementsComplete(Range(|table|), |matrix|, rowPerm);
    var ci :| 0 <= ci < |cols| && cols[ci] == colPerm;
    var ri :| 0 <= ri < |rows| && rows[ri] == rowPerm;
  }
}
