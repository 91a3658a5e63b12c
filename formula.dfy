/**
 * The formula object of solver_2_task.py (class `Formule`): the logic symbols
 * of the typed formula are rewritten into Python operators, the variables are
 * listed in the fixed order x, y, z, w, u, F, and the truth table is built by
 * five nested loops over x, y, z, w, u, adding each row that is not yet there.
 * Python's `eval` of the rewritten text is a parameter: the value that
 * `int(eval(form))` takes under an assignment [x, y, z, w, u].
 */
module Formulas {
  import opened Permutations

  /** The symbols rewritten, in the order the constructor rewrites them. */
  const Symbols: seq<char> := ['∨', '∧', '¬', '≡', '→']

  /** The number of assignments to x, y, z, w, u the nested loops visit. */
  const Steps: nat := 32

  /** The variable names looked for, in this order. */
  const Candidates: seq<char> := ['x', 'y', 'z', 'w', 'u', 'F']

  /** `str.replace(c, r)` for a one-character c: every occurrence, left to right. */
  function ReplaceChar(s: string, c: char, r: string): string
  {
    if s == [] then [] else (if s[0] == c then r else [s[0]]) + ReplaceChar(s[1..], c, r)
  }

  /** What one character becomes after all five rewrites. */
  function Rewrite(ch: char): string {
    if ch == '∨' then " or "
    else if ch == '∧' then " and "
    else if ch == '¬' then " not "
    else if ch == '≡' then " == "
    else if ch == '→' then " <= "
    else [ch]
  }

  /** The rewritten formula as one left-to-right pass over the text. */
  function Translate(s: string): string {
    if s == [] then [] else Rewrite(s[0]) + Translate(s[1..])
  }

  /** The five `replace` calls of the constructor, in order. */
  function Pipeline(s: string): string {
    var s1 := ReplaceChar(s, '∨', " or ");
    var s2 := ReplaceChar(s1, '∧', " and ");
    var s3 := ReplaceChar(s2, '¬', " not ");
    var s4 := ReplaceChar(s3, '≡', " == ");
    ReplaceChar(s4, '→', " <= ")
  }

  lemma {:induction false} ReplaceCharAppend(a: string, b: string, c: char, r: string)
    ensures ReplaceChar(a + b, c, r) == ReplaceChar(a, c, r) + ReplaceChar(b, c, r)
  {
    if a == [] {
      assert a + b == b;
    } else {
      assert (a + b)[1..] == a[1..] + b;
      ReplaceCharAppend(a[1..], b, c, r);
    }
  }

  lemma {:induction false} ReplaceCharAbsent(s: string, c: char, r: string)
    requires c !in s
    ensures ReplaceChar(s, c, r) == s
  {
    if s != [] {
      ReplaceCharAbsent(s[1..], c, r);
    }
  }

  lemma ReplaceCharSingle(ch: char, c: char, r: string)
    ensures ReplaceChar([ch], c, r) == if ch == c then r else [ch]
  {
    assert [ch][1..] == [];
  }

  /** The rewrites of one character, applied in sequence, give its Rewrite. */
  lemma PipelineOfChar(ch: char)
    ensures Pipeline([ch]) == Rewrite(ch)
  {
    if ch == '∨' {
      PipelineOfSymbol(ch, " or ");
    } else if ch == '∧' {
      PipelineOfSymbol(ch, " and ");
    } else if ch == '¬' {
      PipelineOfSymbol(ch, " not ");
    } else if ch == '≡' {
      PipelineOfSymbol(ch, " == ");
    } else if ch == '→' {
      PipelineOfSymbol(ch, " <= ");
    } else {
      ReplaceCharSingle(ch, '∨', " or ");
      ReplaceCharSingle(ch, '∧', " and ");
      ReplaceCharSingle(ch, '¬', " not ");
      ReplaceCharSingle(ch, '≡', " == ");
      ReplaceCharSingle(ch, '→', " <= ");
    }
  }

  /** A symbol is replaced by its operator, which no later rewrite touches. */
  lemma PipelineOfSymbol(ch: char, op: string)
    requires ch in Symbols && op == Rewrite(ch)
    requires '∨' !in op && '∧' !in op && '¬' !in op && '≡' !in op && '→' !in op
    ensures Pipeline([ch]) == op
  {
    ReplaceCharAbsent(op, '∨', " or ");
    ReplaceCharAbsent(op, '∧', " and ");
    ReplaceCharAbsent(op, '¬', " not ");
    ReplaceCharAbsent(op, '≡', " == ");
    ReplaceCharAbsent(op, '→', " <= ");
    ReplaceCharSingle(ch, '∨', " or ");
    ReplaceCharSingle(ch, '∧', " and ");
    ReplaceCharSingle(ch, '¬', " not ");
    ReplaceCharSingle(ch, '≡', " == ");
    ReplaceCharSingle(ch, '→', " <= ");
  }

  /** Rewriting symbol by symbol over the whole text equals one pass character by character. */
  lemma {:induction false} PipelineIsTranslate(s: string)
    ensures Pipeline(s) == Translate(s)
  {
    if s != [] {
      PipelineIsTranslate(s[1..]);
      PipelineOfChar(s[0]);
      assert s == [s[0]] + s[1..];
      PipelineAppend([s[0]], s[1..]);
    }
  }

  lemma PipelineAppend(a: string, b: string)
    ensures Pipeline(a + b) == Pipeline(a) + Pipeline(b)
  {
    var s1a, s1b := ReplaceChar(a, '∨', " or "), ReplaceChar(b, '∨', " or ");
    ReplaceCharAppend(a, b, '∨', " or ");
    var s2a, s2b := ReplaceChar(s1a, '∧', " and "), ReplaceChar(s1b, '∧', " and ");
    ReplaceCharAppend(s1a, s1b, '∧', " and ");
    var s3a, s3b := ReplaceChar(s2a, '¬', " not "), ReplaceChar(s2b, '¬', " not ");
    ReplaceCharAppend(s2a, s2b, '¬', " not ");
    var s4a, s4b := ReplaceChar(s3a, '≡', " == "), ReplaceChar(s3b, '≡', " == ");
    ReplaceCharAppend(s3a, s3b, '≡', " == ");
    ReplaceCharAppend(s4a, s4b, '→', " <= ");
  }

  /** No logic symbol survives the rewrite. */
  lemma {:induction false} TranslateRemovesSymbols(s: string)
    ensures forall c :: c in Symbols ==> c !in Translate(s)
  {
    if s != [] {
      TranslateRemovesSymbols(s[1..]);
      assert Translate(s) == Rewrite(s[0]) + Translate(s[1..]);
    }
  }

  /** Text without logic symbols is left as it is. */
  lemma {:induction false} TranslateKeepsPlainText(s: string)
    requires forall c :: c in Symbols ==> c !in s
    ensures Translate(s) == s
  {
    if s != [] {
      assert s[0] !in Symbols;
      TranslateKeepsPlainText(s[1..]);
    }
  }

  /** The candidates among the first i that occur in the text, in candidate order. */
  function Selected(text: string, i: nat): seq<char>
    requires i <= |Candidates|
  {
    if i == 0 then []
    else Selected(text, i - 1) + (if Candidates[i - 1] in text then [Candidates[i - 1]] else [])
  }

  /** `spisok`: the variables of the formula text. */
  function VariablesOf(text: string): seq<char> {
    Selected(text, |Candidates|)
  }

  /**
   * The variable list holds exactly the candidates that occur in the text,
   * each once, in the fixed candidate order.
   */
  lemma {:induction false} SelectedInOrder(text: string, i: nat)
    requires i <= |Candidates|
    ensures forall c :: c in Selected(text, i) <==> c in Candidates[..i] && c in text
    ensures forall k :: 0 <= k < |Selected(text, i)| ==>
              Selected(text, i)[k] in Candidates && IndexOf(Candidates, Selected(text, i)[k]) < i
    ensures forall k, l :: 0 <= k < l < |Selected(text, i)| ==>
              IndexOf(Candidates, Selected(text, i)[k]) < IndexOf(Candidates, Selected(text, i)[l])
  {
    if i > 0 {
      SelectedInOrder(text, i - 1);
      assert NoDups(Candidates);
      IndexOfDistinct(Candidates, i - 1);
      assert Candidates[..i] == Candidates[..i - 1] + [Candidates[i - 1]];
    }
  }

  lemma VariablesInOrder(text: string)
    ensures forall c :: c in VariablesOf(text) <==> c in Candidates && c in text
    ensures NoDups(VariablesOf(text))
    ensures forall k, l :: 0 <= k < l < |VariablesOf(text)| ==>
              IndexOf(Candidates, VariablesOf(text)[k]) < IndexOf(Candidates, VariablesOf(text)[l])
  {
    SelectedInOrder(text, |Candidates|);
    assert Candidates[..|Candidates|] == Candidates;
  }

  /** The values [x, y, z, w, u] of the assignment visited at step `code` of the nested loops. */
  function Assignment(code: nat): (a: seq<int>)
    ensures |a| == 5 && forall i :: 0 <= i < 5 ==> a[i] == 0 || a[i] == 1
  {
    Bits(code, 5)
  }

  /** The last n binary digits of `code`, most significant first. */
  function Bits(code: nat, n: nat): (r: seq<int>)
    ensures |r| == n && forall i :: 0 <= i < n ==> r[i] == 0 || r[i] == 1
  {
    if n == 0 then [] else Bits(code / 2, n - 1) + [code % 2]
  }

  function Min(a: nat, b: nat): nat {
    if a < b then a else b
  }

  /**
   * Which values a row holds before F. As written, `print_table` takes the
   * first `len(spisok)` of x, y, z, w, u (`Leading`); the table's headings name
   * the formula's own variables (`Named`).
   */
  datatype Columns = Leading(count: nat) | Named(vars: seq<char>)

  /** The row built at step `code` of the nested loops: the chosen values, then the formula's value. */
  function Row(cols: Columns, ev: seq<int> -> int, code: nat): seq<int> {
    var a := Assignment(code);
    match cols
    case Leading(count) => a[..Min(count, 5)] + [ev(a)]
    case Named(vars) => NamedRow(a, vars, ev)
  }

  /** The intended row for values [x, y, z, w, u]: the named variables' values, then F. */
  function NamedRow(a: seq<int>, vars: seq<char>, ev: seq<int> -> int): seq<int>
    requires |a| == 5
  {
    Project(a, vars, |a|) + [ev(a)]
  }

  /** `if row not in table: table.append(row)` */
  function AddIfAbsent(t: seq<seq<int>>, row: seq<int>): seq<seq<int>> {
    if row in t then t else t + [row]
  }

  /** The table after the first m steps of the nested loops, starting from t0. */
  function Accumulate(t0: seq<seq<int>>, cols: Columns, ev: seq<int> -> int, m: nat): seq<seq<int>> {
    if m == 0 then t0 else AddIfAbsent(Accumulate(t0, cols, ev, m - 1), Row(cols, ev, m - 1))
  }

  /** The accumulated table keeps every row it started with. */
  lemma {:induction false} AccumulateKeeps(t0: seq<seq<int>>, cols: Columns, ev: seq<int> -> int, m: nat)
    ensures forall r :: r in t0 ==> r in Accumulate(t0, cols, ev, m)
  {
    if m > 0 {
      AccumulateKeeps(t0, cols, ev, m - 1);
    }
  }

  /** Every row produced in the first m steps is in the table afterwards. */
  lemma {:induction false} AccumulateGains(t0: seq<seq<int>>, cols: Columns, ev: seq<int> -> int, m: nat)
    ensures forall c :: 0 <= c < m ==> Row(cols, ev, c) in Accumulate(t0, cols, ev, m)
  {
    if m > 0 {
      AccumulateGains(t0, cols, ev, m - 1);
      AccumulateKeeps(Accumulate(t0, cols, ev, m - 1), cols, ev, 1);
    }
  }

  /** The table gains no row that was not produced. */
  lemma {:induction false} AccumulateOnly(t0: seq<seq<int>>, cols: Columns, ev: seq<int> -> int, m: nat)
    ensures forall r :: r in Accumulate(t0, cols, ev, m) ==> r in t0 || exists c :: 0 <= c < m && r == Row(cols, ev, c)
  {
    if m > 0 {
      AccumulateOnly(t0, cols, ev, m - 1);
    }
  }

  /** A table without repeated rows stays so, and grows by at most one row per step. */
  lemma {:induction false} AccumulateDistinct(t0: seq<seq<int>>, cols: Columns, ev: seq<int> -> int, m: nat)
    ensures NoDups(t0) ==> NoDups(Accumulate(t0, cols, ev, m))
    ensures |Accumulate(t0, cols, ev, m)| <= |t0| + m
  {
    if m > 0 {
      AccumulateDistinct(t0, cols, ev, m - 1);
      var t' := Accumulate(t0, cols, ev, m - 1);
      var row := Row(cols, ev, m - 1);
      if row !in t' {
        assert Accumulate(t0, cols, ev, m) == t' + [row];
      }
    }
  }

  /**
   * The table `print_table` builds from an empty one: no row twice, at most 32
   * rows, every row as wide as the formula names variables among x, y, z, w, u,
   * plus the F value.
   */
  lemma PrintedTableShape(vars: seq<char>, ev: seq<int> -> int)
    ensures NoDups(Accumulate([], Named(vars), ev, Steps))
    ensures |Accumulate([], Named(vars), ev, Steps)| <= Steps
    ensures forall r :: r in Accumulate([], Named(vars), ev, Steps) ==> |r| == NamedCount(vars, 5) + 1
  {
    var cols := Named(vars);
    AccumulateDistinct([], cols, ev, Steps);
    AccumulateOnly([], cols, ev, Steps);
    forall r | r in Accumulate([], cols, ev, Steps) ensures |r| == NamedCount(vars, 5) + 1 {
      var c :| 0 <= c < Steps && r == Row(cols, ev, c);
      ProjectWidth(Assignment(c), vars, 5);
    }
  }

  /** The step of the nested loops at which x, y, z, w, u hold these values. */
  lemma AssignmentAt(x: int, y: int, z: int, w: int, u: int)
    requires 0 <= x < 2 && 0 <= y < 2 && 0 <= z < 2 && 0 <= w < 2 && 0 <= u < 2
    ensures Assignment(16 * x + 8 * y + 4 * z + 2 * w + u) == [x, y, z, w, u]
  {
    var code := 16 * x + 8 * y + 4 * z + 2 * w + u;
    assert code / 2 == 8 * x + 4 * y + 2 * z + w && code % 2 == u;
    assert (8 * x + 4 * y + 2 * z + w) / 2 == 4 * x + 2 * y + z;
    assert (4 * x + 2 * y + z) / 2 == 2 * x + y;
    assert (2 * x + y) / 2 == x;
    assert x / 2 == 0;
    assert Bits(x, 1) == [x];
    assert Bits(2 * x + y, 2) == [x, y];
    assert Bits(4 * x + 2 * y + z, 3) == [x, y, z];
    assert Bits(8 * x + 4 * y + 2 * z + w, 4) == [x, y, z, w];
  }

  /** One more step of the loops adds that step's row unless the table has it. */
  lemma AccumulateStep(t0: seq<seq<int>>, cols: Columns, ev: seq<int> -> int, c: nat, t: seq<seq<int>>, row: seq<int>)
    requires t == Accumulate(t0, cols, ev, c) && Row(cols, ev, c) == row
    ensures AddIfAbsent(t, row) == Accumulate(t0, cols, ev, c + 1)
  {
  }

  /** The row the loop body builds from x, y, z, w, u is the row of that step. */
  lemma PrintStep(vars: seq<char>, ev: seq<int> -> int, x: int, y: int, z: int, w: int, u: int, step: nat,
                  row: seq<int>, t0: seq<seq<int>>, t: seq<seq<int>>)
    requires 0 <= x < 2 && 0 <= y < 2 && 0 <= z < 2 && 0 <= w < 2 && 0 <= u < 2
    requires step == 16 * x + 8 * y + 4 * z + 2 * w + u
    requires row == NamedRow([x, y, z, w, u], vars, ev)
    requires t == Accumulate(t0, Named(vars), ev, step)
    ensures AddIfAbsent(t, row) == Accumulate(t0, Named(vars), ev, step + 1)
  {
    AssignmentAt(x, y, z, w, u);
    AccumulateStep(t0, Named(vars), ev, step, t, row);
  }

  /** How many of the first i of x, y, z, w, u are among `vars`. */
  function NamedCount(vars: seq<char>, i: nat): nat
    requires i <= 5
  {
    if i == 0 then 0 else NamedCount(vars, i - 1) + (if Candidates[i - 1] in vars then 1 else 0)
  }

  /**
   * A row is as wide as the variable list without F: `len(spisok)` counts F
   * when the formula names it, but F is no loop variable.
   */
  lemma {:induction false} RowWidth(text: string)
    ensures NamedCount(VariablesOf(text), 5) + (if 'F' in text then 1 else 0) == |VariablesOf(text)|
  {
    VariablesInOrder(text);
    NamedCountSelected(text, 5);
    assert VariablesOf(text) == Selected(text, 5) + (if 'F' in text then ['F'] else []);
  }

  lemma {:induction false} NamedCountSelected(text: string, i: nat)
    requires i <= 5
    ensures NamedCount(VariablesOf(text), i) == |Selected(text, i)|
  {
    if i > 0 {
      NamedCountSelected(text, i - 1);
      VariablesInOrder(text);
      assert Candidates[i - 1] in Candidates;
    }
  }

  /** The values of those of x, y, z, w, u among the first i that the formula names. */
  function Project(a: seq<int>, vars: seq<char>, i: nat): seq<int>
    requires i <= |a| && i <= 5
  {
    if i == 0 then []
    else Project(a, vars, i - 1) + (if Candidates[i - 1] in vars then [a[i - 1]] else [])
  }

  /** A projection holds one value per named variable. */
  lemma {:induction false} ProjectWidth(a: seq<int>, vars: seq<char>, i: nat)
    requires i <= |a| && i <= 5
    ensures |Project(a, vars, i)| == NamedCount(vars, i)
  {
    if i > 0 {
      ProjectWidth(a, vars, i - 1);
    }
  }

  /** The formula's value depends on the variables it names and on no other. */
  ghost predicate DependsOnlyOn(ev: seq<int> -> int, vars: seq<char>) {
    forall a, b :: |a| == 5 && |b| == 5 && (forall i :: 0 <= i < 5 && Candidates[i] in vars ==> a[i] == b[i])
                   ==> ev(a) == ev(b)
  }

  /** Two rows that agree on every variable column agree on F: the table is a function. */
  ghost predicate Functional(t: seq<seq<int>>) {
    forall r1, r2 :: r1 in t && r2 in t && |r1| == |r2| > 0 && r1[..|r1| - 1] == r2[..|r2| - 1] ==> r1 == r2
  }

  /** Equal projections come from assignments that agree on every named variable. */
  lemma {:induction false} ProjectAgrees(a: seq<int>, b: seq<int>, vars: seq<char>, i: nat)
    requires i <= |a| && i <= |b| && i <= 5
    ensures |Project(a, vars, i)| == |Project(b, vars, i)|
    ensures Project(a, vars, i) == Project(b, vars, i) ==>
              forall j :: 0 <= j < i && Candidates[j] in vars ==> a[j] == b[j]
  {
    if i > 0 {
      ProjectAgrees(a, b, vars, i - 1);
      var pa, pb := Project(a, vars, i - 1), Project(b, vars, i - 1);
      if Project(a, vars, i) == Project(b, vars, i) {
        assert pa == Project(a, vars, i)[..|pa|];
        assert pb == Project(b, vars, i)[..|pb|];
        if Candidates[i - 1] in vars {
          assert Project(a, vars, i)[|pa|] == a[i - 1];
          assert Project(b, vars, i)[|pb|] == b[i - 1];
        }
      }
    }
  }

  /**
   * With rows built from the formula's own variables, a formula that depends
   * on those variables only gives a table that is a function of its columns.
   */
  lemma IntendedTableFunctional(vars: seq<char>, ev: seq<int> -> int)
    requires DependsOnlyOn(ev, vars)
    ensures Functional(Accumulate([], Named(vars), ev, Steps))
  {
    var t := Accumulate([], Named(vars), ev, Steps);
    AccumulateOnly([], Named(vars), ev, Steps);
    forall r1, r2 | r1 in t && r2 in t && |r1| == |r2| > 0 && r1[..|r1| - 1] == r2[..|r2| - 1]
      ensures r1 == r2
    {
      var c1 :| 0 <= c1 < Steps && r1 == Row(Named(vars), ev, c1);
      var c2 :| 0 <= c2 < Steps && r2 == Row(Named(vars), ev, c2);
      IntendedRowsAgree(vars, ev, c1, c2);
    }
  }

  lemma IntendedRowsAgree(vars: seq<char>, ev: seq<int> -> int, c1: nat, c2: nat)
    requires DependsOnlyOn(ev, vars)
    ensures var r1, r2 := Row(Named(vars), ev, c1), Row(Named(vars), ev, c2);
      r1[..|r1| - 1] == r2[..|r2| - 1] ==> r1 == r2
  {
    var a1, a2 := Assignment(c1), Assignment(c2);
    var r1, r2 := Row(Named(vars), ev, c1), Row(Named(vars), ev, c2);
    assert r1[..|r1| - 1] == Project(a1, vars, 5);
    assert r2[..|r2| - 1] == Project(a2, vars, 5);
    ProjectAgrees(a1, a2, vars, 5);
  }

  /** Every candidate up to k occurs in the text and none after it: the variables are x, y, … in order. */
  ghost predicate LeadingVariables(text: string, k: nat) {
    forall i :: 0 <= i < |Candidates| ==> (Candidates[i] in text <==> i < k)
  }

  lemma {:induction false} SelectedLeading(text: string, k: nat, i: nat)
    requires k <= 5 && i <= |Candidates| && LeadingVariables(text, k)
    ensures Selected(text, i) == Candidates[..Min(i, k)]
  {
    if i > 0 {
      SelectedLeading(text, k, i - 1);
      if i <= k {
        assert Candidates[..i] == Candidates[..i - 1] + [Candidates[i - 1]];
      }
    }
  }

  lemma {:induction false} ProjectLeading(a: seq<int>, text: string, k: nat, i: nat)
    requires k <= 5 && i <= 5 && i <= |a| && LeadingVariables(text, k)
    ensures Project(a, VariablesOf(text), i) == a[..Min(i, k)]
  {
    SelectedLeading(text, k, |Candidates|);
    if i > 0 {
      ProjectLeading(a, text, k, i - 1);
      if i <= k {
        assert Candidates[i - 1] in Candidates[..k];
        assert a[..i] == a[..i - 1] + [a[i - 1]];
      } else {
        assert Candidates[i - 1] !in Candidates[..k];
      }
    }
  }

  /**
   * When the formula's variables are the first k of x, y, z, w, u, the rows as
   * written are the intended ones: the fault shows only for other choices.
   */
  lemma AsWrittenIsIntendedForLeadingVariables(text: string, ev: seq<int> -> int, k: nat, code: nat)
    requires k <= 5 && LeadingVariables(text, k)
    ensures Row(Leading(|VariablesOf(text)|), ev, code) == Row(Named(VariablesOf(text)), ev, code)
  {
    SelectedLeading(text, k, |Candidates|);
    ProjectLeading(Assignment(code), text, k, 5);
  }

  /** `int(eval("y  and  w"))`: 0 when y is 0, otherwise w. */
  function YAndW(a: seq<int>): int {
    if |a| == 5 && a[1] != 0 then a[3] else 0
  }

  /** The value of y∧w depends on y and w alone. */
  lemma YAndWDependsOnItsVariables()
    ensures DependsOnlyOn(YAndW, VariablesOf("y∧w"))
  {
    YAndWVariables();
    forall a: seq<int>, b: seq<int> | |a| == 5 && |b| == 5 &&
        (forall i :: 0 <= i < 5 && Candidates[i] in ['y', 'w'] ==> a[i] == b[i])
      ensures YAndW(a) == YAndW(b)
    {
      assert Candidates[1] == 'y' && Candidates[3] == 'w';
    }
  }

  /** The formula y∧w names y and w. */
  lemma YAndWVariables()
    ensures VariablesOf("y∧w") == ['y', 'w']
  {
    assert Selected("y∧w", 6) == ['y', 'w'] by {
      assert 'x' !in "y∧w" && 'z' !in "y∧w" && 'u' !in "y∧w" && 'F' !in "y∧w";
      assert "y∧w"[0] == 'y' && "y∧w"[2] == 'w';
    }
  }

  /**
   * For the formula y∧w, whose value depends on y and w only (see
   * YAndWDependsOnItsVariables), the table as written fills its y and w columns with the values of x and y: the rows
   * [0, 1, 0] and [0, 1, 1] both appear, so F is not a function of the columns.
   */
  lemma AsWrittenTableNotFunctional(text: string)
    requires text == "y∧w"
    ensures [0, 1, 0] in Accumulate([], Leading(|VariablesOf(text)|), YAndW, Steps)
    ensures [0, 1, 1] in Accumulate([], Leading(|VariablesOf(text)|), YAndW, Steps)
    ensures !Functional(Accumulate([], Leading(|VariablesOf(text)|), YAndW, Steps))
  {
    YAndWVariables();
    var cols := Leading(|VariablesOf(text)|);
    assert Row(cols, YAndW, 8) == [0, 1, 0] by {
      AssignmentAt(0, 1, 0, 0, 0);
    }
    assert Row(cols, YAndW, 10) == [0, 1, 1] by {
      AssignmentAt(0, 1, 0, 1, 0);
    }
    AccumulateClash([], cols, YAndW, Steps, 8, 10);
  }

  /** Two produced rows that agree before F and differ in F make the table non-functional. */
  lemma AccumulateClash(t0: seq<seq<int>>, cols: Columns, ev: seq<int> -> int, m: nat, c1: nat, c2: nat)
    requires c1 < m && c2 < m
    requires var r1, r2 := Row(cols, ev, c1), Row(cols, ev, c2);
      |r1| == |r2| > 0 && r1[..|r1| - 1] == r2[..|r2| - 1] && r1 != r2
    ensures Row(cols, ev, c1) in Accumulate(t0, cols, ev, m) && Row(cols, ev, c2) in Accumulate(t0, cols, ev, m)
    ensures !Functional(Accumulate(t0, cols, ev, m))
  {
    AccumulateGains(t0, cols, ev, m);
    ClashingRows(Accumulate(t0, cols, ev, m), Row(cols, ev, c1), Row(cols, ev, c2));
  }

  /** Two rows with the same variable columns and different F break functionality. */
  lemma ClashingRows(t: seq<seq<int>>, r1: seq<int>, r2: seq<int>)
    requires r1 in t && r2 in t && |r1| == |r2| > 0 && r1[..|r1| - 1] == r2[..|r2| - 1] && r1 != r2
    ensures !Functional(t)
  {
  }

  /** `if c in s: s = s.replace(c, r)`: the guard changes nothing, an absent c is left alone either way. */
  method GuardedReplace(s: string, c: char, r: string) returns (t: string)
    ensures t == ReplaceChar(s, c, r)
  {
    t := s;
    if c in s {
      t := ReplaceChar(s, c, r);
    } else {
      ReplaceCharAbsent(s, c, r);
    }
  }

  class Formule {
    var form: string
    var variables: seq<char>
    var table: seq<seq<int>>

    /** `__init__`: the guarded rewrites, then the variable list, then an empty table. */
    constructor (text: string)
      ensures form == Translate(text)
      ensures variables == VariablesOf(text)
      ensures table == []
    {
      var f := GuardedReplace(text, '∨', " or ");
      f := GuardedReplace(f, '∧', " and ");
      f := GuardedReplace(f, '¬', " not ");
      f := GuardedReplace(f, '≡', " == ");
      f := GuardedReplace(f, '→', " <= ");
      PipelineIsTranslate(text);
      var names := [];
      for i := 0 to |Candidates|
        invariant names == Selected(text, i)
      {
        if Candidates[i] in text {
          names := names + [Candidates[i]];
        }
      }
      form, variables, table := f, names, [];
    }

    /**
     * `print_table` without drawing: x, y, z, w, u each run over 0, 1 (x
     * slowest) and each new row is appended. `ev` is `int(eval(form))`. A row
     * holds the values of the variables the formula names, under the headings
     * `draw_table` gives them (see AsWrittenTableNotFunctional for the slice
     * the loop body takes instead).
     */
    method PrintTable(ev: seq<int> -> int)
      modifies this`table
      ensures table == Accumulate(old(table), Named(variables), ev, Steps)
    {
      ghost var t0 := table;
      ghost var step := 0;
      for x := 0 to 2
        invariant step == 16 * x
        invariant table == Accumulate(t0, Named(variables), ev, step)
      {
        for y := 0 to 2
          invariant step == 16 * x + 8 * y
          invariant table == Accumulate(t0, Named(variables), ev, step)
        {
          for z := 0 to 2
            invariant step == 16 * x + 8 * y + 4 * z
            invariant table == Accumulate(t0, Named(variables), ev, step)
          {
            for w := 0 to 2
              invariant step == 16 * x + 8 * y + 4 * z + 2 * w
              invariant table == Accumulate(t0, Named(variables), ev, step)
            {
              for u := 0 to 2
                invariant step == 16 * x + 8 * y + 4 * z + 2 * w + u
                invariant table == Accumulate(t0, Named(variables), ev, step)
              {
                var values := [x, y, z, w, u];
                var row := NamedRow(values, variables, ev);
                PrintStep(variables, ev, x, y, z, w, u, step, row, t0, table);
                table := AddIfAbsent(table, row);
                step := step + 1;
              }
            }
          }
        }
      }
    }
  }
}
