/**
 * The node-selection and naming logic of solver_1.py's drawing canvas, apart
 * from Qt: clicking settlements selects them, a second selected settlement is
 * joined to the first by a road, and a click on empty space creates a
 * settlement named by the first free letter.
 */
module Drawing {
  import opened Permutations
  import opened Roads

  /** The letters new settlements are named with, in order (no Ё, Й, Ъ, Ы, Ь). */
  const Letters: string := "АБВГДЕЖЗИКЛМНОПРСТУФХЦЧШЩЭЮЯ"

  /** The name handed out once every letter is taken. */
  const Fallback: Name := "Я"

  /** The one-letter name of letter k. */
  function LetterName(k: nat): Name
    requires k < |Letters|
  {
    [Letters[k]]
  }

  /** `list.remove(x)`: the first occurrence of x is taken out. */
  function RemoveFirst(s: seq<Name>, x: Name): (r: seq<Name>)
    requires x in s
    ensures |r| == |s| - 1
    ensures multiset(r) + multiset{x} == multiset(s)
    ensures NoDups(s) ==> x !in r
  {
    RemoveAt(s, IndexOf(s, x))
  }

  class GraphCanvas {
    var graph: Graph
    var selected: seq<Name>

    /** Between clicks at most one settlement is selected, and it is one of the graph's. */
    ghost predicate Valid()
      reads this, graph
    {
      && graph.Valid()
      && |selected| <= 1
      && forall s | s in selected :: s in graph.nodes
    }

    constructor (g: Graph)
      requires g.Valid()
      ensures Valid() && graph == g && selected == []
    {
      graph := g;
      selected := [];
    }

    /**
     * `_handle_node_click`: a selected settlement is deselected; otherwise it is
     * selected, and a second selection adds the road and clears the selection.
     */
    method HandleNodeClick(node: Name)
      requires Valid() && node in graph.nodes
      modifies this, graph
      ensures Valid() && graph == old(graph)
      ensures node in old(selected) ==> selected == [] && unchanged(graph)
      ensures old(selected) == [] ==> selected == [node] && unchanged(graph)
      ensures |old(selected)| == 1 && node !in old(selected) ==>
        && selected == []
        && graph.nodes == old(graph.nodes)
        && graph.edges == old(graph.edges) + {SortedPair(old(selected)[0], node)}
    {
      if node in selected {
        selected := RemoveFirst(selected, node);
      } else {
        selected := selected + [node];
        if |selected| == 2 {
          AddEdgeBetweenSelected();
        }
      }
    }

    /** `_add_edge_between_selected`: only with exactly two selected settlements. */
    method AddEdgeBetweenSelected()
      requires graph.Valid() && forall s | s in selected :: s in graph.nodes
      modifies this, graph
      ensures graph.Valid() && graph == old(graph)
      ensures |old(selected)| == 2 ==>
        && selected == []
        && graph.nodes == old(graph.nodes)
        && graph.edges == old(graph.edges) + {SortedPair(old(selected)[0], old(selected)[1])}
      ensures |old(selected)| != 2 ==> selected == old(selected) && unchanged(graph)
    {
      if |selected| != 2 {
        return;
      }
      var node1, node2 := selected[0], selected[1];
      graph.AddEdge(node1, node2);
      selected := [];
    }

    /**
     * `_get_next_node_name`: the first letter not used as a node name; the
     * fallback only when all letters are used, so a taken name is never
     * returned while a letter is free.
     */
    method NextNodeName() returns (name: Name)
      ensures name !in graph.nodes ==>
        exists k :: 0 <= k < |Letters| && name == LetterName(k)
                    && forall j :: 0 <= j < k ==> LetterName(j) in graph.nodes
      ensures name in graph.nodes ==>
        name == Fallback && forall k :: 0 <= k < |Letters| ==> LetterName(k) in graph.nodes
    {
      var used := set x | x in graph.nodes;
      for k := 0 to |Letters|
        invariant forall j :: 0 <= j < k ==> LetterName(j) in graph.nodes
      {
        if LetterName(k) !in used {
          return LetterName(k);
        }
      }
      assert LetterName(|Letters| - 1) == Fallback;
      return Fallback;
    }

    /** `_create_new_node` without the click position: the next free name becomes a node. */
    method CreateNewNode() returns (name: Name)
      requires Valid()
      modifies graph
      ensures Valid()
      ensures graph.edges == old(graph.edges)
      ensures graph.nodes == if name in old(graph.nodes) then old(graph.nodes) else old(graph.nodes) + [name]
      ensures |old(graph.nodes)| < |Letters| ==> name !in old(graph.nodes)
      ensures name !in old(graph.nodes) ==>
        exists k :: 0 <= k < |Letters| && name == LetterName(k)
                    && forall j :: 0 <= j < k ==> LetterName(j) in old(graph.nodes)
      ensures name in old(graph.nodes) ==>
        name == Fallback && forall k :: 0 <= k < |Letters| ==> LetterName(k) in old(graph.nodes)
    {
      name := NextNodeName();
      if |graph.nodes| < |Letters| {
        FreeLetterExists(graph.nodes);
      }
      graph.AddNode(name);
    }
  }

  /** The letters are pairwise different: their code points ascend. */
  lemma LettersDistinct()
    ensures NoDups(Letters)
  {
    assert forall i :: 0 <= i < |Letters| - 1 ==> Letters[i] < Letters[i + 1];
    forall i, j | 0 <= i < j < |Letters| ensures Letters[i] != Letters[j] {
      Ascending(Letters, i, j);
    }
  }

  lemma {:induction false} Ascending(s: string, i: nat, j: nat)
    requires forall k :: 0 <= k < |s| - 1 ==> s[k] < s[k + 1]
    requires i < j < |s|
    ensures s[i] < s[j]
    decreases j - i
  {
    if i + 1 < j {
      Ascending(s, i + 1, j);
    }
  }

  /** Fewer nodes than letters leaves some letter free (pigeonhole). */
  lemma FreeLetterExists(nodes: seq<Name>)
    requires |nodes| < |Letters|
    ensures exists k :: 0 <= k < |Letters| && LetterName(k) !in nodes
  {
    var names := seq(|Letters|, k requires 0 <= k < |Letters| => LetterName(k));
    LettersDistinct();
    assert NoDups(names) by {
      forall i, j | 0 <= i < j < |names| ensures names[i] != names[j] {
        assert names[i][0] == Letters[i] && names[j][0] == Letters[j];
      }
    }
    if forall k :: 0 <= k < |Letters| ==> LetterName(k) in nodes {
      assert forall x :: x in names ==> x in nodes;
      DistinctFitsIn(names, nodes);
      assert false;
    }
  }

  /** A duplicate-free sequence contained in s is no longer than s. */
  lemma {:induction false} DistinctFitsIn<T>(t: seq<T>, s: seq<T>)
    requires NoDups(t) && forall x :: x in t ==> x in s
    ensures |t| <= |s|
  {
    if t != [] {
      assert t[0] in t;
      var i :| 0 <= i < |s| && s[i] == t[0];
      var rest := RemoveAt(s, i);
      forall x | x in t[1..] ensures x in rest {
        var m :| 0 <= m < |t[1..]| && t[1..][m] == x;
        assert x != t[0];
        assert x in t;
        var p :| 0 <= p < |s| && s[p] == x;
        if p < i { assert rest[p] == x; } else { assert rest[p - 1] == x; }
      }
      DistinctFitsIn(t[1..], rest);
    }
  }
}
