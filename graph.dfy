/**
 * The road graph of solver_1.py: settlements (nodes, named by strings), roads
 * (undirected edges, kept as sorted name pairs), the 0/1 adjacency matrix
 * rebuilt after every change, and the brute-force matcher that looks for an
 * assignment of graph nodes to the labels of a distance table.
 */
module Roads {
  import opened Wrappers
  import opened Permutations

  type Name = string
  type Edge = (Name, Name)

  /** Python's `<` on `str`: code point by code point, a proper prefix first. */
  predicate LexLt(a: string, b: string) {
    if |b| == 0 then false
    else if |a| == 0 then true
    else a[0] < b[0] || (a[0] == b[0] && LexLt(a[1..], b[1..]))
  }

  lemma {:induction false} LexLtAsymmetric(a: string, b: string)
    ensures !(LexLt(a, b) && LexLt(b, a))
  {
    if |a| > 0 && |b| > 0 && a[0] == b[0] {
      LexLtAsymmetric(a[1..], b[1..]);
    }
  }

  lemma {:induction false} LexLtTrichotomy(a: string, b: string)
    ensures a == b || LexLt(a, b) || LexLt(b, a)
  {
    if |a| > 0 && |b| > 0 && a[0] == b[0] {
      LexLtTrichotomy(a[1..], b[1..]);
      if a[1..] == b[1..] {
        assert a == [a[0]] + a[1..] && b == [b[0]] + b[1..];
      }
    }
  }

  /** `tuple(sorted([a, b]))`: sorted is stable, so b goes first only when b < a. */
  function SortedPair(a: Name, b: Name): (e: Edge)
  {
    if LexLt(b, a) then (b, a) else (a, b)
  }

  /** (a, b) and (b, a) are stored as the same road, in ascending order. */
  lemma SortedPairSymmetric(a: Name, b: Name)
    ensures SortedPair(a, b) == SortedPair(b, a)
    ensures !LexLt(SortedPair(a, b).1, SortedPair(a, b).0)
    ensures {SortedPair(a, b).0, SortedPair(a, b).1} == {a, b}
  {
    LexLtAsymmetric(a, b);
    LexLtTrichotomy(a, b);
  }

  /** Some stored road joins a and b, in either orientation. */
  predicate Joined(a: Name, b: Name, edges: set<Edge>) {
    (a, b) in edges || (b, a) in edges
  }

  /** Every road is stored in ascending order and joins two known nodes. */
  ghost predicate EdgesWellFormed(nodes: seq<Name>, edges: set<Edge>) {
    forall e | e in edges :: e.0 in nodes && e.1 in nodes && !LexLt(e.1, e.0)
  }

  /** m is the n-by-n 0/1 matrix of `edges` over the node order `nodes`. */
  ghost predicate IsAdjacencyOf(m: seq<seq<int>>, nodes: seq<Name>, edges: set<Edge>) {
    && |m| == |nodes|
    && (forall i :: 0 <= i < |m| ==> |m[i]| == |nodes|)
    && forall i, j :: 0 <= i < |nodes| && 0 <= j < |nodes| ==>
         m[i][j] == if Joined(nodes[i], nodes[j], edges) then 1 else 0
  }

  /** With ascending storage, a matrix entry is 1 exactly when the sorted pair is a road. */
  lemma AdjacencyBySortedPair(m: seq<seq<int>>, nodes: seq<Name>, edges: set<Edge>, i: nat, j: nat)
    requires IsAdjacencyOf(m, nodes, edges) && EdgesWellFormed(nodes, edges)
    requires i < |nodes| && j < |nodes|
    ensures m[i][j] == m[j][i]
    ensures m[i][j] == 1 <==> SortedPair(nodes[i], nodes[j]) in edges
    ensures m[i][j] == 0 <==> SortedPair(nodes[i], nodes[j]) !in edges
  {
    var a, b := nodes[i], nodes[j];
    LexLtTrichotomy(a, b);
    if (b, a) in edges {
      assert !LexLt(a, b);
    } else if (a, b) in edges {
      assert !LexLt(b, a);
    }
  }

  /** `graph_has_road != table_has_road` is false: the 0/1 bit and the blank-or-not cell agree. */
  predicate RoadMatches(bit: int, cell: Option<int>) {
    if cell.Some? then bit == 1 else bit == 0
  }

  /**
   * The checks of `_check_mapping` with the mapping `dict(zip(perm, labels))`:
   * node i goes to the label at perm's position of it, and that label is looked
   * up (first occurrence) among the mapping's values, `labels[..n]`.
   */
  function TableIndex(nodes: seq<Name>, perm: seq<Name>, labels: seq<Name>, i: nat): (t: nat)
    requires i < |nodes| <= |labels| && nodes[i] in perm && |perm| == |nodes|
    ensures t < |nodes|
  {
    IndexOf(labels[..|nodes|], labels[IndexOf(perm, nodes[i])])
  }

  predicate ValidProblem(nodes: seq<Name>, perm: seq<Name>, labels: seq<Name>, table: seq<seq<Option<int>>>) {
    && |perm| == |nodes| <= |labels|
    && NoDups(perm)
    && (forall i :: 0 <= i < |nodes| ==> nodes[i] in perm)
    && (forall i :: 0 <= i < |perm| ==> perm[i] in nodes)
    && |table| >= |nodes|
    && (forall r :: 0 <= r < |nodes| ==> |table[r]| >= |nodes|)
  }

  /** The road structure under the mapping agrees with the table on every ordered pair. */
  predicate Fits(adj: seq<seq<int>>, nodes: seq<Name>, perm: seq<Name>, labels: seq<Name>, table: seq<seq<Option<int>>>)
    requires ValidProblem(nodes, perm, labels, table)
    requires |adj| == |nodes| && forall i :: 0 <= i < |adj| ==> |adj[i]| == |nodes|
  {
    forall i, j :: 0 <= i < |nodes| && 0 <= j < |nodes| ==> PairFits(adj, nodes, perm, labels, table, i, j)
  }

  /** One comparison of `_check_mapping`: the pair (i, j) of graph nodes. */
  predicate PairFits(adj: seq<seq<int>>, nodes: seq<Name>, perm: seq<Name>, labels: seq<Name>,
                     table: seq<seq<Option<int>>>, i: nat, j: nat)
    requires ValidProblem(nodes, perm, labels, table)
    requires |adj| == |nodes| && forall i :: 0 <= i < |adj| ==> |adj[i]| == |nodes|
    requires i < |nodes| && j < |nodes|
  {
    RoadMatches(adj[i][j], table[TableIndex(nodes, perm, labels, i)][TableIndex(nodes, perm, labels, j)])
  }

  /** `dict(zip(keys, vals))` for distinct keys and enough values. */
  function Zip(keys: seq<Name>, vals: seq<Name>): (m: map<Name, Name>)
    requires NoDups(keys) && |keys| <= |vals|
    ensures forall x :: x in m <==> x in keys
    ensures forall i :: 0 <= i < |keys| ==> m[keys[i]] == vals[i]
  {
    if keys == [] then map[]
    else Zip(keys[..|keys| - 1], vals)[keys[|keys| - 1] := vals[|keys| - 1]]
  }

  class Graph {
    var nodes: seq<Name>
    var edges: set<Edge>
    var adjacency: seq<seq<int>>

    ghost predicate Valid()
      reads this
    {
      && NoDups(nodes)
      && EdgesWellFormed(nodes, edges)
      && IsAdjacencyOf(adjacency, nodes, edges)
    }

    constructor ()
      ensures Valid()
      ensures nodes == [] && edges == {} && adjacency == []
    {
      nodes := [];
      edges := {};
      adjacency := [];
    }

    /** `add_node`: a new name is appended and the matrix rebuilt; a known name changes nothing. */
    method AddNode(node: Name)
      requires Valid()
      modifies this
      ensures Valid()
      ensures nodes == if node in old(nodes) then old(nodes) else old(nodes) + [node]
      ensures edges == old(edges)
      ensures node in old(nodes) ==> adjacency == old(adjacency)
    {
      if node !in nodes {
        nodes := nodes + [node];
        UpdateAdjacencyMatrix();
      }
    }

    /**
     * `add_edge` with the end nodes added before the road itself, so that
     * every rebuild of the matrix finds both ends (see AddEdgeAsWritten).
     */
    method AddEdge(a: Name, b: Name)
      requires Valid()
      modifies this
      ensures Valid()
      ensures a in nodes && b in nodes
      ensures nodes == old(nodes) + (if a in old(nodes) then [] else [a])
                                  + (if b in old(nodes) || b == a then [] else [b])
      ensures edges == old(edges) + {SortedPair(a, b)}
    {
      ghost var n0 := nodes;
      AddNode(a);
      ghost var n1 := nodes;
      assert n1 == n0 + (if a in n0 then [] else [a]);
      assert b in n1 <==> b in n0 || b == a;
      AddNode(b);
      SortedPairSymmetric(a, b);
      edges := edges + {SortedPair(a, b)};
      UpdateAdjacencyMatrix();
    }

    /** `_update_adjacency_matrix`: a fresh zero matrix, then both entries of every road set to 1. */
    method UpdateAdjacencyMatrix()
      requires NoDups(nodes) && EdgesWellFormed(nodes, edges)
      modifies this`adjacency
      ensures IsAdjacencyOf(adjacency, nodes, edges)
    {
      var n := |nodes|;
      var m := seq(n, _ => seq(n, _ => 0));
      var rest := edges;
      while rest != {}
        invariant rest <= edges && IsAdjacencyOf(m, nodes, edges - rest)
        decreases rest
      {
        var e :| e in rest;
        var i := IndexOf(nodes, e.0);
        var j := IndexOf(nodes, e.1);
        MarkRoad(m, nodes, edges - rest, e, i, j);
        m := m[i := m[i][j := 1]];
        m := m[j := m[j][i := 1]];
        OneMoreDone(edges, rest, e);
        rest := rest - {e};
      }
      adjacency := m;
    }

    /** `_check_mapping(dict(zip(perm, labels)), table)`: every ordered pair of nodes is compared. */
    method CheckMapping(perm: seq<Name>, labels: seq<Name>, table: seq<seq<Option<int>>>) returns (ok: bool)
      requires Valid() && ValidProblem(nodes, perm, labels, table)
      ensures ok == Fits(adjacency, nodes, perm, labels, table)
    {
      var n := |nodes|;
      for i := 0 to n
        invariant forall p, q :: 0 <= p < i && 0 <= q < n ==> PairFits(adjacency, nodes, perm, labels, table, p, q)
      {
        for j := 0 to n
          invariant forall q :: 0 <= q < j ==> PairFits(adjacency, nodes, perm, labels, table, i, q)
        {
          var ti := TableIndex(nodes, perm, labels, i);
          var tj := TableIndex(nodes, perm, labels, j);
          if !RoadMatches(adjacency[i][j], table[ti][tj]) {
            assert !PairFits(adjacency, nodes, perm, labels, table, i, j);
            return false;
          }
        }
      }
      return true;
    }

    /**
     * `find_isomorphism`: the mapping of the first permutation of the nodes, in
     * `itertools.permutations` order, that passes the check; the nodes zipped
     * with the labels in order when none does.
     */
    method FindIsomorphism(table: seq<seq<Option<int>>>, labels: seq<Name>) returns (mapping: map<Name, Name>)
      requires Valid()
      requires |nodes| <= |labels| && |table| >= |nodes|
      requires forall r :: 0 <= r < |nodes| ==> |table[r]| >= |nodes|
      ensures var perms := Arrangements(nodes, |nodes|);
        || (exists k :: 0 <= k < |perms| && IsFirstFit(perms, k, labels, table)
                        && mapping == Zip(perms[k], labels))
        || ((forall k :: 0 <= k < |perms| ==> !PermFits(perms[k], labels, table))
            && mapping == Zip(nodes, labels))
    {
      var perms := Arrangements(nodes, |nodes|);
      for k := 0 to |perms|
        invariant forall j :: 0 <= j < k ==> !PermFits(perms[j], labels, table)
      {
        ArrangementIsProblem(nodes, perms[k], labels, table);
        var ok := CheckMapping(perms[k], labels, table);
        if ok {
          assert IsFirstFit(perms, k, labels, table);
          return Zip(perms[k], labels);
        }
      }
      return Zip(nodes, labels);
    }

    /** `perm` is a mapping of the nodes onto the labels that `check_mapping` accepts. */
    ghost predicate PermFits(perm: seq<Name>, labels: seq<Name>, table: seq<seq<Option<int>>>)
      reads this
    {
      && ValidProblem(nodes, perm, labels, table)
      && IsAdjacencyOf(adjacency, nodes, edges)
      && Fits(adjacency, nodes, perm, labels, table)
    }

    /** perms[k] fits and no earlier permutation does. */
    ghost predicate IsFirstFit(perms: seq<seq<Name>>, k: nat, labels: seq<Name>, table: seq<seq<Option<int>>>)
      reads this
      requires k < |perms|
    {
      && PermFits(perms[k], labels, table)
      && forall j :: 0 <= j < k ==> !PermFits(perms[j], labels, table)
    }
  }

  /** Every enumerated permutation is a duplicate-free reordering of the nodes. */
  lemma ArrangementIsOrdering(s: seq<Name>, p: seq<Name>)
    requires NoDups(s) && p in Arrangements(s, |s|)
    ensures |p| == |s| && NoDups(p) && (forall x :: x in s ==> x in p) && forall x :: x in p ==> x in s
  {
    ArrangementsDrawn(s, |s|);
    DrawnFromDistinct(s, p);
    SameSizeSubMultiset(p, s);
  }

  /** Every enumerated permutation, with labels and table of the right size, is a problem `check_mapping` accepts. */
  lemma ArrangementIsProblem(nodes: seq<Name>, p: seq<Name>, labels: seq<Name>, table: seq<seq<Option<int>>>)
    requires NoDups(nodes) && p in Arrangements(nodes, |nodes|)
    requires |nodes| <= |labels| && |table| >= |nodes|
    requires forall r :: 0 <= r < |nodes| ==> |table[r]| >= |nodes|
    ensures ValidProblem(nodes, p, labels, table)
  {
    ArrangementIsOrdering(nodes, p);
  }

  /**
   * A table that some mapping fits is symmetric in where it has roads: the
   * graph's matrix is, and with distinct labels the mapping is one-to-one.
   */
  lemma FittingTableIsSymmetric(adj: seq<seq<int>>, nodes: seq<Name>, edges: set<Edge>,
                                perm: seq<Name>, labels: seq<Name>, table: seq<seq<Option<int>>>)
    requires NoDups(nodes) && IsAdjacencyOf(adj, nodes, edges)
    requires ValidProblem(nodes, perm, labels, table) && NoDups(labels[..|nodes|])
    requires Fits(adj, nodes, perm, labels, table)
    ensures forall p, q :: 0 <= p < |nodes| && 0 <= q < |nodes| ==> table[p][q].Some? == table[q][p].Some?
  {
    var n := |nodes|;
    forall p, q | 0 <= p < n && 0 <= q < n ensures table[p][q].Some? == table[q][p].Some? {
      var i := IndexOf(nodes, perm[p]);
      var j := IndexOf(nodes, perm[q]);
      MappedIndex(nodes, perm, labels, i, p);
      MappedIndex(nodes, perm, labels, j, q);
      assert PairFits(adj, nodes, perm, labels, table, i, j);
      assert PairFits(adj, nodes, perm, labels, table, j, i);
    }
  }

  /** With distinct labels, node i is looked up at the table row of its position in perm. */
  lemma MappedIndex(nodes: seq<Name>, perm: seq<Name>, labels: seq<Name>, i: nat, p: nat)
    requires |perm| == |nodes| <= |labels| && NoDups(perm) && NoDups(labels[..|nodes|])
    requires i < |nodes| && p < |perm| && nodes[i] == perm[p]
    ensures TableIndex(nodes, perm, labels, i) == p
  {
    IndexOfDistinct(perm, p);
    assert labels[p] == labels[..|nodes|][p];
    IndexOfDistinct(labels[..|nodes|], p);
  }

  /**
   * A table copied from the graph itself (a road exactly where the matrix has 1)
   * is fitted by the identity mapping, which is the first permutation tried.
   */
  lemma OwnTableFitsFirst(adj: seq<seq<int>>, nodes: seq<Name>, edges: set<Edge>,
                          labels: seq<Name>, table: seq<seq<Option<int>>>)
    requires NoDups(nodes) && IsAdjacencyOf(adj, nodes, edges)
    requires |nodes| <= |labels| && NoDups(labels[..|nodes|])
    requires |table| >= |nodes| && forall r :: 0 <= r < |nodes| ==> |table[r]| >= |nodes|
    requires forall p, q :: 0 <= p < |nodes| && 0 <= q < |nodes| ==> (table[p][q].Some? <==> adj[p][q] == 1)
    ensures |Arrangements(nodes, |nodes|)| > 0 && Arrangements(nodes, |nodes|)[0] == nodes
    ensures ValidProblem(nodes, nodes, labels, table) && Fits(adj, nodes, nodes, labels, table)
  {
    FirstArrangementIsPrefix(nodes, |nodes|);
    assert nodes[..|nodes|] == nodes;
    forall i, j | 0 <= i < |nodes| && 0 <= j < |nodes| ensures PairFits(adj, nodes, nodes, labels, table, i, j) {
      MappedIndex(nodes, nodes, labels, i, i);
      MappedIndex(nodes, nodes, labels, j, j);
    }
  }

  /** `_update_adjacency_matrix` completes only when `nodes.index` finds both ends of every road. */
  predicate Rebuilds(nodes: seq<Name>, edges: set<Edge>) {
    forall e | e in edges :: e.0 in nodes && e.1 in nodes
  }

  /**
   * `add_edge` exactly as written, on values: the road is stored first, then each
   * missing end goes through `add_node`, whose rebuild of the matrix runs before
   * the other end exists. None stands for the ValueError of `nodes.index`.
   */
  function AddEdgeAsWritten(nodes: seq<Name>, edges: set<Edge>, a: Name, b: Name): (r: Option<(seq<Name>, set<Edge>)>)
    ensures r.Some? ==> r.value.1 == edges + {SortedPair(a, b)} && a in r.value.0 && b in r.value.0
    ensures r.Some? ==> nodes <= r.value.0
  {
    var edges1 := edges + {SortedPair(a, b)};
    var nodes1 := if a in nodes then nodes else nodes + [a];
    if a !in nodes && !Rebuilds(nodes1, edges1) then None
    else
      // add_node(b), when b is missing, and the final update rebuild over the same nodes
      var nodes2 := if b in nodes1 then nodes1 else nodes1 + [b];
      if !Rebuilds(nodes2, edges1) then None else Some((nodes2, edges1))
  }

  /**
   * The written order fails exactly when both ends are new and different; in
   * every other case it ends in the state Graph.AddEdge produces.
   */
  lemma AddEdgeAsWrittenFailsIffBothNew(nodes: seq<Name>, edges: set<Edge>, a: Name, b: Name)
    requires Rebuilds(nodes, edges)
    ensures AddEdgeAsWritten(nodes, edges, a, b).None? <==> (a !in nodes && b !in nodes && a != b)
    ensures AddEdgeAsWritten(nodes, edges, a, b).Some? ==>
      AddEdgeAsWritten(nodes, edges, a, b).value ==
        (nodes + (if a in nodes then [] else [a]) + (if b in nodes || b == a then [] else [b]),
         edges + {SortedPair(a, b)})
  {
    SortedPairSymmetric(a, b);
    var e := SortedPair(a, b);
    if a !in nodes && b !in nodes && a != b {
      assert e in edges + {e};
      assert b !in nodes + [a];
    } else {
      var nodes1 := if a in nodes then nodes else nodes + [a];
      var nodes2 := if b in nodes1 then nodes1 else nodes1 + [b];
      assert nodes2 == nodes + (if a in nodes then [] else [a]) + (if b in nodes || b == a then [] else [b]);
      assert a in nodes2 && b in nodes2;
      assert forall x :: x in nodes ==> x in nodes1 && x in nodes2;
      assert Rebuilds(nodes2, edges + {e});
      assert a !in nodes ==> Rebuilds(nodes1, edges + {e});
    }
  }

  /** The first road drawn between two new places of an empty graph raises. */
  lemma AddEdgeAsWrittenCounterexample()
    ensures AddEdgeAsWritten([], {}, "А", "Б") == None
  {
    AddEdgeAsWrittenFailsIffBothNew([], {}, "А", "Б");
  }

  /** One more road handled: it leaves the remaining set and joins the done set. */
  lemma OneMoreDone(edges: set<Edge>, rest: set<Edge>, e: Edge)
    requires e in rest && rest <= edges
    ensures edges - (rest - {e}) == (edges - rest) + {e}
  {
  }

  /** Setting both entries of road e extends the matrix of `done` to that of `done + {e}`. */
  lemma MarkRoad(m: seq<seq<int>>, nodes: seq<Name>, done: set<Edge>, e: Edge, i: nat, j: nat)
    requires NoDups(nodes) && i < |nodes| && j < |nodes| && nodes[i] == e.0 && nodes[j] == e.1
    requires IsAdjacencyOf(m, nodes, done)
    ensures var m1 := m[i := m[i][j := 1]];
            IsAdjacencyOf(m1[j := m1[j][i := 1]], nodes, done + {e})
  {
    var m1 := m[i := m[i][j := 1]];
    var m2 := m1[j := m1[j][i := 1]];
    forall p, q | 0 <= p < |nodes| && 0 <= q < |nodes|
      ensures m2[p][q] == if Joined(nodes[p], nodes[q], done + {e}) then 1 else 0
    {
      if (p == i && q == j) || (p == j && q == i) {
        assert m2[p][q] == 1;
      } else {
        assert (nodes[p], nodes[q]) != e && (nodes[q], nodes[p]) != e;
        assert m2[p][q] == m[p][q];
      }
    }
  }
}
