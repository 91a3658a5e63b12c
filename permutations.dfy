/**
 * Sequence helpers shared by the model (Python's `list.index`, `range`) and
 * the enumeration order of Python's `itertools.permutations(s, k)`: every
 * arrangement of k elements taken from distinct positions of s, emitted in
 * lexicographic order of the positions (first position slowest).
 */
module Permutations {

  /** No element occurs twice. */
  predicate NoDups<T(==)>(s: seq<T>) {
    forall i, j :: 0 <= i < j < |s| ==> s[i] != s[j]
  }

  /** `list.index`: the first position holding x. */
  function IndexOf<T(==)>(s: seq<T>, x: T): (k: nat)
    requires x in s
    ensures k < |s| && s[k] == x && forall j :: 0 <= j < k ==> s[j] != x
  {
    if s[0] == x then 0 else 1 + IndexOf(s[1..], x)
  }

  lemma IndexOfDistinct<T>(s: seq<T>, k: nat)
    requires NoDups(s) && k < |s|
    ensures IndexOf(s, s[k]) == k
  {
  }

  /** `s` with position `i` taken out. */
  function RemoveAt<T>(s: seq<T>, i: nat): (r: seq<T>)
    requires i < |s|
    ensures |r| == |s| - 1
    ensures forall j :: 0 <= j < i ==> r[j] == s[j]
    ensures forall j :: i <= j < |r| ==> r[j] == s[j + 1]
    ensures multiset(r) + multiset{s[i]} == multiset(s)
  {
    assert s == s[..i] + [s[i]] + s[i + 1..];
    s[..i] + s[i + 1..]
  }

  /** Puts `x` in front of every sequence of `ps`. */
  function Prefix<T>(x: T, ps: seq<seq<T>>): (r: seq<seq<T>>)
    ensures |r| == |ps|
    ensures forall j :: 0 <= j < |ps| ==> r[j] == [x] + ps[j]
  {
    seq(|ps|, j requires 0 <= j < |ps| => [x] + ps[j])
  }

  /**
   * `itertools.permutations(s, k)`, as a list, in emission order; empty
   * exactly when more elements are asked for than s has.
   */
  function Arrangements<T>(s: seq<T>, k: nat): (r: seq<seq<T>>)
    ensures |r| == 0 <==> k > |s|
    decreases k, |s| + 1
  {
    if k == 0 then [[]] else Expand(s, k, 0)
  }

  /** The arrangements whose first element is taken from position i or later. */
  function Expand<T>(s: seq<T>, k: nat, i: nat): (r: seq<seq<T>>)
    requires 0 < k && i <= |s|
    ensures k > |s| ==> r == []
    ensures i < |s| && k <= |s| ==> |r| > 0
    decreases k, |s| - i
  {
    if i == |s| then []
    else Prefix(s[i], Arrangements(RemoveAt(s, i), k - 1)) + Expand(s, k, i + 1)
  }

  /** `list(range(n))` */
  function Range(n: nat): (r: seq<nat>)
    ensures |r| == n && forall i :: 0 <= i < n ==> r[i] == i
  {
    seq(n, i requires 0 <= i < n => i)
  }

  /** Each arrangement has k elements, drawn from s without reuse. */
  lemma {:induction false} ArrangementsDrawn<T>(s: seq<T>, k: nat)
    ensures forall p :: p in Arrangements(s, k) ==> |p| == k && multiset(p) <= multiset(s)
    decreases k, |s| + 1
  {
    if k > 0 {
      ExpandDrawn(s, k, 0);
    }
  }

  lemma {:induction false} ExpandDrawn<T>(s: seq<T>, k: nat, i: nat)
    requires 0 < k && i <= |s|
    ensures forall p :: p in Expand(s, k, i) ==> |p| == k && multiset(p) <= multiset(s)
    decreases k, |s| - i
  {
    if i < |s| {
      PrefixDrawn(s, k, i);
      ExpandDrawn(s, k, i + 1);
      assert Expand(s, k, i) == Prefix(s[i], Arrangements(RemoveAt(s, i), k - 1)) + Expand(s, k, i + 1);
    }
  }

  lemma {:induction false} PrefixDrawn<T>(s: seq<T>, k: nat, i: nat)
    requires 0 < k && i < |s|
    ensures forall p :: p in Prefix(s[i], Arrangements(RemoveAt(s, i), k - 1)) ==> |p| == k && multiset(p) <= multiset(s)
    decreases k, 0
  {
    var rest := RemoveAt(s, i);
    var qs := Arrangements(rest, k - 1);
    ArrangementsDrawn(rest, k - 1);
    forall p | p in Prefix(s[i], qs) ensures |p| == k && multiset(p) <= multiset(s) {
      var j :| 0 <= j < |qs| && Prefix(s[i], qs)[j] == p;
      assert qs[j] in qs;
      assert p == [s[i]] + qs[j];
      assert multiset(p) == multiset{s[i]} + multiset(qs[j]);
    }
  }

  /** Every way of drawing k elements of s without reuse is enumerated. */
  lemma {:induction false} ArrangementsComplete<T>(s: seq<T>, k: nat, p: seq<T>)
    requires |p| == k && multiset(p) <= multiset(s)
    ensures p in Arrangements(s, k)
    decreases k
  {
    if k > 0 {
      assert p[0] in multiset(p);
      assert p[0] in s;
      var i :| 0 <= i < |s| && s[i] == p[0];
      var rest := RemoveAt(s, i);
      assert p == [p[0]] + p[1..];
      assert multiset(p) == multiset{p[0]} + multiset(p[1..]);
      forall x ensures multiset(p[1..])[x] <= multiset(rest)[x] {
        assert multiset(p)[x] <= multiset(s)[x];
      }
      assert multiset(p[1..]) <= multiset(rest);
      ArrangementsComplete(rest, k - 1, p[1..]);
      var q := Arrangements(rest, k - 1);
      var j :| 0 <= j < |q| && q[j] == p[1..];
      assert Prefix(s[i], q)[j] == p;
      ExpandContains(s, k, 0, i, p);
    }
  }

  /** Expand from position j covers the block of every later first position i. */
  lemma {:induction false} ExpandContains<T>(s: seq<T>, k: nat, j: nat, i: nat, p: seq<T>)
    requires 0 < k && j <= i < |s|
    requires p in Prefix(s[i], Arrangements(RemoveAt(s, i), k - 1))
    ensures p in Expand(s, k, j)
    decreases i - j
  {
    var block := Prefix(s[j], Arrangements(RemoveAt(s, j), k - 1));
    assert Expand(s, k, j) == block + Expand(s, k, j + 1);
    if j < i {
      ExpandContains(s, k, j + 1, i, p);
    }
  }

  /** The first arrangement keeps the original order: `s[..k]` itself. */
  lemma {:induction false} FirstArrangementIsPrefix<T>(s: seq<T>, k: nat)
    requires k <= |s|
    ensures |Arrangements(s, k)| > 0 && Arrangements(s, k)[0] == s[..k]
    decreases k
  {
    if k == 0 {
      assert Arrangements(s, k) == [[]];
    } else {
      var rest := RemoveAt(s, 0);
      var tail := Arrangements(rest, k - 1);
      FirstArrangementIsPrefix(rest, k - 1);
      var head := Prefix(s[0], tail);
      assert Arrangements(s, k) == head + Expand(s, k, 1);
      assert head[0] == [s[0]] + tail[0];
      assert tail[0] == s[1..k];
      assert [s[0]] + s[1..k] == s[..k];
    }
  }

  /** Taking k elements from a duplicate-free sequence yields a duplicate-free sequence. */
  lemma DrawnFromDistinct<T>(s: seq<T>, p: seq<T>)
    requires NoDups(s) && multiset(p) <= multiset(s)
    ensures NoDups(p) && forall x :: x in p ==> x in s
  {
    forall x | x in p ensures x in s {
      assert x in multiset(p);
    }
    forall i, j | 0 <= i < j < |p| ensures p[i] != p[j] {
      if p[i] == p[j] {
        MultisetCountTwo(p, i, j);
        MultisetAtMostOnce(s, p[i]);
        assert false;
      }
    }
  }

  lemma {:induction false} MultisetCountTwo<T>(p: seq<T>, i: nat, j: nat)
    requires i < j < |p| && p[i] == p[j]
    ensures multiset(p)[p[i]] >= 2
  {
    var x := p[i];
    assert p == p[..i] + [x] + p[i + 1..j] + [x] + p[j + 1..];
    assert multiset(p) == multiset(p[..i]) + multiset{x} + multiset(p[i + 1..j]) + multiset{x} + multiset(p[j + 1..]);
  }

  lemma {:induction false} MultisetAtMostOnce<T>(s: seq<T>, x: T)
    requires NoDups(s)
    ensures multiset(s)[x] <= 1
  {
    if s != [] {
      assert NoDups(s[1..]);
      MultisetAtMostOnce(s[1..], x);
      assert s == [s[0]] + s[1..];
      if s[0] == x {
        assert x !in s[1..];
      }
    }
  }

  /** Equal-length sequences whose multisets are included are equal as multisets. */
  lemma SameSizeSubMultiset<T>(p: seq<T>, s: seq<T>)
    requires |p| == |s| && multiset(p) <= multiset(s)
    ensures multiset(p) == multiset(s)
    ensures forall x :: x in s ==> x in p
  {
    var d := multiset(s) - multiset(p);
    assert multiset(s) == multiset(p) + d;
    assert |d| == 0;
    forall x | x in s ensures x in p {
      assert x in multiset(s);
    }
  }
}
