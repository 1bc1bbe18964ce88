/** sortChildren(): every child list, recursively, ordered by the children's full paths
    compared case-insensitively. Java's List.sort is a stable merge sort; any stable sort
    yields the same list, and the model uses insertion into a sorted list. */
module Sorting {
  import opened Paths
  import opened Aggregate

  /** The sort key of a child of the folder whose full path is `dir`: the child's full
      path, the folder's path followed by the child's segment (GetPath of the child's
      chain). The flat sort below is stated over `dir`. */
  function Key(dir: string, k: Node): string
  {
    dir + k.segment
  }

  /** `a` may precede `b`: compareToIgnoreCase of their full paths is at most zero. */
  predicate InOrder(dir: string, a: Node, b: Node)
  {
    CompareIgnoreCase(Key(dir, a), Key(dir, b)) <= 0
  }

  predicate Sorted(dir: string, s: seq<Node>)
  {
    forall i, j :: 0 <= i < j < |s| ==> InOrder(dir, s[i], s[j])
  }

  /** The elements of `s` whose case-folded key is `w`, in their order in `s`: the
      elements a stable sort must keep in order among themselves. */
  function WithKey(dir: string, s: seq<Node>, w: string): (r: seq<Node>)
    ensures |r| <= |s|
  {
    if |s| == 0 then []
    else if Fold(Key(dir, s[0])) == w then [s[0]] + WithKey(dir, s[1..], w)
    else WithKey(dir, s[1..], w)
  }

  /** Inserts `x` before the first element it may precede. */
  function Insert(dir: string, x: Node, s: seq<Node>): (r: seq<Node>)
    ensures multiset(r) == multiset(s) + multiset{x}
  {
    if |s| == 0 then [x]
    else if InOrder(dir, x, s[0]) then [x] + s
    else
      assert s == [s[0]] + s[1..];
      [s[0]] + Insert(dir, x, s[1..])
  }

  /** Inserting into a sorted list keeps it sorted. */
  lemma {:induction false} InsertSorted(dir: string, x: Node, s: seq<Node>)
    requires Sorted(dir, s)
    ensures Sorted(dir, Insert(dir, x, s))
  {
    if |s| == 0 {
    } else if InOrder(dir, x, s[0]) {
      PrependSorted(dir, x, s);
    } else {
      InsertSorted(dir, x, s[1..]);
      InsertBehindHeadSorted(dir, x, s);
    }
  }

  /** An element that may precede the head of a sorted list may precede all of it. */
  lemma PrependSorted(dir: string, x: Node, s: seq<Node>)
    requires Sorted(dir, s) && |s| > 0 && InOrder(dir, x, s[0])
    ensures Sorted(dir, [x] + s)
  {
    forall j | 0 <= j < |s|
      ensures InOrder(dir, x, s[j])
    {
      if j > 0 {
        CompareIgnoreCaseTransitive(Key(dir, x), Key(dir, s[0]), Key(dir, s[j]));
      }
    }
    ConsSorted(dir, x, s);
  }

  /** A head that may precede every element of a sorted tail makes a sorted list. */
  lemma ConsSorted(dir: string, h: Node, t: seq<Node>)
    requires Sorted(dir, t)
    requires forall j :: 0 <= j < |t| ==> InOrder(dir, h, t[j])
    ensures Sorted(dir, [h] + t)
  {
    var r := [h] + t;
    forall i, j | 0 <= i < j < |r|
      ensures InOrder(dir, r[i], r[j])
    {
      assert r[j] == t[j - 1];
      if i > 0 {
        assert r[i] == t[i - 1];
      }
    }
  }

  /** The elements of an insertion are the inserted one and those of the list. */
  lemma {:induction false} InsertMembers(dir: string, x: Node, s: seq<Node>, y: Node)
    ensures y in Insert(dir, x, s) <==> y == x || y in s
  {
    if |s| != 0 && !InOrder(dir, x, s[0]) {
      InsertMembers(dir, x, s[1..], y);
      assert y in s <==> y == s[0] || y in s[1..];
    }
  }

  /** When `x` goes behind the head of a sorted list, the head may precede everything
      the insertion into the tail holds. */
  lemma HeadPrecedesInsertion(dir: string, x: Node, s: seq<Node>)
    requires Sorted(dir, s) && |s| > 0 && !InOrder(dir, x, s[0])
    ensures forall j :: 0 <= j < |Insert(dir, x, s[1..])| ==> InOrder(dir, s[0], Insert(dir, x, s[1..])[j])
  {
    var rest := Insert(dir, x, s[1..]);
    CompareIgnoreCaseAntisymmetric(Key(dir, x), Key(dir, s[0]));
    forall j | 0 <= j < |rest|
      ensures InOrder(dir, s[0], rest[j])
    {
      var y := rest[j];
      InsertMembers(dir, x, s[1..], y);
      if y != x {
        var k :| 0 <= k < |s[1..]| && s[1..][k] == y;
        assert s[k + 1] == y;
      }
    }
  }

  /** When `x` goes behind the head, the head followed by the sorted insertion into the
      tail is sorted. */
  lemma InsertBehindHeadSorted(dir: string, x: Node, s: seq<Node>)
    requires Sorted(dir, s) && |s| > 0 && !InOrder(dir, x, s[0])
    requires Sorted(dir, Insert(dir, x, s[1..]))
    ensures Sorted(dir, Insert(dir, x, s))
  {
    HeadPrecedesInsertion(dir, x, s);
    ConsSorted(dir, s[0], Insert(dir, x, s[1..]));
  }

  /** Inserting into a sorted list puts `x` before every element with the same folded
      key: among equal keys, `x` comes first, followed by those of `s` in their order.
      Inserting from the back, as SortByPath does, therefore keeps the input order. */
  lemma {:induction false} InsertStable(dir: string, x: Node, s: seq<Node>, w: string)
    requires Sorted(dir, s)
    ensures WithKey(dir, Insert(dir, x, s), w)
            == (if Fold(Key(dir, x)) == w then [x] else []) + WithKey(dir, s, w)
  {
    if |s| == 0 {
    } else if InOrder(dir, x, s[0]) {
    } else {
      InsertStable(dir, x, s[1..], w);
      assert CompareIgnoreCase(Key(dir, x), Key(dir, s[0])) != 0;
      var r := [s[0]] + Insert(dir, x, s[1..]);
      assert r[1..] == Insert(dir, x, s[1..]);
    }
  }

  /** A stable sort by case-insensitive full path: the result is a permutation of `s`
      and sorted. */
  function SortByPath(dir: string, s: seq<Node>): (r: seq<Node>)
    ensures multiset(r) == multiset(s)
    ensures Sorted(dir, r)
  {
    if |s| == 0 then []
    else
      assert s == [s[0]] + s[1..];
      var sortedRest := SortByPath(dir, s[1..]);
      InsertSorted(dir, s[0], sortedRest);
      Insert(dir, s[0], sortedRest)
  }

  /** The sort is stable: the elements with any given folded key appear in the order
      they had in the input. */
  lemma {:induction false} SortByPathStable(dir: string, s: seq<Node>, w: string)
    ensures WithKey(dir, SortByPath(dir, s), w) == WithKey(dir, s, w)
  {
    if |s| != 0 {
      SortByPathStable(dir, s[1..], w);
      InsertStable(dir, s[0], SortByPath(dir, s[1..]), w);
    }
  }

  /** The list `s` without its element at `j`. */
  function Remove(s: seq<Node>, j: nat): (r: seq<Node>)
    requires j < |s|
    ensures |r| == |s| - 1
  {
    s[..j] + s[j + 1..]
  }

  /** `a` is `b` with the children of every node, at every depth, possibly reordered. */
  ghost predicate Permuted(a: Node, b: Node)
    decreases b, 1
  {
    a.segment == b.segment && a.size == b.size && a.date == b.date
    && PermutedEach(a.children, b.children)
  }

  /** `xs` is a reordering of `bs` whose elements are each `Permuted` from their partner:
      some element of `xs` matches the head of `bs`, and the rest match the tail. */
  ghost predicate PermutedEach(xs: seq<Node>, bs: seq<Node>)
    decreases bs, 0
  {
    if |bs| == 0 then |xs| == 0
    else exists j :: 0 <= j < |xs| && Permuted(xs[j], bs[0]) && PermutedEach(Remove(xs, j), bs[1..])
  }

  /** Reordered lists have the same length. */
  lemma {:induction false} PermutedEachLength(xs: seq<Node>, bs: seq<Node>)
    requires PermutedEach(xs, bs)
    ensures |xs| == |bs|
    decreases bs
  {
    if |bs| != 0 {
      var j :| 0 <= j < |xs| && Permuted(xs[j], bs[0]) && PermutedEach(Remove(xs, j), bs[1..]);
      PermutedEachLength(Remove(xs, j), bs[1..]);
    }
  }

  /** Removing behind a head removes from the tail. */
  lemma RemoveCons(h: Node, t: seq<Node>, q: nat)
    requires q < |t|
    ensures Remove([h] + t, q + 1) == [h] + Remove(t, q)
  {
    assert ([h] + t)[..q + 1] == [h] + t[..q];
    assert ([h] + t)[q + 2..] == t[q + 1..];
  }

  /** Where the insertion puts `x`: taking it out again gives back the list. */
  lemma {:induction false} InsertPosition(dir: string, x: Node, s: seq<Node>) returns (p: nat)
    ensures p < |Insert(dir, x, s)| && Insert(dir, x, s)[p] == x
    ensures Remove(Insert(dir, x, s), p) == s
  {
    if |s| == 0 || InOrder(dir, x, s[0]) {
      InsertPositionAtFront(dir, x, s);
      p := 0;
    } else {
      var q := InsertPosition(dir, x, s[1..]);
      InsertPositionBehindHead(dir, x, s, q);
      p := q + 1;
    }
  }

  /** When `x` may precede the head, it goes in front. */
  lemma InsertPositionAtFront(dir: string, x: Node, s: seq<Node>)
    requires |s| == 0 || InOrder(dir, x, s[0])
    ensures 0 < |Insert(dir, x, s)| && Insert(dir, x, s)[0] == x
    ensures Remove(Insert(dir, x, s), 0) == s
  {
    assert Insert(dir, x, s) == [x] + s;
    assert ([x] + s)[1..] == s;
  }

  /** When `x` goes behind the head, its position is one past its position in the tail. */
  lemma InsertPositionBehindHead(dir: string, x: Node, s: seq<Node>, q: nat)
    requires |s| > 0 && !InOrder(dir, x, s[0])
    requires q < |Insert(dir, x, s[1..])| && Insert(dir, x, s[1..])[q] == x
    requires Remove(Insert(dir, x, s[1..]), q) == s[1..]
    ensures q + 1 < |Insert(dir, x, s)| && Insert(dir, x, s)[q + 1] == x
    ensures Remove(Insert(dir, x, s), q + 1) == s
  {
    var rest := Insert(dir, x, s[1..]);
    assert Insert(dir, x, s) == [s[0]] + rest;
    RemoveCons(s[0], rest, q);
    assert s == [s[0]] + s[1..];
  }

  /** Sorting a list whose elements are each `Permuted` from those of `ys`, index by index,
      gives a reordering of `ys`. */
  lemma {:induction false} SortByPathPermutes(dir: string, xs: seq<Node>, ys: seq<Node>)
    requires |xs| == |ys|
    requires forall i :: 0 <= i < |xs| ==> Permuted(xs[i], ys[i])
    ensures PermutedEach(SortByPath(dir, xs), ys)
  {
    if |xs| != 0 {
      assert forall i :: 0 <= i < |xs| - 1 ==> xs[1..][i] == xs[i + 1] && ys[1..][i] == ys[i + 1];
      SortByPathPermutes(dir, xs[1..], ys[1..]);
      var p := InsertPosition(dir, xs[0], SortByPath(dir, xs[1..]));
      var r := SortByPath(dir, xs);
      assert Permuted(r[p], ys[0]) && PermutedEach(Remove(r, p), ys[1..]);
    }
  }

  /** The child list of the node with chain `c` is sorted, and so, recursively, is every
      child's own subtree. */
  predicate DeepSorted(c: Chain, n: Node)
    decreases n
  {
    Sorted(GetPath(c), n.children) && forall k :: k in n.children ==> DeepSorted(Child(c, k.segment), k)
  }

  /** A reordering of deeply sorted children holds only deeply sorted children. */
  lemma ReorderedKeepDeepSorted(c: Chain, xs: seq<Node>, ys: seq<Node>)
    requires multiset(xs) == multiset(ys)
    requires forall i :: 0 <= i < |ys| ==> DeepSorted(Child(c, ys[i].segment), ys[i])
    ensures forall k :: k in xs ==> DeepSorted(Child(c, k.segment), k)
  {
    forall k | k in xs
      ensures DeepSorted(Child(c, k.segment), k)
    {
      assert k in multiset(ys);
      var i :| 0 <= i < |ys| && ys[i] == k;
    }
  }

  /** sortChildren() on the node `n` placed at `p`: sorts every child's subtree, then
      sorts the child list. The node's own segment, size and date stay as they are. */
  function SortChildren(p: Place, n: Node): (r: Node)
    ensures r.segment == n.segment && r.size == n.size && r.date == n.date
    ensures |r.children| == |n.children|
    ensures multiset(r.children) == multiset(SortEach(ChainOf(p, n.segment), n.children))
    ensures Sorted(GetPath(ChainOf(p, n.segment)), r.children)
    ensures Permuted(r, n)
    ensures DeepSorted(ChainOf(p, n.segment), r)
    decreases n, 1
  {
    var c := ChainOf(p, n.segment);
    var kids := SortEach(c, n.children);
    var sorted := SortByPath(GetPath(c), kids);
    assert |sorted| == |multiset(sorted)| == |multiset(kids)| == |kids|;
    SortByPathPermutes(GetPath(c), kids, n.children);
    ReorderedKeepDeepSorted(c, sorted, kids);
    Node(n.segment, n.size, n.date, sorted)
  }

  /** The children of the node with chain `parent`, each with its own subtree sorted,
      in their original order. */
  function SortEach(parent: Chain, kids: seq<Node>): (r: seq<Node>)
    ensures |r| == |kids|
    ensures forall i :: 0 <= i < |kids| ==>
              r[i].segment == kids[i].segment && r[i].size == kids[i].size && r[i].date == kids[i].date
    ensures forall i :: 0 <= i < |kids| ==>
              Permuted(r[i], kids[i]) && DeepSorted(Child(parent, r[i].segment), r[i])
    decreases kids, 0
  {
    if |kids| == 0 then []
    else
      var rest := SortEach(parent, kids[1..]);
      var first := SortChildren(ChildOf(parent), kids[0]);
      SortEachStep(parent, kids, first, rest);
      [first] + rest
  }

  /** The facts SortEach states about each index, for a sorted head and a sorted tail. */
  lemma SortEachStep(parent: Chain, kids: seq<Node>, first: Node, rest: seq<Node>)
    requires |kids| > 0 && |rest| == |kids| - 1
    requires first.segment == kids[0].segment && first.size == kids[0].size && first.date == kids[0].date
    requires Permuted(first, kids[0]) && DeepSorted(ChainOf(ChildOf(parent), kids[0].segment), first)
    requires forall i :: 0 <= i < |rest| ==>
               rest[i].segment == kids[1..][i].segment && rest[i].size == kids[1..][i].size
               && rest[i].date == kids[1..][i].date
    requires forall i :: 0 <= i < |rest| ==>
               Permuted(rest[i], kids[1..][i]) && DeepSorted(Child(parent, rest[i].segment), rest[i])
    ensures var r := [first] + rest;
            forall i :: 0 <= i < |kids| ==>
              r[i].segment == kids[i].segment && r[i].size == kids[i].size && r[i].date == kids[i].date
    ensures var r := [first] + rest;
            forall i :: 0 <= i < |kids| ==>
              Permuted(r[i], kids[i]) && DeepSorted(Child(parent, r[i].segment), r[i])
  {
    var r := [first] + rest;
    forall i | 0 < i < |kids|
      ensures r[i] == rest[i - 1] && kids[i] == kids[1..][i - 1]
    {
    }
  }

  /** The sort of a child list is stable: children whose full paths differ only in case
      keep the order they had before sortChildren. */
  lemma SortChildrenStable(p: Place, n: Node, w: string)
    ensures var c := ChainOf(p, n.segment);
            WithKey(GetPath(c), SortChildren(p, n).children, w) == WithKey(GetPath(c), SortEach(c, n.children), w)
  {
    var c := ChainOf(p, n.segment);
    SortByPathStable(GetPath(c), SortEach(c, n.children), w);
  }
}
