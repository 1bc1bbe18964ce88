/** The aggregate tree node of SizeAndLatestDate.java: a path segment, a byte total, an
    optional latest timestamp and the list of children, with merge, filtered copy and the
    bottom-up size repair. Timestamps are instants (integers); `isAfter` is `>`. */
module Aggregate {
  import opened Wrappers
  import opened Paths

  /** One node of the aggregate tree. The parent pointer and repository of the Java object
      are not stored here: they are the node's `Place` (see module Paths). */
  datatype Node = Node(segment: string, size: int, date: Option<int>, children: seq<Node>)

  /** A node as the scanner creates it: nothing merged yet and no children. */
  function Fresh(segment: string): Node
  {
    Node(segment, 0, None, [])
  }

  predicate IsLeaf(n: Node)
  {
    |n.children| == 0
  }

  /** The later of two optional instants, an absent instant counting as earliest. */
  function Later(a: Option<int>, b: Option<int>): (r: Option<int>)
    ensures r.None? <==> a.None? && b.None?
    ensures r.Some? ==> r == a || r == b
    ensures r.Some? && a.Some? ==> a.value <= r.value
    ensures r.Some? && b.Some? ==> b.value <= r.value
  {
    if a.None? then b
    else if b.None? then a
    else if b.value > a.value then b
    else a
  }

  /** The outcome of a merge. Both carry the node as it stands afterwards: a merge that
      throws has already added the size. */
  datatype MergeResult = Merged(node: Node) | NullDate(node: Node)

  /** merge(size, date): adds `size`; takes `date` if no date is set yet or `date` is
      strictly later. A receiver with a date and an absent `date` throws a
      NullPointerException in `date.isAfter`, after the size was added. */
  function Merge(n: Node, size: int, date: Option<int>): (r: MergeResult)
    ensures r.node.size == n.size + size
    ensures r.node.segment == n.segment && r.node.children == n.children
    ensures r.NullDate? <==> n.date.Some? && date.None?
    ensures r.Merged? ==> r.node.date == Later(n.date, date)
    ensures r.NullDate? ==> r.node.date == n.date
  {
    var added := n.(size := n.size + size);
    if n.date.None? then Merged(added.(date := date))
    else if date.None? then NullDate(added)
    else if date.value > n.date.value then Merged(added.(date := date))
    else Merged(added)
  }

  /** merge(other): merge(other.sizeInBytes, other.latestDate). */
  function MergeNode(n: Node, other: Node): (r: MergeResult)
    ensures r.node.size == n.size + other.size
    ensures r.NullDate? <==> n.date.Some? && other.date.None?
    ensures r.Merged? ==> r.node.date == Later(n.date, other.date)
  {
    Merge(n, other.size, other.date)
  }

  /** Two merges of present dates commute: the same final size and date in either order,
      and the same as one merge of the summed size and the later date. */
  lemma MergesCommute(n: Node, s1: int, d1: int, s2: int, d2: int)
    ensures Merge(n, s1, Some(d1)).Merged? && Merge(n, s2, Some(d2)).Merged?
    ensures Merge(Merge(n, s1, Some(d1)).node, s2, Some(d2))
            == Merge(Merge(n, s2, Some(d2)).node, s1, Some(d1))
    ensures Merge(Merge(n, s1, Some(d1)).node, s2, Some(d2))
            == Merge(n, s1 + s2, Later(Some(d1), Some(d2)))
  {
  }

  /** A dated node merging an undated one throws, and is left with the added size. */
  lemma MergeUndatedIntoDatedThrows(n: Node, other: Node)
    requires n.date.Some? && other.date.None?
    ensures MergeNode(n, other) == NullDate(n.(size := n.size + other.size))
  {
  }

  /** The evidently intended merge: an absent date leaves the date alone. */
  function MergeNullSafe(n: Node, size: int, date: Option<int>): (r: Node)
    ensures r.size == n.size + size
    ensures Merge(n, size, date).Merged? ==> r == Merge(n, size, date).node
    ensures Merge(n, size, date).NullDate? ==> r == Merge(n, size, date).node
    ensures r.date.Some? <==> n.date.Some? || date.Some?
  {
    n.(size := n.size + size, date := Later(n.date, date))
  }

  /** The null-safe merge commutes for every pair of optional dates, so the order in
      which concurrent children finish does not matter, and merging the node of an empty
      folder (no bytes, no date) leaves any node as it was. */
  lemma MergeNullSafeCommutes(n: Node, s1: int, d1: Option<int>, s2: int, d2: Option<int>)
    ensures MergeNullSafe(MergeNullSafe(n, s1, d1), s2, d2)
            == MergeNullSafe(MergeNullSafe(n, s2, d2), s1, d1)
    ensures MergeNullSafe(n, 0, None) == n
  {
  }

  // ---------------------------------------------------------------------------------
  // copy(parent, filter)

  /** The filter sees the original node through its chain and its contents. */
  type Filter = (Chain, Node) -> bool

  /** The children of `kids` (whose parent has chain `parent`) that the filter accepts. */
  function Accepted(parent: Chain, kids: seq<Node>, f: Filter): (r: seq<Node>)
    ensures |r| <= |kids|
  {
    if |kids| == 0 then []
    else if f(Child(parent, kids[0].segment), kids[0]) then [kids[0]] + Accepted(parent, kids[1..], f)
    else Accepted(parent, kids[1..], f)
  }

  /** The accepted children are exactly the children the filter accepts. */
  lemma {:induction false} AcceptedIsFilter(parent: Chain, kids: seq<Node>, f: Filter, k: Node)
    ensures k in Accepted(parent, kids, f) <==> k in kids && f(Child(parent, k.segment), k)
  {
    if |kids| != 0 {
      AcceptedIsFilter(parent, kids[1..], f, k);
      assert k in kids <==> k == kids[0] || k in kids[1..];
    }
  }

  /** The copy of an accepted node with chain `c`: same segment, size and date, and the
      copied children. */
  function CopyBody(c: Chain, n: Node, f: Filter): (r: Node)
    ensures r.segment == n.segment && r.size == n.size && r.date == n.date
    decreases n, 1
  {
    Node(n.segment, n.size, n.date, CopyChildren(c, n.children, f))
  }

  /** The children list of a copy, built as the Java stream does: every accepted child is
      copied, the copy is appended once by its constructor (`parent.children.add(this)`)
      and once more by `forEach(result.children::add)`. Rejected children are dropped
      with their whole subtrees. */
  function CopyChildren(c: Chain, kids: seq<Node>, f: Filter): (r: seq<Node>)
    ensures |r| == 2 * |Accepted(c, kids, f)|
    decreases kids, 0
  {
    if |kids| == 0 then []
    else
      var k := kids[0];
      var rest := CopyChildren(c, kids[1..], f);
      if f(Child(c, k.segment), k) then
        var copy := CopyBody(Child(c, k.segment), k, f);
        [copy, copy] + rest
      else rest
  }

  /** One step of a copy's child list: an accepted first child contributes its copy twice
      and heads the accepted list; a rejected one contributes nothing. */
  lemma CopyChildrenStep(c: Chain, kids: seq<Node>, f: Filter)
    requires |kids| > 0
    ensures var k := kids[0];
            f(Child(c, k.segment), k) ==>
              && CopyChildren(c, kids, f)
                 == [CopyBody(Child(c, k.segment), k, f), CopyBody(Child(c, k.segment), k, f)]
                    + CopyChildren(c, kids[1..], f)
              && Accepted(c, kids, f) == [k] + Accepted(c, kids[1..], f)
    ensures var k := kids[0];
            !f(Child(c, k.segment), k) ==>
              && CopyChildren(c, kids, f) == CopyChildren(c, kids[1..], f)
              && Accepted(c, kids, f) == Accepted(c, kids[1..], f)
  {
  }

  /** In a copy, the j-th accepted child's copy sits at positions 2j and 2j+1: each
      accepted child appears exactly twice, in order, and nothing else appears. */
  lemma {:induction false} CopyChildrenTwice(c: Chain, kids: seq<Node>, f: Filter, j: nat)
    requires j < |Accepted(c, kids, f)|
    ensures var acc := Accepted(c, kids, f);
            var r := CopyChildren(c, kids, f);
            && r[2 * j] == CopyBody(Child(c, acc[j].segment), acc[j], f)
            && r[2 * j + 1] == r[2 * j]
  {
    CopyChildrenStep(c, kids, f);
    var k := kids[0];
    var rest := CopyChildren(c, kids[1..], f);
    var acc := Accepted(c, kids[1..], f);
    if f(Child(c, k.segment), k) {
      var copy := CopyBody(Child(c, k.segment), k, f);
      assert CopyChildren(c, kids, f) == [copy, copy] + rest;
      assert Accepted(c, kids, f) == [k] + acc;
      if j > 0 {
        CopyChildrenTwice(c, kids[1..], f, j - 1);
        assert ([copy, copy] + rest)[2 * j] == rest[2 * (j - 1)];
        assert ([copy, copy] + rest)[2 * j + 1] == rest[2 * (j - 1) + 1];
        assert ([k] + acc)[j] == acc[j - 1];
      }
    } else {
      CopyChildrenTwice(c, kids[1..], f, j);
    }
  }

  /** The outcome of copy(parent, filter): null, a new node with its chain, or the
      exception of Validate.notNull(repo) when a non-root is copied without a new parent. */
  datatype CopyResult = Rejected | Copied(node: Node, chain: Chain) | MissingRepo

  /** copy(newParent, filter) on the node `n` placed at `p`. A root copy (no new parent)
      takes the full path as its segment; a child copy keeps the segment and hangs under
      `newParent`. */
  function Copy(p: Place, n: Node, newParent: Option<Chain>, f: Filter): (r: CopyResult)
    ensures r.Rejected? <==> !f(ChainOf(p, n.segment), n)
    ensures r.MissingRepo? <==> f(ChainOf(p, n.segment), n) && newParent.None? && p.ChildOf?
    ensures r.Copied? ==>
              && r.node.size == n.size && r.node.date == n.date
              && r.node.children == CopyChildren(ChainOf(p, n.segment), n.children, f)
    ensures r.Copied? && newParent.None? ==>
              r.chain == ChainOf(p, n.segment) && r.node.segment == GetPath(r.chain)
    ensures r.Copied? && newParent.Some? ==> r.chain == Child(newParent.value, n.segment)
    ensures r.Copied? && newParent.Some? && p.ChildOf? && Equals(newParent.value, p.parent) ==>
              Equals(r.chain, ChainOf(p, n.segment))
  {
    var c := ChainOf(p, n.segment);
    if !f(c, n) then Rejected
    else match newParent
      case None =>
        (match p
         case RootOf(id) =>
           var rc := Root(id, GetPath(c));
           Copied(Node(GetPath(c), n.size, n.date, CopyChildren(c, n.children, f)), rc)
         case ChildOf(_) => MissingRepo)
      case Some(np) =>
        Copied(Node(n.segment, n.size, n.date, CopyChildren(c, n.children, f)), Child(np, n.segment))
  }

  /** The filter that accepts every node. */
  function AcceptAll(): Filter
  {
    (c: Chain, n: Node) => true
  }

  /** The tree with every child list doubled element by element: [a, b] becomes
      [a', a', b', b'] at every level. */
  function Doubled(n: Node): Node
    decreases n, 1
  {
    Node(n.segment, n.size, n.date, DoubleEach(n.children))
  }

  function DoubleEach(kids: seq<Node>): seq<Node>
    decreases kids, 0
  {
    if |kids| == 0 then [] else [Doubled(kids[0]), Doubled(kids[0])] + DoubleEach(kids[1..])
  }

  /** Copying with a filter that accepts everything does not reproduce the tree: every
      child list comes back doubled. */
  lemma {:induction false} CopyAllIsDoubled(c: Chain, n: Node)
    ensures CopyBody(c, n, AcceptAll()) == Doubled(n)
    decreases n, 1
  {
    CopyAllChildrenDoubled(c, n.children);
  }

  lemma {:induction false} CopyAllChildrenDoubled(c: Chain, kids: seq<Node>)
    ensures CopyChildren(c, kids, AcceptAll()) == DoubleEach(kids)
    decreases kids, 0
  {
    if |kids| != 0 {
      CopyAllIsDoubled(Child(c, kids[0].segment), kids[0]);
      CopyAllChildrenDoubled(c, kids[1..]);
    }
  }

  /** The evidently intended copy: each accepted child's copy appears once. */
  function CopyOnceBody(c: Chain, n: Node, f: Filter): (r: Node)
    ensures r.segment == n.segment && r.size == n.size && r.date == n.date
    decreases n, 1
  {
    Node(n.segment, n.size, n.date, CopyOnceChildren(c, n.children, f))
  }

  function CopyOnceChildren(c: Chain, kids: seq<Node>, f: Filter): (r: seq<Node>)
    ensures |r| == |Accepted(c, kids, f)|
    decreases kids, 0
  {
    if |kids| == 0 then []
    else
      var k := kids[0];
      var rest := CopyOnceChildren(c, kids[1..], f);
      if f(Child(c, k.segment), k) then [CopyOnceBody(Child(c, k.segment), k, f)] + rest else rest
  }

  /** With the intended copy, accepting every node reproduces the tree exactly. */
  lemma {:induction false} CopyOnceAllIsIdentity(c: Chain, n: Node)
    ensures CopyOnceBody(c, n, AcceptAll()) == n
    decreases n, 1
  {
    CopyOnceAllChildrenIdentity(c, n.children);
  }

  lemma {:induction false} CopyOnceAllChildrenIdentity(c: Chain, kids: seq<Node>)
    ensures CopyOnceChildren(c, kids, AcceptAll()) == kids
    decreases kids, 0
  {
    if |kids| != 0 {
      CopyOnceAllIsIdentity(Child(c, kids[0].segment), kids[0]);
      CopyOnceAllChildrenIdentity(c, kids[1..]);
      assert kids == [kids[0]] + kids[1..];
    }
  }

  // ---------------------------------------------------------------------------------
  // fixSizes()

  function SumSizes(kids: seq<Node>): int
  {
    if |kids| == 0 then 0 else kids[0].size + SumSizes(kids[1..])
  }

  /** The total of the leaves' sizes below (and including) `n`: leaf sizes are
      authoritative, interior sizes are ignored. */
  function LeafSum(n: Node): int
    decreases n, 1
  {
    if IsLeaf(n) then n.size else LeafSumEach(n.children)
  }

  function LeafSumEach(kids: seq<Node>): int
    decreases kids, 0
  {
    if |kids| == 0 then 0 else LeafSum(kids[0]) + LeafSumEach(kids[1..])
  }

  /** The tree with every size erased: what fixSizes must leave alone. */
  function Erase(n: Node): Node
    decreases n, 1
  {
    Node(n.segment, 0, n.date, EraseEach(n.children))
  }

  function EraseEach(kids: seq<Node>): seq<Node>
    decreases kids, 0
  {
    if |kids| == 0 then [] else [Erase(kids[0])] + EraseEach(kids[1..])
  }

  /** The leaves' sizes in pre-order: what fixSizes takes as authoritative. */
  function LeafSizes(n: Node): seq<int>
    decreases n, 1
  {
    if IsLeaf(n) then [n.size] else LeafSizesEach(n.children)
  }

  function LeafSizesEach(kids: seq<Node>): seq<int>
    decreases kids, 0
  {
    if |kids| == 0 then [] else LeafSizes(kids[0]) + LeafSizesEach(kids[1..])
  }

  /** Every interior node's size is the sum of its children's sizes. */
  predicate Consistent(n: Node)
    decreases n, 1
  {
    (!IsLeaf(n) ==> n.size == SumSizes(n.children)) && AllConsistent(n.children)
  }

  predicate AllConsistent(kids: seq<Node>)
    decreases kids, 0
  {
    |kids| == 0 || (Consistent(kids[0]) && AllConsistent(kids[1..]))
  }

  /** fixSizes(): fixes the children first, then sets an interior node's size to the sum
      of its children's. Every leaf, at any depth, keeps its size; segments, dates and
      shape are untouched; afterwards every interior size is the sum of its children's,
      and the root carries the total of the leaves. */
  function FixSizes(n: Node): (r: Node)
    ensures Erase(r) == Erase(n)
    ensures Consistent(r)
    ensures IsLeaf(n) ==> r == n
    ensures LeafSizes(r) == LeafSizes(n)
    ensures r.size == LeafSum(n)
    decreases n, 1
  {
    if IsLeaf(n) then n
    else
      var kids := FixEach(n.children);
      n.(size := SumSizes(kids), children := kids)
  }

  /** fixSizes applied to each child in turn. */
  function FixEach(kids: seq<Node>): (r: seq<Node>)
    ensures |r| == |kids|
    ensures EraseEach(r) == EraseEach(kids)
    ensures AllConsistent(r)
    ensures SumSizes(r) == LeafSumEach(kids)
    ensures LeafSizesEach(r) == LeafSizesEach(kids)
    ensures forall i :: 0 <= i < |kids| ==> r[i].size == LeafSum(kids[i])
    decreases kids, 0
  {
    if |kids| == 0 then [] else
      var rest := FixEach(kids[1..]);
      var r := [FixSizes(kids[0])] + rest;
      assert r[1..] == rest;
      assert forall i :: 0 < i < |r| ==> r[i] == rest[i - 1] && kids[i] == kids[1..][i - 1];
      r
  }

  /** A tree whose sizes are already consistent is left as it is. */
  lemma {:induction false} FixSizesKeepsConsistent(n: Node)
    requires Consistent(n)
    ensures FixSizes(n) == n
    decreases n, 1
  {
    if !IsLeaf(n) {
      FixEachKeepsConsistent(n.children);
    }
  }

  lemma {:induction false} FixEachKeepsConsistent(kids: seq<Node>)
    requires AllConsistent(kids)
    ensures FixEach(kids) == kids
    decreases kids, 0
  {
    if |kids| != 0 {
      FixSizesKeepsConsistent(kids[0]);
      FixEachKeepsConsistent(kids[1..]);
      assert kids == [kids[0]] + kids[1..];
    }
  }

  /** Running fixSizes twice equals running it once. */
  lemma FixSizesIdempotent(n: Node)
    ensures FixSizes(FixSizes(n)) == FixSizes(n)
  {
    FixSizesKeepsConsistent(FixSizes(n));
  }

  /** isLeaf decides what fixSizes does with a node's own size: a leaf keeps whatever size
      it holds, while an interior node's size is recomputed from below and does not depend
      on the size it held. */
  lemma LeafIffSizeKept(n: Node)
    ensures IsLeaf(n) <==> forall m: int :: FixSizes(n.(size := m)).size == m
  {
    if !IsLeaf(n) {
      var m := LeafSum(n) + 1;
      assert LeafSum(n.(size := m)) == LeafSum(n);
      assert FixSizes(n.(size := m)).size != m;
    }
  }

  /** A repository root whose one child is a 10-byte leaf node (a folder with no
      sub-folder): copied with a filter that accepts everything and then repaired by
      fixSizes, the copy reports 20 bytes. The intended copy reports the 10 bytes of the
      original. */
  lemma CopyThenFixDoublesSizes()
    ensures var leaf := Node("/a", 10, Some(1), []);
            var root := Node("", 0, None, [leaf]);
            && Copy(RootOf("repo"), root, None, AcceptAll())
               == Copied(Node("", 0, None, [leaf, leaf]), Root("repo", ""))
            && FixSizes(Copy(RootOf("repo"), root, None, AcceptAll()).node).size == 20
            && FixSizes(root).size == 10
            && FixSizes(CopyOnceBody(Root("repo", ""), root, AcceptAll())).size == 10
  {
    var leaf := Node("/a", 10, Some(1), []);
    var root := Node("", 0, None, [leaf]);
    CopyAllIsDoubled(Root("repo", ""), root);
    CopyAllIsDoubled(Child(Root("repo", ""), "/a"), leaf);
    CopyOnceAllIsIdentity(Root("repo", ""), root);
    assert DoubleEach([leaf]) == [leaf, leaf];
  }

  // ---------------------------------------------------------------------------------
  // A copy pruned of all its children keeps its stale size

  /** The copy of a folder keeps the folder's size. When the filter rejects every child,
      the copy has no children, so fixSizes takes it for a leaf and keeps that size: a
      copy from which every leaf node (a folder with no sub-folder) was filtered out still
      reports the original total. */
  lemma PrunedCopyKeepsStaleSize()
    ensures var f: Filter := (c: Chain, k: Node) => !IsLeaf(k);
            var root := Node("", 10, Some(1), [Node("/a", 10, Some(1), [])]);
            && Copy(RootOf("repo"), root, None, f) == Copied(Node("", 10, Some(1), []), Root("repo", ""))
            && FixSizes(Copy(RootOf("repo"), root, None, f).node).size == 10
            && FixSizes(CopyPrunedBody(Root("repo", ""), root, f)).size == 0
  {
    var f: Filter := (c: Chain, k: Node) => !IsLeaf(k);
    var leaf := Node("/a", 10, Some(1), []);
    var root := Node("", 10, Some(1), [leaf]);
    assert !f(Child(Root("repo", ""), "/a"), leaf);
    assert CopyChildren(Root("repo", ""), root.children, f) == [];
    assert CopyPrunedChildren(Root("repo", ""), root.children, f) == [];
  }

  /** The evidently intended copy: each accepted child is copied once, and a copied node
      with children starts at size 0, so that fixSizes sums only the leaf nodes (folders
      with no sub-folder) the copy retains. A copied leaf node keeps its size. */
  function CopyPrunedBody(c: Chain, n: Node, f: Filter): (r: Node)
    ensures r.segment == n.segment && r.date == n.date
    ensures IsLeaf(n) ==> r == n
    ensures !IsLeaf(n) ==> r.size == 0
    decreases n, 1
  {
    if IsLeaf(n) then n
    else Node(n.segment, 0, n.date, CopyPrunedChildren(c, n.children, f))
  }

  function CopyPrunedChildren(c: Chain, kids: seq<Node>, f: Filter): (r: seq<Node>)
    ensures |r| == |Accepted(c, kids, f)|
    decreases kids, 0
  {
    if |kids| == 0 then []
    else
      var k := kids[0];
      var rest := CopyPrunedChildren(c, kids[1..], f);
      if f(Child(c, k.segment), k) then [CopyPrunedBody(Child(c, k.segment), k, f)] + rest else rest
  }

  /** The total size of the original leaf nodes (folders with no sub-folder) the filter
      retains below `n`: a leaf node is retained when it and every node above it up to
      `n` are accepted. */
  function RetainedLeafSum(c: Chain, n: Node, f: Filter): int
    decreases n, 1
  {
    if IsLeaf(n) then n.size else RetainedLeafSumEach(c, n.children, f)
  }

  function RetainedLeafSumEach(c: Chain, kids: seq<Node>, f: Filter): int
    decreases kids, 0
  {
    if |kids| == 0 then 0
    else
      var k := kids[0];
      (if f(Child(c, k.segment), k) then RetainedLeafSum(Child(c, k.segment), k, f) else 0)
      + RetainedLeafSumEach(c, kids[1..], f)
  }

  /** With the intended copy, fixSizes gives every copied node the total size of the
      leaf nodes retained below it, whichever children the filter drops. */
  lemma {:induction false} PrunedCopyFixesToRetainedLeaves(c: Chain, n: Node, f: Filter)
    ensures FixSizes(CopyPrunedBody(c, n, f)).size == RetainedLeafSum(c, n, f)
    decreases n, 2
  {
    PrunedCopyLeafSum(c, n, f);
  }

  lemma {:induction false} PrunedCopyLeafSum(c: Chain, n: Node, f: Filter)
    ensures LeafSum(CopyPrunedBody(c, n, f)) == RetainedLeafSum(c, n, f)
    decreases n, 1
  {
    if !IsLeaf(n) {
      PrunedChildrenLeafSum(c, n.children, f);
    }
  }

  lemma {:induction false} PrunedChildrenLeafSum(c: Chain, kids: seq<Node>, f: Filter)
    ensures LeafSumEach(CopyPrunedChildren(c, kids, f)) == RetainedLeafSumEach(c, kids, f)
    decreases kids, 0
  {
    if |kids| != 0 {
      var k := kids[0];
      var rest := CopyPrunedChildren(c, kids[1..], f);
      PrunedChildrenLeafSum(c, kids[1..], f);
      if f(Child(c, k.segment), k) {
        PrunedCopyLeafSum(Child(c, k.segment), k, f);
        var r := [CopyPrunedBody(Child(c, k.segment), k, f)] + rest;
        assert r[0] == CopyPrunedBody(Child(c, k.segment), k, f) && r[1..] == rest;
      }
    }
  }

  /** Accepting everything, the intended copy repairs to the original tree's leaf total,
      `LeafSum(n)`. */
  lemma {:induction false} RetainAllIsLeafSum(c: Chain, n: Node)
    ensures RetainedLeafSum(c, n, AcceptAll()) == LeafSum(n)
    decreases n, 1
  {
    if !IsLeaf(n) {
      RetainAllEachIsLeafSum(c, n.children);
    }
  }

  lemma {:induction false} RetainAllEachIsLeafSum(c: Chain, kids: seq<Node>)
    ensures RetainedLeafSumEach(c, kids, AcceptAll()) == LeafSumEach(kids)
    decreases kids, 0
  {
    if |kids| != 0 {
      RetainAllIsLeafSum(Child(c, kids[0].segment), kids[0]);
      RetainAllEachIsLeafSum(c, kids[1..]);
    }
  }

  /** When a tree's size already equals its leaf total, the intended accept-all copy
      repairs to that size. A tree whose interior folders hold files of their own has a
      larger size than its leaf total, and the repaired copy reports only the leaf total. */
  lemma RetainAllKeepsLeafTotalSize(c: Chain, n: Node)
    requires n.size == LeafSum(n)
    ensures FixSizes(CopyPrunedBody(c, n, AcceptAll())).size == n.size
  {
    PrunedCopyFixesToRetainedLeaves(c, n, AcceptAll());
    RetainAllIsLeafSum(c, n);
  }

  /** A filter that rejects every leaf node (a folder with no sub-folder) leaves the
      intended copy of a node with children at size 0 once repaired. */
  lemma RejectAllLeavesFixesToZero(c: Chain, n: Node, f: Filter)
    requires !IsLeaf(n)
    requires forall c': Chain, k: Node :: IsLeaf(k) ==> !f(c', k)
    ensures FixSizes(CopyPrunedBody(c, n, f)).size == 0
  {
    PrunedCopyFixesToRetainedLeaves(c, n, f);
    NoLeafRetained(c, n, f);
  }

  lemma {:induction false} NoLeafRetained(c: Chain, n: Node, f: Filter)
    requires !IsLeaf(n)
    requires forall c': Chain, k: Node :: IsLeaf(k) ==> !f(c', k)
    ensures RetainedLeafSum(c, n, f) == 0
    decreases n, 1
  {
    NoLeafRetainedEach(c, n.children, f);
  }

  lemma {:induction false} NoLeafRetainedEach(c: Chain, kids: seq<Node>, f: Filter)
    requires forall c': Chain, k: Node :: IsLeaf(k) ==> !f(c', k)
    ensures RetainedLeafSumEach(c, kids, f) == 0
    decreases kids, 0
  {
    if |kids| != 0 {
      var k := kids[0];
      if f(Child(c, k.segment), k) {
        NoLeafRetained(Child(c, k.segment), k, f);
      }
      NoLeafRetainedEach(c, kids[1..], f);
    }
  }
}
