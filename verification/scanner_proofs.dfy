/** What the sequential scan computes: independent definitions of a folder's totals and
    of the expected result tree, and the theorems relating them to ScanRepo. */
module ScannerProofs {
  import opened Wrappers
  import opened Aggregate
  import opened Scanner

  // ---------------------------------------------------------------------------------
  // Reference definitions over the remote tree

  /** The sum of the sizes of all files below a listing. */
  function FileTotal(l: Listing): nat
    decreases l, 1
  {
    if l.Unreachable? then 0 else FileTotalEach(l.entries)
  }

  function FileTotalEach(es: seq<Entry>): nat
    decreases es, 0
  {
    if |es| == 0 then 0
    else (if es[0].File? then es[0].size else FileTotal(es[0].listing)) + FileTotalEach(es[1..])
  }

  /** The latest last-updated instant of all files below a listing; None if there are no
      files. */
  function LatestDate(l: Listing): Option<int>
    decreases l, 1
  {
    if l.Unreachable? then None else LatestDateEach(l.entries)
  }

  function LatestDateEach(es: seq<Entry>): Option<int>
    decreases es, 0
  {
    if |es| == 0 then None
    else Later(if es[0].File? then Some(es[0].date) else LatestDate(es[0].listing), LatestDateEach(es[1..]))
  }

  /** The number of files below a listing. */
  function FileCount(l: Listing): nat
    decreases l, 1
  {
    if l.Unreachable? then 0 else FileCountEach(l.entries)
  }

  function FileCountEach(es: seq<Entry>): nat
    decreases es, 0
  {
    if |es| == 0 then 0
    else (if es[0].File? then 1 else FileCount(es[0].listing)) + FileCountEach(es[1..])
  }

  /** The number of folders in the subtree of a listing, itself included. */
  function FolderCount(l: Listing): nat
    decreases l, 1
  {
    1 + (if l.Unreachable? then 0 else FolderCountEach(l.entries))
  }

  function FolderCountEach(es: seq<Entry>): nat
    decreases es, 0
  {
    if |es| == 0 then 0
    else (if es[0].File? then 0 else FolderCount(es[0].listing)) + FolderCountEach(es[1..])
  }

  /** The number of folder children of folders at depth below MaxParallelDepth, when the
      listing sits at `depth`. */
  function ParallelFolders(l: Listing, depth: nat): nat
    decreases l, 1
  {
    if l.Unreachable? then 0 else ParallelFoldersEach(l.entries, depth)
  }

  function ParallelFoldersEach(es: seq<Entry>, depth: nat): nat
    decreases es, 0
  {
    if |es| == 0 then 0
    else (if es[0].File? then 0
          else (if depth < MaxParallelDepth then 1 else 0) + ParallelFolders(es[0].listing, depth + 1))
         + ParallelFoldersEach(es[1..], depth)
  }

  /** Interrupt polls of a full scan: two per submitted folder (the loop's check and the
      task's), one per folder scanned inline. */
  function PollCount(l: Listing, depth: nat): nat
    decreases l, 1
  {
    if l.Unreachable? then 0 else PollCountEach(l.entries, depth)
  }

  function PollCountEach(es: seq<Entry>, depth: nat): nat
    decreases es, 0
  {
    if |es| == 0 then 0
    else (if es[0].File? then 0
          else (if depth < MaxParallelDepth then 2 else 1) + PollCount(es[0].listing, depth + 1))
         + PollCountEach(es[1..], depth)
  }

  /** The number of folders in the subtree of a listing whose own getChildren call
      succeeds (itself included): each ticks once. */
  function ListedFolderCount(l: Listing): nat
    decreases l, 1
  {
    if l.Unreachable? then 0 else 1 + ListedFolderCountEach(l.entries)
  }

  function ListedFolderCountEach(es: seq<Entry>): nat
    decreases es, 0
  {
    if |es| == 0 then 0
    else (if es[0].File? then 0 else ListedFolderCount(es[0].listing)) + ListedFolderCountEach(es[1..])
  }

  /** No folder that the scan of `l` at `depth`, into a node that holds a date exactly
      when `dated`, scans inline throws. Every folder it scans inline (a folder child of a
      folder at depth MaxParallelDepth or more) is answered, and is undated (holds no
      file) only while its parent is still undated: the parent becomes dated with its
      first file or first sub-folder holding a file. A submitted folder may fail to be
      listed, since submit() absorbs that; the folders below it are constrained alike,
      although an inline exception below a submitted folder would be absorbed too. So
      the condition suffices for the scan to complete, and it is exact where folders are
      scanned inline (DeepScanFailsIff). */
  predicate InlineSafe(l: Listing, depth: nat, dated: bool)
    decreases l, 1
  {
    l.Unreachable? || InlineSafeEach(l.entries, depth, dated)
  }

  predicate InlineSafeEach(es: seq<Entry>, depth: nat, dated: bool)
    decreases es, 0
  {
    if |es| == 0 then true
    else if es[0].File? then InlineSafeEach(es[1..], depth, true)
    else
      && (depth >= MaxParallelDepth ==> es[0].listing.Listed? && (dated ==> FileCount(es[0].listing) > 0))
      && InlineSafe(es[0].listing, depth + 1, false)
      && InlineSafeEach(es[1..], depth, dated || FileCount(es[0].listing) > 0)
  }

  /** The node a complete scan should build for a folder with segment `segment`: the
      folder's file total and latest date, and one child per sub-folder, in order. */
  function Expected(segment: string, l: Listing): Node
    decreases l, 1
  {
    Node(segment, FileTotal(l), LatestDate(l), if l.Unreachable? then [] else ExpectedEach(l.entries))
  }

  function ExpectedEach(es: seq<Entry>): seq<Node>
    decreases es, 0
  {
    if |es| == 0 then []
    else (if es[0].File? then [] else [Expected(es[0].uri, es[0].listing)]) + ExpectedEach(es[1..])
  }

  /** The interrupt is never raised. */
  ghost predicate Never(intr: Interrupt)
  {
    forall i: nat :: !intr(i)
  }

  /** Some poll numbered in [from, to) answered true. */
  ghost predicate Fired(intr: Interrupt, from: nat, to: nat)
  {
    exists i: nat :: from <= i < to && intr(i)
  }

  // ---------------------------------------------------------------------------------
  // Small facts

  lemma LatestDateIffFiles(l: Listing)
    ensures LatestDate(l).Some? <==> FileCount(l) > 0
    ensures FileCount(l) == 0 ==> FileTotal(l) == 0
    decreases l, 1
  {
    if l.Listed? {
      LatestDateEachIffFiles(l.entries);
    }
  }

  lemma LatestDateEachIffFiles(es: seq<Entry>)
    ensures LatestDateEach(es).Some? <==> FileCountEach(es) > 0
    ensures FileCountEach(es) == 0 ==> FileTotalEach(es) == 0
    decreases es, 0
  {
    if |es| != 0 {
      if es[0].Folder? {
        LatestDateIffFiles(es[0].listing);
      }
      LatestDateEachIffFiles(es[1..]);
    }
  }

  lemma LaterAssociative(a: Option<int>, b: Option<int>, d: Option<int>)
    ensures Later(Later(a, b), d) == Later(a, Later(b, d))
  {
  }

  lemma FiredSplit(intr: Interrupt, a: nat, b: nat, d: nat)
    requires a <= b <= d
    ensures Fired(intr, a, d) <==> Fired(intr, a, b) || Fired(intr, b, d)
  {
    if Fired(intr, a, d) {
      var i: nat :| a <= i < d && intr(i);
      assert i < b ==> Fired(intr, a, b);
      assert i >= b ==> Fired(intr, b, d);
    }
  }

  // ---------------------------------------------------------------------------------
  // The complete scan

  /** The counters after a complete scan of `l` at `depth`, starting from `c`. */
  function CompleteCounters(c: Counters, l: Listing, depth: nat): Counters
  {
    Counters(c.polls + PollCount(l, depth),
             c.ticks + ListedFolderCount(l) + FileCount(l),
             c.listings + FolderCount(l),
             c.dispatched + ParallelFolders(l, depth))
  }

  /** The node `node` after it absorbed the complete scan of its sub-folder `uri`: the
      sub-folder's totals merged in and its node attached. */
  function Absorbed(node: Node, uri: string, l: Listing): Node
  {
    node.(size := node.size + FileTotal(l), date := Later(node.date, LatestDate(l)),
          children := node.children + [Expected(uri, l)])
  }

  /** Absorbing a sub-folder dates the node exactly when it was dated or the sub-folder
      holds a file. */
  lemma AbsorbedDated(node: Node, uri: string, l: Listing)
    ensures Absorbed(node, uri, l).date.Some? <==> node.date.Some? || FileCount(l) > 0
  {
    LatestDateIffFiles(l);
  }

  /** Without interruption, scanning an answered folder in which no folder scanned inline
      throws (InlineSafe, which DeepScanFailsIff shows is exact where every folder is
      scanned inline) completes. The node gains exactly the folder's file total and
      latest date, and one child per sub-folder carrying that sub-folder's totals; a
      submitted sub-folder that fails or is empty contributes nothing but its node. There
      is one tick per answered folder and per file, one getChildren call per folder
      reached, and one submitted task per folder child of a folder shallower than
      MaxParallelDepth. */
  lemma {:induction false} ScanFolderComplete(node: Node, l: Listing, depth: nat, intr: Interrupt, c: Counters)
    requires l.Listed? && InlineSafe(l, depth, node.date.Some?) && Never(intr)
    ensures var r := ScanFolder(node, l, depth, intr, c);
            && r.status == Completed
            && r.node == node.(size := node.size + FileTotal(l), date := Later(node.date, LatestDate(l)),
                               children := node.children + ExpectedEach(l.entries))
            && r.counters == CompleteCounters(c, l, depth)
    decreases l, 2
  {
    var c1 := c.(listings := c.listings + 1, ticks := c.ticks + 1);
    ScanEntriesComplete(node, l.entries, depth, intr, c1);
  }

  /** The same for a fresh node: the scan builds exactly the expected node. */
  lemma {:induction false} FreshScanComplete(segment: string, l: Listing, depth: nat, intr: Interrupt, c: Counters)
    requires l.Listed? && InlineSafe(l, depth, false) && Never(intr)
    ensures ScanFolder(Fresh(segment), l, depth, intr, c)
            == Scan(Expected(segment, l), Completed, CompleteCounters(c, l, depth))
    decreases l, 3
  {
    ScanFolderComplete(Fresh(segment), l, depth, intr, c);
    assert [] + ExpectedEach(l.entries) == ExpectedEach(l.entries);
  }

  lemma {:induction false} ScanEntriesComplete(node: Node, es: seq<Entry>, depth: nat, intr: Interrupt, c: Counters)
    requires InlineSafeEach(es, depth, node.date.Some?) && Never(intr)
    ensures var r := ScanEntries(node, es, depth, intr, c, false);
            && r.status == Completed
            && r.node == node.(size := node.size + FileTotalEach(es), date := Later(node.date, LatestDateEach(es)),
                               children := node.children + ExpectedEach(es))
            && r.counters == Counters(c.polls + PollCountEach(es, depth),
                                      c.ticks + ListedFolderCountEach(es) + FileCountEach(es),
                                      c.listings + FolderCountEach(es),
                                      c.dispatched + ParallelFoldersEach(es, depth))
    decreases es, 1
  {
    if |es| == 0 {
      assert node.children + [] == node.children;
    } else if es[0].File? {
      FileEntryComplete(node, es, depth, intr, c);
    } else {
      FolderEntryComplete(node, es, depth, intr, c);
    }
  }

  /** A file child ticks once and is merged into its enclosing folder's node, once. */
  lemma {:induction false} FileEntryComplete(node: Node, es: seq<Entry>, depth: nat, intr: Interrupt, c: Counters)
    requires |es| > 0 && es[0].File?
    requires InlineSafeEach(es, depth, node.date.Some?) && Never(intr)
    ensures var r := ScanEntries(node, es, depth, intr, c, false);
            && r.status == Completed
            && r.node == node.(size := node.size + FileTotalEach(es), date := Later(node.date, LatestDateEach(es)),
                               children := node.children + ExpectedEach(es))
            && r.counters == Counters(c.polls + PollCountEach(es, depth),
                                      c.ticks + ListedFolderCountEach(es) + FileCountEach(es),
                                      c.listings + FolderCountEach(es),
                                      c.dispatched + ParallelFoldersEach(es, depth))
    decreases es, 0
  {
    var rest := es[1..];
    var merged := Merge(node, es[0].size, Some(es[0].date)).node;
    var r := ScanEntries(node, es, depth, intr, c, false);
    var r' := ScanEntries(merged, rest, depth, intr, c.(ticks := c.ticks + 1), false);
    assert r == r';
    ScanEntriesComplete(merged, rest, depth, intr, c.(ticks := c.ticks + 1));
    FileEntrySums(node, es, depth);
  }

  /** The reference totals of a listing that starts with a file, split at that file. */
  lemma FileEntrySums(node: Node, es: seq<Entry>, depth: nat)
    requires |es| > 0 && es[0].File?
    ensures var rest := es[1..];
            && FileTotalEach(es) == es[0].size + FileTotalEach(rest)
            && Later(node.date, LatestDateEach(es)) == Later(Later(node.date, Some(es[0].date)), LatestDateEach(rest))
            && ExpectedEach(es) == ExpectedEach(rest)
            && PollCountEach(es, depth) == PollCountEach(rest, depth)
            && FolderCountEach(es) == FolderCountEach(rest)
            && ListedFolderCountEach(es) == ListedFolderCountEach(rest)
            && FileCountEach(es) == 1 + FileCountEach(rest)
            && ParallelFoldersEach(es, depth) == ParallelFoldersEach(rest, depth)
  {
    LaterAssociative(node.date, Some(es[0].date), LatestDateEach(es[1..]));
  }

  /** A folder child, submitted or scanned inline, is absorbed into its parent once. */
  lemma {:induction false} FolderEntryComplete(node: Node, es: seq<Entry>, depth: nat, intr: Interrupt, c: Counters)
    requires |es| > 0 && es[0].Folder?
    requires InlineSafeEach(es, depth, node.date.Some?) && Never(intr)
    ensures var r := ScanEntries(node, es, depth, intr, c, false);
            && r.status == Completed
            && r.node == node.(size := node.size + FileTotalEach(es), date := Later(node.date, LatestDateEach(es)),
                               children := node.children + ExpectedEach(es))
            && r.counters == Counters(c.polls + PollCountEach(es, depth),
                                      c.ticks + ListedFolderCountEach(es) + FileCountEach(es),
                                      c.listings + FolderCountEach(es),
                                      c.dispatched + ParallelFoldersEach(es, depth))
    decreases es, 0
  {
    var uri, l := es[0].uri, es[0].listing;
    var rest := es[1..];
    assert es == [Folder(uri, l)] + rest;
    var after := FolderStepComplete(node, uri, l, rest, depth, intr, c);
    var merged := Absorbed(node, uri, l);
    AbsorbedDated(node, uri, l);
    ScanEntriesComplete(merged, rest, depth, intr, after);
    FolderEntrySums(node, es, depth);
  }

  /** The reference totals of a listing that starts with a folder, split at that folder. */
  lemma FolderEntrySums(node: Node, es: seq<Entry>, depth: nat)
    requires |es| > 0 && es[0].Folder?
    ensures var l, rest := es[0].listing, es[1..];
            && FileTotalEach(es) == FileTotal(l) + FileTotalEach(rest)
            && Later(node.date, LatestDateEach(es)) == Later(Later(node.date, LatestDate(l)), LatestDateEach(rest))
            && node.children + ExpectedEach(es) == node.children + [Expected(es[0].uri, l)] + ExpectedEach(rest)
            && PollCountEach(es, depth)
               == (if depth < MaxParallelDepth then 2 else 1) + PollCount(l, depth + 1) + PollCountEach(rest, depth)
            && FolderCountEach(es) == FolderCount(l) + FolderCountEach(rest)
            && ListedFolderCountEach(es) == ListedFolderCount(l) + ListedFolderCountEach(rest)
            && FileCountEach(es) == FileCount(l) + FileCountEach(rest)
            && ParallelFoldersEach(es, depth)
               == (if depth < MaxParallelDepth then 1 else 0) + ParallelFolders(l, depth + 1) + ParallelFoldersEach(rest, depth)
  {
    var l, rest := es[0].listing, es[1..];
    LaterAssociative(node.date, LatestDate(l), LatestDateEach(rest));
    assert ExpectedEach(es) == [Expected(es[0].uri, l)] + ExpectedEach(rest);
  }

  /** One folder entry of a complete scan: the sub-folder is absorbed into the node;
      returns the counters afterwards. A submitted sub-folder whose listing fails leaves
      only its fresh node behind, which is what the reference expects of it. */
  lemma {:induction false} FolderStepComplete(node: Node, uri: string, l: Listing, rest: seq<Entry>,
                                              depth: nat, intr: Interrupt, c: Counters)
    returns (after: Counters)
    requires InlineSafe(l, depth + 1, false) && Never(intr)
    requires depth >= MaxParallelDepth ==> l.Listed? && (node.date.Some? ==> FileCount(l) > 0)
    ensures after == Counters(c.polls + (if depth < MaxParallelDepth then 2 else 1) + PollCount(l, depth + 1),
                              c.ticks + ListedFolderCount(l) + FileCount(l),
                              c.listings + FolderCount(l),
                              c.dispatched + (if depth < MaxParallelDepth then 1 else 0) + ParallelFolders(l, depth + 1))
    ensures ScanEntries(node, [Folder(uri, l)] + rest, depth, intr, c, false)
            == ScanEntries(Absorbed(node, uri, l), rest, depth, intr, after, false)
    decreases l, 6
  {
    var es := [Folder(uri, l)] + rest;
    assert es[0] == Folder(uri, l) && es[1..] == rest;
    assert !intr(c.polls);
    if depth < MaxParallelDepth {
      var cd := c.(polls := c.polls + 1, dispatched := c.dispatched + 1);
      assert !intr(cd.polls);
      after := SubmittedStepComplete(node, uri, l, depth, intr, cd);
    } else {
      var c1 := c.(polls := c.polls + 1);
      FreshScanComplete(uri, l, depth + 1, intr, c1);
      after := CompleteCounters(c1, l, depth + 1);
      var attached := node.(children := node.children + [Expected(uri, l)]);
      LatestDateIffFiles(l);
      assert MergeNode(attached, Expected(uri, l)) == Merged(Absorbed(node, uri, l));
    }
  }

  /** A submitted task for a sub-folder, with the interrupt never raised, leaves the
      parent absorbed: a completed sub-scan is merged (an undated one changes nothing,
      the NullPointerException of its merge being swallowed), and a failed listing leaves
      only the fresh child node. */
  lemma {:induction false} SubmittedStepComplete(node: Node, uri: string, l: Listing, depth: nat,
                                                 intr: Interrupt, cd: Counters)
    returns (after: Counters)
    requires InlineSafe(l, depth + 1, false) && Never(intr)
    ensures after == CompleteCounters(cd.(polls := cd.polls + 1), l, depth + 1)
    ensures Dispatch(node, uri, l, depth, intr, cd, false) == Task(Absorbed(node, uri, l), after, false)
    decreases l, 5
  {
    after := CompleteCounters(cd.(polls := cd.polls + 1), l, depth + 1);
    if l.Unreachable? {
      SubmittedUnreachable(node, uri, depth, intr, cd);
    } else {
      SubmittedListed(node, uri, l, depth, intr, cd);
    }
  }

  lemma SubmittedUnreachable(node: Node, uri: string, depth: nat, intr: Interrupt, cd: Counters)
    requires !intr(cd.polls)
    ensures Dispatch(node, uri, Unreachable, depth, intr, cd, false)
            == Task(Absorbed(node, uri, Unreachable), CompleteCounters(cd.(polls := cd.polls + 1), Unreachable, depth + 1), false)
  {
    var c1 := cd.(polls := cd.polls + 1);
    assert ScanFolder(Fresh(uri), Unreachable, depth + 1, intr, c1)
           == Scan(Fresh(uri), Failed(ListingError), c1.(listings := c1.listings + 1));
    assert Expected(uri, Unreachable) == Fresh(uri);
    assert Absorbed(node, uri, Unreachable) == node.(children := node.children + [Fresh(uri)]);
  }

  lemma {:induction false} SubmittedListed(node: Node, uri: string, l: Listing, depth: nat, intr: Interrupt, cd: Counters)
    requires l.Listed? && InlineSafe(l, depth + 1, false) && Never(intr)
    ensures Dispatch(node, uri, l, depth, intr, cd, false)
            == Task(Absorbed(node, uri, l), CompleteCounters(cd.(polls := cd.polls + 1), l, depth + 1), false)
    decreases l, 4
  {
    var c1 := cd.(polls := cd.polls + 1);
    assert !intr(cd.polls);
    FreshScanComplete(uri, l, depth + 1, intr, c1);
    var sub := ScanFolder(Fresh(uri), l, depth + 1, intr, c1);
    assert sub.status == Completed && sub.node == Expected(uri, l);
    var attached := node.(children := node.children + [sub.node]);
    MergeLeavesLaterDate(attached, sub.node);
    assert MergeNode(attached, sub.node).node == Absorbed(node, uri, l);
    assert Dispatch(node, uri, l, depth, intr, cd, false) == Task(MergeNode(attached, sub.node).node, sub.counters, false);
  }

  /** Whether or not it throws, a merge leaves the receiver with the added size and the
      later date: the date an undated node would bring is the receiver's own. */
  lemma MergeLeavesLaterDate(n: Node, other: Node)
    ensures MergeNode(n, other).node == n.(size := n.size + other.size, date := Later(n.date, other.date))
  {
  }

  /** The public scan of an answered repository in which no folder scanned inline throws
      returns, without interruption, the root at path "" holding the whole
      repository's file total and latest date, with one tick per answered folder and per
      file. */
  lemma ScanRepoComplete(repoId: string, l: Listing, intr: Interrupt)
    requires l.Listed? && InlineSafe(l, 0, false) && Never(intr)
    ensures ScanRepo(repoId, l, intr)
            == Report(Returned(Tree(repoId, Expected("", l))),
                      Counters(PollCount(l, 0), ListedFolderCount(l) + FileCount(l), FolderCount(l), ParallelFolders(l, 0)))
  {
    var c0 := Counters(0, 0, 0, 0);
    FreshScanComplete("", l, 0, intr, c0);
    var s := ScanFolder(Fresh(""), l, 0, intr, c0);
    assert s.status == Completed;
    assert s.node == Expected("", l);
    assert s.counters == CompleteCounters(c0, l, 0);
    assert ScanRepo(repoId, l, intr) == Report(Returned(Tree(repoId, s.node)), s.counters);
  }

  /** A root holding a 10-byte file, an empty folder and a folder that cannot be listed. */
  const SubmittedFailuresRepo: Listing := Listed([File("/a", 10, 7), Folder("/e", Listed([])), Folder("/x", Unreachable)])

  lemma SubmittedFailuresRepoIsSafe()
    ensures InlineSafe(SubmittedFailuresRepo, 0, false)
  {
    var es2 := [Folder("/x", Unreachable)];
    var es1 := [Folder("/e", Listed([]))] + es2;
    assert SubmittedFailuresRepo.entries[1..] == es1 && es1[1..] == es2 && es2[1..] == [];
    assert InlineSafe(Listed([]), 1, false) && InlineSafe(Unreachable, 1, false);
    assert InlineSafeEach(es2, 0, true);
    assert InlineSafeEach(es1, 0, true);
  }

  lemma SubmittedFailuresRepoExpected()
    ensures Expected("", SubmittedFailuresRepo)
            == Node("", 10, Some(7), [Node("/e", 0, None, []), Node("/x", 0, None, [])])
  {
    var es2 := [Folder("/x", Unreachable)];
    var es1 := [Folder("/e", Listed([]))] + es2;
    assert SubmittedFailuresRepo.entries[1..] == es1 && es1[1..] == es2 && es2[1..] == [];
    assert ExpectedEach(es2) == [Node("/x", 0, None, [])];
    assert ExpectedEach(es1) == [Node("/e", 0, None, []), Node("/x", 0, None, [])];
    assert FileTotalEach(es1) == 0 && LatestDateEach(es1) == None;
  }

  lemma SubmittedFailuresRepoCounts()
    ensures var l := SubmittedFailuresRepo;
            && PollCount(l, 0) == 4 && ListedFolderCount(l) == 2 && FileCount(l) == 1
            && FolderCount(l) == 3 && ParallelFolders(l, 0) == 2
  {
    var es2 := [Folder("/x", Unreachable)];
    var es1 := [Folder("/e", Listed([]))] + es2;
    assert SubmittedFailuresRepo.entries[1..] == es1 && es1[1..] == es2 && es2[1..] == [];
    assert PollCountEach(es2, 0) == 2 && PollCountEach(es1, 0) == 4;
    assert ListedFolderCountEach(es2) == 0 && ListedFolderCountEach(es1) == 1;
    assert FileCountEach(es2) == 0 && FileCountEach(es1) == 0;
    assert FolderCountEach(es2) == 1 && FolderCountEach(es1) == 2;
    assert ParallelFoldersEach(es2, 0) == 1 && ParallelFoldersEach(es1, 0) == 2;
  }

  /** Submitted folders that are empty or cannot be listed contribute their bare node and
      nothing else, and the scan carries on with their siblings. */
  lemma SubmittedFailuresContributeNothing()
    ensures ScanRepo("repo", SubmittedFailuresRepo, (i: nat) => false)
            == Report(Returned(Tree("repo", Node("", 10, Some(7), [Node("/e", 0, None, []), Node("/x", 0, None, [])]))),
                      Counters(4, 3, 3, 2))
  {
    var never := (i: nat) => false;
    assert Never(never);
    SubmittedFailuresRepoIsSafe();
    SubmittedFailuresRepoExpected();
    SubmittedFailuresRepoCounts();
    ScanRepoComplete("repo", SubmittedFailuresRepo, never);
  }

  // ---------------------------------------------------------------------------------
  // Interruption

  lemma FiredNone(intr: Interrupt, a: nat)
    ensures !Fired(intr, a, a)
  {
  }

  lemma FiredAt(intr: Interrupt, a: nat)
    requires intr(a)
    ensures Fired(intr, a, a + 1)
  {
  }

  lemma FiredNotAt(intr: Interrupt, a: nat, d: nat)
    requires !intr(a) && a < d
    ensures Fired(intr, a, d) <==> Fired(intr, a + 1, d)
  {
    FiredSplit(intr, a, a + 1, d);
  }

  /** A folder scan ends Interrupted exactly when one of the polls it made answered true:
      an interrupt seen anywhere below is never swallowed, and nothing else makes the
      scan throw InterruptedException. */
  lemma {:induction false} ScanFolderInterruptIff(node: Node, l: Listing, depth: nat, intr: Interrupt, c: Counters)
    ensures var r := ScanFolder(node, l, depth, intr, c);
            r.status == Interrupted <==> Fired(intr, c.polls, r.counters.polls)
    decreases l, 2
  {
    if l.Listed? {
      ScanEntriesInterruptIff(node, l.entries, depth, intr, c.(listings := c.listings + 1, ticks := c.ticks + 1), false);
    } else {
      FiredNone(intr, c.polls);
    }
  }

  /** The loop over a node's children ends Interrupted exactly when the node's flag was
      already set or one of the polls made during the loop answered true. */
  lemma {:induction false} ScanEntriesInterruptIff(node: Node, es: seq<Entry>, depth: nat, intr: Interrupt,
                                                   c: Counters, interrupted: bool)
    requires !interrupted || depth < MaxParallelDepth
    ensures var r := ScanEntries(node, es, depth, intr, c, interrupted);
            r.status == Interrupted <==> interrupted || Fired(intr, c.polls, r.counters.polls)
    decreases es, 1
  {
    var r := ScanEntries(node, es, depth, intr, c, interrupted);
    if |es| == 0 {
      FiredNone(intr, c.polls);
    } else if es[0].File? {
      var merged := Merge(node, es[0].size, Some(es[0].date)).node;
      ScanEntriesInterruptIff(merged, es[1..], depth, intr, c.(ticks := c.ticks + 1), interrupted);
    } else if intr(c.polls) {
      FiredAt(intr, c.polls);
    } else if depth < MaxParallelDepth {
      FolderDispatchedInterruptIff(node, es, depth, intr, c, interrupted);
    } else {
      FolderInlineInterruptIff(node, es, depth, intr, c);
    }
  }

  lemma {:induction false} FolderDispatchedInterruptIff(node: Node, es: seq<Entry>, depth: nat, intr: Interrupt,
                                                        c: Counters, interrupted: bool)
    requires |es| > 0 && es[0].Folder? && !intr(c.polls) && depth < MaxParallelDepth
    ensures var r := ScanEntries(node, es, depth, intr, c, interrupted);
            r.status == Interrupted <==> interrupted || Fired(intr, c.polls, r.counters.polls)
    decreases es, 0
  {
    var cd := c.(polls := c.polls + 1, dispatched := c.dispatched + 1);
    var t := Dispatch(node, es[0].uri, es[0].listing, depth, intr, cd, interrupted);
    var r := ScanEntries(node, es, depth, intr, c, interrupted);
    assert r == ScanEntries(t.node, es[1..], depth, intr, t.counters, t.interrupted);
    ScanEntriesInterruptIff(t.node, es[1..], depth, intr, t.counters, t.interrupted);
    if !interrupted {
      DispatchInterruptIff(node, es[0].uri, es[0].listing, depth, intr, cd);
    }
    FiredSplit(intr, cd.polls, t.counters.polls, r.counters.polls);
    FiredNotAt(intr, c.polls, r.counters.polls);
  }

  lemma {:induction false} FolderInlineInterruptIff(node: Node, es: seq<Entry>, depth: nat, intr: Interrupt, c: Counters)
    requires |es| > 0 && es[0].Folder? && !intr(c.polls) && depth >= MaxParallelDepth
    ensures var r := ScanEntries(node, es, depth, intr, c, false);
            r.status == Interrupted <==> Fired(intr, c.polls, r.counters.polls)
    decreases es, 0
  {
    var uri, l := es[0].uri, es[0].listing;
    var c1 := c.(polls := c.polls + 1);
    var sub := ScanFolder(Fresh(uri), l, depth + 1, intr, c1);
    ScanFolderInterruptIff(Fresh(uri), l, depth + 1, intr, c1);
    var r := ScanEntries(node, es, depth, intr, c, false);
    var attached := node.(children := node.children + [sub.node]);
    if sub.status == Completed && MergeNode(attached, sub.node).Merged? {
      var merged := MergeNode(attached, sub.node).node;
      assert r == ScanEntries(merged, es[1..], depth, intr, sub.counters, false);
      ScanEntriesInterruptIff(merged, es[1..], depth, intr, sub.counters, false);
      FiredSplit(intr, c1.polls, sub.counters.polls, r.counters.polls);
    } else {
      assert r.counters == sub.counters;
    }
    FiredNotAt(intr, c.polls, r.counters.polls);
  }

  /** A submitted task (with the parent's flag still clear) sets the flag exactly when one
      of its polls, its own or its sub-scan's, answered true. */
  lemma {:induction false} DispatchInterruptIff(node: Node, uri: string, l: Listing, depth: nat, intr: Interrupt,
                                                c: Counters)
    ensures var t := Dispatch(node, uri, l, depth, intr, c, false);
            t.interrupted <==> Fired(intr, c.polls, t.counters.polls)
    decreases l, 3
  {
    var t := Dispatch(node, uri, l, depth, intr, c, false);
    if intr(c.polls) {
      FiredAt(intr, c.polls);
    } else {
      var c1 := c.(polls := c.polls + 1);
      ScanFolderInterruptIff(Fresh(uri), l, depth + 1, intr, c1);
      FiredNotAt(intr, c.polls, t.counters.polls);
    }
  }

  /** The interrupt stays raised from poll `from` on. */
  ghost predicate RaisedFrom(intr: Interrupt, from: nat)
  {
    forall i: nat :: from <= i ==> intr(i)
  }

  predicate HasFolder(es: seq<Entry>)
  {
    exists j :: 0 <= j < |es| && es[j].Folder?
  }

  /** Once the interrupt is raised, the loop stops at the next folder child: the files
      before it are still merged, but no listing is fetched, no task is submitted and no
      child node is created; the node throws InterruptedException iff a folder child was
      reached. */
  lemma {:induction false} ScanEntriesAfterInterrupt(node: Node, es: seq<Entry>, depth: nat, intr: Interrupt, c: Counters)
    requires RaisedFrom(intr, c.polls)
    decreases es
    ensures var r := ScanEntries(node, es, depth, intr, c, false);
            && r.counters.listings == c.listings && r.counters.dispatched == c.dispatched
            && r.node.children == node.children
            && (r.status == Interrupted <==> HasFolder(es))
            && (r.status == Completed <==> !HasFolder(es))
  {
    if |es| != 0 {
      if es[0].File? {
        var merged := Merge(node, es[0].size, Some(es[0].date)).node;
        ScanEntriesAfterInterrupt(merged, es[1..], depth, intr, c.(ticks := c.ticks + 1));
        assert HasFolder(es) <==> HasFolder(es[1..]) by {
          if HasFolder(es) {
            var j :| 0 <= j < |es| && es[j].Folder?;
            assert es[1..][j - 1].Folder?;
          }
          if HasFolder(es[1..]) {
            var j :| 0 <= j < |es[1..]| && es[1..][j].Folder?;
            assert es[j + 1].Folder?;
          }
        }
      } else {
        assert intr(c.polls);
      }
    }
  }

  /** Cancellation before anything is dispatched: if the interrupt is raised from the
      first poll on and the root lists a folder, the public scan throws
      InterruptedException after the root listing alone, with no task submitted. */
  lemma ScanRepoInterruptedAtOnce(repoId: string, es: seq<Entry>, intr: Interrupt)
    requires RaisedFrom(intr, 0)
    requires HasFolder(es)
    ensures var r := ScanRepo(repoId, Listed(es), intr);
            r.outcome == ThrewInterrupted && r.counters.listings == 1 && r.counters.dispatched == 0
  {
    ScanEntriesAfterInterrupt(Fresh(""), es, 0, intr, Counters(0, 1, 1, 0));
  }

  /** With the node's `interrupted` flag set, every later submitted task skips its scan:
      no listing is fetched and no child node is created, and the node throws
      InterruptedException whatever the interrupt answers. */
  lemma {:induction false} FlagSkipsLaterTasks(node: Node, es: seq<Entry>, depth: nat, intr: Interrupt, c: Counters)
    requires depth < MaxParallelDepth
    decreases es
    ensures var r := ScanEntries(node, es, depth, intr, c, true);
            && r.status == Interrupted
            && r.counters.listings == c.listings
            && r.node.children == node.children
  {
    if |es| != 0 {
      if es[0].File? {
        var merged := Merge(node, es[0].size, Some(es[0].date)).node;
        FlagSkipsLaterTasks(merged, es[1..], depth, intr, c.(ticks := c.ticks + 1));
      } else if !intr(c.polls) {
        var cd := c.(polls := c.polls + 1, dispatched := c.dispatched + 1);
        FlagSkipsLaterTasks(node, es[1..], depth, intr, cd);
      }
    }
  }

  // ---------------------------------------------------------------------------------
  // The depth gate

  /** Folders at depth MaxParallelDepth or deeper scan every descendant inline: nothing
      below them is submitted to the pool. */
  lemma {:induction false} DeepScanSubmitsNothing(node: Node, l: Listing, depth: nat, intr: Interrupt, c: Counters)
    requires depth >= MaxParallelDepth
    ensures ScanFolder(node, l, depth, intr, c).counters.dispatched == c.dispatched
    decreases l, 2
  {
    if l.Listed? {
      DeepEntriesSubmitNothing(node, l.entries, depth, intr, c.(listings := c.listings + 1, ticks := c.ticks + 1));
    }
  }

  lemma {:induction false} DeepEntriesSubmitNothing(node: Node, es: seq<Entry>, depth: nat, intr: Interrupt, c: Counters)
    requires depth >= MaxParallelDepth
    ensures ScanEntries(node, es, depth, intr, c, false).counters.dispatched == c.dispatched
    decreases es, 1
  {
    if |es| != 0 {
      if es[0].File? {
        var merged := Merge(node, es[0].size, Some(es[0].date)).node;
        DeepEntriesSubmitNothing(merged, es[1..], depth, intr, c.(ticks := c.ticks + 1));
      } else if !intr(c.polls) {
        var c1 := c.(polls := c.polls + 1);
        var sub := ScanFolder(Fresh(es[0].uri), es[0].listing, depth + 1, intr, c1);
        DeepScanSubmitsNothing(Fresh(es[0].uri), es[0].listing, depth + 1, intr, c1);
        var attached := node.(children := node.children + [sub.node]);
        if sub.status == Completed && MergeNode(attached, sub.node).Merged? {
          DeepEntriesSubmitNothing(MergeNode(attached, sub.node).node, es[1..], depth, intr, sub.counters);
        }
      }
    }
  }

  /** Nothing below a listing at depth MaxParallelDepth or deeper counts as submitted. */
  lemma {:induction false} NoParallelFoldersDeep(l: Listing, depth: nat)
    requires depth >= MaxParallelDepth
    ensures ParallelFolders(l, depth) == 0
    decreases l, 1
  {
    if l.Listed? {
      NoParallelFoldersDeepEach(l.entries, depth);
    }
  }

  lemma {:induction false} NoParallelFoldersDeepEach(es: seq<Entry>, depth: nat)
    requires depth >= MaxParallelDepth
    ensures ParallelFoldersEach(es, depth) == 0
    decreases es, 0
  {
    if |es| != 0 {
      if es[0].Folder? {
        NoParallelFoldersDeep(es[0].listing, depth + 1);
      }
      NoParallelFoldersDeepEach(es[1..], depth);
    }
  }

  /** Without interruption a scan submits exactly one task per folder child of a folder
      shallower than MaxParallelDepth, whatever listings fail or merges throw on the way:
      a failing sub-scan below a submitted task only loses folders of its own, and those
      were scanned inline. */
  lemma {:induction false} ScanFolderDispatchCount(node: Node, l: Listing, depth: nat, intr: Interrupt, c: Counters)
    requires Never(intr)
    ensures var r := ScanFolder(node, l, depth, intr, c);
            && r.counters.dispatched == c.dispatched + ParallelFolders(l, depth)
            && !r.status.Interrupted?
    decreases l, 2
  {
    if l.Listed? {
      ScanEntriesDispatchCount(node, l.entries, depth, intr, c.(listings := c.listings + 1, ticks := c.ticks + 1));
    }
  }

  lemma {:induction false} ScanEntriesDispatchCount(node: Node, es: seq<Entry>, depth: nat, intr: Interrupt, c: Counters)
    requires Never(intr)
    ensures var r := ScanEntries(node, es, depth, intr, c, false);
            && r.counters.dispatched == c.dispatched + ParallelFoldersEach(es, depth)
            && !r.status.Interrupted?
    decreases es, 1
  {
    if depth >= MaxParallelDepth {
      NoParallelFoldersDeepEach(es, depth);
      DeepEntriesSubmitNothing(node, es, depth, intr, c);
      DeepEntriesFailIff(node, es, depth, intr, c);
    } else if |es| != 0 {
      if es[0].File? {
        var merged := Merge(node, es[0].size, Some(es[0].date)).node;
        ScanEntriesDispatchCount(merged, es[1..], depth, intr, c.(ticks := c.ticks + 1));
      } else {
        assert !intr(c.polls);
        var cd := c.(polls := c.polls + 1, dispatched := c.dispatched + 1);
        DispatchDispatchCount(node, es[0].uri, es[0].listing, depth, intr, cd);
        var t := Dispatch(node, es[0].uri, es[0].listing, depth, intr, cd, false);
        ScanEntriesDispatchCount(t.node, es[1..], depth, intr, t.counters);
      }
    }
  }

  /** A submitted task, run without interruption, never sets its parent's flag, and the
      tasks its sub-scan submits are those of the child's listing one level down. */
  lemma {:induction false} DispatchDispatchCount(node: Node, uri: string, l: Listing, depth: nat, intr: Interrupt,
                                                 cd: Counters)
    requires Never(intr)
    ensures var t := Dispatch(node, uri, l, depth, intr, cd, false);
            && t.counters.dispatched == cd.dispatched + ParallelFolders(l, depth + 1)
            && !t.interrupted
    decreases l, 3
  {
    assert !intr(cd.polls);
    ScanFolderDispatchCount(Fresh(uri), l, depth + 1, intr, cd.(polls := cd.polls + 1));
  }

  /** Without interruption the public scan never throws InterruptedException, and it
      submits one task per folder child of a folder shallower than MaxParallelDepth. */
  lemma ScanRepoDispatchCount(repoId: string, l: Listing, intr: Interrupt)
    requires Never(intr)
    ensures var r := ScanRepo(repoId, l, intr);
            && r.counters.dispatched == ParallelFolders(l, 0)
            && !r.outcome.ThrewInterrupted?
  {
    ScanFolderDispatchCount(Fresh(""), l, 0, intr, Counters(0, 0, 0, 0));
  }

  // ---------------------------------------------------------------------------------
  // The failure policy

  /** Below a node shallower than MaxParallelDepth every folder child runs as a submitted
      task, whose exceptions other than InterruptedException are swallowed: the loop of
      such a node never throws anything else. */
  lemma {:induction false} ParallelEntriesNeverFail(node: Node, es: seq<Entry>, depth: nat, intr: Interrupt,
                                                    c: Counters, interrupted: bool)
    requires depth < MaxParallelDepth
    decreases es
    ensures !ScanEntries(node, es, depth, intr, c, interrupted).status.Failed?
  {
    if |es| != 0 {
      if es[0].File? {
        var merged := Merge(node, es[0].size, Some(es[0].date)).node;
        ParallelEntriesNeverFail(merged, es[1..], depth, intr, c.(ticks := c.ticks + 1), interrupted);
      } else if !intr(c.polls) {
        var cd := c.(polls := c.polls + 1, dispatched := c.dispatched + 1);
        var t := Dispatch(node, es[0].uri, es[0].listing, depth, intr, cd, interrupted);
        ParallelEntriesNeverFail(t.node, es[1..], depth, intr, t.counters, t.interrupted);
      }
    }
  }

  /** The public scan throws something other than InterruptedException exactly when the
      root listing itself fails; failures further down are absorbed by the pool. */
  lemma ScanRepoFailsOnlyAtRoot(repoId: string, l: Listing, intr: Interrupt)
    ensures ScanRepo(repoId, l, intr).outcome.Threw? <==> l.Unreachable?
    ensures l.Unreachable? ==> ScanRepo(repoId, l, intr) == Report(Threw(ListingError), Counters(0, 0, 1, 0))
  {
    if l.Listed? {
      ParallelEntriesNeverFail(Fresh(""), l.entries, 0, intr, Counters(0, 1, 1, 0), false);
    }
  }

  /** From depth MaxParallelDepth on, every folder is scanned inline and passes on what it
      throws. Without interruption such a scan never ends interrupted, and it fails exactly
      when InlineSafe does not hold: at these depths InlineSafe is the exact condition
      for completing. */
  lemma {:induction false} DeepScanFailsIff(node: Node, l: Listing, depth: nat, intr: Interrupt, c: Counters)
    requires depth >= MaxParallelDepth && Never(intr)
    ensures var r := ScanFolder(node, l, depth, intr, c);
            && !r.status.Interrupted?
            && (r.status.Failed? <==> !(l.Listed? && InlineSafe(l, depth, node.date.Some?)))
    decreases l, 2
  {
    if l.Listed? {
      DeepEntriesFailIff(node, l.entries, depth, intr, c.(listings := c.listings + 1, ticks := c.ticks + 1));
    }
  }

  lemma {:induction false} DeepEntriesFailIff(node: Node, es: seq<Entry>, depth: nat, intr: Interrupt, c: Counters)
    requires depth >= MaxParallelDepth && Never(intr)
    ensures var r := ScanEntries(node, es, depth, intr, c, false);
            && !r.status.Interrupted?
            && (r.status.Failed? <==> !InlineSafeEach(es, depth, node.date.Some?))
    decreases es, 1
  {
    if |es| != 0 {
      if es[0].File? {
        var merged := Merge(node, es[0].size, Some(es[0].date)).node;
        DeepEntriesFailIff(merged, es[1..], depth, intr, c.(ticks := c.ticks + 1));
      } else {
        DeepFolderFailIff(node, es, depth, intr, c);
      }
    }
  }

  /** A folder child scanned inline: the loop fails when the sub-scan fails, when an undated
      sub-folder meets a dated node, or when a later entry fails. */
  lemma {:induction false} DeepFolderFailIff(node: Node, es: seq<Entry>, depth: nat, intr: Interrupt, c: Counters)
    requires |es| > 0 && es[0].Folder?
    requires depth >= MaxParallelDepth && Never(intr)
    ensures var r := ScanEntries(node, es, depth, intr, c, false);
            && !r.status.Interrupted?
            && (r.status.Failed? <==> !InlineSafeEach(es, depth, node.date.Some?))
    decreases es, 0
  {
    var uri, l := es[0].uri, es[0].listing;
    assert !intr(c.polls);
    var c1 := c.(polls := c.polls + 1);
    DeepScanFailsIff(Fresh(uri), l, depth + 1, intr, c1);
    if l.Listed? && InlineSafe(l, depth + 1, false) {
      ScanFolderComplete(Fresh(uri), l, depth + 1, intr, c1);
      var sub := ScanFolder(Fresh(uri), l, depth + 1, intr, c1);
      LatestDateIffFiles(l);
      assert sub.node.date.Some? <==> FileCount(l) > 0;
      var attached := node.(children := node.children + [sub.node]);
      if MergeNode(attached, sub.node).Merged? {
        var merged := MergeNode(attached, sub.node).node;
        assert merged.date.Some? <==> node.date.Some? || FileCount(l) > 0;
        DeepEntriesFailIff(merged, es[1..], depth, intr, sub.counters);
      }
    }
  }

  /** A folder scanned inline whose listing fails makes its parent's loop throw at once:
      the child's fresh node stays attached, and no later entry is merged or ticked. */
  lemma InlineUnreachableFails(node: Node, uri: string, rest: seq<Entry>, depth: nat, intr: Interrupt,
                               c: Counters, interrupted: bool)
    requires depth >= MaxParallelDepth && !intr(c.polls)
    ensures ScanEntries(node, [Folder(uri, Unreachable)] + rest, depth, intr, c, interrupted)
            == Scan(node.(children := node.children + [Fresh(uri)]), Failed(ListingError),
                    c.(polls := c.polls + 1, listings := c.listings + 1))
  {
    var es := [Folder(uri, Unreachable)] + rest;
    assert es[0] == Folder(uri, Unreachable);
  }

  /** A folder without files, scanned inline below a node that already holds a date, makes
      the loop throw the merge's NullPointerException: the child stays attached, complete,
      and no later entry is merged or ticked. */
  lemma InlineUndatedFolderFails(node: Node, uri: string, l: Listing, rest: seq<Entry>, depth: nat,
                                 intr: Interrupt, c: Counters)
    requires depth >= MaxParallelDepth && Never(intr)
    requires node.date.Some? && l.Listed? && FileCount(l) == 0 && InlineSafe(l, depth + 1, false)
    ensures ScanEntries(node, [Folder(uri, l)] + rest, depth, intr, c, false)
            == Scan(node.(children := node.children + [Expected(uri, l)]), Failed(NullDateMerge),
                    CompleteCounters(c.(polls := c.polls + 1), l, depth + 1))
  {
    var es := [Folder(uri, l)] + rest;
    assert es[0] == Folder(uri, l);
    assert !intr(c.polls);
    FreshScanComplete(uri, l, depth + 1, intr, c.(polls := c.polls + 1));
    LatestDateIffFiles(l);
  }

  // ---------------------------------------------------------------------------------
  // Sizes never exceed the files beneath

  /** Whatever the outcome, a folder scan adds to its node at most the total of the files
      beneath the folder, and never removes anything: no file is merged twice, nor into a
      node it does not lie under. */
  lemma {:induction false} ScanFolderSizeBounds(node: Node, l: Listing, depth: nat, intr: Interrupt, c: Counters)
    ensures var r := ScanFolder(node, l, depth, intr, c);
            node.size <= r.node.size <= node.size + FileTotal(l)
    decreases l, 2
  {
    if l.Listed? {
      ScanEntriesSizeBounds(node, l.entries, depth, intr, c.(listings := c.listings + 1, ticks := c.ticks + 1), false);
    }
  }

  lemma {:induction false} ScanEntriesSizeBounds(node: Node, es: seq<Entry>, depth: nat, intr: Interrupt,
                                                 c: Counters, interrupted: bool)
    ensures var r := ScanEntries(node, es, depth, intr, c, interrupted);
            node.size <= r.node.size <= node.size + FileTotalEach(es)
    decreases es, 1
  {
    if |es| != 0 {
      var rest := es[1..];
      if es[0].File? {
        var merged := Merge(node, es[0].size, Some(es[0].date)).node;
        ScanEntriesSizeBounds(merged, rest, depth, intr, c.(ticks := c.ticks + 1), interrupted);
      } else if !intr(c.polls) {
        var uri, l := es[0].uri, es[0].listing;
        assert FileTotalEach(es) == FileTotal(l) + FileTotalEach(rest);
        if depth < MaxParallelDepth {
          var cd := c.(polls := c.polls + 1, dispatched := c.dispatched + 1);
          var t := Dispatch(node, uri, l, depth, intr, cd, interrupted);
          DispatchSizeBounds(node, uri, l, depth, intr, cd, interrupted);
          ScanEntriesSizeBounds(t.node, rest, depth, intr, t.counters, t.interrupted);
        } else {
          InlineFolderSizeBounds(node, es, depth, intr, c, interrupted);
        }
      }
    }
  }

  /** The same, for a listing that starts with a folder child scanned inline. */
  lemma {:induction false} InlineFolderSizeBounds(node: Node, es: seq<Entry>, depth: nat, intr: Interrupt,
                                                  c: Counters, interrupted: bool)
    requires |es| > 0 && es[0].Folder? && depth >= MaxParallelDepth && !intr(c.polls)
    ensures var r := ScanEntries(node, es, depth, intr, c, interrupted);
            node.size <= r.node.size <= node.size + FileTotal(es[0].listing) + FileTotalEach(es[1..])
    decreases es, 0
  {
    var uri, l, rest := es[0].uri, es[0].listing, es[1..];
    var c1 := c.(polls := c.polls + 1);
    var sub := ScanFolder(Fresh(uri), l, depth + 1, intr, c1);
    ScanFolderSizeBounds(Fresh(uri), l, depth + 1, intr, c1);
    var attached := node.(children := node.children + [sub.node]);
    if sub.status == Completed && MergeNode(attached, sub.node).Merged? {
      ScanEntriesSizeBounds(MergeNode(attached, sub.node).node, rest, depth, intr, sub.counters, interrupted);
    }
  }

  lemma {:induction false} DispatchSizeBounds(node: Node, uri: string, l: Listing, depth: nat, intr: Interrupt,
                                              c: Counters, interrupted: bool)
    ensures var t := Dispatch(node, uri, l, depth, intr, c, interrupted);
            node.size <= t.node.size <= node.size + FileTotal(l)
    decreases l, 3
  {
    if !interrupted && !intr(c.polls) {
      ScanFolderSizeBounds(Fresh(uri), l, depth + 1, intr, c.(polls := c.polls + 1));
    }
  }

  // ---------------------------------------------------------------------------------
  // Examples

  /** A root holding two files and a sub-folder with one file. */
  const SmallRepository: Listing :=
    Listed([File("/a", 100, 20200101), File("/b", 50, 20210601),
            Folder("/sub", Listed([File("/c", 25, 20190101)]))])

  lemma SmallRepositoryIsSafe()
    ensures InlineSafe(SmallRepository, 0, false)
  {
    var es := SmallRepository.entries;
    assert InlineSafe(Listed([File("/c", 25, 20190101)]), 1, false);
    assert InlineSafeEach(es[2..], 0, true);
    assert InlineSafeEach(es[1..], 0, true);
  }

  lemma SmallRepositoryExpected()
    ensures Expected("", SmallRepository)
            == Node("", 175, Some(20210601), [Node("/sub", 25, Some(20190101), [])])
  {
    var es := SmallRepository.entries;
    assert Expected("/sub", es[2].listing) == Node("/sub", 25, Some(20190101), []);
    assert ExpectedEach(es[2..]) == [Node("/sub", 25, Some(20190101), [])];
    assert ExpectedEach(es[1..]) == ExpectedEach(es[2..]);
    assert FileTotalEach(es[2..]) == 25 && FileTotalEach(es[1..]) == 75;
    assert LatestDateEach(es[2..]) == Some(20190101) && LatestDateEach(es[1..]) == Some(20210601);
  }

  lemma SmallRepositoryCounts()
    ensures var l := SmallRepository;
            && PollCount(l, 0) == 2 && ListedFolderCount(l) == 2 && FileCount(l) == 3
            && FolderCount(l) == 2 && ParallelFolders(l, 0) == 1
  {
    var es := SmallRepository.entries;
    var sub := es[2].listing;
    assert PollCount(sub, 1) == 0 && ListedFolderCount(sub) == 1 && FileCount(sub) == 1;
    assert FolderCount(sub) == 1 && ParallelFolders(sub, 1) == 0;
    assert PollCountEach(es[2..], 0) == 2 && PollCountEach(es[1..], 0) == 2;
    assert ListedFolderCountEach(es[2..]) == 1 && ListedFolderCountEach(es[1..]) == 1;
    assert FileCountEach(es[2..]) == 1 && FileCountEach(es[1..]) == 2;
    assert FolderCountEach(es[2..]) == 1 && FolderCountEach(es[1..]) == 1;
    assert ParallelFoldersEach(es[2..], 0) == 1 && ParallelFoldersEach(es[1..], 0) == 1;
  }

  /** The root holds files a (100 bytes) and b (50 bytes) and a folder sub holding file
      c (25 bytes): the root totals 175 bytes dated at b's instant, and the sub node 25
      bytes dated at c's. */
  lemma SmallRepositoryExample()
    ensures var r := ScanRepo("repo1", SmallRepository, (i: nat) => false);
            && r.outcome == Returned(Tree("repo1", Node("", 175, Some(20210601),
                                                       [Node("/sub", 25, Some(20190101), [])])))
            && r.counters == Counters(2, 5, 2, 1)
  {
    var never := (i: nat) => false;
    assert Never(never);
    SmallRepositoryIsSafe();
    SmallRepositoryExpected();
    SmallRepositoryCounts();
    ScanRepoComplete("repo1", SmallRepository, never);
  }

  /** fixSizes repairs a node from its leaf nodes (folders with no sub-folder) alone, and
      a scanned folder does not keep the bytes of its own files apart from its children:
      the small repository's root totals 175 bytes, but once repaired it reports only the
      25 bytes of its one leaf node, sub. */
  lemma SmallRepositoryFixDropsDirectFiles()
    ensures var n := Expected("", SmallRepository);
            && n.size == 175 && FixSizes(n).size == 25
  {
    SmallRepositoryExpected();
  }

  /** An empty folder scanned inline below a dated node makes that node's scan throw a
      NullPointerException. When the node was itself submitted to the pool, submit()
      swallows the exception and the node's files never reach its parent: here the
      10-byte file below the depth-4 folder is lost, although the scan completes. */
  lemma EmptyFolderLosesSiblingFiles()
    ensures var deep := Listed([File("/f", 10, 1), Folder("/e", Listed([]))]);
            var never := (i: nat) => false;
            && ScanFolder(Fresh("/d5"), deep, 5, never, Counters(0, 0, 0, 0)).status == Failed(NullDateMerge)
            && var r := ScanFolder(Fresh("/d4"), Listed([Folder("/d5", deep)]), 4, never, Counters(0, 0, 0, 0));
               && r.status == Completed
               && r.node.size == 0
               && r.node.children == [Node("/d5", 10, Some(1), [Node("/e", 0, None, [])])]
               && FileTotal(Listed([Folder("/d5", deep)])) == 10
  {
    var never := (i: nat) => false;
    var empty := Listed([]);
    var deep := Listed([File("/f", 10, 1), Folder("/e", empty)]);
    var e := ScanFolder(Fresh("/e"), empty, 6, never, Counters(1, 2, 1, 0));
    assert e == Scan(Fresh("/e"), Completed, Counters(1, 3, 2, 0));
    var afterFile := Node("/d5", 10, Some(1), []);
    assert ScanEntries(Fresh("/d5"), deep.entries, 5, never, Counters(0, 1, 1, 0), false)
           == ScanEntries(afterFile, [Folder("/e", empty)], 5, never, Counters(0, 2, 1, 0), false);
    var d5 := ScanFolder(Fresh("/d5"), deep, 5, never, Counters(0, 0, 0, 0));
    assert d5 == Scan(Node("/d5", 10, Some(1), [Fresh("/e")]), Failed(NullDateMerge), Counters(1, 3, 2, 0));
    var d5' := ScanFolder(Fresh("/d5"), deep, 5, never, Counters(2, 1, 1, 1));
    assert ScanEntries(Fresh("/d5"), deep.entries, 5, never, Counters(2, 2, 2, 1), false)
           == ScanEntries(afterFile, [Folder("/e", empty)], 5, never, Counters(2, 3, 2, 1), false);
    assert d5'.status == Failed(NullDateMerge);
    assert d5'.node == Node("/d5", 10, Some(1), [Fresh("/e")]);
    var d4 := Node("/d4", 0, None, [d5'.node]);
    assert Dispatch(Fresh("/d4"), "/d5", deep, 4, never, Counters(1, 1, 1, 1), false) == Task(d4, d5'.counters, false);
    assert ScanEntries(Fresh("/d4"), [Folder("/d5", deep)], 4, never, Counters(0, 1, 1, 0), false)
           == ScanEntries(d4, [], 4, never, d5'.counters, false);
    assert FileTotalEach(deep.entries[1..]) == 0;
    assert FileTotal(deep) == 10;
  }
}
