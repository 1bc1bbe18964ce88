/** ArtifactoryScanner.scanRepo, sequentially. The remote repository is an input tree of
    listings; the interrupt supplier answers the n-th poll with `intr(n)`; the progress
    reporter is a tick counter. A task submitted to the pool runs at once, in discovery
    order: the per-node pending counter makes scanRepo wait for every submitted task
    before it returns, so each task's merges precede the node's return either way. */
module Scanner {
  import opened Wrappers
  import opened Aggregate

  /** Folder children of nodes shallower than this are submitted to the pool; deeper ones
      are scanned inline. */
  const MaxParallelDepth: nat := 5

  /** One item of a folder listing: a file with its size and last-updated instant, or a
      sub-folder with what listing it would yield. */
  datatype Entry = File(uri: string, size: nat, date: int) | Folder(uri: string, listing: Listing)

  /** The answer of getChildren for one folder: its entries, or an exception. */
  datatype Listing = Listed(entries: seq<Entry>) | Unreachable

  /** The interrupt supplier, indexed by the number of earlier polls. */
  type Interrupt = nat -> bool

  /** Observable effects: interrupt polls, progress ticks, getChildren calls and tasks
      submitted to the pool. */
  datatype Counters = Counters(polls: nat, ticks: nat, listings: nat, dispatched: nat)

  predicate Advances(c: Counters, d: Counters)
  {
    c.polls <= d.polls && c.ticks <= d.ticks && c.listings <= d.listings && c.dispatched <= d.dispatched
  }

  /** Why a scan threw something other than InterruptedException. */
  datatype Cause = ListingError | NullDateMerge

  datatype Status = Completed | Interrupted | Failed(cause: Cause)

  /** The node as the scan leaves it (attached to its parent whatever the status), how the
      call ended, and the counters afterwards. */
  datatype Scan = Scan(node: Node, status: Status, counters: Counters)

  /** What a submitted task leaves behind: the parent node, the counters and the parent's
      `interrupted` flag. */
  datatype Task = Task(node: Node, counters: Counters, interrupted: bool)

  /** scanRepo(parent, uri, depth, ...) after the node `node` was created and attached:
      fetch the listing (which may throw), tick once, then process the entries. */
  function ScanFolder(node: Node, listing: Listing, depth: nat, intr: Interrupt, c: Counters): (r: Scan)
    ensures Advances(c, r.counters)
    ensures r.node.segment == node.segment
    ensures |node.children| <= |r.node.children| && r.node.children[..|node.children|] == node.children
    decreases listing, 2
  {
    match listing
    case Unreachable => Scan(node, Failed(ListingError), c.(listings := c.listings + 1))
    case Listed(entries) =>
      ScanEntries(node, entries, depth, intr, c.(listings := c.listings + 1, ticks := c.ticks + 1), false)
  }

  /** The loop over the children of the node at `depth`, followed by the wait for the
      pending tasks and the final check of the node's `interrupted` flag. */
  function ScanEntries(node: Node, entries: seq<Entry>, depth: nat, intr: Interrupt, c: Counters,
                       interrupted: bool): (r: Scan)
    ensures Advances(c, r.counters)
    ensures r.node.segment == node.segment
    ensures |node.children| <= |r.node.children| && r.node.children[..|node.children|] == node.children
    decreases entries, 1
  {
    if |entries| == 0 then
      Scan(node, if interrupted then Interrupted else Completed, c)
    else match entries[0]
      case File(_, size, date) =>
        ScanEntries(Merge(node, size, Some(date)).node, entries[1..], depth, intr,
                    c.(ticks := c.ticks + 1), interrupted)
      case Folder(uri, listing) =>
        if intr(c.polls) then
          Scan(node, Interrupted, c.(polls := c.polls + 1))
        else if depth < MaxParallelDepth then
          var t := Dispatch(node, uri, listing, depth, intr,
                            c.(polls := c.polls + 1, dispatched := c.dispatched + 1), interrupted);
          ScanEntries(t.node, entries[1..], depth, intr, t.counters, t.interrupted)
        else
          var sub := ScanFolder(Fresh(uri), listing, depth + 1, intr, c.(polls := c.polls + 1));
          var attached := node.(children := node.children + [sub.node]);
          match sub.status
          case Completed =>
            (match MergeNode(attached, sub.node)
             case Merged(merged) => ScanEntries(merged, entries[1..], depth, intr, sub.counters, interrupted)
             case NullDate(partial) => Scan(partial, Failed(NullDateMerge), sub.counters))
          case Interrupted => Scan(attached, Interrupted, sub.counters)
          case Failed(cause) => Scan(attached, Failed(cause), sub.counters)
  }

  /** The task submitted for the folder `uri`: skipped when the parent's flag is set,
      abandoned (setting the flag) when the interrupt is raised, otherwise the sub-scan.
      Its InterruptedException sets the flag; any other exception, thrown by the sub-scan
      or by the merge, is swallowed by submit(): the child node stays attached and the
      parent gets no (further) contribution from it. */
  function Dispatch(node: Node, uri: string, listing: Listing, depth: nat, intr: Interrupt,
                    c: Counters, interrupted: bool): (r: Task)
    ensures Advances(c, r.counters)
    ensures r.node.segment == node.segment
    ensures |node.children| <= |r.node.children| && r.node.children[..|node.children|] == node.children
    ensures interrupted ==> r == Task(node, c, true)
    ensures !interrupted && !r.interrupted ==> |r.node.children| == |node.children| + 1
    decreases listing, 3
  {
    if interrupted then Task(node, c, true)
    else if intr(c.polls) then Task(node, c.(polls := c.polls + 1), true)
    else
      var sub := ScanFolder(Fresh(uri), listing, depth + 1, intr, c.(polls := c.polls + 1));
      var attached := node.(children := node.children + [sub.node]);
      assert attached.children[..|node.children|] == node.children;
      match sub.status
      case Completed => Task(MergeNode(attached, sub.node).node, sub.counters, false)
      case Interrupted => Task(attached, sub.counters, true)
      case Failed(_) => Task(attached, sub.counters, false)
  }

  /** A scanned repository: its id and the root node. */
  datatype Tree = Tree(repoId: string, root: Node)

  /** How the public scanRepo ends: it returns the root, or throws. */
  datatype Outcome = Returned(tree: Tree) | ThrewInterrupted | Threw(cause: Cause)

  datatype Report = Report(outcome: Outcome, counters: Counters)

  /** scanRepo(repo, interrupt, reporter): a root node at path "" is scanned at depth 0
      and returned itself, unless the scan throws. */
  function ScanRepo(repoId: string, listing: Listing, intr: Interrupt): (r: Report)
    ensures r.outcome.Returned? ==> r.outcome.tree.repoId == repoId && r.outcome.tree.root.segment == ""
  {
    var s := ScanFolder(Fresh(""), listing, 0, intr, Counters(0, 0, 0, 0));
    match s.status
    case Completed => Report(Returned(Tree(repoId, s.node)), s.counters)
    case Interrupted => Report(ThrewInterrupted, s.counters)
    case Failed(cause) => Report(Threw(cause), s.counters)
  }
}
