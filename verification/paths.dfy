/** The identity of an aggregate node: its parent chain, its repository id and its full
    path, and the case-insensitive string order used to sort siblings. */
module Paths {

  /** The parent chain of a node. A root carries its repository id and its own path; any
      other node carries its parent and its own path segment. */
  datatype Chain = Root(repoId: string, path: string) | Child(parent: Chain, path: string)

  /** Where a node hangs: directly under a repository (it is a root), or under a parent. */
  datatype Place = RootOf(repoId: string) | ChildOf(parent: Chain)

  /** The chain of a node whose own path segment is `segment`, placed at `p`. */
  function ChainOf(p: Place, segment: string): Chain
  {
    match p
    case RootOf(id) => Root(id, segment)
    case ChildOf(c) => Child(c, segment)
  }

  /** The root end of a chain. */
  function TopOf(c: Chain): (r: Chain)
    ensures r.Root?
  {
    match c
    case Root(_, _) => c
    case Child(parent, _) => TopOf(parent)
  }

  /** The path segments of a chain, from the root down. */
  function Segments(c: Chain): (r: seq<string>)
    ensures |r| >= 1
  {
    match c
    case Root(_, path) => [path]
    case Child(parent, path) => Segments(parent) + [path]
  }

  /** Concatenation of a list of segments, front to back. */
  function Concat(ss: seq<string>): string
  {
    if |ss| == 0 then "" else ss[0] + Concat(ss[1..])
  }

  lemma {:induction false} ConcatSnoc(ss: seq<string>, s: string)
    ensures Concat(ss + [s]) == Concat(ss) + s
  {
    if |ss| == 0 {
      assert ss + [s] == [s];
    } else {
      assert (ss + [s])[1..] == ss[1..] + [s];
      ConcatSnoc(ss[1..], s);
    }
  }

  /** The repository id, found at the root of the parent chain: the one stored at the root
      end. */
  function GetRepoId(c: Chain): (r: string)
    ensures r == TopOf(c).repoId
  {
    match c
    case Root(id, _) => id
    case Child(parent, _) => GetRepoId(parent)
  }

  /** The full path: the parent's full path followed by the node's own segment, which is
      the concatenation of the segments from the root down. */
  function GetPath(c: Chain): (r: string)
    ensures r == Concat(Segments(c))
  {
    match c
    case Root(_, path) =>
      assert Concat([path]) == path + Concat([]);
      path
    case Child(parent, path) =>
      ConcatSnoc(Segments(parent), path);
      GetPath(parent) + path
  }

  /** Two nodes are equal iff their repository ids and full paths are: iff their roots'
      repository ids and their concatenated segment lists agree. */
  function Equals(a: Chain, b: Chain): (r: bool)
    ensures r <==> TopOf(a).repoId == TopOf(b).repoId && Concat(Segments(a)) == Concat(Segments(b))
  {
    GetRepoId(a) == GetRepoId(b) && GetPath(a) == GetPath(b)
  }

  /** Java's Character case mapping restricted to ASCII: compareToIgnoreCase first maps
      both characters to upper case and then to lower case, which on ASCII is lower case. */
  function FoldCase(ch: char): char
  {
    if 'A' <= ch <= 'Z' then (ch as int + 32) as char else ch
  }

  /** A string with every character case-folded. */
  function Fold(s: string): (r: string)
    ensures |r| == |s|
  {
    if |s| == 0 then [] else [FoldCase(s[0])] + Fold(s[1..])
  }

  /** String.compareToIgnoreCase: the difference of the first differing folded characters,
      or the difference of the lengths when one string is a prefix of the other. */
  function CompareIgnoreCase(a: string, b: string): (r: int)
    ensures r == 0 <==> Fold(a) == Fold(b)
  {
    if |a| == 0 || |b| == 0 then
      |a| - |b|
    else if FoldCase(a[0]) != FoldCase(b[0]) then
      assert Fold(a)[0] != Fold(b)[0];
      FoldCase(a[0]) as int - FoldCase(b[0]) as int
    else
      var r := CompareIgnoreCase(a[1..], b[1..]);
      assert Fold(a) == [FoldCase(a[0])] + Fold(a[1..]);
      assert Fold(b) == [FoldCase(b[0])] + Fold(b[1..]);
      assert Fold(a) == Fold(b) ==> Fold(a)[1..] == Fold(b)[1..];
      r
  }

  /** Swapping the arguments negates the comparison. */
  lemma {:induction false} CompareIgnoreCaseAntisymmetric(a: string, b: string)
    ensures CompareIgnoreCase(a, b) == -CompareIgnoreCase(b, a)
    decreases |a|
  {
    if |a| != 0 && |b| != 0 && FoldCase(a[0]) == FoldCase(b[0]) {
      CompareIgnoreCaseAntisymmetric(a[1..], b[1..]);
    }
  }

  /** "At most" under the case-insensitive order is transitive. */
  lemma {:induction false} CompareIgnoreCaseTransitive(a: string, b: string, c: string)
    requires CompareIgnoreCase(a, b) <= 0 && CompareIgnoreCase(b, c) <= 0
    ensures CompareIgnoreCase(a, c) <= 0
    decreases |a|
  {
    if |a| != 0 && |b| != 0 && |c| != 0
      && FoldCase(a[0]) == FoldCase(b[0]) && FoldCase(b[0]) == FoldCase(c[0])
    {
      CompareIgnoreCaseTransitive(a[1..], b[1..], c[1..]);
    }
  }
}
