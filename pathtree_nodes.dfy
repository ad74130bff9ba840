/**
 * The nodes of the file-watcher path tree and the shape the tree keeps.
 *
 * A PathTreeNode object is modelled as a record in an arena: a node reference is an index
 * into a sequence of records and `Null` is the null reference.  The child list of every
 * node, which the source only holds implicitly through FirstChild and the Next/Previous
 * links, is kept as a ghost sequence `kids[n]`, and the predicates below tie the links to it.
 */
module PathTreeNodes {
  import opened Wrappers
  import opened Strings

  /** The null reference. */
  const Null: int := -1
  /** The handle of `rootNode`, the unnamed parent of `pathRoot`. */
  const RootNode: int := 0
  /** The handle of `pathRoot`, the "/" node of a Unix file system. */
  const PathRoot: int := 1
  /** Path.DirectorySeparatorChar on Unix. */
  const DirectorySeparator: char := '/'

  datatype PathTreeNode = PathTreeNode(
    segment: string,
    parent: int,
    firstChild: int,
    next: int,
    previous: int,
    childrenCount: int,
    ids: seq<int>)

  /** IsLive: some watcher id is registered on the node. */
  predicate IsLive(n: PathTreeNode)
  {
    n.ids != []
  }

  /** RegisterId: one more registration of `id`; the node is live afterwards. */
  function RegisterId(n: PathTreeNode, id: int): (r: PathTreeNode)
    ensures IsLive(r)
    ensures multiset(r.ids) == multiset(n.ids) + multiset{id}
    ensures r.(ids := n.ids) == n
  {
    n.(ids := n.ids + [id])
  }

  /** UnregisterId: drops one registration of `id` and says whether there was one. */
  function UnregisterId(n: PathTreeNode, id: int): (r: (bool, PathTreeNode))
    ensures r.0 <==> id in n.ids
    ensures multiset(r.1.ids) == multiset(n.ids) - multiset{id}
    ensures r.1.(ids := n.ids) == n
  {
    (id in n.ids, n.(ids := RemoveFirst(n.ids, id)))
  }

  /** The path with its trailing separators cut, as TryFind reads it. */
  function Trimmed(path: string): (r: string)
    ensures r == [] || r[|r| - 1] != DirectorySeparator
    ensures |r| <= |path|
  {
    TrimEndFacts(path, {DirectorySeparator});
    TrimEnd(path, {DirectorySeparator})
  }

  /** The segments TryFind matches level by level. */
  function Segments(path: string): seq<string>
  {
    Split(Trimmed(path), {DirectorySeparator})
  }

  /** The segments of `path` from place `k` on are those of its trimmed text past `lastIndex`. */
  ghost predicate Unmatched(path: string, lastIndex: int, k: int)
  {
    && 0 <= lastIndex <= |Trimmed(path)| && 0 <= k <= |Segments(path)|
    && Split(Trimmed(path)[lastIndex..], {DirectorySeparator}) == Segments(path)[k..]
  }

  /** The node a child list of `chain[i]` hangs from: the parent of chain[0] is rootNode. */
  function Up(chain: seq<int>, i: int): int
    requires 0 <= i <= |chain|
  {
    if i == 0 then RootNode else chain[i - 1]
  }

  // ----- the shape of the tree -----

  /** Every child comes after its parent in the arena; this ranks the tree and makes it finite. */
  ghost predicate Ranked(nodes: seq<PathTreeNode>, kids: seq<seq<int>>)
  {
    |kids| == |nodes| &&
    forall n, i :: 0 <= n < |kids| && 0 <= i < |kids[n]| ==> n < kids[n][i] < |nodes|
  }

  /** The links of node `n` spell out its child list: FirstChild is its head, ChildrenCount its
      length, each child points back with Parent, Next and Previous follow the list, and the
      segments ascend strictly in ordinal order. */
  ghost predicate ChildListOK(nodes: seq<PathTreeNode>, kids: seq<seq<int>>, n: int)
    requires Ranked(nodes, kids) && 0 <= n < |nodes|
  {
    var ks := kids[n];
    && nodes[n].childrenCount == |ks|
    && nodes[n].firstChild == (if ks == [] then Null else ks[0])
    && (forall i :: 0 <= i < |ks| ==> nodes[ks[i]].parent == n)
    && (ks != [] ==> nodes[ks[0]].previous == Null && nodes[ks[|ks| - 1]].next == Null)
    && (forall i :: 0 <= i && i + 1 < |ks| ==> Linked(nodes, ks, i))
    && (forall i, j :: 0 <= i < j < |ks| ==> Ascending(nodes, ks, i, j))
  }

  /** Next of place `i` of a child list is the node at `i + 1`, whose Previous leads back. */
  ghost predicate Linked(nodes: seq<PathTreeNode>, ks: seq<int>, i: int)
  {
    && 0 <= i && i + 1 < |ks| && 0 <= ks[i] < |nodes| && 0 <= ks[i + 1] < |nodes|
    && nodes[ks[i]].next == ks[i + 1] && nodes[ks[i + 1]].previous == ks[i]
  }

  /** The segment at place `i` of a child list is below the one at place `j`. */
  ghost predicate Ascending(nodes: seq<PathTreeNode>, ks: seq<int>, i: int, j: int)
  {
    && 0 <= i < j < |ks| && 0 <= ks[i] < |nodes| && 0 <= ks[j] < |nodes|
    && OrdinalLess(nodes[ks[i]].segment, nodes[ks[j]].segment)
  }

  /** A node with a parent is in that parent's child list; a detached node has a null parent. */
  ghost predicate ParentOK(nodes: seq<PathTreeNode>, kids: seq<seq<int>>, c: int)
    requires |kids| == |nodes| && 0 <= c < |nodes|
  {
    nodes[c].parent == Null || (0 <= nodes[c].parent < c && c in kids[nodes[c].parent])
  }

  /** The tree invariant: rootNode has no parent and pathRoot, with the empty segment, heads its child list. */
  ghost predicate TreeOK(nodes: seq<PathTreeNode>, kids: seq<seq<int>>)
  {
    && |nodes| >= 2
    && Ranked(nodes, kids)
    && (forall n :: 0 <= n < |nodes| ==> ChildListOK(nodes, kids, n))
    && (forall c :: 0 <= c < |nodes| ==> ParentOK(nodes, kids, c))
    && nodes[RootNode].parent == Null
    && kids[RootNode] != [] && kids[RootNode][0] == PathRoot
    && nodes[PathRoot].segment == ""
  }

  /** `chain` matches the first |chain| segments, each node a child of the one before it. */
  ghost predicate IsChain(nodes: seq<PathTreeNode>, kids: seq<seq<int>>, chain: seq<int>, segs: seq<string>)
    requires |kids| == |nodes|
  {
    && |chain| <= |segs|
    && (forall i :: 0 <= i < |chain| ==> 0 <= chain[i] < |nodes| && nodes[chain[i]].segment == segs[i])
    && (chain != [] ==> |kids| > 0 && chain[0] in kids[RootNode])
    && (forall i :: 0 <= i && i + 1 < |chain| ==> ChainLink(kids, chain, i))
  }

  /** The node after place `i` of a chain is a child of the node at `i`. */
  ghost predicate ChainLink(kids: seq<seq<int>>, chain: seq<int>, i: int)
  {
    0 <= i && i + 1 < |chain| && 0 <= chain[i] < |kids| && chain[i + 1] in kids[chain[i]]
  }

  /** Where a segment `s` belongs among the children of `p`: after the first `at`, all below it,
      and before the rest, all above it; `previous` is the child just before that place. */
  ghost predicate GapAt(nodes: seq<PathTreeNode>, kids: seq<seq<int>>, p: int, at: int, previous: int, s: string)
    requires Ranked(nodes, kids) && 0 <= p < |nodes|
  {
    && 0 <= at <= |kids[p]|
    && previous == (if at == 0 then Null else kids[p][at - 1])
    && (forall i :: 0 <= i < at ==> OrdinalLess(nodes[kids[p][i]].segment, s))
    && (forall i :: at <= i < |kids[p]| ==> OrdinalLess(s, nodes[kids[p][i]].segment))
  }

  /** The subtree of `n` holds no live node. */
  ghost predicate DeadSubtree(nodes: seq<PathTreeNode>, kids: seq<seq<int>>, n: int)
    requires Ranked(nodes, kids) && 0 <= n < |nodes|
    decreases |nodes| - n
  {
    !IsLive(nodes[n]) && forall i :: 0 <= i < |kids[n]| ==> DeadSubtree(nodes, kids, kids[n][i])
  }

  // ----- lemmas about the shape -----

  /** The segments of a sorted child list ascend, so everything after a larger one is larger still. */
  lemma SortedTail(nodes: seq<PathTreeNode>, kids: seq<seq<int>>, p: int, at: int, s: string)
    requires Ranked(nodes, kids) && 0 <= p < |nodes| && ChildListOK(nodes, kids, p)
    requires 0 <= at < |kids[p]| && OrdinalLess(s, nodes[kids[p][at]].segment)
    ensures forall i :: at <= i < |kids[p]| ==> OrdinalLess(s, nodes[kids[p][i]].segment)
  {
    forall i | at < i < |kids[p]|
      ensures OrdinalLess(s, nodes[kids[p][i]].segment)
    {
      assert Ascending(nodes, kids[p], at, i);
      OrdinalTransitive(s, nodes[kids[p][at]].segment, nodes[kids[p][i]].segment);
    }
  }

  /** Siblings differ in their segments, so a segment names at most one child. */
  lemma OneChildPerSegment(nodes: seq<PathTreeNode>, kids: seq<seq<int>>, p: int, i: int, j: int)
    requires Ranked(nodes, kids) && 0 <= p < |nodes| && ChildListOK(nodes, kids, p)
    requires 0 <= i < |kids[p]| && 0 <= j < |kids[p]|
    requires nodes[kids[p][i]].segment == nodes[kids[p][j]].segment
    ensures i == j
  {
    if i < j {
      assert Ascending(nodes, kids[p], i, j);
      OrdinalIrreflexive(nodes[kids[p][i]].segment);
    } else if j < i {
      assert Ascending(nodes, kids[p], j, i);
      OrdinalIrreflexive(nodes[kids[p][j]].segment);
    }
  }

  /** A child list holds no node twice. */
  lemma ChildrenDistinct(nodes: seq<PathTreeNode>, kids: seq<seq<int>>, p: int, i: int, j: int)
    requires Ranked(nodes, kids) && 0 <= p < |nodes| && ChildListOK(nodes, kids, p)
    requires 0 <= i < |kids[p]| && 0 <= j < |kids[p]| && i != j
    ensures kids[p][i] != kids[p][j]
  {
    if kids[p][i] == kids[p][j] {
      OneChildPerSegment(nodes, kids, p, i, j);
    }
  }

  /** Two children of one node with the same segment are the same node. */
  lemma SameChild(nodes: seq<PathTreeNode>, kids: seq<seq<int>>, p: int, x: int, y: int)
    requires Ranked(nodes, kids) && 0 <= p < |nodes| && ChildListOK(nodes, kids, p)
    requires x in kids[p] && y in kids[p] && nodes[x].segment == nodes[y].segment
    ensures x == y
  {
    var i :| 0 <= i < |kids[p]| && kids[p][i] == x;
    var j :| 0 <= j < |kids[p]| && kids[p][j] == y;
    OneChildPerSegment(nodes, kids, p, i, j);
  }

  /** Two chains matching the same segments agree as far as both go. */
  lemma {:induction false} ChainsAgree(nodes: seq<PathTreeNode>, kids: seq<seq<int>>, a: seq<int>, b: seq<int>, segs: seq<string>, k: int)
    requires Ranked(nodes, kids) && forall n :: 0 <= n < |nodes| ==> ChildListOK(nodes, kids, n)
    requires IsChain(nodes, kids, a, segs) && IsChain(nodes, kids, b, segs)
    requires 0 <= k <= |a| && k <= |b|
    ensures forall i :: 0 <= i < k ==> a[i] == b[i]
  {
    if k > 0 {
      ChainsAgree(nodes, kids, a, b, segs, k - 1);
      var p := Up(a, k - 1);
      assert p == Up(b, k - 1);
      if k > 1 {
        assert ChainLink(kids, a, k - 2) && ChainLink(kids, b, k - 2);
      }
      SameChild(nodes, kids, p, a[k - 1], b[k - 1]);
    }
  }

  /** A chain that stops at a gap cannot be outdone: no chain matches more segments. */
  lemma ChainMaximal(nodes: seq<PathTreeNode>, kids: seq<seq<int>>, chain: seq<int>, segs: seq<string>,
                     at: int, previous: int, other: seq<int>)
    requires TreeOK(nodes, kids) && IsChain(nodes, kids, chain, segs) && |chain| < |segs|
    requires GapAt(nodes, kids, Up(chain, |chain|), at, previous, segs[|chain|])
    requires IsChain(nodes, kids, other, segs)
    ensures |other| <= |chain|
  {
    if |other| > |chain| {
      var m := |chain|;
      ChainsAgree(nodes, kids, chain, other, segs, m);
      var p := Up(chain, m);
      assert p == Up(other, m);
      if m > 0 {
        assert ChainLink(kids, other, m - 1);
      }
      var i :| 0 <= i < |kids[p]| && kids[p][i] == other[m];
      OrdinalIrreflexive(segs[m]);
    }
  }

  /** What TryFind's outcome tells of all chains for the segments: none is longer than the one
      it walked; when it walked them all, every full chain ends at the same node; otherwise none
      is full. */
  lemma OnlyChain(nodes: seq<PathTreeNode>, kids: seq<seq<int>>, chain: seq<int>, segs: seq<string>,
                  found: bool, at: int, previous: int)
    requires TreeOK(nodes, kids) && segs != [] && IsChain(nodes, kids, chain, segs) && (found <==> |chain| == |segs|)
    requires !found ==> 0 <= Up(chain, |chain|) < |nodes| && GapAt(nodes, kids, Up(chain, |chain|), at, previous, segs[|chain|])
    ensures forall c :: IsChain(nodes, kids, c, segs) ==> |c| <= |chain|
    ensures found ==> forall c :: IsChain(nodes, kids, c, segs) && |c| == |segs| ==> c[|c| - 1] == chain[|chain| - 1]
    ensures !found ==> forall c :: IsChain(nodes, kids, c, segs) ==> |c| < |segs|
  {
    forall c | IsChain(nodes, kids, c, segs)
      ensures |c| <= |chain|
      ensures found && |c| == |segs| ==> c[|c| - 1] == chain[|chain| - 1]
    {
      if found {
        if |c| == |segs| && |c| > 0 {
          ChainsAgree(nodes, kids, c, chain, segs, |c|);
        }
      } else {
        ChainMaximal(nodes, kids, chain, segs, at, previous, c);
      }
    }
  }

  /** Next leads from a child to the one after it in the list, or to null after the last. */
  lemma NextSibling(nodes: seq<PathTreeNode>, kids: seq<seq<int>>, p: int, i: int)
    requires Ranked(nodes, kids) && 0 <= p < |nodes| && ChildListOK(nodes, kids, p) && 0 <= i < |kids[p]|
    ensures nodes[kids[p][i]].next == if i + 1 < |kids[p]| then kids[p][i + 1] else Null
  {
    if i + 1 < |kids[p]| {
      assert Linked(nodes, kids[p], i);
    }
  }

  /** A scan of a child list that stopped at `at` found where segment `s` belongs. */
  lemma GapFromScan(nodes: seq<PathTreeNode>, kids: seq<seq<int>>, p: int, at: int, previous: int, s: string)
    requires Ranked(nodes, kids) && 0 <= p < |nodes| && ChildListOK(nodes, kids, p)
    requires 0 <= at <= |kids[p]| && previous == (if at == 0 then Null else kids[p][at - 1])
    requires forall i :: 0 <= i < at ==> OrdinalLess(nodes[kids[p][i]].segment, s)
    requires at < |kids[p]| ==> OrdinalLess(s, nodes[kids[p][at]].segment)
    ensures GapAt(nodes, kids, p, at, previous, s)
  {
    if at < |kids[p]| {
      SortedTail(nodes, kids, p, at, s);
    }
  }

  /** TryFind's text bookkeeping over one matched segment: the text left of the trimmed path
      from `li` on starts with segment `k`, and past its separator the segments from `k + 1` on are left. */
  lemma DescendText(path: string, li: int, k: int)
    requires Unmatched(path, li, k) && k < |Segments(path)|
    ensures var rem := Trimmed(path)[li..];
      var idx := IndexOfChar(rem, DirectorySeparator);
      && Segments(path)[k] == rem[..if idx == -1 then |rem| else idx]
      && (idx == -1 ==> k + 1 == |Segments(path)|)
      && (idx != -1 ==> && idx + 1 < |rem| && rem[idx + 1..] == Trimmed(path)[li + idx + 1..]
                        && Unmatched(path, li + idx + 1, k + 1))
  {
    var trimmed, segs := Trimmed(path), Segments(path);
    var rem := trimmed[li..];
    if rem != [] {
      assert rem[|rem| - 1] == trimmed[|trimmed| - 1];
    }
    SegmentStep(rem);
    var idx := IndexOfChar(rem, DirectorySeparator);
    var rs := Split(rem, {DirectorySeparator});
    assert rs == segs[k..];
    assert rs[0] == segs[k];
    if idx == -1 {
      assert |segs[k..]| == 1;
    } else {
      assert rem[idx + 1..] == trimmed[li + idx + 1..];
      assert rs[1..] == segs[k + 1..];
      assert Split(trimmed[li + idx + 1..], {DirectorySeparator}) == segs[k + 1..];
    }
  }

  /** A chain grows by a child of its last node carrying the next segment. */
  lemma ChainExtend(nodes: seq<PathTreeNode>, kids: seq<seq<int>>, chain: seq<int>, segs: seq<string>, x: int)
    requires |kids| == |nodes| && IsChain(nodes, kids, chain, segs) && |chain| < |segs|
    requires 0 <= Up(chain, |chain|) < |nodes| && x in kids[Up(chain, |chain|)]
    requires 0 <= x < |nodes| && nodes[x].segment == segs[|chain|]
    ensures IsChain(nodes, kids, chain + [x], segs)
  {
    var c := chain + [x];
    forall i | 0 <= i && i + 1 < |c|
      ensures ChainLink(kids, c, i)
    {
      if i + 1 < |chain| {
        assert ChainLink(kids, chain, i);
        assert c[i] == chain[i] && c[i + 1] == chain[i + 1];
      }
    }
  }

  /** One step of TryFind's chunking: the first segment is the text before the first separator,
      and the rest are the segments after it, which is not the end of the text. */
  lemma SegmentStep(rem: string)
    requires rem == [] || rem[|rem| - 1] != DirectorySeparator
    ensures var idx := IndexOfChar(rem, DirectorySeparator);
      var segs := Split(rem, {DirectorySeparator});
      && segs[0] == rem[..if idx == -1 then |rem| else idx]
      && (idx == -1 ==> |segs| == 1)
      && (idx != -1 ==> idx + 1 < |rem| && segs[1..] == Split(rem[idx + 1..], {DirectorySeparator}))
  {
    var idx := IndexOfChar(rem, DirectorySeparator);
    if idx == -1 {
      SegmentLast(rem);
      assert rem[..|rem|] == rem;
    } else {
      SegmentInner(rem, idx);
      var segs := [rem[..idx]] + Split(rem[idx + 1..], {DirectorySeparator});
      assert segs[0] == rem[..idx] && segs[1..] == Split(rem[idx + 1..], {DirectorySeparator});
    }
  }

  /** Text without a separator is a single segment. */
  lemma SegmentLast(rem: string)
    requires IndexOfChar(rem, DirectorySeparator) == -1
    ensures Split(rem, {DirectorySeparator}) == [rem]
  {
    assert FirstIndexIn(rem, {DirectorySeparator}) == |rem|;
  }

  /** Text with a separator that does not end it splits there. */
  lemma SegmentInner(rem: string, idx: int)
    requires rem == [] || rem[|rem| - 1] != DirectorySeparator
    requires idx == IndexOfChar(rem, DirectorySeparator) && idx != -1
    ensures idx + 1 < |rem|
    ensures Split(rem, {DirectorySeparator}) == [rem[..idx]] + Split(rem[idx + 1..], {DirectorySeparator})
  {
    assert FirstIndexIn(rem, {DirectorySeparator}) == idx;
    assert rem[idx] == DirectorySeparator;
  }

  /** Whether a subtree is dead depends only on the ids and the child lists from its root on. */
  lemma {:induction false} DeadSubtreeFrame(nodes: seq<PathTreeNode>, kids: seq<seq<int>>,
                                            nodes': seq<PathTreeNode>, kids': seq<seq<int>>, x: int)
    requires Ranked(nodes, kids) && Ranked(nodes', kids') && |nodes'| == |nodes| && 0 <= x < |nodes|
    requires forall n :: x <= n < |nodes| ==> kids'[n] == kids[n] && nodes'[n].ids == nodes[n].ids
    ensures DeadSubtree(nodes', kids', x) == DeadSubtree(nodes, kids, x)
    decreases |nodes| - x
  {
    forall i | 0 <= i < |kids[x]|
      ensures DeadSubtree(nodes', kids', kids[x][i]) == DeadSubtree(nodes, kids, kids[x][i])
    {
      DeadSubtreeFrame(nodes, kids, nodes', kids', kids[x][i]);
    }
  }

  /** A child list stays intact when its owner's count and head, the list itself and the
      parent, sibling links and segments of its members are unchanged. */
  lemma ChildListFrame(nodes: seq<PathTreeNode>, kids: seq<seq<int>>,
                       nodes': seq<PathTreeNode>, kids': seq<seq<int>>, n: int)
    requires Ranked(nodes, kids) && Ranked(nodes', kids') && 0 <= n < |nodes| <= |nodes'|
    requires ChildListOK(nodes, kids, n) && kids'[n] == kids[n]
    requires nodes'[n].childrenCount == nodes[n].childrenCount && nodes'[n].firstChild == nodes[n].firstChild
    requires forall i :: 0 <= i < |kids[n]| ==> SameLinks(nodes'[kids[n][i]], nodes[kids[n][i]])
    ensures ChildListOK(nodes', kids', n)
  {
    var ks := kids[n];
    forall i | 0 <= i < |ks|
      ensures nodes'[ks[i]].parent == n
    {
      assert SameLinks(nodes'[ks[i]], nodes[ks[i]]);
    }
    if ks != [] {
      assert SameLinks(nodes'[ks[0]], nodes[ks[0]]) && SameLinks(nodes'[ks[|ks| - 1]], nodes[ks[|ks| - 1]]);
    }
    forall i, j | 0 <= i < j < |ks|
      ensures Ascending(nodes', ks, i, j)
    {
      assert Ascending(nodes, ks, i, j);
      assert SameLinks(nodes'[ks[i]], nodes[ks[i]]) && SameLinks(nodes'[ks[j]], nodes[ks[j]]);
    }
    forall i | 0 <= i && i + 1 < |ks|
      ensures Linked(nodes', ks, i)
    {
      assert Linked(nodes, ks, i);
      assert SameLinks(nodes'[ks[i]], nodes[ks[i]]) && SameLinks(nodes'[ks[i + 1]], nodes[ks[i + 1]]);
    }
  }

  /** Two records of a node agree on what its parent's child list reads of it. */
  predicate SameLinks(a: PathTreeNode, b: PathTreeNode)
  {
    a.parent == b.parent && a.next == b.next && a.previous == b.previous && a.segment == b.segment
  }

  /** Ids play no part in the shape: registering or unregistering keeps the tree invariant. */
  lemma TreeIgnoresIds(nodes: seq<PathTreeNode>, kids: seq<seq<int>>, x: int, ids: seq<int>)
    requires TreeOK(nodes, kids) && 0 <= x < |nodes|
    ensures TreeOK(nodes[x := nodes[x].(ids := ids)], kids)
  {
    var nodes' := nodes[x := nodes[x].(ids := ids)];
    forall n | 0 <= n < |nodes|
      ensures ChildListOK(nodes', kids, n)
    {
      ChildListFrame(nodes, kids, nodes', kids, n);
    }
    forall c | 0 <= c < |nodes|
      ensures ParentOK(nodes', kids, c)
    {
      assert ParentOK(nodes, kids, c);
    }
  }
}
