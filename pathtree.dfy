/**
 * PathTree: the trie of path segments the file watcher uses to know which directories are
 * watched.  Sibling lists are kept sorted by segment and doubly linked; a node is live while
 * some id is registered on it, and removing the last id prunes the dead part of the tree.
 * The Unix layout is modelled: rootNode holds pathRoot, whose segment is empty.
 */
module FileWatcherPathTree {
  import opened Wrappers
  import opened Strings
  import opened PathTreeNodes
  import opened PathTreeEdits
  import opened PathTreePrune

  class PathTree {
    /** The arena of PathTreeNode records; a node reference is an index into it. */
    var nodes: seq<PathTreeNode>
    /** The child list of every node, as the links spell it. */
    ghost var kids: seq<seq<int>>

    ghost predicate Valid()
      reads this
    {
      TreeOK(nodes, kids)
    }

    /** The Unix constructor: rootNode with the single child pathRoot, neither live. */
    constructor ()
      ensures Valid()
      ensures kids == [[PathRoot], []]
      ensures !IsLive(nodes[RootNode]) && !IsLive(nodes[PathRoot])
    {
      nodes := [PathTreeNode("", Null, PathRoot, Null, Null, 1, []),
                PathTreeNode("", RootNode, Null, Null, Null, 0, [])];
      kids := [[PathRoot], []];
    }

    /** TryFind: walks down the tree, segment by segment, scanning each sorted sibling list up to
        the first segment not below the one sought.  On success `result` is the node of the path;
        otherwise `parent` is the deepest node matched, `previousNode` the sibling after which the
        missing segment belongs and `lastIndex` the offset of the unmatched rest of the path.
        The scan of one sibling list is ScanSiblings. */
    method TryFind(path: string) returns (found: bool, result: int, parent: int, previousNode: int, lastIndex: int,
                                          ghost chain: seq<int>, ghost insertAt: int)
      requires Valid()
      ensures IsChain(nodes, kids, chain, Segments(path))
      ensures found <==> |chain| == |Segments(path)|
      ensures found ==> result == chain[|chain| - 1]
      ensures !found ==> result == Null && parent == Up(chain, |chain|)
      ensures !found ==> 0 <= parent < |nodes| && GapAt(nodes, kids, parent, insertAt, previousNode, Segments(path)[|chain|])
      ensures !found ==> Unmatched(path, lastIndex, |chain|)
    {
      ghost var segs := Segments(path);
      var trimmed := Trimmed(path);
      lastIndex := 0;
      parent := RootNode;
      var remaining := trimmed;
      chain := [];
      while true
        invariant 0 <= lastIndex <= |trimmed| && remaining == trimmed[lastIndex..]
        invariant IsChain(nodes, kids, chain, segs) && |chain| < |segs|
        invariant Unmatched(path, lastIndex, |chain|)
        invariant parent == Up(chain, |chain|) && 0 <= parent < |nodes|
        decreases |remaining|
      {
        var currentNode, last, nextIndex, rest;
        ghost var chain';
        currentNode, previousNode, last, nextIndex, rest, insertAt, chain' :=
          WalkStep(path, trimmed, lastIndex, remaining, parent, chain);
        if currentNode == Null {
          break;
        }
        chain := chain';
        if last {
          result := currentNode;
          found := true;
          return;
        }
        remaining, lastIndex := rest, nextIndex;
        parent := currentNode;
      }
      result := Null;
      found := false;
    }

    /** One turn of TryFind's walk: look up the next segment of the path among the children of
        `parent`.  `currentNode` is Null when it is missing; otherwise `last` says whether it was
        the final segment, and `rest`, starting at `nextIndex`, is the path after it. */
    method WalkStep(path: string, trimmed: string, lastIndex: int, remaining: string, parent: int,
                    ghost chain: seq<int>)
      returns (currentNode: int, previousNode: int, last: bool, nextIndex: int, rest: string,
               ghost insertAt: int, ghost chain': seq<int>)
      requires Valid()
      requires trimmed == Trimmed(path) && 0 <= lastIndex <= |trimmed| && remaining == trimmed[lastIndex..]
      requires IsChain(nodes, kids, chain, Segments(path)) && |chain| < |Segments(path)|
      requires Unmatched(path, lastIndex, |chain|)
      requires parent == Up(chain, |chain|) && 0 <= parent < |nodes|
      ensures currentNode == Null ==> GapAt(nodes, kids, parent, insertAt, previousNode, Segments(path)[|chain|])
      ensures currentNode != Null ==> 0 <= currentNode < |nodes| && chain' == chain + [currentNode]
      ensures currentNode != Null ==> IsChain(nodes, kids, chain', Segments(path)) && currentNode == Up(chain', |chain'|)
      ensures currentNode != Null ==> (last <==> |chain'| == |Segments(path)|) && currentNode == chain'[|chain'| - 1]
      ensures currentNode != Null && !last ==>
        0 <= nextIndex <= |trimmed| && rest == trimmed[nextIndex..] && |rest| < |remaining| &&
        Unmatched(path, nextIndex, |chain'|)
    {
      ghost var segs := Segments(path);
      var currentIndex := IndexOfChar(remaining, DirectorySeparator);
      var segmentLength := if currentIndex == -1 then |remaining| else currentIndex;
      var toAddSegment := remaining[..segmentLength];
      DescendText(path, lastIndex, |chain|);
      var comparisonResult;
      currentNode, previousNode, comparisonResult, insertAt := ScanSiblings(parent, toAddSegment);
      if currentNode == Null || comparisonResult > 0 {
        currentNode, last, nextIndex, rest, chain' := Null, false, lastIndex, remaining, chain;
        return;
      }
      ChainExtend(nodes, kids, chain, segs, currentNode);
      chain' := chain + [currentNode];
      rest, nextIndex := ConsumeSegment(trimmed, lastIndex, remaining, currentIndex, path, |chain|);
      last := currentIndex == -1 || |rest| == 0;
    }

    /** FindNode: the node of `path`, or null when the tree holds none. */
    method FindNode(path: string) returns (result: int, ghost chain: seq<int>)
      requires Valid()
      ensures IsChain(nodes, kids, chain, Segments(path))
      ensures result != Null ==> |chain| == |Segments(path)| && result == chain[|chain| - 1]
      ensures result != Null ==> forall c :: IsChain(nodes, kids, c, Segments(path)) && |c| == |Segments(path)| ==>
        c[|c| - 1] == result
      ensures result == Null ==> forall c :: IsChain(nodes, kids, c, Segments(path)) ==> |c| < |Segments(path)|
    {
      var found, parent, previousNode, lastIndex;
      ghost var insertAt;
      found, result, parent, previousNode, lastIndex, chain, insertAt := TryFind(path);
      OnlyChain(nodes, kids, chain, Segments(path), found, insertAt, previousNode);
    }

    /** FindNodeContaining: the node of `path` or, failing that, the deepest node on the way to it;
        null when that is pathRoot and pathRoot is not live. */
    method FindNodeContaining(path: string) returns (result: int, ghost chain: seq<int>)
      requires Valid()
      ensures IsChain(nodes, kids, chain, Segments(path))
      ensures forall c :: IsChain(nodes, kids, c, Segments(path)) ==> |c| <= |chain|
      ensures result == Null <==> Up(chain, |chain|) == PathRoot && !IsLive(nodes[PathRoot])
      ensures result != Null ==> result == Up(chain, |chain|)
    {
      var found, parent, previousNode, lastIndex;
      ghost var insertAt;
      found, result, parent, previousNode, lastIndex, chain, insertAt := TryFind(path);
      OnlyChain(nodes, kids, chain, Segments(path), found, insertAt, previousNode);
      if !found {
        result := parent;
      }
      result := if result != PathRoot || IsLive(nodes[result]) then result else Null;
    }

    /** RemoveNode: unregisters `id` from the node of `path`; null, with nothing changed, when the
        tree holds no such node. */
    method RemoveNode(path: string, id: int) returns (node: int, isModified: bool, faulted: bool,
                                                      ghost chain: seq<int>, ghost j: int)
      requires Valid()
      modifies this
      ensures Valid()
      ensures node == Null ==> !isModified && !faulted && nodes == old(nodes) && kids == old(kids)
      ensures node == Null ==> forall c :: IsChain(nodes, kids, c, Segments(path)) ==> |c| < |Segments(path)|
      ensures node != Null ==> IsChain(old(nodes), old(kids), chain, Segments(path))
      ensures node != Null ==> |chain| == |Segments(path)| && node == chain[|chain| - 1]
      ensures node != Null ==> NodeRemoved(old(nodes), old(kids), nodes, kids, chain, Segments(path), j, id, isModified, faulted)
    {
      var found, result, parent, previousNode, lastIndex;
      ghost var insertAt;
      found, result, parent, previousNode, lastIndex, chain, insertAt := TryFind(path);
      OnlyChain(nodes, kids, chain, Segments(path), found, insertAt, previousNode);
      isModified, faulted, j := false, false, 0;
      if !found {
        return Null, false, false, chain, j;
      }
      node := result;
      isModified, faulted, j := RemoveNodeAt(result, id, chain, Segments(path));
    }

    /** The internal RemoveNode: unregisters `id` from `result`, the last node of `chain`, and when
        that leaves it not live, unlinks dead subtrees upwards, never past pathRoot.  `faulted` is
        the climb that reaches rootNode with its subtree dead, where the source dereferences
        rootNode's null Parent; the tree is then left as it is at that point. */
    method RemoveNodeAt(result: int, id: int, ghost chain: seq<int>, ghost segs: seq<string>)
      returns (isModified: bool, faulted: bool, ghost j: int)
      requires Valid() && IsChain(nodes, kids, chain, segs) && chain != [] && result == chain[|chain| - 1]
      modifies this
      ensures Valid()
      ensures NodeRemoved(old(nodes), old(kids), nodes, kids, chain, segs, j, id, isModified, faulted)
    {
      ghost var n0 := nodes;
      assert chain[..|chain|] == chain;
      ChainEnd(nodes, kids, chain, segs, |chain|);
      var parent := nodes[result].parent;
      var unregistered := UnregisterId(nodes[result], id);
      TreeIgnoresIds(nodes, kids, result, unregistered.1.ids);
      nodes := nodes[result := unregistered.1];
      isModified := unregistered.0 && !IsLive(nodes[result]);
      faulted := false;
      j := |chain|;
      PruningStarts(nodes, kids, chain, segs);
      ghost var k1 := kids;
      if isModified {
        faulted, j := Climb(result, parent, nodes, kids, chain, segs);
      }
      PruningEnds(n0, k1, nodes, kids, chain, segs, j, id, isModified, faulted);
    }

    /** RemoveNode's loop: from `nodeToRemove`, the last node of `chain`, cut dead subtrees out of
        their parents' lists, climbing the chain, until pathRoot or a subtree that is not dead. */
    method Climb(result: int, resultParent: int, ghost n1: seq<PathTreeNode>, ghost k1: seq<seq<int>>,
                 ghost chain: seq<int>, ghost segs: seq<string>) returns (faulted: bool, ghost j: int)
      requires Pruning(n1, k1, nodes, kids, chain, segs, |chain|) && chain != []
      requires result == Up(chain, |chain|) && resultParent == Up(chain, |chain| - 1)
      requires 0 <= result < |nodes| && 0 <= resultParent
      modifies this
      ensures Valid() && Pruning(n1, k1, nodes, kids, chain, segs, j)
      ensures faulted ==> j == 0 && DeadSubtree(nodes, kids, RootNode)
      ensures !faulted ==> Up(chain, j) == PathRoot || !DeadSubtree(nodes, kids, Up(chain, j))
    {
      var nodeToRemove, parent := result, resultParent;
      faulted := false;
      j := |chain|;
      while true
        invariant Pruning(n1, k1, nodes, kids, chain, segs, j)
        invariant nodeToRemove == Up(chain, j)
        invariant parent == if j == 0 then Null else Up(chain, j - 1)
        invariant 0 <= nodeToRemove < |nodes| && (parent == Null <==> j == 0)
        decreases j
      {
        if nodeToRemove == PathRoot {
          break;
        }
        var dead := IsDeadSubtree(nodeToRemove);
        if !dead {
          break;
        }
        if parent == Null {
          faulted := true;
          break;
        }
        var up := CutTop(nodeToRemove, parent, n1, k1, chain, segs, j);
        j := j - 1;
        nodeToRemove, parent := parent, up;
      }
    }

    /** One round of RemoveNode's loop: `nodeToRemove`, whose subtree is dead, leaves the list of
        `parent`; `up` is then the Parent of `parent`. */
    method CutTop(nodeToRemove: int, parent: int, ghost n1: seq<PathTreeNode>, ghost k1: seq<seq<int>>,
                  ghost chain: seq<int>, ghost segs: seq<string>, ghost j: int) returns (up: int)
      requires Pruning(n1, k1, nodes, kids, chain, segs, j) && j >= 1
      requires nodeToRemove == chain[j - 1] && parent == Up(chain, j - 1) && nodeToRemove != PathRoot
      requires DeadSubtree(nodes, kids, nodeToRemove)
      modifies this
      ensures Pruning(n1, k1, nodes, kids, chain, segs, j - 1)
      ensures up == if j == 1 then Null else Up(chain, j - 2)
      ensures 0 <= parent < |nodes| && (up == Null <==> j == 1)
    {
      ChainEnd(nodes, kids, chain, segs, j);
      ghost var k :| 0 <= k < |kids[parent]| && kids[parent][k] == nodeToRemove;
      CutReady(nodes, kids, parent, k);
      var ns := Cut(nodes, nodeToRemove, parent);
      ClimbStep(n1, k1, nodes, kids, ns, chain, segs, j, parent, k);
      nodes := ns;
      kids := kids[parent := RemoveAt(kids[parent], k)];
      up := nodes[parent].parent;
    }

    /** IsDeadSubtree: a depth-first search of the subtree of `node` for a live node. */
    method IsDeadSubtree(node: int) returns (dead: bool)
      requires Valid() && 0 <= node < |nodes|
      ensures dead == DeadSubtree(nodes, kids, node)
    {
      var stack := [node];
      while stack != []
        invariant OnArena(nodes, stack)
        invariant DeadSubtree(nodes, kids, node) == AllDead(nodes, kids, stack)
        decreases StackSize(nodes, kids, stack)
      {
        var n := stack[|stack| - 1];
        var rest := stack[..|stack| - 1];
        AllDeadSplit(nodes, kids, rest, [n]);
        assert rest + [n] == stack;
        if IsLive(nodes[n]) {
          return false;
        }
        stack := PushChildren(rest, n);
        ChildrenDead(nodes, kids, n);
        AllDeadSplit(nodes, kids, rest, kids[n]);
      }
      return true;
    }

    /** IsDeadSubtree's inner loop: pushes the children of `n`, following its child list. */
    method PushChildren(stack: seq<int>, n: int) returns (stack': seq<int>)
      requires Valid() && 0 <= n < |nodes| && OnArena(nodes, stack)
      ensures stack' == stack + kids[n] && OnArena(nodes, stack')
      ensures StackSize(nodes, kids, stack') == StackSize(nodes, kids, stack) + SizeFrom(nodes, kids, n, 0)
    {
      assert ChildListOK(nodes, kids, n);
      stack' := stack;
      var child := nodes[n].firstChild;
      ghost var i := 0;
      while child != Null
        invariant 0 <= i <= |kids[n]|
        invariant child == if i < |kids[n]| then kids[n][i] else Null
        invariant stack' == stack + kids[n][..i] && OnArena(nodes, stack')
        invariant StackSize(nodes, kids, stack') + SizeFrom(nodes, kids, n, i) ==
                  StackSize(nodes, kids, stack) + SizeFrom(nodes, kids, n, 0)
        decreases |kids[n]| - i
      {
        StackPush(nodes, kids, stack', child);
        NextSibling(nodes, kids, n, i);
        assert kids[n][..i + 1] == kids[n][..i] + [child];
        stack' := stack' + [child];
        child := nodes[child].next;
        i := i + 1;
      }
      assert kids[n][..i] == kids[n];
    }

    /** The inner part of TryFind's walk: from the first child of `parent`, skip the siblings whose
        segment is below `toAddSegment`; the comparison is that of the node stopped at. */
    method ScanSiblings(parent: int, toAddSegment: string)
      returns (currentNode: int, previousNode: int, comparisonResult: int, ghost insertAt: int)
      requires Valid() && 0 <= parent < |nodes|
      ensures 0 <= insertAt <= |kids[parent]|
      ensures currentNode == if insertAt < |kids[parent]| then kids[parent][insertAt] else Null
      ensures currentNode != Null ==> comparisonResult == OrdinalCompare(nodes[currentNode].segment, toAddSegment) >= 0
      ensures currentNode == Null || comparisonResult > 0 ==> GapAt(nodes, kids, parent, insertAt, previousNode, toAddSegment)
    {
      assert ChildListOK(nodes, kids, parent);
      currentNode := nodes[parent].firstChild;
      previousNode := Null;
      insertAt := 0;
      comparisonResult := 0;
      while currentNode != Null
        invariant 0 <= insertAt <= |kids[parent]|
        invariant currentNode == if insertAt < |kids[parent]| then kids[parent][insertAt] else Null
        invariant previousNode == if insertAt == 0 then Null else kids[parent][insertAt - 1]
        invariant forall i :: 0 <= i < insertAt ==> OrdinalLess(nodes[kids[parent][i]].segment, toAddSegment)
        decreases |kids[parent]| - insertAt
      {
        comparisonResult := OrdinalCompare(nodes[currentNode].segment, toAddSegment);
        if comparisonResult >= 0 {
          break;
        }
        NextSibling(nodes, kids, parent, insertAt);
        previousNode := currentNode;
        currentNode := nodes[currentNode].next;
        insertAt := insertAt + 1;
      }
      if currentNode == Null || comparisonResult > 0 {
        GapFromScan(nodes, kids, parent, insertAt, previousNode, toAddSegment);
      }
    }

    /** InsertNode: links the detached `node` into the child list of `parentNode` right after
        `previousNode`, or at its head when that is null; `at` is that place in the list. */
    method InsertNode(node: int, parentNode: int, previousNode: int, ghost at: int)
      requires Valid() && 0 <= parentNode < node < |nodes| && 0 <= at <= |kids[parentNode]|
      requires nodes[node].parent == Null && nodes[node].next == Null && nodes[node].previous == Null
      requires GapAt(nodes, kids, parentNode, at, previousNode, nodes[node].segment)
      modifies this
      ensures Valid()
      ensures Inserted(old(nodes), old(kids), nodes, node, parentNode, at)
      ensures kids == old(kids)[parentNode := InsertAt(old(kids)[parentNode], at, node)]
      ensures forall c :: 0 <= c < |nodes| ==> nodes[c].segment == old(nodes)[c].segment && nodes[c].ids == old(nodes)[c].ids
    {
      ghost var ks := kids[parentNode];
      assert ChildListOK(nodes, kids, parentNode);
      DetachedInNoList(nodes, kids, node);
      if at > 0 {
        assert ks[at - 1] > parentNode;
        NextSibling(nodes, kids, parentNode, at - 1);
      }
      if at < |ks| {
        assert ks[at] > parentNode;
        if at > 0 {
          ChildrenDistinct(nodes, kids, parentNode, at - 1, at);
        }
      }
      var ns := Link(nodes, node, parentNode, previousNode, if at < |ks| then ks[at] else Null);
      InsertKeepsTree(nodes, kids, ns, node, parentNode, at);
      InsertFacts(nodes, kids, ns, node, parentNode, at);
      nodes := ns;
      kids := kids[parentNode := InsertAt(kids[parentNode], at, node)];
    }

    /** CreateSubTree: a node for each segment of the path from `lastIndex` on, each the only
        child of the one before; `first` is the top one, `leaf` the bottom one. */
    method CreateSubTree(path: string, lastIndex: int) returns (first: int, leaf: int)
      requires Valid() && 0 <= lastIndex <= |Trimmed(path)|
      modifies this
      ensures Valid()
      ensures var segs := Split(Trimmed(path)[lastIndex..], {DirectorySeparator});
        && nodes == old(nodes) + SubTreeNodes(|old(nodes)|, segs)
        && kids == old(kids) + SubTreeKids(|old(nodes)|, |segs|)
      ensures first == |old(nodes)| && leaf == |nodes| - 1 && first <= leaf
    {
      var segs := Split(Trimmed(path)[lastIndex..], {DirectorySeparator});
      AppendKeepsTree(nodes, kids, segs);
      first := |nodes|;
      nodes := nodes + SubTreeNodes(first, segs);
      kids := kids + SubTreeKids(first, |segs|);
      leaf := |nodes| - 1;
    }

    /** AddNode's first steps on a path it does not hold: CreateSubTree for the rest of the path,
        then RegisterId on the leaf. */
    method GrowSubTree(path: string, lastIndex: int, id: int) returns (first: int, leaf: int)
      requires Valid() && 0 <= lastIndex <= |Trimmed(path)|
      requires TreeOK(Grown(nodes, Split(Trimmed(path)[lastIndex..], {DirectorySeparator}), id),
                      kids + SubTreeKids(|nodes|, |Split(Trimmed(path)[lastIndex..], {DirectorySeparator})|))
      modifies this
      ensures Valid()
      ensures nodes == Grown(old(nodes), Split(Trimmed(path)[lastIndex..], {DirectorySeparator}), id)
      ensures kids == old(kids) + SubTreeKids(|old(nodes)|, |Split(Trimmed(path)[lastIndex..], {DirectorySeparator})|)
      ensures first == |old(nodes)| && leaf == |nodes| - 1
    {
      first, leaf := CreateSubTree(path, lastIndex);
      nodes := nodes[leaf := RegisterId(nodes[leaf], id)];
    }

    /** AddNode: registers `id` on the node of `path`, creating the missing end of the path
        first; `isModified` says whether that node was not live before. */
    method AddNode(path: string, id: int) returns (node: int, isModified: bool, ghost chain: seq<int>)
      requires Valid()
      modifies this
      ensures Valid()
      ensures NodeAdded(old(nodes), old(kids), nodes, kids, Segments(path), chain, node, id, isModified)
    {
      var found, result, parent, previousNode, lastIndex;
      ghost var insertAt, chain0;
      found, result, parent, previousNode, lastIndex, chain0, insertAt := TryFind(path);
      if found {
        isModified := !IsLive(nodes[result]);
        TreeIgnoresIds(nodes, kids, result, RegisterId(nodes[result], id).ids);
        ExistingAdded(nodes, kids, Segments(path), chain0, result, id);
        nodes := nodes[result := RegisterId(nodes[result], id)];
        node, chain := result, chain0;
        return;
      }
      forall c | IsChain(nodes, kids, c, Segments(path))
        ensures |c| < |Segments(path)|
      {
        ChainMaximal(nodes, kids, chain0, Segments(path), insertAt, previousNode, c);
      }
      isModified := true;
      ghost var n0, k0 := nodes, kids;
      node, chain := AddMissing(path, id, parent, previousNode, lastIndex, chain0, insertAt);
      MissingAdded(n0, k0, nodes, kids, Segments(path), chain, node, id);
    }

    /** The second half of AddNode: the path is matched down to `parent` only, so the rest of it
        is made a subtree, `id` is registered on its leaf and the subtree hung below `parent`. */
    method AddMissing(path: string, id: int, parent: int, previousNode: int, lastIndex: int,
                      ghost chain0: seq<int>, ghost insertAt: int) returns (leaf: int, ghost chain: seq<int>)
      requires Valid()
      requires IsChain(nodes, kids, chain0, Segments(path)) && |chain0| < |Segments(path)|
      requires parent == Up(chain0, |chain0|) && 0 <= parent < |nodes|
      requires GapAt(nodes, kids, parent, insertAt, previousNode, Segments(path)[|chain0|])
      requires Unmatched(path, lastIndex, |chain0|)
      modifies this
      ensures Valid()
      ensures SubTreeAdded(old(nodes), old(kids), nodes, kids, chain, Segments(path), leaf, id)
    {
      ghost var n0, k0 := nodes, kids;
      ghost var segs := Segments(path);
      var first;
      GrownReady(n0, k0, segs[|chain0|..], id, parent, insertAt, previousNode);
      first, leaf := GrowSubTree(path, lastIndex, id);
      InsertNode(first, parent, previousNode, insertAt);
      chain := chain0 + Handles(first, |segs| - |chain0|);
      assert GrownInserted(n0, k0, nodes, kids, chain0, segs, id, insertAt);
      GrownHung(n0, k0, nodes, kids, chain0, segs, id, insertAt, chain, leaf);
    }
  }

  /** TryFind's step past a matched segment: the rest of the path after the separator, and the
      offset where it starts. */
  method ConsumeSegment(trimmed: string, lastIndex: int, remaining: string, currentIndex: int,
                        ghost path: string, ghost k: int) returns (remaining': string, lastIndex': int)
    requires trimmed == Trimmed(path) && 0 <= lastIndex <= |trimmed| && remaining == trimmed[lastIndex..]
    requires Unmatched(path, lastIndex, k) && k < |Segments(path)|
    requires currentIndex == IndexOfChar(remaining, DirectorySeparator)
    ensures currentIndex == -1 ==> k + 1 == |Segments(path)|
    ensures currentIndex != -1 ==> |remaining'| < |remaining|
    ensures currentIndex != -1 ==> remaining' != [] && 0 <= lastIndex' <= |trimmed| && remaining' == trimmed[lastIndex'..]
    ensures currentIndex != -1 ==> Unmatched(path, lastIndex', k + 1)
  {
    DescendText(path, lastIndex, k);
    var cut := if currentIndex + 1 < |remaining| then currentIndex + 1 else |remaining|;
    remaining' := remaining[cut..];
    lastIndex' := lastIndex + currentIndex + 1;
  }
}
