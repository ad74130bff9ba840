/**
 * RemoveNode's pruning, described on the arena: the dead-subtree search of IsDeadSubtree, the
 * climb from a removed node towards pathRoot, and what the climb leaves behind.
 */
module PathTreePrune {
  import opened Strings
  import opened PathTreeNodes
  import opened PathTreeEdits

  // ----- IsDeadSubtree's search -----

  /** The number of nodes in the subtree of `n`: what IsDeadSubtree's search uses up. */
  ghost function Size(nodes: seq<PathTreeNode>, kids: seq<seq<int>>, n: int): (r: nat)
    requires Ranked(nodes, kids) && 0 <= n < |nodes|
    ensures r >= 1
    decreases |nodes| - n, |kids[n]| + 1
  {
    1 + SizeFrom(nodes, kids, n, 0)
  }

  /** The sizes of the subtrees of the children of `n` from place `i` on. */
  ghost function SizeFrom(nodes: seq<PathTreeNode>, kids: seq<seq<int>>, n: int, i: int): nat
    requires Ranked(nodes, kids) && 0 <= n < |nodes| && 0 <= i <= |kids[n]|
    decreases |nodes| - n, |kids[n]| - i
  {
    if i == |kids[n]| then 0 else Size(nodes, kids, kids[n][i]) + SizeFrom(nodes, kids, n, i + 1)
  }

  /** Every node on the stack is a node of the arena. */
  ghost predicate OnArena(nodes: seq<PathTreeNode>, stack: seq<int>)
  {
    forall i :: 0 <= i < |stack| ==> 0 <= stack[i] < |nodes|
  }

  /** The sizes of the subtrees of the nodes on the stack. */
  ghost function StackSize(nodes: seq<PathTreeNode>, kids: seq<seq<int>>, stack: seq<int>): nat
    requires Ranked(nodes, kids) && OnArena(nodes, stack)
  {
    if stack == [] then 0
    else StackSize(nodes, kids, stack[..|stack| - 1]) + Size(nodes, kids, stack[|stack| - 1])
  }

  /** Every node on the stack has a dead subtree. */
  ghost predicate AllDead(nodes: seq<PathTreeNode>, kids: seq<seq<int>>, stack: seq<int>)
    requires Ranked(nodes, kids) && OnArena(nodes, stack)
  {
    forall i :: 0 <= i < |stack| ==> DeadSubtree(nodes, kids, stack[i])
  }

  /** Pushing a node adds the size of its subtree. */
  lemma StackPush(nodes: seq<PathTreeNode>, kids: seq<seq<int>>, stack: seq<int>, c: int)
    requires Ranked(nodes, kids) && OnArena(nodes, stack) && 0 <= c < |nodes|
    ensures OnArena(nodes, stack + [c])
    ensures StackSize(nodes, kids, stack + [c]) == StackSize(nodes, kids, stack) + Size(nodes, kids, c)
  {
    assert (stack + [c])[..|stack|] == stack;
  }

  /** A stack is dead throughout when both of its parts are. */
  lemma AllDeadSplit(nodes: seq<PathTreeNode>, kids: seq<seq<int>>, a: seq<int>, b: seq<int>)
    requires Ranked(nodes, kids) && OnArena(nodes, a) && OnArena(nodes, b)
    ensures OnArena(nodes, a + b)
    ensures AllDead(nodes, kids, a + b) == (AllDead(nodes, kids, a) && AllDead(nodes, kids, b))
  {
    if AllDead(nodes, kids, a) && AllDead(nodes, kids, b) {
      forall i | 0 <= i < |a + b|
        ensures DeadSubtree(nodes, kids, (a + b)[i])
      {
        if i >= |a| {
          assert (a + b)[i] == b[i - |a|];
        }
      }
    }
    if AllDead(nodes, kids, a + b) {
      forall i | 0 <= i < |a|
        ensures DeadSubtree(nodes, kids, a[i])
      {
        assert (a + b)[i] == a[i];
      }
      forall i | 0 <= i < |b|
        ensures DeadSubtree(nodes, kids, b[i])
      {
        assert (a + b)[|a| + i] == b[i];
      }
    }
  }

  /** The children of a node that is not live have dead subtrees iff the node has. */
  lemma ChildrenDead(nodes: seq<PathTreeNode>, kids: seq<seq<int>>, n: int)
    requires Ranked(nodes, kids) && 0 <= n < |nodes| && !IsLive(nodes[n])
    ensures OnArena(nodes, kids[n])
    ensures AllDead(nodes, kids, kids[n]) == DeadSubtree(nodes, kids, n)
  {
  }

  // ----- the climb -----

  /** A child comes after its parent in the arena. */
  lemma ChildAbove(nodes: seq<PathTreeNode>, kids: seq<seq<int>>, n: int, c: int)
    requires Ranked(nodes, kids) && 0 <= n < |nodes| && c in kids[n]
    ensures n < c < |nodes|
  {
    var i :| 0 <= i < |kids[n]| && kids[n][i] == c;
  }

  /** The nodes of a chain ascend in the arena, each above rootNode. */
  lemma {:induction false} ChainAscends(nodes: seq<PathTreeNode>, kids: seq<seq<int>>, chain: seq<int>,
                                         segs: seq<string>, i: int)
    requires Ranked(nodes, kids) && IsChain(nodes, kids, chain, segs) && 0 <= i < |chain|
    ensures forall h :: 0 <= h < i ==> chain[h] < chain[i]
    ensures RootNode < chain[i]
  {
    if i == 0 {
      ChildAbove(nodes, kids, RootNode, chain[0]);
    } else {
      ChainAscends(nodes, kids, chain, segs, i - 1);
      assert ChainLink(kids, chain, i - 1);
      ChildAbove(nodes, kids, chain[i - 1], chain[i]);
    }
  }

  /** The top of a chain prefix hangs from the node before it, which its Parent names; rootNode
      has no parent. */
  lemma ChainEnd(nodes: seq<PathTreeNode>, kids: seq<seq<int>>, chain: seq<int>, segs: seq<string>, j: int)
    requires TreeOK(nodes, kids) && 0 <= j <= |chain| && IsChain(nodes, kids, chain[..j], segs)
    ensures nodes[RootNode].parent == Null
    ensures j >= 1 ==> && 0 <= Up(chain, j - 1) < |nodes| && 0 <= chain[j - 1] < |nodes|
                       && chain[j - 1] in kids[Up(chain, j - 1)]
                       && nodes[chain[j - 1]].parent == Up(chain, j - 1)
  {
    if j >= 1 {
      var c := chain[..j];
      var p := Up(chain, j - 1);
      if j >= 2 {
        assert ChainLink(kids, c, j - 2);
        assert c[j - 2] == p;
      }
      assert c[j - 1] == chain[j - 1] && chain[j - 1] in kids[p];
      assert ChildListOK(nodes, kids, p);
      var i :| 0 <= i < |kids[p]| && kids[p][i] == chain[j - 1];
    }
  }

  /** `ks` is `kids` with some subtrees cut off: no list gained a node, and every node a list
      lost had a dead subtree. */
  ghost predicate Pruned(nodes: seq<PathTreeNode>, kids: seq<seq<int>>, ks: seq<seq<int>>)
    requires Ranked(nodes, kids)
  {
    && |ks| == |kids|
    && (forall n, c :: 0 <= n < |ks| && c in ks[n] ==> c in kids[n])
    && (forall n, i :: 0 <= n < |kids| && 0 <= i < |kids[n]| && !DeadSubtree(nodes, kids, kids[n][i]) ==>
          kids[n][i] in ks[n])
  }

  /** Every node is dead in the one tree iff it is in the other. */
  ghost predicate SameDeadness(n1: seq<PathTreeNode>, k1: seq<seq<int>>, nodes: seq<PathTreeNode>, kids: seq<seq<int>>)
    requires Ranked(n1, k1) && Ranked(nodes, kids) && |n1| == |nodes|
  {
    forall y :: 0 <= y < |nodes| ==> DeadSubtree(nodes, kids, y) == DeadSubtree(n1, k1, y)
  }

  /** What the climb keeps, `n1`/`k1` being the tree just after UnregisterId: the tree invariant,
      the ids and segments, the first `j` nodes of the chain still hanging, the one after them cut
      off, and only dead subtrees cut. */
  ghost predicate Pruning(n1: seq<PathTreeNode>, k1: seq<seq<int>>, nodes: seq<PathTreeNode>, kids: seq<seq<int>>,
                          chain: seq<int>, segs: seq<string>, j: int)
  {
    && PrunedSoFar(n1, k1, nodes, kids, chain, segs, j)
    && kids == ClimbLists(k1, chain, j) && Detached(nodes, chain, j)
  }

  /** The part of what the climb keeps that speaks of the tree, not of the cuts themselves. */
  ghost predicate PrunedSoFar(n1: seq<PathTreeNode>, k1: seq<seq<int>>, nodes: seq<PathTreeNode>, kids: seq<seq<int>>,
                              chain: seq<int>, segs: seq<string>, j: int)
  {
    && TreeOK(nodes, kids) && Ranked(n1, k1) && |n1| == |nodes|
    && (forall c :: 0 <= c < |nodes| ==> nodes[c].ids == n1[c].ids && nodes[c].segment == n1[c].segment)
    && 0 <= j <= |chain| && IsChain(nodes, kids, chain[..j], segs)
    && (j < |chain| ==> 0 <= Up(chain, j) < |nodes| && chain[j] !in kids[Up(chain, j)])
    && Pruned(n1, k1, kids) && SameDeadness(n1, k1, nodes, kids)
  }

  /** The child lists after the climb has cut the chain's nodes from place `j` on out of the
      lists `k1`, each out of the list of the node before it on the chain. */
  ghost function ClimbLists(k1: seq<seq<int>>, chain: seq<int>, j: int): (r: seq<seq<int>>)
    requires 0 <= j <= |chain|
    ensures |r| == |k1|
    decreases |chain| - j
  {
    if j == |chain| then k1
    else
      var ks, p := ClimbLists(k1, chain, j + 1), Up(chain, j);
      if 0 <= p < |ks| then ks[p := Dropped(ks[p], chain[j])] else ks
  }

  /** The chain's nodes from place `j` on are nodes other than rootNode, with no parent and no
      siblings left. */
  ghost predicate Detached(nodes: seq<PathTreeNode>, chain: seq<int>, j: int)
    requires 0 <= j <= |chain|
    decreases |chain| - j
  {
    j == |chain| ||
    (&& RootNode < chain[j] < |nodes|
     && nodes[chain[j]].parent == Null && nodes[chain[j]].previous == Null && nodes[chain[j]].next == Null
     && Detached(nodes, chain, j + 1))
  }

  /** Detached, node by node. */
  lemma {:induction false} DetachedAll(nodes: seq<PathTreeNode>, chain: seq<int>, j: int)
    requires 0 <= j <= |chain|
    ensures Detached(nodes, chain, j) <==>
      forall i :: j <= i < |chain| ==>
        && RootNode < chain[i] < |nodes|
        && nodes[chain[i]].parent == Null && nodes[chain[i]].previous == Null && nodes[chain[i]].next == Null
    decreases |chain| - j
  {
    if j < |chain| {
      DetachedAll(nodes, chain, j + 1);
    }
  }

  /** Before the climb the whole chain hangs and nothing is cut. */
  lemma PruningStarts(n1: seq<PathTreeNode>, k1: seq<seq<int>>, chain: seq<int>, segs: seq<string>)
    requires TreeOK(n1, k1) && IsChain(n1, k1, chain, segs)
    ensures Pruning(n1, k1, n1, k1, chain, segs, |chain|)
  {
    assert chain[..|chain|] == chain;
    forall n, i | 0 <= n < |k1| && 0 <= i < |k1[n]|
      ensures k1[n][i] in k1[n]
    {
    }
  }

  /** Cutting a dead child out of a list changes no node's deadness. */
  lemma {:induction false} CutKeepsDead(nodes: seq<PathTreeNode>, kids: seq<seq<int>>, ns: seq<PathTreeNode>,
                                        kids': seq<seq<int>>, p: int, k: int, y: int)
    requires Ranked(nodes, kids) && 0 <= p < |nodes| && 0 <= k < |kids[p]|
    requires kids' == kids[p := RemoveAt(kids[p], k)] && Ranked(ns, kids')
    requires |ns| == |nodes| && forall c :: 0 <= c < |nodes| ==> ns[c].ids == nodes[c].ids
    requires DeadSubtree(nodes, kids, kids[p][k]) && 0 <= y < |nodes|
    ensures DeadSubtree(ns, kids', y) == DeadSubtree(nodes, kids, y)
    decreases |nodes| - y
  {
    forall i | 0 <= i < |kids'[y]|
      ensures DeadSubtree(ns, kids', kids'[y][i]) == DeadSubtree(nodes, kids, kids'[y][i])
    {
      CutKeepsDead(nodes, kids, ns, kids', p, k, kids'[y][i]);
    }
    if y == p {
      var ks, ks' := kids[p], kids'[p];
      if forall i :: 0 <= i < |ks'| ==> DeadSubtree(nodes, kids, ks'[i]) {
        forall i | 0 <= i < |ks|
          ensures DeadSubtree(nodes, kids, ks[i])
        {
          if i < k {
            assert ks[i] == ks'[i];
          } else if i > k {
            assert ks[i] == ks'[i - 1];
          }
        }
      }
    }
  }

  /** A chain prefix stays a chain when the list its top hangs in loses that top. */
  lemma ChainShrinks(nodes: seq<PathTreeNode>, kids: seq<seq<int>>, ns: seq<PathTreeNode>, kids': seq<seq<int>>,
                     chain: seq<int>, segs: seq<string>, j: int, p: int, k: int)
    requires TreeOK(nodes, kids) && 1 <= j <= |chain| && IsChain(nodes, kids, chain[..j], segs)
    requires p == Up(chain, j - 1) && 0 <= p < |nodes| && 0 <= k < |kids[p]| && kids' == kids[p := RemoveAt(kids[p], k)]
    requires |ns| == |nodes| && forall c :: 0 <= c < |nodes| ==> ns[c].segment == nodes[c].segment
    ensures IsChain(ns, kids', chain[..j - 1], segs)
  {
    var c, c' := chain[..j], chain[..j - 1];
    forall i | 0 <= i && i + 1 < |c'|
      ensures ChainLink(kids', c', i)
    {
      assert ChainLink(kids, c, i);
      ChainAscends(nodes, kids, c, segs, j - 2);
      assert c[i] < c[j - 2] == p;
    }
    if j >= 2 {
      ChainAscends(nodes, kids, c, segs, 0);
      ChainAscends(nodes, kids, c, segs, j - 2);
      assert c[0] <= c[j - 2] == p;
      assert c'[0] == c[0];
    }
    forall i | 0 <= i < |c'|
      ensures 0 <= c'[i] < |ns| && ns[c'[i]].segment == segs[i]
    {
      assert c'[i] == c[i];
    }
  }

  /** The node cut out of a list is no longer in it. */
  lemma CutGone(nodes: seq<PathTreeNode>, kids: seq<seq<int>>, p: int, k: int)
    requires TreeOK(nodes, kids) && 0 <= p < |nodes| && 0 <= k < |kids[p]|
    ensures kids[p][k] !in RemoveAt(kids[p], k)
  {
    var ks := kids[p];
    if kids[p][k] in RemoveAt(ks, k) {
      var i :| 0 <= i < |ks| - 1 && RemoveAt(ks, k)[i] == ks[k];
      ChildrenDistinct(nodes, kids, p, if i < k then i else i + 1, k);
    }
  }

  /** One step of the climb: cutting the dead top of the chain prefix out of its parent's list
      keeps what the climb keeps, one node lower on the chain. */
  lemma CutStep(n1: seq<PathTreeNode>, k1: seq<seq<int>>, nodes: seq<PathTreeNode>, kids: seq<seq<int>>,
                ns: seq<PathTreeNode>, chain: seq<int>, segs: seq<string>, j: int, p: int, k: int)
    requires PrunedSoFar(n1, k1, nodes, kids, chain, segs, j) && j >= 1
    requires p == Up(chain, j - 1) && 0 <= p < |nodes| && 0 <= k < |kids[p]| && kids[p][k] == chain[j - 1]
    requires chain[j - 1] != PathRoot && DeadSubtree(nodes, kids, chain[j - 1])
    requires Unlinked(nodes, kids, ns, p, k)
    ensures PrunedSoFar(n1, k1, ns, kids[p := RemoveAt(kids[p], k)], chain, segs, j - 1)
  {
    var kids' := kids[p := RemoveAt(kids[p], k)];
    assert UnlinkStep(nodes, kids, ns, p, k);
    UnlinkKeepsTree(nodes, kids, ns, p, k);
    UnlinkFacts(nodes, kids, ns, p, k);
    forall y | 0 <= y < |ns|
      ensures DeadSubtree(ns, kids', y) == DeadSubtree(n1, k1, y)
    {
      CutKeepsDead(nodes, kids, ns, kids', p, k, y);
      assert SameDeadness(n1, k1, nodes, kids);
    }
    ChainShrinks(nodes, kids, ns, kids', chain, segs, j, p, k);
    CutGone(nodes, kids, p, k);
    assert Up(chain, j - 1) == p;
    PrunedStep(n1, k1, nodes, kids, kids', p, k);
  }

  /** One step of the climb, with its cut recorded. */
  lemma ClimbStep(n1: seq<PathTreeNode>, k1: seq<seq<int>>, nodes: seq<PathTreeNode>, kids: seq<seq<int>>,
                  ns: seq<PathTreeNode>, chain: seq<int>, segs: seq<string>, j: int, p: int, k: int)
    requires Pruning(n1, k1, nodes, kids, chain, segs, j) && j >= 1
    requires p == Up(chain, j - 1) && 0 <= p < |nodes| && 0 <= k < |kids[p]| && kids[p][k] == chain[j - 1]
    requires chain[j - 1] != PathRoot && DeadSubtree(nodes, kids, chain[j - 1])
    requires Unlinked(nodes, kids, ns, p, k)
    ensures Pruning(n1, k1, ns, kids[p := RemoveAt(kids[p], k)], chain, segs, j - 1)
    ensures ns[p].parent == (if j == 1 then Null else Up(chain, j - 2)) && (j > 1 ==> 0 <= Up(chain, j - 2))
  {
    CutStep(n1, k1, nodes, kids, ns, chain, segs, j, p, k);
    assert ChildListOK(nodes, kids, p);
    forall i | 0 <= i < |kids[p]| && i != k
      ensures kids[p][i] != kids[p][k]
    {
      ChildrenDistinct(nodes, kids, p, i, k);
    }
    RemoveAtDropped(kids[p], k);
    assert UnlinkStep(nodes, kids, ns, p, k);
    UnlinkFacts(nodes, kids, ns, p, k);
    ChainEnd(ns, kids[p := RemoveAt(kids[p], k)], chain, segs, j - 1);
    CutsStep(nodes, kids, ns, chain, j, p, k);
  }

  /** The cut of the chain's node at place `j - 1` out of the list of `p` leaves the nodes cut
      before as they were: none of them is `p`, that node or one of its neighbours, which all
      have a parent, except `p` when it is rootNode. */
  lemma CutsStep(nodes: seq<PathTreeNode>, kids: seq<seq<int>>, ns: seq<PathTreeNode>, chain: seq<int>, j: int, p: int, k: int)
    requires 1 <= j <= |chain| && Detached(nodes, chain, j) && Ranked(nodes, kids)
    requires 0 <= p < |kids| && 0 <= k < |kids[p]| && kids[p][k] == chain[j - 1]
    requires p == RootNode || nodes[p].parent != Null
    requires forall i :: 0 <= i < |kids[p]| ==> nodes[kids[p][i]].parent == p
    requires CutOut(nodes, ns, chain[j - 1], p, if k == 0 then Null else kids[p][k - 1],
                    if k + 1 < |kids[p]| then kids[p][k + 1] else Null)
    ensures Detached(ns, chain, j - 1)
  {
    DetachedAll(nodes, chain, j);
    forall i | j <= i < |chain|
      ensures ns[chain[i]] == nodes[chain[i]]
    {
      assert nodes[kids[p][k]].parent == p;
      if k > 0 { assert nodes[kids[p][k - 1]].parent == p; }
      if k + 1 < |kids[p]| { assert nodes[kids[p][k + 1]].parent == p; }
    }
    DetachedAll(ns, chain, j);
  }

  /** Cutting a node whose subtree is dead keeps the cuts to dead subtrees. */
  lemma PrunedStep(n1: seq<PathTreeNode>, k1: seq<seq<int>>, nodes: seq<PathTreeNode>, kids: seq<seq<int>>,
                   kids': seq<seq<int>>, p: int, k: int)
    requires Ranked(n1, k1) && Ranked(nodes, kids) && |n1| == |nodes|
    requires Pruned(n1, k1, kids) && SameDeadness(n1, k1, nodes, kids)
    requires 0 <= p < |nodes| && 0 <= k < |kids[p]| && kids' == kids[p := RemoveAt(kids[p], k)]
    requires DeadSubtree(nodes, kids, kids[p][k])
    ensures Pruned(n1, k1, kids')
  {
    forall n, c | 0 <= n < |kids'| && c in kids'[n]
      ensures c in k1[n]
    {
      if n == p {
        var i :| 0 <= i < |kids'[p]| && kids'[p][i] == c;
        assert c == kids[p][if i < k then i else i + 1];
      }
    }
    forall n, i | 0 <= n < |k1| && 0 <= i < |k1[n]| && !DeadSubtree(n1, k1, k1[n][i])
      ensures k1[n][i] in kids'[n]
    {
      var x := k1[n][i];
      if n == p {
        var m :| 0 <= m < |kids[p]| && kids[p][m] == x;
        assert m != k;
        assert RemoveAt(kids[p], k)[if m < k then m else m - 1] == x;
      }
    }
  }

  /** What RemoveNode does to the tree, `chain` being the path to `result`, its last node: the
      unregistration of `id` from `result` and nothing else to the ids; `isModified` iff `id` was
      registered and `result` is left not live; only dead subtrees cut; the first `j` nodes of the
      chain still hanging and the one after them cut off; and the climb stopped at pathRoot or at
      the first subtree that is not dead, or else reached rootNode (`faulted`). */
  ghost predicate NodeRemoved(nodes: seq<PathTreeNode>, kids: seq<seq<int>>, ns: seq<PathTreeNode>, ks: seq<seq<int>>,
                              chain: seq<int>, segs: seq<string>, j: int, id: int, isModified: bool, faulted: bool)
    requires TreeOK(nodes, kids) && IsChain(nodes, kids, chain, segs) && chain != []
  {
    var result := chain[|chain| - 1];
    && |ns| == |nodes| && TreeOK(ns, ks)
    && ns[result].ids == UnregisterId(nodes[result], id).1.ids
    && (forall c :: 0 <= c < |ns| ==> ns[c].segment == nodes[c].segment && (c != result ==> ns[c].ids == nodes[c].ids))
    && (isModified <==> id in nodes[result].ids && !IsLive(ns[result]))
    && Pruned(ns, kids, ks)
    && 0 <= j <= |chain| && IsChain(ns, ks, chain[..j], segs)
    && (j < |chain| ==> chain[j] !in ks[Up(chain, j)])
    && ks == ClimbLists(kids, chain, j) && Detached(ns, chain, j)
    && (!isModified ==> j == |chain| && ks == kids)
    && (faulted ==> isModified && j == 0 && DeadSubtree(ns, ks, RootNode))
    && (isModified && !faulted ==> Up(chain, j) == PathRoot || !DeadSubtree(ns, ks, Up(chain, j)))
  }

  /** The end of the climb: deadness read with the final links is that of the tree after
      UnregisterId, so every cut is of a dead subtree of the final tree's ids. */
  lemma PruningEnds(nodes: seq<PathTreeNode>, kids: seq<seq<int>>, ns: seq<PathTreeNode>, ks: seq<seq<int>>,
                    chain: seq<int>, segs: seq<string>, j: int, id: int, isModified: bool, faulted: bool)
    requires TreeOK(nodes, kids) && IsChain(nodes, kids, chain, segs) && chain != []
    requires var r := chain[|chain| - 1];
      Pruning(nodes[r := UnregisterId(nodes[r], id).1], kids, ns, ks, chain, segs, j)
    requires var r := chain[|chain| - 1];
      isModified <==> id in nodes[r].ids && !IsLive(UnregisterId(nodes[r], id).1)
    requires !isModified ==> j == |chain| && ks == kids
    requires faulted ==> isModified && j == 0 && DeadSubtree(ns, ks, RootNode)
    requires isModified && !faulted ==> Up(chain, j) == PathRoot || !DeadSubtree(ns, ks, Up(chain, j))
    ensures NodeRemoved(nodes, kids, ns, ks, chain, segs, j, id, isModified, faulted)
  {
    var r := chain[|chain| - 1];
    var n1 := nodes[r := UnregisterId(nodes[r], id).1];
    forall n, i | 0 <= n < |kids| && 0 <= i < |kids[n]| && !DeadSubtree(ns, kids, kids[n][i])
      ensures kids[n][i] in ks[n]
    {
      DeadSubtreeFrame(n1, kids, ns, kids, kids[n][i]);
    }
  }

  /** The nodes of a chain, rootNode before them, strictly increase. */
  lemma ChainIncreasing(nodes: seq<PathTreeNode>, kids: seq<seq<int>>, chain: seq<int>, segs: seq<string>)
    requires Ranked(nodes, kids) && IsChain(nodes, kids, chain, segs)
    ensures forall i :: 0 <= i < |chain| ==> RootNode < chain[i]
    ensures forall h, i :: 0 <= h < i < |chain| ==> chain[h] < chain[i]
  {
    forall i | 0 <= i < |chain|
      ensures RootNode < chain[i] && forall h :: 0 <= h < i ==> chain[h] < chain[i]
    {
      ChainAscends(nodes, kids, chain, segs, i);
    }
  }

  /** What the cuts of the climb change: the list of the node before each cut node loses that
      node, and no other list changes. */
  lemma {:induction false} ClimbListsChanges(k1: seq<seq<int>>, chain: seq<int>, j: int)
    requires 0 <= j <= |chain| && forall h, i :: 0 <= h < i < |chain| ==> chain[h] < chain[i]
    requires forall i :: 0 <= i < |chain| ==> RootNode < chain[i] < |k1|
    ensures forall i :: j <= i < |chain| ==>
      0 <= Up(chain, i) < |k1| && ClimbLists(k1, chain, j)[Up(chain, i)] == Dropped(k1[Up(chain, i)], chain[i])
    ensures forall n :: 0 <= n < |k1| && (forall i :: j <= i < |chain| ==> n != Up(chain, i)) ==>
      ClimbLists(k1, chain, j)[n] == k1[n]
    decreases |chain| - j
  {
    if j < |chain| {
      ClimbListsChanges(k1, chain, j + 1);
      var p := Up(chain, j);
      assert RootNode < chain[0] < |k1|;
      forall i | j < i < |chain|
        ensures p < Up(chain, i)
      {
        if j > 0 { assert chain[j - 1] < chain[i - 1]; }
      }
      var l := ClimbLists(k1, chain, j + 1);
      assert l[p] == k1[p];
      assert ClimbLists(k1, chain, j) == l[p := Dropped(k1[p], chain[j])];
    }
  }

  /** RemoveNode's cuts, spelled out: each node of the chain from place `j` on left the list of
      the node before it and has no parent and no siblings left, and every other list is as it
      was. */
  lemma RemovedLists(nodes: seq<PathTreeNode>, kids: seq<seq<int>>, ns: seq<PathTreeNode>, ks: seq<seq<int>>,
                     chain: seq<int>, segs: seq<string>, j: int, id: int, isModified: bool, faulted: bool)
    requires TreeOK(nodes, kids) && IsChain(nodes, kids, chain, segs) && chain != []
    requires NodeRemoved(nodes, kids, ns, ks, chain, segs, j, id, isModified, faulted)
    ensures forall i :: j <= i < |chain| ==>
      0 <= Up(chain, i) < |kids| && ks[Up(chain, i)] == Dropped(kids[Up(chain, i)], chain[i])
    ensures forall n :: 0 <= n < |kids| && (forall i :: j <= i < |chain| ==> n != Up(chain, i)) ==> ks[n] == kids[n]
    ensures forall i :: j <= i < |chain| ==> ns[chain[i]].parent == Null && ns[chain[i]].previous == Null && ns[chain[i]].next == Null
  {
    ChainIncreasing(nodes, kids, chain, segs);
    ClimbListsChanges(kids, chain, j);
    DetachedAll(ns, chain, j);
  }

  /** A chain ends at a live node only through subtrees that are not dead. */
  lemma {:induction false} LiveBelow(nodes: seq<PathTreeNode>, kids: seq<seq<int>>, c: seq<int>, segs: seq<string>, i: int)
    requires Ranked(nodes, kids) && IsChain(nodes, kids, c, segs) && 0 <= i < |c| && IsLive(nodes[c[|c| - 1]])
    ensures !DeadSubtree(nodes, kids, c[i])
    decreases |c| - i
  {
    if i + 1 < |c| {
      LiveBelow(nodes, kids, c, segs, i + 1);
      assert ChainLink(kids, c, i);
      var m :| 0 <= m < |kids[c[i]]| && kids[c[i]][m] == c[i + 1];
    }
  }

  /** Pruning loses no registration: every path that led to a live node still does. */
  lemma LiveChainsSurvive(nodes: seq<PathTreeNode>, kids: seq<seq<int>>, ks: seq<seq<int>>, c: seq<int>, segs: seq<string>)
    requires Ranked(nodes, kids) && Pruned(nodes, kids, ks)
    requires IsChain(nodes, kids, c, segs) && c != [] && IsLive(nodes[c[|c| - 1]])
    ensures IsChain(nodes, ks, c, segs)
  {
    forall i | 0 <= i && i + 1 < |c|
      ensures ChainLink(ks, c, i)
    {
      assert ChainLink(kids, c, i);
      LiveBelow(nodes, kids, c, segs, i + 1);
      var m :| 0 <= m < |kids[c[i]]| && kids[c[i]][m] == c[i + 1];
    }
    LiveBelow(nodes, kids, c, segs, 0);
    var m :| 0 <= m < |kids[RootNode]| && kids[RootNode][m] == c[0];
  }

  // ----- what the operations promise together -----

  /** RemoveNode loses no other registration: every path that led to a node still live after
      the removal still leads to it. */
  lemma RemovalKeepsLive(nodes: seq<PathTreeNode>, kids: seq<seq<int>>, ns: seq<PathTreeNode>, ks: seq<seq<int>>,
                         chain: seq<int>, segs: seq<string>, j: int, id: int, isModified: bool, faulted: bool,
                         c: seq<int>, other: seq<string>)
    requires TreeOK(nodes, kids) && IsChain(nodes, kids, chain, segs) && chain != []
    requires NodeRemoved(nodes, kids, ns, ks, chain, segs, j, id, isModified, faulted)
    requires IsChain(nodes, kids, c, other) && c != [] && IsLive(ns[c[|c| - 1]])
    ensures IsChain(ns, ks, c, other)
  {
    assert IsChain(ns, kids, c, other);
    LiveChainsSurvive(ns, kids, ks, c, other);
  }

  /** After AddNode the path leads to the node AddNode returned, and to no other. */
  lemma AddedIsFound(nodes: seq<PathTreeNode>, kids: seq<seq<int>>, ns: seq<PathTreeNode>, ks: seq<seq<int>>,
                     segs: seq<string>, chain: seq<int>, node: int, id: int, isModified: bool)
    requires NodeAdded(nodes, kids, ns, ks, segs, chain, node, id, isModified) && TreeOK(ns, ks)
    ensures forall c :: IsChain(ns, ks, c, segs) && |c| == |segs| ==> c[|c| - 1] == node
  {
    forall c | IsChain(ns, ks, c, segs) && |c| == |segs|
      ensures c[|c| - 1] == node
    {
      ChainsAgree(ns, ks, c, chain, segs, |c|);
    }
  }

  /** RemoveNode of the path and id AddNode was given takes back the registration AddNode made,
      and reports a change exactly when AddNode did. */
  lemma AddThenRemove(n0: seq<PathTreeNode>, k0: seq<seq<int>>, n1: seq<PathTreeNode>, k1: seq<seq<int>>,
                      n2: seq<PathTreeNode>, k2: seq<seq<int>>, segs: seq<string>, chain: seq<int>, node: int,
                      id: int, added: bool, chain': seq<int>, j: int, removed: bool, faulted: bool)
    requires NodeAdded(n0, k0, n1, k1, segs, chain, node, id, added) && TreeOK(n1, k1)
    requires IsChain(n1, k1, chain', segs) && |chain'| == |segs|
    requires NodeRemoved(n1, k1, n2, k2, chain', segs, j, id, removed, faulted)
    ensures chain'[|chain'| - 1] == node
    ensures multiset(n2[node].ids) == if node < |n0| then multiset(n0[node].ids) else multiset{}
    ensures removed == added
  {
    AddedIsFound(n0, k0, n1, k1, segs, chain, node, id, added);
    var old0 := if node < |n0| then n0[node].ids else [];
    assert multiset(n2[node].ids) == multiset(old0);
    if node < |n0| {
      assert IsLive(n0[node]) <==> multiset(old0) != multiset{};
    }
    assert IsLive(n2[node]) <==> multiset(n2[node].ids) != multiset{};
  }
}
