/**
 * The two edits PathTree makes to the links of its nodes, InsertNode's and RemoveNode's,
 * described on the arena, with the proofs that each keeps the tree invariant.
 */
module PathTreeEdits {
  import opened Strings
  import opened PathTreeNodes

  /** A node no child list holds: it has no parent. */
  lemma DetachedInNoList(nodes: seq<PathTreeNode>, kids: seq<seq<int>>, x: int)
    requires TreeOK(nodes, kids) && 0 <= x < |nodes| && nodes[x].parent == Null
    ensures forall q, i :: 0 <= q < |nodes| && 0 <= i < |kids[q]| ==> kids[q][i] != x
  {
    forall q, i | 0 <= q < |nodes| && 0 <= i < |kids[q]|
      ensures kids[q][i] != x
    {
      assert ChildListOK(nodes, kids, q);
    }
  }

  /** The child list of `p` with `x` put at place `at`. */
  function InsertAt(ks: seq<int>, at: int, x: int): (r: seq<int>)
    requires 0 <= at <= |ks|
    ensures |r| == |ks| + 1 && r[at] == x
    ensures forall i :: 0 <= i < at ==> r[i] == ks[i]
    ensures forall i :: at < i < |r| ==> r[i] == ks[i - 1]
  {
    ks[..at] + [x] + ks[at..]
  }

  /** Inserting keeps every member of the list in it. */
  lemma InsertAtKeeps(ks: seq<int>, at: int, x: int)
    requires 0 <= at <= |ks|
    ensures forall y :: y in ks ==> y in InsertAt(ks, at, x)
  {
    forall y | y in ks
      ensures y in InsertAt(ks, at, x)
    {
      var i :| 0 <= i < |ks| && ks[i] == y;
      assert InsertAt(ks, at, x)[if i < at then i else i + 1] == ks[i];
    }
  }

  /** The arena after InsertNode has linked the detached node `x` into the child list of `p` at
      place `at`: the neighbours there are the nodes before and after that place. */
  ghost predicate Inserted(nodes: seq<PathTreeNode>, kids: seq<seq<int>>, ns: seq<PathTreeNode>, x: int, p: int, at: int)
    requires Ranked(nodes, kids) && 0 <= p < |nodes| && 0 <= at <= |kids[p]|
  {
    var ks := kids[p];
    LinkedIn(nodes, ns, x, p, if at == 0 then Null else ks[at - 1], if at < |ks| then ks[at] else Null)
  }

  /** `ns` is `nodes` with `x` linked below `p` between `prev` and `nxt`, a null `prev` meaning
      the head of the list: `p` counts one more child and, then, is headed by `x`; `x` points to
      `p` and to its neighbours, and they point back to `x`. */
  ghost predicate LinkedIn(nodes: seq<PathTreeNode>, ns: seq<PathTreeNode>, x: int, p: int, prev: int, nxt: int)
  {
    && |ns| == |nodes| && 0 <= p < |nodes| && 0 <= x < |nodes|
    && (prev == Null || 0 <= prev < |nodes|) && (nxt == Null || 0 <= nxt < |nodes|)
    && ns[p] == nodes[p].(childrenCount := nodes[p].childrenCount + 1,
                          firstChild := if prev == Null then x else nodes[p].firstChild)
    && ns[x] == nodes[x].(parent := p, previous := prev, next := nxt)
    && (prev != Null ==> ns[prev] == nodes[prev].(next := x))
    && (nxt != Null ==> ns[nxt] == nodes[nxt].(previous := x))
    && forall n :: 0 <= n < |nodes| && n != p && n != x && n != prev && n != nxt ==> ns[n] == nodes[n]
  }

  /** InsertNode's pointer updates: `x` goes below `p` after `previousNode`, or at the head of the
      list when that is null; `nxt` is the node that was there, which the updates read from the
      head link of `p` or the Next of `previousNode`. */
  method Link(nodes: seq<PathTreeNode>, x: int, p: int, previousNode: int, ghost nxt: int) returns (ns: seq<PathTreeNode>)
    requires 0 <= p < |nodes| && 0 <= x < |nodes| && p != x && nodes[x].previous == Null
    requires previousNode == Null || (0 <= previousNode < |nodes| && previousNode != p && previousNode != x)
    requires nxt == Null || (0 <= nxt < |nodes| && nxt != p && nxt != x && nxt != previousNode)
    requires previousNode == Null ==> nodes[p].firstChild == nxt
    requires previousNode != Null ==> nodes[previousNode].next == nxt
    ensures LinkedIn(nodes, ns, x, p, previousNode, nxt)
  {
    ns := nodes;
    ns := ns[p := ns[p].(childrenCount := ns[p].childrenCount + 1)];
    ns := ns[x := ns[x].(parent := p)];
    if previousNode == Null {
      var insertBefore := ns[p].firstChild;
      ns := ns[x := ns[x].(next := insertBefore)];
      if insertBefore != Null {
        ns := ns[insertBefore := ns[insertBefore].(previous := x)];
      }
      ns := ns[p := ns[p].(firstChild := x)];
      return;
    }
    var next := ns[previousNode].next;
    ns := ns[previousNode := ns[previousNode].(next := x)];
    ns := ns[x := ns[x].(previous := previousNode)];
    ns := ns[x := ns[x].(next := next)];
    if next != Null {
      ns := ns[next := ns[next].(previous := x)];
    }
  }

  /** What InsertNode may assume and does: `x` is detached and comes after `p`, its segment
      belongs at place `at` of the list of `p`, and `ns` is the arena with `x` linked there. */
  ghost predicate InsertStep(nodes: seq<PathTreeNode>, kids: seq<seq<int>>, ns: seq<PathTreeNode>, x: int, p: int, at: int)
  {
    && TreeOK(nodes, kids) && 0 <= p < x < |nodes| && 0 <= at <= |kids[p]|
    && nodes[x].parent == Null && nodes[x].next == Null && nodes[x].previous == Null
    && GapAt(nodes, kids, p, at, if at == 0 then Null else kids[p][at - 1], nodes[x].segment)
    && Inserted(nodes, kids, ns, x, p, at)
  }

  /** Linking a detached node into the place its segment belongs keeps the tree invariant. */
  lemma InsertKeepsTree(nodes: seq<PathTreeNode>, kids: seq<seq<int>>, ns: seq<PathTreeNode>, x: int, p: int, at: int)
    requires InsertStep(nodes, kids, ns, x, p, at)
    ensures TreeOK(ns, kids[p := InsertAt(kids[p], at, x)])
  {
    var kids' := kids[p := InsertAt(kids[p], at, x)];
    InsertFacts(nodes, kids, ns, x, p, at);
    forall n | 0 <= n < |ns| && n != p
      ensures ChildListOK(ns, kids', n)
    {
      InsertKeepsOtherList(nodes, kids, ns, x, p, at, n);
    }
    InsertLinksList(nodes, kids, ns, x, p, at);
    InsertSortsList(nodes, kids, ns, x, p, at);
    InsertKeepsParents(nodes, kids, ns, x, p, at, kids');
    if p == RootNode {
      assert at > 0;
      assert kids'[RootNode][0] == PathRoot;
    }
  }

  /** What every part of the proof uses: the new arena is ranked, `x` was in no list, and the
      segments, ids and (but for x's) parents are those of the old arena. */
  lemma InsertFacts(nodes: seq<PathTreeNode>, kids: seq<seq<int>>, ns: seq<PathTreeNode>, x: int, p: int, at: int)
    requires InsertStep(nodes, kids, ns, x, p, at)
    ensures Ranked(ns, kids[p := InsertAt(kids[p], at, x)])
    ensures forall q, i :: 0 <= q < |nodes| && 0 <= i < |kids[q]| ==> kids[q][i] != x
    ensures forall c :: 0 <= c < |ns| ==> ns[c].segment == nodes[c].segment && ns[c].ids == nodes[c].ids
    ensures forall c :: 0 <= c < |ns| && c != x ==> ns[c].parent == nodes[c].parent
  {
    DetachedInNoList(nodes, kids, x);
  }

  lemma InsertKeepsOtherList(nodes: seq<PathTreeNode>, kids: seq<seq<int>>, ns: seq<PathTreeNode>, x: int, p: int, at: int, n: int)
    requires InsertStep(nodes, kids, ns, x, p, at) && 0 <= n < |nodes| && n != p
    ensures Ranked(ns, kids[p := InsertAt(kids[p], at, x)])
    ensures ChildListOK(ns, kids[p := InsertAt(kids[p], at, x)], n)
  {
    var ks := kids[p];
    var prev := if at == 0 then Null else ks[at - 1];
    var nxt := if at < |ks| then ks[at] else Null;
    InsertFacts(nodes, kids, ns, x, p, at);
    assert ChildListOK(nodes, kids, n) && ChildListOK(nodes, kids, p);
    forall i | 0 <= i < |kids[n]|
      ensures SameLinks(ns[kids[n][i]], nodes[kids[n][i]])
    {
      var c := kids[n][i];
      assert nodes[c].parent == n;
      if prev != Null { assert nodes[prev].parent == p; }
      if nxt != Null { assert nodes[nxt].parent == p; }
    }
    ChildListFrame(nodes, kids, ns, kids[p := InsertAt(kids[p], at, x)], n);
  }

  /** The links of the list of `p` with `x` in it. */
  lemma InsertLinksList(nodes: seq<PathTreeNode>, kids: seq<seq<int>>, ns: seq<PathTreeNode>, x: int, p: int, at: int)
    requires InsertStep(nodes, kids, ns, x, p, at)
    ensures var ks' := InsertAt(kids[p], at, x);
      && ns[p].childrenCount == |ks'| && ns[p].firstChild == ks'[0]
      && (forall i :: 0 <= i < |ks'| ==> ns[ks'[i]].parent == p)
      && ns[ks'[0]].previous == Null && ns[ks'[|ks'| - 1]].next == Null
      && (forall i :: 0 <= i && i + 1 < |ks'| ==> Linked(ns, ks', i))
  {
    var ks := kids[p];
    var ks' := InsertAt(ks, at, x);
    InsertFacts(nodes, kids, ns, x, p, at);
    assert ChildListOK(nodes, kids, p);
    forall i | 0 <= i < |ks'|
      ensures ns[ks'[i]].parent == p
    {
      if i != at {
        var c := if i < at then ks[i] else ks[i - 1];
        assert ks'[i] == c && nodes[c].parent == p;
      }
    }
    forall i | 0 <= i && i + 1 < |ks'|
      ensures Linked(ns, ks', i)
    {
      InsertLinkPair(nodes, kids, ns, x, p, at, i);
    }
    InsertEnds(nodes, kids, ns, x, p, at);
  }

  /** Neighbours `i` and `i + 1` of the list with `x` in it link to each other. */
  lemma InsertLinkPair(nodes: seq<PathTreeNode>, kids: seq<seq<int>>, ns: seq<PathTreeNode>, x: int, p: int, at: int, i: int)
    requires InsertStep(nodes, kids, ns, x, p, at) && 0 <= i && i + 1 <= |kids[p]|
    ensures Linked(ns, InsertAt(kids[p], at, x), i)
  {
    var ks := kids[p];
    var ks' := InsertAt(ks, at, x);
    var j := i + 1;
    InsertFacts(nodes, kids, ns, x, p, at);
    assert ChildListOK(nodes, kids, p);
    if j < at {
      assert ks'[i] == ks[i] && ks'[j] == ks[j];
      InsertedAt(nodes, kids, ns, x, p, at, i);
      InsertedAt(nodes, kids, ns, x, p, at, j);
      assert Linked(nodes, ks, i);
    } else if i > at {
      assert ks'[i] == ks[i - 1] && ks'[j] == ks[j - 1];
      InsertedAt(nodes, kids, ns, x, p, at, i - 1);
      InsertedAt(nodes, kids, ns, x, p, at, j - 1);
      assert Linked(nodes, ks, i - 1);
    } else if j == at {
      assert ks'[i] == ks[at - 1] && ks'[j] == x;
      InsertedAt(nodes, kids, ns, x, p, at, i);
    } else {
      assert ks'[i] == x;
      if at < |ks| {
        assert ks'[j] == ks[at];
        InsertedAt(nodes, kids, ns, x, p, at, at);
      }
    }
  }

  /** A member of the list of `p` changes only the link that now leads to `x`. */
  lemma InsertedAt(nodes: seq<PathTreeNode>, kids: seq<seq<int>>, ns: seq<PathTreeNode>, x: int, p: int, at: int, i: int)
    requires InsertStep(nodes, kids, ns, x, p, at) && 0 <= i < |kids[p]|
    ensures var ks := kids[p];
      ns[ks[i]] == if i == at - 1 then nodes[ks[i]].(next := x)
                   else if i == at then nodes[ks[i]].(previous := x)
                   else nodes[ks[i]]
  {
    var ks := kids[p];
    assert ChildListOK(nodes, kids, p);
    assert ks[i] > p;
    DetachedInNoList(nodes, kids, x);
    if at > 0 && i != at - 1 { ChildrenDistinct(nodes, kids, p, i, at - 1); }
    if at < |ks| && i != at { ChildrenDistinct(nodes, kids, p, i, at); }
    if at > 0 && at < |ks| { ChildrenDistinct(nodes, kids, p, at - 1, at); }
  }

  /** The list with `x` in it has no node before its head and none after its last. */
  lemma InsertEnds(nodes: seq<PathTreeNode>, kids: seq<seq<int>>, ns: seq<PathTreeNode>, x: int, p: int, at: int)
    requires InsertStep(nodes, kids, ns, x, p, at)
    ensures var ks' := InsertAt(kids[p], at, x);
      ns[ks'[0]].previous == Null && ns[ks'[|ks'| - 1]].next == Null
  {
    var ks := kids[p];
    var ks' := InsertAt(ks, at, x);
    assert ChildListOK(nodes, kids, p);
    if at != 0 {
      assert ks'[0] == ks[0];
      InsertedAt(nodes, kids, ns, x, p, at, 0);
    }
    if at != |ks| {
      assert ks'[|ks'| - 1] == ks[|ks| - 1];
      InsertedAt(nodes, kids, ns, x, p, at, |ks| - 1);
    }
  }

  /** The list of `p` with `x` in it ascends. */
  lemma InsertSortsList(nodes: seq<PathTreeNode>, kids: seq<seq<int>>, ns: seq<PathTreeNode>, x: int, p: int, at: int)
    requires InsertStep(nodes, kids, ns, x, p, at)
    ensures var ks' := InsertAt(kids[p], at, x);
      forall i, j :: 0 <= i < j < |ks'| ==> Ascending(ns, ks', i, j)
  {
    var ks := kids[p];
    var ks' := InsertAt(ks, at, x);
    InsertFacts(nodes, kids, ns, x, p, at);
    assert ChildListOK(nodes, kids, p);
    forall i, j | 0 <= i < j < |ks'|
      ensures Ascending(ns, ks', i, j)
    {
      if j < at || i > at {
        var i0 := if i < at then i else i - 1;
        var j0 := if j < at then j else j - 1;
        assert ks'[i] == ks[i0] && ks'[j] == ks[j0];
        assert Ascending(nodes, ks, i0, j0);
      } else if i < at && at < j {
        assert ks'[i] == ks[i] && ks'[j] == ks[j - 1];
        assert Ascending(nodes, ks, i, j - 1);
      }
    }
  }

  /** Every node stays in the list of its parent, `x` now in that of `p`. */
  lemma InsertKeepsParents(nodes: seq<PathTreeNode>, kids: seq<seq<int>>, ns: seq<PathTreeNode>, x: int, p: int, at: int,
                            kids': seq<seq<int>>)
    requires InsertStep(nodes, kids, ns, x, p, at) && kids' == kids[p := InsertAt(kids[p], at, x)]
    ensures forall c :: 0 <= c < |ns| ==> ParentOK(ns, kids', c)
  {
    forall c | 0 <= c < |ns|
      ensures ParentOK(ns, kids', c)
    {
      InsertKeepsParent(nodes, kids, ns, x, p, at, kids', c);
    }
  }

  lemma InsertKeepsParent(nodes: seq<PathTreeNode>, kids: seq<seq<int>>, ns: seq<PathTreeNode>, x: int, p: int, at: int,
                          kids': seq<seq<int>>, c: int)
    requires InsertStep(nodes, kids, ns, x, p, at) && kids' == kids[p := InsertAt(kids[p], at, x)] && 0 <= c < |ns|
    ensures ParentOK(ns, kids', c)
  {
    var ks := kids[p];
    InsertFacts(nodes, kids, ns, x, p, at);
    assert ParentOK(nodes, kids, c);
    if c == x {
      assert InsertAt(ks, at, x)[at] == x;
    } else if nodes[c].parent == p {
      var i :| 0 <= i < |ks| && ks[i] == c;
      assert InsertAt(ks, at, x)[if i < at then i else i + 1] == c;
    } else if nodes[c].parent != Null {
      assert kids'[nodes[c].parent] == kids[nodes[c].parent];
    }
  }

  /** The child list `ks` without its element at place `k`. */
  function RemoveAt(ks: seq<int>, k: int): (r: seq<int>)
    requires 0 <= k < |ks|
    ensures |r| == |ks| - 1
    ensures forall i :: 0 <= i < k ==> r[i] == ks[i]
    ensures forall i :: k <= i < |r| ==> r[i] == ks[i + 1]
  {
    ks[..k] + ks[k + 1..]
  }

  /** The child list `ks` without `x`. */
  function Dropped(ks: seq<int>, x: int): (r: seq<int>)
    ensures |r| <= |ks| && forall y :: y in r <==> y in ks && y != x
  {
    if ks == [] then [] else (if ks[0] == x then [] else [ks[0]]) + Dropped(ks[1..], x)
  }

  /** In a list without repeats, taking out the element at place `k` drops that element. */
  lemma {:induction false} RemoveAtDropped(ks: seq<int>, k: int)
    requires 0 <= k < |ks| && forall i :: 0 <= i < |ks| && i != k ==> ks[i] != ks[k]
    ensures RemoveAt(ks, k) == Dropped(ks, ks[k])
  {
    if k == 0 {
      DroppedAbsent(ks[1..], ks[0]);
    } else {
      RemoveAtDropped(ks[1..], k - 1);
      assert RemoveAt(ks, k) == [ks[0]] + RemoveAt(ks[1..], k - 1);
    }
  }

  /** Dropping what a list does not hold leaves it as it is. */
  lemma {:induction false} DroppedAbsent(ks: seq<int>, x: int)
    requires x !in ks
    ensures Dropped(ks, x) == ks
  {
    if ks != [] {
      DroppedAbsent(ks[1..], x);
    }
  }

  /** `after` is the child list `before` with `x` put in at one place. */
  ghost predicate GainedOne(before: seq<int>, after: seq<int>, x: int)
  {
    exists at :: 0 <= at <= |before| && after == InsertAt(before, at, x)
  }

  /** The arena after RemoveNode has unlinked the child at place `k` of `p`. */
  ghost predicate Unlinked(nodes: seq<PathTreeNode>, kids: seq<seq<int>>, ns: seq<PathTreeNode>, p: int, k: int)
    requires Ranked(nodes, kids) && 0 <= p < |nodes| && 0 <= k < |kids[p]|
  {
    var ks := kids[p];
    CutOut(nodes, ns, ks[k], p, if k == 0 then Null else ks[k - 1], if k + 1 < |ks| then ks[k + 1] else Null)
  }

  /** `ns` is `nodes` with `x` cut out from between `prev` and `nxt` below `p`, a null `prev`
      meaning the head of the list: `p` counts one child less and, then, is headed by `nxt`; the
      neighbours point to each other, and `x` has no parent and no siblings left. */
  ghost predicate CutOut(nodes: seq<PathTreeNode>, ns: seq<PathTreeNode>, x: int, p: int, prev: int, nxt: int)
  {
    && |ns| == |nodes| && 0 <= p < |nodes| && 0 <= x < |nodes|
    && (prev == Null || 0 <= prev < |nodes|) && (nxt == Null || 0 <= nxt < |nodes|)
    && ns[p] == nodes[p].(childrenCount := nodes[p].childrenCount - 1,
                          firstChild := if prev == Null then nxt else nodes[p].firstChild)
    && ns[x] == nodes[x].(parent := Null, previous := Null, next := Null)
    && (prev != Null ==> ns[prev] == nodes[prev].(next := nxt))
    && (nxt != Null ==> ns[nxt] == nodes[nxt].(previous := prev))
    && forall n :: 0 <= n < |nodes| && n != p && n != x && n != prev && n != nxt ==> ns[n] == nodes[n]
  }

  /** RemoveNode's pointer updates for one node `x` below `p`: the count, the head link when `x`
      heads the list, the links of its neighbours, and its own links. */
  method Cut(nodes: seq<PathTreeNode>, x: int, p: int) returns (ns: seq<PathTreeNode>)
    requires 0 <= p < |nodes| && 0 <= x < |nodes| && p != x
    requires var prev := nodes[x].previous;
      prev == Null || (0 <= prev < |nodes| && prev != p && prev != x)
    requires var nxt := nodes[x].next;
      nxt == Null || (0 <= nxt < |nodes| && nxt != p && nxt != x && nxt != nodes[x].previous)
    requires nodes[p].firstChild == x <==> nodes[x].previous == Null
    ensures CutOut(nodes, ns, x, p, nodes[x].previous, nodes[x].next)
  {
    ns := nodes;
    ns := ns[p := ns[p].(childrenCount := ns[p].childrenCount - 1)];
    if ns[p].firstChild == x {
      ns := ns[p := ns[p].(firstChild := ns[x].next)];
    }
    if ns[x].previous != Null {
      ns := ns[ns[x].previous := ns[ns[x].previous].(next := ns[x].next)];
    }
    if ns[x].next != Null {
      ns := ns[ns[x].next := ns[ns[x].next].(previous := ns[x].previous)];
    }
    ns := ns[x := ns[x].(next := Null)];
    ns := ns[x := ns[x].(previous := Null)];
    ns := ns[x := ns[x].(parent := Null)];
  }

  /** The child at place `k` of `p` meets what Cut asks of it, and its links name its neighbours. */
  lemma CutReady(nodes: seq<PathTreeNode>, kids: seq<seq<int>>, p: int, k: int)
    requires TreeOK(nodes, kids) && 0 <= p < |nodes| && 0 <= k < |kids[p]|
    ensures var ks := kids[p];
      var x := ks[k];
      && p != x && x < |nodes|
      && nodes[x].previous == (if k == 0 then Null else ks[k - 1])
      && nodes[x].next == (if k + 1 < |ks| then ks[k + 1] else Null)
      && (k > 0 ==> ks[k - 1] != p && ks[k - 1] != x)
      && (k + 1 < |ks| ==> ks[k + 1] != p && ks[k + 1] != x && (k > 0 ==> ks[k + 1] != ks[k - 1]))
      && (nodes[p].firstChild == x <==> k == 0)
  {
    var ks := kids[p];
    assert ChildListOK(nodes, kids, p);
    NextSibling(nodes, kids, p, k);
    if k > 0 {
      assert Linked(nodes, ks, k - 1);
      ChildrenDistinct(nodes, kids, p, k - 1, k);
      ChildrenDistinct(nodes, kids, p, 0, k);
    }
    if k + 1 < |ks| {
      ChildrenDistinct(nodes, kids, p, k + 1, k);
      if k > 0 {
        ChildrenDistinct(nodes, kids, p, k + 1, k - 1);
      }
    }
  }

  /** What the unlinking step of RemoveNode may assume and does: `x`, which is not pathRoot, is
      the child at place `k` of `p`, and `ns` is the arena with it unlinked. */
  ghost predicate UnlinkStep(nodes: seq<PathTreeNode>, kids: seq<seq<int>>, ns: seq<PathTreeNode>, p: int, k: int)
  {
    && TreeOK(nodes, kids) && 0 <= p < |nodes| && 0 <= k < |kids[p]| && kids[p][k] != PathRoot
    && Unlinked(nodes, kids, ns, p, k)
  }

  /** Unlinking a child, with its subtree, keeps the tree invariant. */
  lemma UnlinkKeepsTree(nodes: seq<PathTreeNode>, kids: seq<seq<int>>, ns: seq<PathTreeNode>, p: int, k: int)
    requires UnlinkStep(nodes, kids, ns, p, k)
    ensures TreeOK(ns, kids[p := RemoveAt(kids[p], k)])
  {
    var ks := kids[p];
    var kids' := kids[p := RemoveAt(ks, k)];
    UnlinkFacts(nodes, kids, ns, p, k);
    forall n | 0 <= n < |ns| && n != p
      ensures ChildListOK(ns, kids', n)
    {
      UnlinkKeepsOtherList(nodes, kids, ns, p, k, n);
    }
    UnlinkLinksList(nodes, kids, ns, p, k);
    UnlinkSortsList(nodes, kids, ns, p, k);
    assert ChildListOK(ns, kids', p);
    UnlinkKeepsParents(nodes, kids, ns, p, k, kids');
    if p == RootNode {
      assert k > 0;
      assert kids'[RootNode][0] == PathRoot;
    }
  }

  lemma UnlinkFacts(nodes: seq<PathTreeNode>, kids: seq<seq<int>>, ns: seq<PathTreeNode>, p: int, k: int)
    requires UnlinkStep(nodes, kids, ns, p, k)
    ensures Ranked(ns, kids[p := RemoveAt(kids[p], k)])
    ensures forall c :: 0 <= c < |ns| ==> ns[c].segment == nodes[c].segment && ns[c].ids == nodes[c].ids
    ensures forall c :: 0 <= c < |ns| && c != kids[p][k] ==> ns[c].parent == nodes[c].parent
  {
  }

  lemma UnlinkKeepsOtherList(nodes: seq<PathTreeNode>, kids: seq<seq<int>>, ns: seq<PathTreeNode>, p: int, k: int, n: int)
    requires UnlinkStep(nodes, kids, ns, p, k) && 0 <= n < |nodes| && n != p
    ensures Ranked(ns, kids[p := RemoveAt(kids[p], k)])
    ensures ChildListOK(ns, kids[p := RemoveAt(kids[p], k)], n)
  {
    var ks := kids[p];
    var prev := if k == 0 then Null else ks[k - 1];
    var nxt := if k + 1 < |ks| then ks[k + 1] else Null;
    UnlinkFacts(nodes, kids, ns, p, k);
    assert ChildListOK(nodes, kids, n) && ChildListOK(nodes, kids, p);
    forall i | 0 <= i < |kids[n]|
      ensures SameLinks(ns[kids[n][i]], nodes[kids[n][i]])
    {
      var c := kids[n][i];
      assert nodes[c].parent == n && nodes[ks[k]].parent == p;
      if prev != Null { assert nodes[prev].parent == p; }
      if nxt != Null { assert nodes[nxt].parent == p; }
    }
    ChildListFrame(nodes, kids, ns, kids[p := RemoveAt(kids[p], k)], n);
  }

  /** The list of `p` without `x` keeps its links, its order and its count. */
  lemma UnlinkLinksList(nodes: seq<PathTreeNode>, kids: seq<seq<int>>, ns: seq<PathTreeNode>, p: int, k: int)
    requires UnlinkStep(nodes, kids, ns, p, k)
    ensures var ks' := RemoveAt(kids[p], k);
      && ns[p].childrenCount == |ks'| && ns[p].firstChild == (if ks' == [] then Null else ks'[0])
      && (forall i :: 0 <= i < |ks'| ==> ns[ks'[i]].parent == p)
      && (ks' != [] ==> ns[ks'[0]].previous == Null && ns[ks'[|ks'| - 1]].next == Null)
      && (forall i :: 0 <= i && i + 1 < |ks'| ==> Linked(ns, ks', i))
  {
    var ks := kids[p];
    var ks' := RemoveAt(ks, k);
    UnlinkFacts(nodes, kids, ns, p, k);
    assert ChildListOK(nodes, kids, p);
    forall i | 0 <= i < |ks'|
      ensures ns[ks'[i]].parent == p
    {
      var i0 := if i < k then i else i + 1;
      ChildrenDistinct(nodes, kids, p, i0, k);
      assert ks'[i] == ks[i0] && nodes[ks[i0]].parent == p;
    }
    forall i | 0 <= i && i + 1 < |ks'|
      ensures Linked(ns, ks', i)
    {
      UnlinkLinkPair(nodes, kids, ns, p, k, i);
    }
    if ks' != [] {
      UnlinkEnds(nodes, kids, ns, p, k);
    }
  }

  /** The list of `p` without `x` still ascends. */
  lemma UnlinkSortsList(nodes: seq<PathTreeNode>, kids: seq<seq<int>>, ns: seq<PathTreeNode>, p: int, k: int)
    requires UnlinkStep(nodes, kids, ns, p, k)
    ensures var ks' := RemoveAt(kids[p], k);
      forall i, j :: 0 <= i < j < |ks'| ==> Ascending(ns, ks', i, j)
  {
    var ks := kids[p];
    var ks' := RemoveAt(ks, k);
    UnlinkFacts(nodes, kids, ns, p, k);
    assert ChildListOK(nodes, kids, p);
    forall i, j | 0 <= i < j < |ks'|
      ensures Ascending(ns, ks', i, j)
    {
      var i0 := if i < k then i else i + 1;
      var j0 := if j < k then j else j + 1;
      assert ks'[i] == ks[i0] && ks'[j] == ks[j0];
      assert Ascending(nodes, ks, i0, j0);
    }
  }

  /** Neighbours `i` and `i + 1` of the list without `x` link to each other. */
  lemma UnlinkLinkPair(nodes: seq<PathTreeNode>, kids: seq<seq<int>>, ns: seq<PathTreeNode>, p: int, k: int, i: int)
    requires UnlinkStep(nodes, kids, ns, p, k) && 0 <= i && i + 2 < |kids[p]|
    ensures Linked(ns, RemoveAt(kids[p], k), i)
  {
    var ks := kids[p];
    var ks' := RemoveAt(ks, k);
    var j := i + 1;
    var i0 := if i < k then i else i + 1;
    var j0 := if j < k then j else j + 1;
    assert ks'[i] == ks[i0] && ks'[j] == ks[j0];
    UnlinkedAt(nodes, kids, ns, p, k, i0);
    UnlinkedAt(nodes, kids, ns, p, k, j0);
    assert ChildListOK(nodes, kids, p);
    if j0 == i0 + 1 {
      assert Linked(nodes, ks, i0);
    }
  }

  /** A sibling of `x` in the list of `p` changes only the link that led to `x`. */
  lemma UnlinkedAt(nodes: seq<PathTreeNode>, kids: seq<seq<int>>, ns: seq<PathTreeNode>, p: int, k: int, i: int)
    requires UnlinkStep(nodes, kids, ns, p, k) && 0 <= i < |kids[p]| && i != k
    ensures var ks := kids[p];
      ns[ks[i]] == if i == k - 1 then nodes[ks[i]].(next := if k + 1 < |ks| then ks[k + 1] else Null)
                   else if i == k + 1 then nodes[ks[i]].(previous := if k == 0 then Null else ks[k - 1])
                   else nodes[ks[i]]
  {
    var ks := kids[p];
    assert ChildListOK(nodes, kids, p);
    assert ks[i] > p;
    ChildrenDistinct(nodes, kids, p, i, k);
    if k > 0 && i != k - 1 { ChildrenDistinct(nodes, kids, p, i, k - 1); }
    if k + 1 < |ks| && i != k + 1 { ChildrenDistinct(nodes, kids, p, i, k + 1); }
    if k > 0 && k + 1 < |ks| { ChildrenDistinct(nodes, kids, p, k - 1, k + 1); }
  }

  /** The list without `x` has no node before its head and none after its last. */
  lemma UnlinkEnds(nodes: seq<PathTreeNode>, kids: seq<seq<int>>, ns: seq<PathTreeNode>, p: int, k: int)
    requires UnlinkStep(nodes, kids, ns, p, k) && |kids[p]| > 1
    ensures var ks' := RemoveAt(kids[p], k);
      ns[ks'[0]].previous == Null && ns[ks'[|ks'| - 1]].next == Null
  {
    var ks := kids[p];
    var ks' := RemoveAt(ks, k);
    var last := |ks| - 1;
    assert ChildListOK(nodes, kids, p);
    var f := if k == 0 then 1 else 0;
    var l := if k == last then last - 1 else last;
    assert ks'[0] == ks[f] && ks'[|ks'| - 1] == ks[l];
    UnlinkedAt(nodes, kids, ns, p, k, f);
    UnlinkedAt(nodes, kids, ns, p, k, l);
  }

  /** Every node but `x` stays in the list of its parent; `x` has none. */
  lemma UnlinkKeepsParents(nodes: seq<PathTreeNode>, kids: seq<seq<int>>, ns: seq<PathTreeNode>, p: int, k: int,
                           kids': seq<seq<int>>)
    requires UnlinkStep(nodes, kids, ns, p, k) && kids' == kids[p := RemoveAt(kids[p], k)]
    ensures forall c :: 0 <= c < |ns| ==> ParentOK(ns, kids', c)
  {
    forall c | 0 <= c < |ns|
      ensures ParentOK(ns, kids', c)
    {
      UnlinkKeepsParent(nodes, kids, ns, p, k, kids', c);
    }
  }

  lemma UnlinkKeepsParent(nodes: seq<PathTreeNode>, kids: seq<seq<int>>, ns: seq<PathTreeNode>, p: int, k: int,
                          kids': seq<seq<int>>, c: int)
    requires UnlinkStep(nodes, kids, ns, p, k) && kids' == kids[p := RemoveAt(kids[p], k)] && 0 <= c < |ns|
    ensures ParentOK(ns, kids', c)
  {
    var ks := kids[p];
    assert ParentOK(nodes, kids, c);
    if c == ks[k] {
      assert ns[c].parent == Null;
    } else {
      assert ns[c].parent == nodes[c].parent;
      if nodes[c].parent == p {
        var i :| 0 <= i < |ks| && ks[i] == c;
        assert i != k;
        assert RemoveAt(ks, k)[if i < k then i else i - 1] == c;
      } else if nodes[c].parent != Null {
        assert kids'[nodes[c].parent] == kids[nodes[c].parent];
      }
    }
  }

  /** The nodes CreateSubTree makes for the segments `segs`, at handles `base` on: each is the
      only child of the one before it, the first has no parent yet and none is live. */
  function SubTreeNodes(base: int, segs: seq<string>): (r: seq<PathTreeNode>)
    ensures |r| == |segs|
    ensures forall i :: 0 <= i < |r| ==> r[i].segment == segs[i] && !IsLive(r[i])
  {
    seq(|segs|, i requires 0 <= i < |segs| =>
      PathTreeNode(segs[i], if i == 0 then Null else base + i - 1,
                   if i + 1 < |segs| then base + i + 1 else Null, Null, Null,
                   if i + 1 < |segs| then 1 else 0, []))
  }

  /** The child lists of the nodes SubTreeNodes makes. */
  ghost function SubTreeKids(base: int, m: nat): (r: seq<seq<int>>)
    ensures |r| == m
  {
    seq(m, i requires 0 <= i < m => if i + 1 < m then [base + i + 1] else [])
  }

  /** Appending a subtree keeps the tree invariant. */
  lemma AppendKeepsTree(nodes: seq<PathTreeNode>, kids: seq<seq<int>>, segs: seq<string>)
    requires TreeOK(nodes, kids) && segs != []
    ensures TreeOK(nodes + SubTreeNodes(|nodes|, segs), kids + SubTreeKids(|nodes|, |segs|))
  {
    var ns := nodes + SubTreeNodes(|nodes|, segs);
    var ks := kids + SubTreeKids(|nodes|, |segs|);
    AppendRanked(nodes, kids, segs);
    forall n | 0 <= n < |ns|
      ensures ChildListOK(ns, ks, n)
    {
      AppendKeepsList(nodes, kids, segs, n);
    }
    forall c | 0 <= c < |ns|
      ensures ParentOK(ns, ks, c)
    {
      AppendKeepsParent(nodes, kids, segs, c);
    }
  }

  /** The appended nodes each have their one child just after them. */
  lemma AppendRanked(nodes: seq<PathTreeNode>, kids: seq<seq<int>>, segs: seq<string>)
    requires Ranked(nodes, kids)
    ensures Ranked(nodes + SubTreeNodes(|nodes|, segs), kids + SubTreeKids(|nodes|, |segs|))
  {
  }

  /** Every child list of the grown arena is intact: the old ones are untouched and each new one
      holds the next new node. */
  lemma AppendKeepsList(nodes: seq<PathTreeNode>, kids: seq<seq<int>>, segs: seq<string>, n: int)
    requires TreeOK(nodes, kids) && segs != [] && 0 <= n < |nodes| + |segs|
    requires Ranked(nodes + SubTreeNodes(|nodes|, segs), kids + SubTreeKids(|nodes|, |segs|))
    ensures ChildListOK(nodes + SubTreeNodes(|nodes|, segs), kids + SubTreeKids(|nodes|, |segs|), n)
  {
    var base := |nodes|;
    var ns := nodes + SubTreeNodes(base, segs);
    var ks := kids + SubTreeKids(base, |segs|);
    if n < base {
      assert ChildListOK(nodes, kids, n);
      forall i | 0 <= i < |kids[n]|
        ensures SameLinks(ns[kids[n][i]], nodes[kids[n][i]])
      {
      }
      ChildListFrame(nodes, kids, ns, ks, n);
    } else {
      var i := n - base;
      if i + 1 < |segs| {
        assert ks[n] == [n + 1];
        assert ns[n + 1].parent == n;
      } else {
        assert ks[n] == [];
      }
    }
  }

  /** Every node of the grown arena is in the list of its parent, or has none. */
  lemma AppendKeepsParent(nodes: seq<PathTreeNode>, kids: seq<seq<int>>, segs: seq<string>, c: int)
    requires TreeOK(nodes, kids) && segs != [] && 0 <= c < |nodes| + |segs|
    ensures ParentOK(nodes + SubTreeNodes(|nodes|, segs), kids + SubTreeKids(|nodes|, |segs|), c)
  {
    var base := |nodes|;
    var ks := kids + SubTreeKids(base, |segs|);
    if c < base {
      assert ParentOK(nodes, kids, c);
    } else if c > base {
      assert ks[c - 1] == [c];
    }
  }

  /** The handles base, base + 1, ..., base + m - 1. */
  function Handles(base: int, m: nat): (r: seq<int>)
    ensures |r| == m && forall i :: 0 <= i < m ==> r[i] == base + i
  {
    seq(m, i requires 0 <= i < m => base + i)
  }

  /** What a chain that stopped at a gap needs, to go on through a subtree made for the rest of
      the segments and hung below its last node: `ns` and `ks` are the arena and the child lists
      after that, which keep the segments and the children of the old nodes. */
  ghost predicate SubTreeHung(nodes: seq<PathTreeNode>, kids: seq<seq<int>>, ns: seq<PathTreeNode>, ks: seq<seq<int>>,
                              chain: seq<int>, segs: seq<string>)
  {
    && |kids| == |nodes| && |ks| == |ns| == |nodes| + |segs| - |chain|
    && IsChain(nodes, kids, chain, segs) && |chain| < |segs|
    && (forall n :: 0 <= n < |nodes| ==> ns[n].segment == nodes[n].segment)
    && (forall n, x :: 0 <= n < |nodes| && x in kids[n] ==> x in ks[n])
    && (forall n :: |nodes| <= n < |ns| ==> ns[n].segment == segs[|chain| + n - |nodes|])
    && (forall n :: |nodes| <= n && n + 1 < |ns| ==> n + 1 in ks[n])
    && |nodes| in ks[Up(chain, |chain|)]
  }

  /** Such a chain, continued through the subtree, matches all the segments. */
  lemma ChainThroughSubTree(nodes: seq<PathTreeNode>, kids: seq<seq<int>>, ns: seq<PathTreeNode>, ks: seq<seq<int>>,
                            chain: seq<int>, segs: seq<string>)
    requires SubTreeHung(nodes, kids, ns, ks, chain, segs)
    ensures IsChain(ns, ks, chain + Handles(|nodes|, |segs| - |chain|), segs)
  {
    var base := |nodes|;
    var c := chain + Handles(base, |segs| - |chain|);
    forall i | 0 <= i < |c|
      ensures 0 <= c[i] < |ns| && ns[c[i]].segment == segs[i]
    {
      if i < |chain| { assert c[i] == chain[i]; } else { assert c[i] == base + i - |chain|; }
    }
    forall i | 0 <= i && i + 1 < |c|
      ensures ChainLink(ks, c, i)
    {
      SubTreeLink(nodes, kids, ns, ks, chain, segs, i);
    }
    if chain == [] {
      assert c[0] == base;
    } else {
      assert c[0] == chain[0];
    }
  }

  lemma SubTreeLink(nodes: seq<PathTreeNode>, kids: seq<seq<int>>, ns: seq<PathTreeNode>, ks: seq<seq<int>>,
                    chain: seq<int>, segs: seq<string>, i: int)
    requires SubTreeHung(nodes, kids, ns, ks, chain, segs) && 0 <= i && i + 1 < |segs|
    ensures ChainLink(ks, chain + Handles(|nodes|, |segs| - |chain|), i)
  {
    var base := |nodes|;
    var c := chain + Handles(base, |segs| - |chain|);
    var j := i + 1;
    if j < |chain| {
      assert ChainLink(kids, chain, i);
      assert c[i] == chain[i] && c[j] == chain[j];
    } else if j == |chain| {
      assert c[i] == Up(chain, |chain|) && c[j] == base;
    } else {
      assert c[i] == base + i - |chain| && c[j] == c[i] + 1;
    }
  }

  /** Where a segment belongs among the children of `p` depends only on that list and the
      segments of its members. */
  lemma GapAtFrame(nodes: seq<PathTreeNode>, kids: seq<seq<int>>, ns: seq<PathTreeNode>, ks: seq<seq<int>>,
                   p: int, at: int, previous: int, s: string)
    requires Ranked(nodes, kids) && Ranked(ns, ks) && 0 <= p < |nodes| <= |ns| && ks[p] == kids[p]
    requires forall n :: 0 <= n < |nodes| ==> ns[n].segment == nodes[n].segment
    requires GapAt(nodes, kids, p, at, previous, s)
    ensures GapAt(ns, ks, p, at, previous, s)
  {
    forall i | 0 <= i < |kids[p]|
      ensures ns[kids[p][i]].segment == nodes[kids[p][i]].segment
    {
    }
  }

  /** The arena after a subtree for `segs` is appended and `id` registered on its leaf. */
  ghost function Grown(nodes: seq<PathTreeNode>, segs: seq<string>, id: int): (r: seq<PathTreeNode>)
    requires segs != []
    ensures |r| == |nodes| + |segs|
  {
    var ns := nodes + SubTreeNodes(|nodes|, segs);
    ns[|ns| - 1 := RegisterId(ns[|ns| - 1], id)]
  }

  /** Such an arena is still a tree, and the top of the subtree is ready to be inserted at the
      gap the chain stopped at. */
  lemma GrownReady(nodes: seq<PathTreeNode>, kids: seq<seq<int>>, segs: seq<string>, id: int,
                   p: int, at: int, previous: int)
    requires TreeOK(nodes, kids) && segs != [] && 0 <= p < |nodes|
    requires GapAt(nodes, kids, p, at, previous, segs[0])
    ensures var ns, ks := Grown(nodes, segs, id), kids + SubTreeKids(|nodes|, |segs|);
      && TreeOK(ns, ks) && |nodes| < |ns| && 0 <= at <= |ks[p]|
      && ns[|nodes|].parent == Null && ns[|nodes|].next == Null && ns[|nodes|].previous == Null
      && GapAt(ns, ks, p, at, previous, ns[|nodes|].segment)
  {
    var n1, ks := nodes + SubTreeNodes(|nodes|, segs), kids + SubTreeKids(|nodes|, |segs|);
    AppendKeepsTree(nodes, kids, segs);
    var leaf := |n1| - 1;
    TreeIgnoresIds(n1, ks, leaf, RegisterId(n1[leaf], id).ids);
    var ns := Grown(nodes, segs, id);
    assert ns == n1[leaf := n1[leaf].(ids := RegisterId(n1[leaf], id).ids)];
    assert ns[|nodes|].segment == segs[0];
    GapAtFrame(nodes, kids, ns, ks, p, at, previous, segs[0]);
  }

  /** `ns` and `ks` are the arena and the child lists after the grown arena's subtree has been
      inserted at place `at` of the list of the last node of `chain`, a chain stopped at a gap;
      the insertion keeps every segment and every id. */
  ghost predicate GrownInserted(nodes: seq<PathTreeNode>, kids: seq<seq<int>>, ns: seq<PathTreeNode>, ks: seq<seq<int>>,
                                chain: seq<int>, segs: seq<string>, id: int, at: int)
  {
    && |kids| == |nodes| && IsChain(nodes, kids, chain, segs) && |chain| < |segs|
    && 0 <= Up(chain, |chain|) < |nodes|
    && var n1, k1 := Grown(nodes, segs[|chain|..], id), kids + SubTreeKids(|nodes|, |segs| - |chain|);
      && 0 <= at <= |k1[Up(chain, |chain|)]|
      && ks == k1[Up(chain, |chain|) := InsertAt(k1[Up(chain, |chain|)], at, |nodes|)]
      && |ns| == |n1| && forall c :: 0 <= c < |ns| ==> ns[c].segment == n1[c].segment && ns[c].ids == n1[c].ids
  }

  /** After that subtree is inserted below the last node of a chain stopped at a gap, the chain
      goes on through it to the leaf, which holds `id` alone, and the old nodes keep their
      segments, their ids and their children. */
  lemma GrownHung(nodes: seq<PathTreeNode>, kids: seq<seq<int>>, ns: seq<PathTreeNode>, ks: seq<seq<int>>,
                  chain: seq<int>, segs: seq<string>, id: int, at: int, c: seq<int>, leaf: int)
    requires GrownInserted(nodes, kids, ns, ks, chain, segs, id, at)
    requires c == chain + Handles(|nodes|, |segs| - |chain|) && leaf == |ns| - 1
    ensures SubTreeAdded(nodes, kids, ns, ks, c, segs, leaf, id)
  {
    GrownKeepsChildren(nodes, kids, ns, ks, chain, segs, id, at);
    GrownIds(nodes, kids, ns, ks, chain, segs, id, at);
    ChainThroughSubTree(nodes, kids, ns, ks, chain, segs);
    var h := Handles(|nodes|, |segs| - |chain|);
    assert c[|segs| - 1] == h[|segs| - |chain| - 1];
    var p := Up(chain, |chain|);
    var k1 := kids + SubTreeKids(|nodes|, |segs| - |chain|);
    assert Up(c, |chain|) == p && c[|chain|] == h[0] == |nodes|;
    assert k1[p] == kids[p];
    assert ks[p] == InsertAt(kids[p], at, |nodes|);
    forall n | 0 <= n < |kids| && n != p
      ensures ks[n] == kids[n]
    {
      assert k1[n] == kids[n];
    }
  }

  /** The old nodes keep their children, and the chain can go on through the subtree. */
  lemma GrownKeepsChildren(nodes: seq<PathTreeNode>, kids: seq<seq<int>>, ns: seq<PathTreeNode>, ks: seq<seq<int>>,
                           chain: seq<int>, segs: seq<string>, id: int, at: int)
    requires GrownInserted(nodes, kids, ns, ks, chain, segs, id, at)
    ensures SubTreeHung(nodes, kids, ns, ks, chain, segs)
  {
    var rest := segs[|chain|..];
    var p := Up(chain, |chain|);
    var n1 := Grown(nodes, rest, id);
    var k1 := kids + SubTreeKids(|nodes|, |rest|);
    InsertAtKeeps(k1[p], at, |nodes|);
    forall n, x | 0 <= n < |nodes| && x in kids[n]
      ensures x in ks[n]
    {
      assert k1[n] == kids[n];
    }
    forall n | |nodes| <= n && n + 1 < |ns|
      ensures n + 1 in ks[n]
    {
      assert ks[n] == k1[n] == [n + 1];
    }
    assert |nodes| == InsertAt(k1[p], at, |nodes|)[at];
    forall n | |nodes| <= n < |ns|
      ensures ns[n].segment == segs[|chain| + n - |nodes|]
    {
      assert ns[n].segment == n1[n].segment == rest[n - |nodes|];
    }
  }

  /** The leaf holds `id` alone, the other new nodes nothing, and the old nodes their ids. */
  lemma GrownIds(nodes: seq<PathTreeNode>, kids: seq<seq<int>>, ns: seq<PathTreeNode>, ks: seq<seq<int>>,
                 chain: seq<int>, segs: seq<string>, id: int, at: int)
    requires GrownInserted(nodes, kids, ns, ks, chain, segs, id, at)
    ensures |ns| == |nodes| + |segs| - |chain| && ns[|ns| - 1].ids == [id]
    ensures forall n :: 0 <= n < |ns| && n != |ns| - 1 ==> ns[n].ids == (if n < |nodes| then nodes[n].ids else [])
  {
  }

  /** Of the old child lists only that of the node before place `g` of `chain` changed: it gained
      `x`, the head of the new subtree, which is the chain's node at place `g`. */
  ghost predicate GapFilled(kids: seq<seq<int>>, ks: seq<seq<int>>, chain: seq<int>, g: int, x: int)
  {
    && 0 <= g < |chain| && chain[g] == x && 0 <= Up(chain, g) < |kids| <= |ks|
    && GainedOne(kids[Up(chain, g)], ks[Up(chain, g)], x)
    && forall n :: 0 <= n < |kids| && n != Up(chain, g) ==> ks[n] == kids[n]
  }

  /** What adding the path `segs` leaves, when its last `|segs| - k` segments are new nodes from
      `|nodes|` on: the whole path is matched by `chain`, down to `leaf`, the last node, which
      holds `id` alone; the other nodes keep their ids (the new ones have none), the old ones
      their segments and their children. */
  ghost predicate SubTreeAdded(nodes: seq<PathTreeNode>, kids: seq<seq<int>>, ns: seq<PathTreeNode>, ks: seq<seq<int>>,
                               chain: seq<int>, segs: seq<string>, leaf: int, id: int)
  {
    && |kids| == |nodes| && |ks| == |ns|
    && IsChain(ns, ks, chain, segs) && |chain| == |segs| > 0 && leaf == chain[|chain| - 1]
    && |nodes| <= leaf == |ns| - 1 && ns[leaf].ids == [id]
    && (forall n :: 0 <= n < |ns| && n != leaf ==> ns[n].ids == (if n < |nodes| then nodes[n].ids else []))
    && (forall n :: 0 <= n < |nodes| ==> ns[n].segment == nodes[n].segment)
    && (forall n, x :: 0 <= n < |nodes| && x in kids[n] ==> x in ks[n])
    && GapFilled(kids, ks, chain, |segs| - (|ns| - |nodes|), |nodes|)
  }

  /** What AddNode of the path `segs` and `id` leaves, `isModified` being its flag: the whole path
      is matched by `chain`, down to `node`, which is live and holds one more `id`; `node` is an
      old node exactly when the path was in the tree already, and `isModified` says that it is new
      or was dead.  The other nodes keep their ids (new ones have none), the old ones their
      segments and their children. */
  ghost predicate NodeAdded(nodes: seq<PathTreeNode>, kids: seq<seq<int>>, ns: seq<PathTreeNode>, ks: seq<seq<int>>,
                            segs: seq<string>, chain: seq<int>, node: int, id: int, isModified: bool)
  {
    && |kids| == |nodes| && |ks| == |ns| && |nodes| <= |ns|
    && IsChain(ns, ks, chain, segs) && |chain| == |segs| > 0 && node == chain[|chain| - 1]
    && 0 <= node < |ns| && IsLive(ns[node])
    && (node < |nodes| ==> IsChain(nodes, kids, chain, segs))
    && (node >= |nodes| ==> forall c :: IsChain(nodes, kids, c, segs) ==> |c| < |segs|)
    && (isModified <==> node >= |nodes| || !IsLive(nodes[node]))
    && multiset(ns[node].ids) == (if node < |nodes| then multiset(nodes[node].ids) else multiset{}) + multiset{id}
    && (forall n :: 0 <= n < |ns| && n != node ==> ns[n].ids == (if n < |nodes| then nodes[n].ids else []))
    && (forall n :: 0 <= n < |nodes| ==> ns[n].segment == nodes[n].segment)
    && (forall n, x :: 0 <= n < |nodes| && x in kids[n] ==> x in ks[n])
    && (node < |nodes| ==> ks == kids)
    && (node >= |nodes| ==> GapFilled(kids, ks, chain, |segs| - (|ns| - |nodes|), |nodes|))
  }

  /** AddNode on a path the tree holds registers `id` on its node and changes nothing else. */
  lemma ExistingAdded(nodes: seq<PathTreeNode>, kids: seq<seq<int>>, segs: seq<string>, chain: seq<int>, node: int, id: int)
    requires |kids| == |nodes| && IsChain(nodes, kids, chain, segs) && |chain| == |segs| > 0 && node == chain[|chain| - 1]
    ensures NodeAdded(nodes, kids, nodes[node := RegisterId(nodes[node], id)], kids, segs, chain, node, id, !IsLive(nodes[node]))
  {
    var ns := nodes[node := RegisterId(nodes[node], id)];
    forall i | 0 <= i < |chain|
      ensures 0 <= chain[i] < |ns| && ns[chain[i]].segment == segs[i]
    {
    }
  }

  /** AddNode on a path the tree holds only part of hangs a new subtree, whose leaf is its node. */
  lemma MissingAdded(nodes: seq<PathTreeNode>, kids: seq<seq<int>>, ns: seq<PathTreeNode>, ks: seq<seq<int>>,
                     segs: seq<string>, chain: seq<int>, leaf: int, id: int)
    requires SubTreeAdded(nodes, kids, ns, ks, chain, segs, leaf, id)
    requires forall c :: IsChain(nodes, kids, c, segs) ==> |c| < |segs|
    ensures NodeAdded(nodes, kids, ns, ks, segs, chain, leaf, id, true)
  {
  }
}
