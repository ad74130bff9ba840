/**
 * The tasks of a progress monitor (ProgressTask).  A monitor owns the tasks it began; they
 * are kept in an arena `tasks: seq<ProgressTask>` and refer to each other by index, `Null`
 * standing for a null reference.  A task is appended when it is begun, so a parent always has
 * a smaller index than its children, and the chain of ParentTask links from any task ends.
 */
module ProgressTasks {
  import opened Wrappers
  import opened Strings

  /** A null task reference. */
  const Null := -1

  /** StepWork's value when the task was not begun inside a step (HasStepWork is false). */
  const NoStepWork := -1

  /**
   * ProgressTask.  `currentWork` is the work reported by steps and completed children;
   * `completed` records that SetComplete ran (Progress became 1).
   */
  datatype ProgressTask = ProgressTask(
    name: Option<string>,
    totalWork: int,
    stepWork: int,
    parentTask: int,
    childrenTasks: seq<int>,
    currentWork: int,
    statusMessage: Option<string>,
    completed: bool)

  /** `new ProgressTask (monitor, name, totalWork)`: no parent, no children, no step work. */
  function NewTask(name: Option<string>, totalWork: int): ProgressTask
  {
    ProgressTask(name, totalWork, NoStepWork, Null, [], 0, None, false)
  }

  predicate HasStepWork(t: ProgressTask)
  {
    t.stepWork != NoStepWork
  }

  /** ProgressTask.Step: a message replaces the status message, and the work is added. */
  function TaskStep(t: ProgressTask, message: Option<string>, work: int): ProgressTask
  {
    t.(statusMessage := if message.Some? then message else t.statusMessage,
       currentWork := t.currentWork + work)
  }

  /** The work a completed child adds to its parent. */
  function ChildWork(child: ProgressTask): int
  {
    if HasStepWork(child) then child.stepWork else 0
  }

  // ----- the shape of the arena -----

  /** `t` is null or names a task of the arena. */
  ghost predicate Slot(tasks: seq<ProgressTask>, t: int)
  {
    t == Null || 0 <= t < |tasks|
  }

  /** Every parent precedes its children. */
  ghost predicate Ranked(tasks: seq<ProgressTask>)
  {
    forall t :: 0 <= t < |tasks| ==> tasks[t].parentTask == Null || 0 <= tasks[t].parentTask < t
  }

  /** Every listed child names its parent. */
  ghost predicate ChildrenLinked(tasks: seq<ProgressTask>)
  {
    forall p, i :: 0 <= p < |tasks| && 0 <= i < |tasks[p].childrenTasks| ==>
      0 <= tasks[p].childrenTasks[i] < |tasks| && tasks[tasks[p].childrenTasks[i]].parentTask == p
  }

  /** Every task with a parent is listed among its parent's children. */
  ghost predicate ParentsLinked(tasks: seq<ProgressTask>)
  {
    forall c :: 0 <= c < |tasks| && tasks[c].parentTask != Null ==>
      0 <= tasks[c].parentTask < |tasks| && c in tasks[tasks[c].parentTask].childrenTasks
  }

  /** No child is listed twice. */
  ghost predicate ChildrenDistinct(tasks: seq<ProgressTask>)
  {
    forall p :: 0 <= p < |tasks| ==> NoRepeats(tasks[p].childrenTasks)
  }

  ghost predicate TasksOK(tasks: seq<ProgressTask>)
  {
    Ranked(tasks) && ChildrenLinked(tasks) && ParentsLinked(tasks) && ChildrenDistinct(tasks)
  }

  /** Strictly ascending, hence without repeats. */
  ghost predicate Ascending(xs: seq<int>)
  {
    forall i, j :: 0 <= i < j < |xs| ==> xs[i] < xs[j]
  }

  /** Every element names a task of the arena. */
  ghost predicate InArena(tasks: seq<ProgressTask>, xs: seq<int>)
  {
    forall i :: 0 <= i < |xs| ==> 0 <= xs[i] < |tasks|
  }

  /** The chain of ParentTask links from `t`, outermost task first and `t` last. */
  ghost function Ancestors(tasks: seq<ProgressTask>, t: int): (r: seq<int>)
    requires Ranked(tasks) && Slot(tasks, t)
    ensures t == Null <==> r == []
    ensures t != Null ==> r[|r| - 1] == t
    ensures Ascending(r) && InArena(tasks, r)
    decreases t + 1
  {
    if t == Null then []
    else
      var up := Ancestors(tasks, tasks[t].parentTask);
      assert forall i :: 0 <= i < |up| ==> up[i] <= up[|up| - 1];
      up + [t]
  }

  /** The position of `x` in `xs`. */
  function IndexIn(xs: seq<int>, x: int): (r: nat)
    requires x in xs
    ensures r < |xs| && xs[r] == x && x !in xs[..r]
  {
    if xs[0] == x then 0
    else
      var k := IndexIn(xs[1..], x);
      assert xs[..k + 1] == [xs[0]] + xs[1..][..k];
      k + 1
  }

  /** In a strictly ascending sequence, the position of an element is the only one holding it. */
  lemma IndexInAscending(xs: seq<int>, i: int)
    requires Ascending(xs) && 0 <= i < |xs|
    ensures IndexIn(xs, xs[i]) == i
  {
    assert forall a :: 0 <= a < |xs| && a != i ==> xs[a] != xs[i] by {
      forall a | 0 <= a < |xs| && a != i ensures xs[a] != xs[i] {
        if a < i { assert xs[a] < xs[i]; } else { assert xs[i] < xs[a]; }
      }
    }
  }

  /** An element keeps its position when more elements follow. */
  lemma {:induction false} IndexInPrefix(xs: seq<int>, ys: seq<int>, x: int)
    requires x in xs
    ensures IndexIn(xs + ys, x) == IndexIn(xs, x)
  {
    if xs[0] != x {
      assert (xs + ys)[1..] == xs[1..] + ys;
      IndexInPrefix(xs[1..], ys, x);
    }
  }

  /** Ancestors depend only on the parent links of `t` and the tasks before it. */
  lemma {:induction false} AncestorsFrame(tasks: seq<ProgressTask>, tasks': seq<ProgressTask>, t: int)
    requires Ranked(tasks) && Ranked(tasks') && Slot(tasks, t) && |tasks| <= |tasks'|
    requires forall u :: 0 <= u < |tasks| && u <= t ==> tasks'[u].parentTask == tasks[u].parentTask
    ensures Ancestors(tasks', t) == Ancestors(tasks, t)
    decreases t + 1
  {
    if t != Null {
      AncestorsFrame(tasks, tasks', tasks[t].parentTask);
    }
  }

  /** Two arenas with the same tasks, linked the same way. */
  ghost predicate SameLinks(tasks: seq<ProgressTask>, tasks': seq<ProgressTask>)
  {
    && |tasks'| == |tasks|
    && forall u :: 0 <= u < |tasks| ==>
      tasks'[u].parentTask == tasks[u].parentTask && tasks'[u].childrenTasks == tasks[u].childrenTasks
  }

  /** A step changes no link: the arena stays well formed and every chain stays as it was. */
  lemma StepKeeps(tasks: seq<ProgressTask>, c: int, message: Option<string>, work: int)
    requires TasksOK(tasks) && 0 <= c < |tasks|
    ensures TasksOK(tasks[c := TaskStep(tasks[c], message, work)])
    ensures forall t :: Slot(tasks, t) ==> Ancestors(tasks[c := TaskStep(tasks[c], message, work)], t) == Ancestors(tasks, t)
  {
    var r := tasks[c := TaskStep(tasks[c], message, work)];
    assert SameLinks(tasks, r);
    LinksKeep(tasks, r);
  }

  /** Arenas linked the same way are equally well formed and have the same chains. */
  lemma LinksKeep(tasks: seq<ProgressTask>, r: seq<ProgressTask>)
    requires TasksOK(tasks) && SameLinks(tasks, r)
    ensures TasksOK(r)
    ensures forall t :: Slot(tasks, t) ==> Ancestors(r, t) == Ancestors(tasks, t)
  {
    assert Ranked(r);
    assert ChildrenLinked(r) by {
      forall q, i | 0 <= q < |r| && 0 <= i < |r[q].childrenTasks|
        ensures 0 <= r[q].childrenTasks[i] < |r| && r[r[q].childrenTasks[i]].parentTask == q
      {
        var k := tasks[q].childrenTasks[i];
        assert k == r[q].childrenTasks[i] && r[k].parentTask == tasks[k].parentTask;
      }
    }
    assert ParentsLinked(r) by {
      forall u | 0 <= u < |r| && r[u].parentTask != Null
        ensures 0 <= r[u].parentTask < |r| && u in r[r[u].parentTask].childrenTasks
      {
        var q := tasks[u].parentTask;
        assert r[q].childrenTasks == tasks[q].childrenTasks;
      }
    }
    assert ChildrenDistinct(r) by {
      forall q | 0 <= q < |r| ensures NoRepeats(r[q].childrenTasks) {
        assert r[q].childrenTasks == tasks[q].childrenTasks;
      }
    }
    forall t | Slot(tasks, t) ensures Ancestors(r, t) == Ancestors(tasks, t) {
      AncestorsFrame(tasks, r, t);
    }
  }

  // ----- the child list (ProgressTask.AddChild and SetChildComplete) -----

  /** ProgressTask.AddChild: `c` gets `p` as its parent and goes last among `p`'s children. */
  function AddChild(tasks: seq<ProgressTask>, p: int, c: int): (r: seq<ProgressTask>)
    requires 0 <= p < |tasks| && 0 <= c < |tasks| && p != c
    ensures |r| == |tasks|
  {
    tasks[c := tasks[c].(parentTask := p)][p := tasks[p].(childrenTasks := tasks[p].childrenTasks + [c])]
  }

  /** ProgressTask.SetChildComplete: `c` loses its parent `p`, which adds `c`'s step work and drops `c` from its children. */
  function SetChildComplete(tasks: seq<ProgressTask>, p: int, c: int): (r: seq<ProgressTask>)
    requires 0 <= p < |tasks| && 0 <= c < |tasks| && p != c
    ensures |r| == |tasks|
  {
    var child := tasks[c].(parentTask := Null);
    var parent := tasks[p];
    tasks[c := child][p := parent.(currentWork := parent.currentWork + ChildWork(child),
                                   childrenTasks := RemoveFirst(parent.childrenTasks, c))]
  }

  /** ProgressTask.SetComplete: all the task's work is done, and its parent is told. */
  function SetComplete(tasks: seq<ProgressTask>, t: int): (r: seq<ProgressTask>)
    requires 0 <= t < |tasks| && Slot(tasks, tasks[t].parentTask) && tasks[t].parentTask != t
    ensures |r| == |tasks|
    ensures r[t].completed && r[t].parentTask == Null && r[t].currentWork == tasks[t].totalWork
    ensures forall u :: 0 <= u < |tasks| && u != t ==>
      r[u].parentTask == tasks[u].parentTask && r[u].completed == tasks[u].completed
  {
    var done := tasks[t].(currentWork := tasks[t].totalWork, completed := true);
    var p := tasks[t].parentTask;
    if p == Null then tasks[t := done] else SetChildComplete(tasks[t := done], p, t)
  }

  /** No element is listed twice. */
  ghost predicate NoRepeats(xs: seq<int>)
  {
    forall i, j :: 0 <= i < j < |xs| ==> xs[i] != xs[j]
  }

  /** Removing an element from a list without repeats leaves the others, without repeats. */
  lemma {:induction false} RemoveDistinct(xs: seq<int>, x: int)
    requires NoRepeats(xs)
    ensures forall y :: y in RemoveFirst(xs, x) <==> y in xs && y != x
    ensures NoRepeats(RemoveFirst(xs, x))
  {
    if xs != [] {
      var tail := xs[1..];
      assert xs == [xs[0]] + tail;
      assert NoRepeats(tail) by {
        forall i, j | 0 <= i < j < |tail| ensures tail[i] != tail[j] {
          assert tail[i] == xs[i + 1] && tail[j] == xs[j + 1];
        }
      }
      assert xs[0] !in tail by {
        forall k | 0 <= k < |tail| ensures tail[k] != xs[0] {
          assert tail[k] == xs[k + 1];
        }
      }
      if xs[0] != x {
        RemoveDistinct(tail, x);
        var r := RemoveFirst(tail, x);
        assert RemoveFirst(xs, x) == [xs[0]] + r;
        assert NoRepeats([xs[0]] + r) by {
          forall i, j | 0 <= i < j < |r| + 1 ensures ([xs[0]] + r)[i] != ([xs[0]] + r)[j] {
            assert ([xs[0]] + r)[j] == r[j - 1];
            if i > 0 {
              assert ([xs[0]] + r)[i] == r[i - 1];
            } else {
              assert r[j - 1] in r;
            }
          }
        }
      } else {
        assert RemoveFirst(xs, x) == tail;
      }
    }
  }

  /** Removing the element just appended gives the list back. */
  lemma {:induction false} RemoveAppended(xs: seq<int>, x: int)
    requires x !in xs
    ensures RemoveFirst(xs + [x], x) == xs
  {
    if xs != [] {
      assert (xs + [x])[1..] == xs[1..] + [x];
      RemoveAppended(xs[1..], x);
      assert xs == [xs[0]] + xs[1..];
    }
  }

  // ----- what BeginTask and EndTask do to the arena -----

  /** A task begun with no current task: a new outermost task, the only one on its chain. */
  lemma PushRoot(tasks: seq<ProgressTask>, n: ProgressTask)
    requires TasksOK(tasks) && n.parentTask == Null && n.childrenTasks == []
    ensures TasksOK(tasks + [n])
    ensures Ancestors(tasks + [n], |tasks|) == [|tasks|]
  {
    AppendDetached(tasks, n);
    assert Ancestors(tasks + [n], |tasks|) == Ancestors(tasks + [n], Null) + [|tasks|];
  }

  /** Appending a task with no parent and no children keeps the arena well formed. */
  lemma AppendDetached(tasks: seq<ProgressTask>, n: ProgressTask)
    requires TasksOK(tasks) && n.parentTask == Null && n.childrenTasks == []
    ensures TasksOK(tasks + [n])
  {
    var r := tasks + [n];
    assert Ranked(r) by {
      forall t | 0 <= t < |r| ensures r[t].parentTask == Null || 0 <= r[t].parentTask < t {
        if t < |tasks| { assert r[t] == tasks[t]; }
      }
    }
    assert ChildrenLinked(r) by {
      forall q, i | 0 <= q < |r| && 0 <= i < |r[q].childrenTasks|
        ensures 0 <= r[q].childrenTasks[i] < |r| && r[r[q].childrenTasks[i]].parentTask == q
      {
        assert q < |tasks| && r[q] == tasks[q];
        assert r[tasks[q].childrenTasks[i]] == tasks[tasks[q].childrenTasks[i]];
      }
    }
    assert ParentsLinked(r) by {
      forall c | 0 <= c < |r| && r[c].parentTask != Null
        ensures 0 <= r[c].parentTask < |r| && c in r[r[c].parentTask].childrenTasks
      {
        assert c < |tasks| && r[c] == tasks[c];
        assert r[tasks[c].parentTask] == tasks[tasks[c].parentTask];
      }
    }
    assert ChildrenDistinct(r) by {
      forall q | 0 <= q < |r| ensures NoRepeats(r[q].childrenTasks) {
        if q < |tasks| { assert r[q] == tasks[q]; }
      }
    }
  }

  /** A task begun under `p`: its chain is `p`'s chain with the new task on top. */
  lemma PushChild(tasks: seq<ProgressTask>, n: ProgressTask, p: int)
    requires TasksOK(tasks) && n.parentTask == Null && n.childrenTasks == [] && 0 <= p < |tasks|
    ensures TasksOK(AddChild(tasks + [n], p, |tasks|))
    ensures Ancestors(AddChild(tasks + [n], p, |tasks|), |tasks|) == Ancestors(tasks, p) + [|tasks|]
  {
    var c := |tasks|;
    var r := AddChild(tasks + [n], p, c);
    assert Ranked(r) by {
      forall t | 0 <= t < |r| ensures r[t].parentTask == Null || 0 <= r[t].parentTask < t {
        if t < c { assert r[t].parentTask == tasks[t].parentTask; }
      }
    }
    PushChildLinks(tasks, n, p, r);
    PushChildDistinct(tasks, n, p, r);
    AncestorsFrame(tasks, r, p);
  }

  /** After AddChild of a new task, children and parents still name each other. */
  lemma PushChildLinks(tasks: seq<ProgressTask>, n: ProgressTask, p: int, r: seq<ProgressTask>)
    requires ChildrenLinked(tasks) && ParentsLinked(tasks) && n.childrenTasks == [] && 0 <= p < |tasks|
    requires r == AddChild(tasks + [n], p, |tasks|)
    ensures ChildrenLinked(r) && ParentsLinked(r)
  {
    var c := |tasks|;
    assert r[p] == tasks[p].(childrenTasks := tasks[p].childrenTasks + [c]);
    assert r[c] == n.(parentTask := p);
    forall q, i | 0 <= q < |r| && 0 <= i < |r[q].childrenTasks|
      ensures 0 <= r[q].childrenTasks[i] < |r| && r[r[q].childrenTasks[i]].parentTask == q
    {
      if q != p || i < |tasks[p].childrenTasks| {
        assert q < c && r[q].childrenTasks[i] == tasks[q].childrenTasks[i];
        var k := tasks[q].childrenTasks[i];
        assert k < c && r[k].parentTask == tasks[k].parentTask;
      }
    }
    forall u | 0 <= u < |r| && r[u].parentTask != Null
      ensures 0 <= r[u].parentTask < |r| && u in r[r[u].parentTask].childrenTasks
    {
      if u != c {
        var q := tasks[u].parentTask;
        assert r[u].parentTask == q && u in tasks[q].childrenTasks;
        assert tasks[q].childrenTasks <= r[q].childrenTasks;
      }
    }
  }

  /** After AddChild of a new task, no child list repeats. */
  lemma PushChildDistinct(tasks: seq<ProgressTask>, n: ProgressTask, p: int, r: seq<ProgressTask>)
    requires ChildrenLinked(tasks) && ChildrenDistinct(tasks) && n.childrenTasks == [] && 0 <= p < |tasks|
    requires r == AddChild(tasks + [n], p, |tasks|)
    ensures ChildrenDistinct(r)
  {
    var c := |tasks|;
    forall q | 0 <= q < |r| ensures NoRepeats(r[q].childrenTasks) {
      if q == p {
        var xs := tasks[p].childrenTasks;
        assert r[q].childrenTasks == xs + [c];
        assert NoRepeats(xs);
        forall i, j | 0 <= i < j < |xs| + 1 ensures (xs + [c])[i] != (xs + [c])[j] {
          if j == |xs| {
            assert (xs + [c])[i] == xs[i] < c;
          } else {
            assert (xs + [c])[i] == xs[i] && (xs + [c])[j] == xs[j];
          }
        }
      } else if q < c {
        assert r[q] == tasks[q];
      }
    }
  }

  /** What SetComplete leaves at each index: `t` completed and orphaned, its parent credited and without it. */
  lemma CompleteShape(tasks: seq<ProgressTask>, t: int)
    requires 0 <= t < |tasks| && Slot(tasks, tasks[t].parentTask) && tasks[t].parentTask != t
    ensures var r, p := SetComplete(tasks, t), tasks[t].parentTask;
      && r[t] == tasks[t].(currentWork := tasks[t].totalWork, completed := true, parentTask := Null)
      && (p != Null ==> r[p] == tasks[p].(currentWork := tasks[p].currentWork + ChildWork(tasks[t]),
                                          childrenTasks := RemoveFirst(tasks[p].childrenTasks, t)))
      && forall u :: 0 <= u < |tasks| && u != t && u != p ==> r[u] == tasks[u]
  {
    var done := tasks[t].(currentWork := tasks[t].totalWork, completed := true);
    var p := tasks[t].parentTask;
    var r := SetComplete(tasks, t);
    if p != Null {
      var s := tasks[t := done];
      var child := done.(parentTask := Null);
      var parent := tasks[p].(currentWork := tasks[p].currentWork + ChildWork(child),
                              childrenTasks := RemoveFirst(tasks[p].childrenTasks, t));
      assert s[p] == tasks[p];
      assert r == s[t := child][p := parent];
      assert ChildWork(child) == ChildWork(tasks[t]);
      assert r[t] == child && r[p] == parent;
      forall u | 0 <= u < |tasks| && u != t && u != p ensures r[u] == tasks[u] {
        assert r[u] == s[u];
      }
    } else {
      assert r == tasks[t := done];
    }
  }

  /** Completing the task `t` keeps the arena well formed, drops `t` from its parent's children and leaves the parent's chain alone. */
  lemma CompleteKeeps(tasks: seq<ProgressTask>, t: int)
    requires TasksOK(tasks) && 0 <= t < |tasks|
    ensures TasksOK(SetComplete(tasks, t))
    ensures tasks[t].parentTask != Null ==> t !in SetComplete(tasks, t)[tasks[t].parentTask].childrenTasks
    ensures Ancestors(SetComplete(tasks, t), tasks[t].parentTask) == Ancestors(tasks, tasks[t].parentTask)
  {
    var r := SetComplete(tasks, t);
    var p := tasks[t].parentTask;
    if p != Null {
      CompleteShape(tasks, t);
      RemoveDistinct(tasks[p].childrenTasks, t);
    }
    assert Ranked(r);
    CompleteChildren(tasks, t, r);
    CompleteParents(tasks, t, r);
    AncestorsFrame(tasks, r, p);
  }

  /** After SetComplete, every task with a parent is still listed by it, and no list repeats. */
  lemma CompleteParents(tasks: seq<ProgressTask>, t: int, r: seq<ProgressTask>)
    requires TasksOK(tasks) && 0 <= t < |tasks| && r == SetComplete(tasks, t)
    requires tasks[t].parentTask != Null ==>
      && (forall y :: y in r[tasks[t].parentTask].childrenTasks <==> y in tasks[tasks[t].parentTask].childrenTasks && y != t)
      && NoRepeats(r[tasks[t].parentTask].childrenTasks)
    ensures ParentsLinked(r) && ChildrenDistinct(r)
  {
    CompleteShape(tasks, t);
    forall u | 0 <= u < |r| && r[u].parentTask != Null
      ensures 0 <= r[u].parentTask < |r| && u in r[r[u].parentTask].childrenTasks
    {
      var q := tasks[u].parentTask;
      assert u != t && r[u].parentTask == q && u in tasks[q].childrenTasks;
    }
    forall q | 0 <= q < |r| ensures NoRepeats(r[q].childrenTasks) {
      assert NoRepeats(tasks[q].childrenTasks);
    }
  }

  /** After SetComplete, every listed child still names its parent. */
  lemma CompleteChildren(tasks: seq<ProgressTask>, t: int, r: seq<ProgressTask>)
    requires TasksOK(tasks) && 0 <= t < |tasks| && r == SetComplete(tasks, t)
    requires tasks[t].parentTask != Null ==>
      forall y :: y in r[tasks[t].parentTask].childrenTasks <==> y in tasks[tasks[t].parentTask].childrenTasks && y != t
    ensures ChildrenLinked(r)
  {
    var p := tasks[t].parentTask;
    CompleteShape(tasks, t);
    forall q, i | 0 <= q < |r| && 0 <= i < |r[q].childrenTasks|
      ensures 0 <= r[q].childrenTasks[i] < |r| && r[r[q].childrenTasks[i]].parentTask == q
    {
      var k := r[q].childrenTasks[i];
      if q == p {
        assert k in tasks[p].childrenTasks && k != t;
        var i' :| 0 <= i' < |tasks[p].childrenTasks| && tasks[p].childrenTasks[i'] == k;
        assert tasks[k].parentTask == p;
      } else {
        assert k == tasks[q].childrenTasks[i];
        assert tasks[k].parentTask == q;
      }
    }
  }

  /**
   * Beginning a task under `p` and completing it gives back the arena, with the new task
   * completed at its end and `p` credited with the task's step work.
   */
  lemma BeginEndRestores(tasks: seq<ProgressTask>, n: ProgressTask, p: int)
    requires TasksOK(tasks) && n.parentTask == Null && n.childrenTasks == [] && 0 <= p < |tasks|
    ensures var r := SetComplete(AddChild(tasks + [n], p, |tasks|), |tasks|);
      && |r| == |tasks| + 1
      && r[..|tasks|] == tasks[p := tasks[p].(currentWork := tasks[p].currentWork + ChildWork(n))]
      && r[|tasks|] == n.(currentWork := n.totalWork, completed := true)
  {
    assert forall i :: 0 <= i < |tasks[p].childrenTasks| ==> tasks[p].childrenTasks[i] < |tasks|;
    BeginEndOnList(tasks, n, p);
  }

  /** BeginEndRestores, for any arena where the new task is not yet listed under `p`. */
  lemma BeginEndOnList(tasks: seq<ProgressTask>, n: ProgressTask, p: int)
    requires 0 <= p < |tasks| && |tasks| !in tasks[p].childrenTasks
    ensures var r := SetComplete(AddChild(tasks + [n], p, |tasks|), |tasks|);
      && |r| == |tasks| + 1
      && r[..|tasks|] == tasks[p := tasks[p].(currentWork := tasks[p].currentWork + ChildWork(n))]
      && r[|tasks|] == n.(currentWork := n.totalWork, completed := true, parentTask := Null)
  {
    var c := |tasks|;
    var g := AddChild(tasks + [n], p, c);
    assert g[c] == n.(parentTask := p);
    assert g[p] == tasks[p].(childrenTasks := tasks[p].childrenTasks + [c]);
    var r := SetComplete(g, c);
    CompleteShape(g, c);
    RemoveAppended(tasks[p].childrenTasks, c);
    assert ChildWork(g[c]) == ChildWork(n);
    var credited := tasks[p].(currentWork := tasks[p].currentWork + ChildWork(n));
    assert r[p] == credited;
    forall u | 0 <= u < c ensures r[u] == tasks[p := credited][u] {
      if u != p {
        assert r[u] == g[u] == tasks[u];
      }
    }
    assert r[..c] == tasks[p := credited];
  }
}
