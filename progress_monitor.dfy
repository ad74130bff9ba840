/**
 * ProgressMonitor on its sequential path (no SynchronizationContext, no follower monitors):
 * the stack of tasks begun and not yet ended, the step work announced by BeginStep, the log
 * a sub-monitor caches for its parent, and the errors reported.
 *
 * The monitor's tasks live in the arena of module ProgressTasks.  The stack is the chain of
 * ParentTask links from currentTask.  A monitor made by BeginAsyncStep holds a stand-in for
 * the parent monitor's current task, at index 0: that is its parentRootTask, which EndTask
 * never ends.
 */
module ProgressMonitors {
  import opened Wrappers
  import opened ProgressTasks

  // ----- the cached log -----

  /** LogChunk: a run of text of one kind (StringLogChunk) or one logged object (ObjectLogChunk); objects are named by a number. */
  datatype LogChunk = StringLogChunk(isError: bool, log: string) | ObjectLogChunk(obj: nat)

  /** One character written to the log or to the error log, or one object written to the log. */
  datatype LogEvent = TextEvent(isError: bool, ch: char) | ObjectEvent(obj: nat)

  /** The characters of `s`, written to the error log when `isError` holds and to the log otherwise. */
  function TextEvents(isError: bool, s: string): (r: seq<LogEvent>)
    ensures |r| == |s|
  {
    if s == [] then [] else [TextEvent(isError, s[0])] + TextEvents(isError, s[1..])
  }

  /** Writing two texts of one kind one after the other writes their concatenation. */
  lemma {:induction false} TextEventsConcat(isError: bool, s: string, t: string)
    ensures TextEvents(isError, s + t) == TextEvents(isError, s) + TextEvents(isError, t)
  {
    if s == [] {
      assert s + t == t;
    } else {
      assert (s + t)[0] == s[0] && (s + t)[1..] == s[1..] + t;
      TextEventsConcat(isError, s[1..], t);
    }
  }

  function ChunkEvents(c: LogChunk): seq<LogEvent>
  {
    match c
    case StringLogChunk(isError, log) => TextEvents(isError, log)
    case ObjectLogChunk(obj) => [ObjectEvent(obj)]
  }

  /** What DumpLog writes for a chain of chunks, in order. */
  function Events(chunks: seq<LogChunk>): seq<LogEvent>
  {
    if chunks == [] then [] else ChunkEvents(chunks[0]) + Events(chunks[1..])
  }

  /** The events of a chain are those of its parts, in order. */
  lemma {:induction false} EventsConcat(a: seq<LogChunk>, b: seq<LogChunk>)
    ensures Events(a + b) == Events(a) + Events(b)
  {
    if a == [] {
      assert a + b == b;
    } else {
      assert (a + b)[0] == a[0] && (a + b)[1..] == a[1..] + b;
      EventsConcat(a[1..], b);
    }
  }

  lemma EventsSnoc(chunks: seq<LogChunk>, c: LogChunk)
    ensures Events(chunks + [c]) == Events(chunks) + ChunkEvents(c)
  {
    EventsConcat(chunks, [c]);
    assert Events([c]) == ChunkEvents(c) + Events([]);
  }

  /** No two neighbouring chunks are text of the same kind: AppendLog extends a run instead of starting one. */
  ghost predicate Coalesced(chunks: seq<LogChunk>)
  {
    forall i :: 0 < i < |chunks| ==>
      !(chunks[i - 1].StringLogChunk? && chunks[i].StringLogChunk? && chunks[i - 1].isError == chunks[i].isError)
  }

  /** A chain as AppendLog and AppendLogObject build it. */
  type CoalescedChain = c: seq<LogChunk> | Coalesced(c) witness []

  /** Whether text of kind `isError` goes on at the end of the last chunk. */
  predicate ContinuesLast(chunks: seq<LogChunk>, isError: bool)
  {
    chunks != [] && chunks[|chunks| - 1].StringLogChunk? && chunks[|chunks| - 1].isError == isError
  }

  /**
   * AppendLog on the chain: the text goes at the end of the last chunk when that is text of the
   * same kind, and into a new chunk otherwise; nothing before the last chunk changes.
   */
  function AppendText(chunks: seq<LogChunk>, isError: bool, message: string): (r: seq<LogChunk>)
    ensures ContinuesLast(chunks, isError) ==>
      |r| == |chunks| && r[..|chunks| - 1] == chunks[..|chunks| - 1]
      && r[|chunks| - 1] == StringLogChunk(isError, chunks[|chunks| - 1].log + message)
    ensures !ContinuesLast(chunks, isError) ==>
      |r| == |chunks| + 1 && r[..|chunks|] == chunks && r[|chunks|] == StringLogChunk(isError, message)
    ensures ContinuesLast(r, isError)
  {
    if ContinuesLast(chunks, isError) then
      chunks[..|chunks| - 1] + [StringLogChunk(isError, chunks[|chunks| - 1].log + message)]
    else
      chunks + [StringLogChunk(isError, message)]
  }

  /** After AppendLog the chain writes what it wrote before, followed by the text. */
  lemma AppendTextEvents(chunks: seq<LogChunk>, isError: bool, message: string)
    ensures Events(AppendText(chunks, isError, message)) == Events(chunks) + TextEvents(isError, message)
  {
    var r := AppendText(chunks, isError, message);
    if ContinuesLast(chunks, isError) {
      var front, last := chunks[..|chunks| - 1], chunks[|chunks| - 1];
      assert chunks == front + [last];
      assert r == front + [r[|r| - 1]];
      EventsSnoc(front, last);
      EventsSnoc(front, r[|r| - 1]);
      TextEventsConcat(isError, last.log, message);
    } else {
      assert r == chunks + [r[|r| - 1]];
      EventsSnoc(chunks, r[|r| - 1]);
    }
  }

  /** AppendLog never puts two text chunks of one kind side by side. */
  lemma AppendTextCoalesced(chunks: seq<LogChunk>, isError: bool, message: string)
    requires Coalesced(chunks)
    ensures Coalesced(AppendText(chunks, isError, message))
  {
  }

  /** AppendLogObject on the chain: the object always gets a chunk of its own, at the end. */
  function AppendObject(chunks: seq<LogChunk>, obj: nat): (r: seq<LogChunk>)
    ensures Events(r) == Events(chunks) + [ObjectEvent(obj)]
    ensures |r| == |chunks| + 1 && r[..|chunks|] == chunks && r[|chunks|].ObjectLogChunk?
    ensures Coalesced(chunks) ==> Coalesced(r)
  {
    var r := chunks + [ObjectLogChunk(obj)];
    EventsSnoc(chunks, r[|r| - 1]);
    assert r[..|chunks|] == chunks;
    r
  }

  /** Two texts of one kind appended in a row land in one chunk, as if appended at once. */
  lemma AppendTextTwice(chunks: seq<LogChunk>, isError: bool, m1: string, m2: string)
    ensures AppendText(AppendText(chunks, isError, m1), isError, m2) == AppendText(chunks, isError, m1 + m2)
  {
    var once := AppendText(chunks, isError, m1);
    assert ContinuesLast(once, isError);
    if ContinuesLast(chunks, isError) {
      var front, last := chunks[..|chunks| - 1], chunks[|chunks| - 1];
      assert once == front + [StringLogChunk(isError, last.log + m1)];
      assert once[..|once| - 1] == front;
      assert (last.log + m1) + m2 == last.log + (m1 + m2);
    } else {
      assert once == chunks + [StringLogChunk(isError, m1)];
      assert once[..|once| - 1] == chunks;
    }
  }

  // ----- errors -----

  /** ProgressError; exceptions are named by a number. */
  datatype ProgressError = ProgressError(message: Option<string>, exception: Option<nat>)

  /** A call of LoggingService.LogError. */
  datatype LoggedError = LoggedError(message: Option<string>, exception: Option<nat>)

  /** What EndTask logs when there is no task it may end. */
  const TaskNotStarted := LoggedError(Some("Task not started"), None)

  const NotStartedMessage := "Task not started in progress monitor"

  /** What Step logs when no task is current. */
  const TaskNotStartedInMonitor := LoggedError(Some(NotStartedMessage), None)

  const NegativeWorkMessage := "work can't be negative"

  /** Every stored error that keeps an exception also has a message. */
  ghost predicate ErrorsDescribed(errors: seq<ProgressError>)
  {
    forall i :: 0 <= i < |errors| ==> errors[i].exception.Some? ==> errors[i].message.Some?
  }

  /** Errors as ReportError stores them. */
  type DescribedErrors = e: seq<ProgressError> | ErrorsDescribed(e) witness []

  /**
   * The error ReportError stores: an error with an exception but no message gets the message
   * `describe` derives from the exception (ErrorHelper.GetErrorMessage) and loses the exception.
   */
  function StoredError(message: Option<string>, exception: Option<nat>, describe: nat -> string): (e: ProgressError)
    ensures e.exception.Some? ==> e.message.Some?
    ensures message.Some? || exception.None? ==> e == ProgressError(message, exception)
    ensures message.None? && exception.Some? ==> e == ProgressError(Some(describe(exception.value)), None)
  {
    if message.None? && exception.Some? then ProgressError(Some(describe(exception.value)), None)
    else ProgressError(message, exception)
  }

  // ----- the task stack -----

  /**
   * The monitor's currentTask, parentRootTask, rootTask and openStepWork, with the arena of the
   * tasks they refer to.
   */
  datatype TaskStack = TaskStack(tasks: seq<ProgressTask>, currentTask: int, parentRootTask: int, rootTask: int, openStepWork: int)

  /** The tasks begun and not ended, outermost first, currentTask last. */
  ghost function Chain(s: TaskStack): seq<int>
    requires Ranked(s.tasks) && Slot(s.tasks, s.currentTask)
  {
    Ancestors(s.tasks, s.currentTask)
  }

  /**
   * A well-formed stack: currentTask is null or a task of a well-formed arena; parentRootTask,
   * when there is one, is on the chain, and so is rootTask, at the bottom; a pending step
   * needs a current task.
   */
  ghost predicate StackOK(s: TaskStack)
  {
    && TasksOK(s.tasks)
    && Slot(s.tasks, s.currentTask) && Slot(s.tasks, s.parentRootTask) && Slot(s.tasks, s.rootTask)
    && NoStepWork <= s.openStepWork
    && (s.openStepWork != NoStepWork ==> s.currentTask != Null)
    && (s.parentRootTask != Null ==> s.parentRootTask in Chain(s))
    && (s.currentTask == Null ==> s.rootTask == Null)
    && (s.rootTask != Null ==> s.rootTask == Chain(s)[0])
  }

  /** How many tasks at the bottom of the stack EndTask may not end: up to and including parentRootTask. */
  ghost function Floor(s: TaskStack): (f: nat)
    requires StackOK(s)
    ensures f <= |Chain(s)|
    ensures s.parentRootTask == Null ==> f == 0
    ensures s.parentRootTask != Null ==> 0 < f && Chain(s)[f - 1] == s.parentRootTask
    ensures f == |Chain(s)| <==> s.currentTask == Null || s.currentTask == s.parentRootTask
  {
    var c := Chain(s);
    if s.parentRootTask == Null then 0
    else
      var k := IndexIn(c, s.parentRootTask);
      IndexInAscending(c, |c| - 1);
      k + 1
  }

  /** What BeginTask does to the arena: `n` is appended, as a child of `current` when there is one. */
  function Begin(tasks: seq<ProgressTask>, current: int, n: ProgressTask): (r: seq<ProgressTask>)
    requires Slot(tasks, current)
    ensures |r| == |tasks| + 1
  {
    if current == Null then tasks + [n] else AddChild(tasks + [n], current, |tasks|)
  }

  /** BeginTask on the stack: the new task takes over the pending step work and becomes current. */
  function BeginOn(s: TaskStack, name: Option<string>, totalWork: int): TaskStack
    requires Slot(s.tasks, s.currentTask)
  {
    var t := |s.tasks|;
    TaskStack(Begin(s.tasks, s.currentTask, NewTask(name, totalWork).(stepWork := s.openStepWork)),
      t, s.parentRootTask, if s.currentTask == Null then t else s.rootTask, NoStepWork)
  }

  /** Begin leaves every older task alone except `current`, which lists the new task last. */
  lemma BeginShape(tasks: seq<ProgressTask>, current: int, n: ProgressTask)
    requires Slot(tasks, current) && n.parentTask == Null
    ensures var r := Begin(tasks, current, n);
      && r[|tasks|] == n.(parentTask := current)
      && r[..|tasks|] == if current == Null then tasks
         else tasks[current := tasks[current].(childrenTasks := tasks[current].childrenTasks + [|tasks|])]
  {
    var r := Begin(tasks, current, n);
    if current != Null {
      var g := tasks[current := tasks[current].(childrenTasks := tasks[current].childrenTasks + [|tasks|])];
      forall u | 0 <= u < |tasks| ensures r[u] == g[u] {
      }
      assert r[..|tasks|] == g;
    } else {
      assert r[..|tasks|] == tasks;
    }
  }

  /**
   * BeginTask keeps the stack well formed and pushes the new task, which is the root task when
   * the stack was empty and is otherwise listed last among the current task's children.
   */
  lemma BeginStack(s: TaskStack, name: Option<string>, totalWork: int)
    requires StackOK(s)
    ensures var r, t := BeginOn(s, name, totalWork), |s.tasks|;
      && StackOK(r)
      && Chain(r) == Chain(s) + [t]
      && Floor(r) == Floor(s)
      && r.tasks[t] == NewTask(name, totalWork).(stepWork := s.openStepWork, parentTask := s.currentTask)
      && r.tasks[..t] == if s.currentTask == Null then s.tasks
         else s.tasks[s.currentTask := s.tasks[s.currentTask].(childrenTasks := s.tasks[s.currentTask].childrenTasks + [t])]
  {
    var n := NewTask(name, totalWork).(stepWork := s.openStepWork);
    var r, t := BeginOn(s, name, totalWork), |s.tasks|;
    if s.currentTask == Null {
      PushRoot(s.tasks, n);
    } else {
      PushChild(s.tasks, n, s.currentTask);
    }
    BeginShape(s.tasks, s.currentTask, n);
    var c := Chain(s);
    assert Chain(r) == c + [t];
    if s.parentRootTask != Null {
      IndexInPrefix(c, [t], s.parentRootTask);
    }
    assert s.currentTask != Null ==> (c + [t])[0] == c[0];
  }

  /** EndTask may end the current task: there is one, and it is not parentRootTask. */
  predicate CanEnd(s: TaskStack)
  {
    s.currentTask != Null && s.currentTask != s.parentRootTask
  }

  /** EndTask on the stack, when it may end a task: the current task is completed and its parent becomes current. */
  function EndOn(s: TaskStack): TaskStack
    requires 0 <= s.currentTask < |s.tasks|
    requires Slot(s.tasks, s.tasks[s.currentTask].parentTask) && s.tasks[s.currentTask].parentTask != s.currentTask
  {
    var up := s.tasks[s.currentTask].parentTask;
    TaskStack(SetComplete(s.tasks, s.currentTask), up, s.parentRootTask, if up == Null then Null else s.rootTask, NoStepWork)
  }

  /** EndTask keeps the stack well formed and pops its top; the floor stays where it was. */
  lemma EndStack(s: TaskStack)
    requires StackOK(s) && CanEnd(s)
    ensures var r, c := EndOn(s), Chain(s);
      && StackOK(r)
      && Chain(r) == c[..|c| - 1]
      && Floor(r) == Floor(s)
      && r.tasks[s.currentTask].completed
  {
    var r, c := EndOn(s), Chain(s);
    var up := s.tasks[s.currentTask].parentTask;
    CompleteKeeps(s.tasks, s.currentTask);
    assert c == Ancestors(s.tasks, up) + [s.currentTask];
    var c' := Chain(r);
    assert c' == c[..|c| - 1];
    if s.parentRootTask != Null {
      IndexInAscending(c, |c| - 1);
      IndexInPrefix(c', [s.currentTask], s.parentRootTask);
    }
    assert r.rootTask != Null ==> r.rootTask == c'[0];
  }

  /** ConsumePendingWork on the stack: a pending step's work goes to the current task. */
  function ConsumeOn(s: TaskStack): TaskStack
    requires Slot(s.tasks, s.currentTask) && (s.openStepWork != NoStepWork ==> s.currentTask != Null)
  {
    if s.openStepWork == NoStepWork then s
    else
      var c := s.currentTask;
      s.(tasks := s.tasks[c := TaskStep(s.tasks[c], None, s.openStepWork)], openStepWork := NoStepWork)
  }

  /** Step on the stack, for a current task and work already clamped: the pending step first, then this one. */
  function StepOn(s: TaskStack, message: Option<string>, work: int): TaskStack
    requires Slot(s.tasks, s.currentTask) && s.currentTask != Null
  {
    var p := ConsumeOn(s);
    var c := s.currentTask;
    p.(tasks := p.tasks[c := TaskStep(p.tasks[c], message, work)])
  }

  /** BeginStep on the stack, for a current task and work that is not negative: the pending step is consumed and `work` is pending. */
  function BeginStepOn(s: TaskStack, message: Option<string>, work: int): TaskStack
    requires Slot(s.tasks, s.currentTask) && s.currentTask != Null
  {
    var p := ConsumeOn(s).(openStepWork := work);
    var c := s.currentTask;
    if message.Some? then p.(tasks := p.tasks[c := TaskStep(p.tasks[c], message, 0)]) else p
  }

  /** The work a pending step adds when it is consumed. */
  function PendingWork(openStepWork: int): int
  {
    if openStepWork == NoStepWork then 0 else openStepWork
  }

  /** Changing only the current task's record, and not its links, keeps the shape of the stack. */
  lemma RecordKeeps(s: TaskStack, t: ProgressTask, openStepWork: int)
    requires StackOK(s) && s.currentTask != Null && NoStepWork <= openStepWork
    requires t.parentTask == s.tasks[s.currentTask].parentTask && t.childrenTasks == s.tasks[s.currentTask].childrenTasks
    ensures var r := s.(tasks := s.tasks[s.currentTask := t], openStepWork := openStepWork);
      StackOK(r) && Chain(r) == Chain(s) && Floor(r) == Floor(s)
  {
    var r := s.(tasks := s.tasks[s.currentTask := t], openStepWork := openStepWork);
    assert SameLinks(s.tasks, r.tasks);
    LinksKeep(s.tasks, r.tasks);
  }

  /**
   * Step keeps the stack and credits the current task with the pending step's work and then
   * `work`; a message replaces its status message; no other task changes.
   */
  lemma StepStack(s: TaskStack, message: Option<string>, work: int)
    requires StackOK(s) && s.currentTask != Null
    ensures var r, c := StepOn(s, message, work), s.currentTask;
      && StackOK(r) && Chain(r) == Chain(s) && Floor(r) == Floor(s)
      && r.openStepWork == NoStepWork
      && r.tasks[c].currentWork == s.tasks[c].currentWork + PendingWork(s.openStepWork) + work
      && r.tasks[c].statusMessage == (if message.Some? then message else s.tasks[c].statusMessage)
      && r.tasks == s.tasks[c := r.tasks[c]]
  {
    var r, c := StepOn(s, message, work), s.currentTask;
    assert r == s.(tasks := s.tasks[c := r.tasks[c]], openStepWork := NoStepWork);
    RecordKeeps(s, r.tasks[c], NoStepWork);
  }

  /**
   * BeginStep keeps the stack, credits the current task with the pending step's work, records
   * `work` as pending, and lets a message replace the status message.
   */
  lemma BeginStepStack(s: TaskStack, message: Option<string>, work: nat)
    requires StackOK(s) && s.currentTask != Null
    ensures var r, c := BeginStepOn(s, message, work), s.currentTask;
      && StackOK(r) && Chain(r) == Chain(s) && Floor(r) == Floor(s)
      && r.openStepWork == work
      && r.tasks[c].currentWork == s.tasks[c].currentWork + PendingWork(s.openStepWork)
      && r.tasks[c].statusMessage == (if message.Some? then message else s.tasks[c].statusMessage)
      && r.tasks == s.tasks[c := r.tasks[c]]
  {
    var r, c := BeginStepOn(s, message, work), s.currentTask;
    assert r == s.(tasks := s.tasks[c := r.tasks[c]], openStepWork := work);
    RecordKeeps(s, r.tasks[c], work);
  }

  /** The arena with `current`, unless it is null, credited with `work`. */
  function Credited(tasks: seq<ProgressTask>, current: int, work: int): seq<ProgressTask>
    requires Slot(tasks, current)
  {
    if current == Null then tasks
    else tasks[current := tasks[current].(currentWork := tasks[current].currentWork + work)]
  }

  /**
   * Beginning a task and ending it restores the stack: the arena only gains the completed task
   * and credits the task that was current with the new task's step work, that is, the step
   * that was pending.
   */
  lemma BeginEndRestores(s: TaskStack, name: Option<string>, totalWork: int)
    requires StackOK(s)
    ensures var b := BeginOn(s, name, totalWork);
      && CanEnd(b)
      && var r := EndOn(b);
      && r.currentTask == s.currentTask && r.parentRootTask == s.parentRootTask && r.rootTask == s.rootTask
      && r.openStepWork == NoStepWork && |r.tasks| == |s.tasks| + 1
      && r.tasks[..|s.tasks|] == Credited(s.tasks, s.currentTask, PendingWork(s.openStepWork))
      && r.tasks[|s.tasks|] == NewTask(name, totalWork).(stepWork := s.openStepWork, currentWork := totalWork, completed := true)
  {
    var n := NewTask(name, totalWork).(stepWork := s.openStepWork);
    BeginEndTasks(s.tasks, s.currentTask, n);
    assert ChildWork(n) == PendingWork(s.openStepWork);
  }

  /** Begin followed by SetComplete of the new task, on the arena alone. */
  lemma BeginEndTasks(tasks: seq<ProgressTask>, current: int, n: ProgressTask)
    requires TasksOK(tasks) && Slot(tasks, current) && n.parentTask == Null && n.childrenTasks == []
    ensures var g := Begin(tasks, current, n);
      && g[|tasks|].parentTask == current
      && var r := SetComplete(g, |tasks|);
      && r[..|tasks|] == Credited(tasks, current, ChildWork(n))
      && r[|tasks|] == n.(currentWork := n.totalWork, completed := true)
  {
    if current == Null {
      BeginEndRoot(tasks, n);
    } else {
      ProgressTasks.BeginEndRestores(tasks, n, current);
      assert Begin(tasks, current, n)[|tasks|].parentTask == current;
    }
  }

  /** Begin and SetComplete of a root task: the arena gets the completed task at its end and nothing else. */
  lemma BeginEndRoot(tasks: seq<ProgressTask>, n: ProgressTask)
    requires n.parentTask == Null
    ensures var r := SetComplete(tasks + [n], |tasks|);
      r[..|tasks|] == tasks && r[|tasks|] == n.(currentWork := n.totalWork, completed := true)
  {
    var r := SetComplete(tasks + [n], |tasks|);
    assert r == tasks + [n.(currentWork := n.totalWork, completed := true)];
    assert r[..|tasks|] == tasks;
  }

  /** EndTask on values: it pops when it may, and otherwise leaves the stack as it is. */
  function EndTaskOn(s: TaskStack): (r: TaskStack)
    requires StackOK(s)
    ensures StackOK(r)
  {
    if CanEnd(s) then EndStack(s); EndOn(s) else s
  }

  /**
   * The loop of EndTask(task) as written, `while (currentTask != null && currentTask != task)
   * EndTask ()`, for at most `fuel` rounds; the flag says whether the loop was left.
   */
  function EndTaskLoopAsWritten(s: TaskStack, task: int, fuel: nat): (TaskStack, bool)
    requires StackOK(s)
    decreases fuel
  {
    if !(s.currentTask != Null && s.currentTask != task) then (s, true)
    else if fuel == 0 then (s, false)
    else EndTaskLoopAsWritten(EndTaskOn(s), task, fuel - 1)
  }

  /**
   * Once the current task is parentRootTask, EndTask changes nothing, so the loop of
   * EndTask(task) as written never ends for a task other than parentRootTask.
   */
  lemma {:induction false} EndTaskAsWrittenHangs(s: TaskStack, task: int, fuel: nat)
    requires StackOK(s) && s.currentTask != Null && s.currentTask == s.parentRootTask && task != s.currentTask
    ensures !EndTaskLoopAsWritten(s, task, fuel).1
    decreases fuel
  {
    if fuel > 0 {
      assert EndTaskOn(s) == s;
      EndTaskAsWrittenHangs(s, task, fuel - 1);
    }
  }

  /** A monitor made by BeginAsyncStep, holding the parent's task as parentRootTask and no task of its own. */
  function SubStack(parentTask: ProgressTask, work: int): TaskStack
  {
    TaskStack([parentTask.(parentTask := Null, childrenTasks := [])], 0, 0, Null, work)
  }

  /**
   * A task begun in a monitor made by BeginAsyncStep and disposed twice: the first Dispose ends
   * it, and the second one, EndTask(task) as written, does not come back, however many rounds
   * it is given.
   */
  lemma DisposeTwiceHangs(parentTask: ProgressTask, work: nat, fuel: nat)
    ensures var s := SubStack(parentTask, work);
      && StackOK(s)
      && var once := EndOn(BeginOn(s, None, 1));
      && StackOK(once) && !EndTaskLoopAsWritten(once, |s.tasks|, fuel).1
  {
    var s := SubStack(parentTask, work);
    assert Chain(s) == [0];
    BeginStack(s, None, 1);
    var b := BeginOn(s, None, 1);
    EndStack(b);
    var once := EndOn(b);
    assert Chain(once) == [0];
    EndTaskAsWrittenHangs(once, |s.tasks|, fuel);
  }

  /**
   * The stack part way through ending the tasks of the chain `a` from the top: what is left is
   * a prefix of `a` reaching at least to the floor, and the tasks of `a` above it are completed.
   */
  ghost predicate Unwinding(s: TaskStack, a: seq<int>)
  {
    && StackOK(s) && Ascending(a) && Floor(s) <= |Chain(s)| <= |a| && Chain(s) == a[..|Chain(s)|] && InArena(s.tasks, a)
    && forall i :: |Chain(s)| <= i < |a| ==> s.tasks[a[i]].completed
  }

  /** A well-formed stack is unwinding its own chain. */
  lemma UnwindingChain(s: TaskStack)
    requires StackOK(s)
    ensures Unwinding(s, Chain(s))
  {
    assert Chain(s)[..|Chain(s)|] == Chain(s);
  }

  /** Ending one more task keeps unwinding `a` and shortens the stack by one. */
  lemma EndUnwinding(s: TaskStack, a: seq<int>)
    requires Unwinding(s, a) && CanEnd(s)
    ensures Unwinding(EndOn(s), a) && |Chain(EndOn(s))| == |Chain(s)| - 1 && Floor(EndOn(s)) == Floor(s)
  {
    EndStack(s);
    UnwindingPop(s, EndOn(s), a);
  }

  /** The stack one task shorter, that task completed and no other task changed in its completion, is still unwinding `a`. */
  lemma UnwindingPop(s: TaskStack, r: TaskStack, a: seq<int>)
    requires Unwinding(s, a) && CanEnd(s) && StackOK(r) && Floor(r) == Floor(s)
    requires Chain(r) == Chain(s)[..|Chain(s)| - 1] && |r.tasks| == |s.tasks|
    requires r.tasks[s.currentTask].completed
    requires forall u :: 0 <= u < |s.tasks| && u != s.currentTask ==> r.tasks[u].completed == s.tasks[u].completed
    ensures Unwinding(r, a) && |Chain(r)| == |Chain(s)| - 1
  {
    var n := |Chain(s)|;
    assert Chain(r) == a[..n - 1];
    assert a[n - 1] == s.currentTask;
    forall i | n - 1 <= i < |a| ensures r.tasks[a[i]].completed {
    }
  }

  /** `task` is on the chain `a` at or above the floor `f`, where EndTask may end it. */
  ghost predicate EndableIn(a: seq<int>, f: nat, task: int)
  {
    task in a && f <= IndexIn(a, task)
  }

  /** A round of the loop of EndTask(task) ends a task other than `task`, so `task`, when EndTask may end it, stays on the stack. */
  lemma UpToStep(s: TaskStack, a: seq<int>, task: int)
    requires Unwinding(s, a) && s.currentTask != Null && s.currentTask != task
    requires EndableIn(a, Floor(s), task) ==> IndexIn(a, task) < |Chain(s)|
    ensures EndableIn(a, Floor(s), task) ==> IndexIn(a, task) < |Chain(s)| - 1
  {
    assert a[|Chain(s)| - 1] == s.currentTask;
  }

  /**
   * Where the loop of EndTask(task) stops: at `task` when EndTask may end it, with `task` on
   * top, and otherwise at the floor, where EndTask may end nothing.
   */
  lemma UpToExit(s: TaskStack, a: seq<int>, task: int)
    requires Unwinding(s, a) && !(s.currentTask != Null && s.currentTask != task && s.currentTask != s.parentRootTask)
    requires EndableIn(a, Floor(s), task) ==> IndexIn(a, task) < |Chain(s)|
    ensures EndableIn(a, Floor(s), task) ==> CanEnd(s) && |Chain(s)| == IndexIn(a, task) + 1
    ensures !EndableIn(a, Floor(s), task) ==> !CanEnd(s) && |Chain(s)| == Floor(s)
  {
    var n := |Chain(s)|;
    if s.currentTask == task && CanEnd(s) {
      assert a[n - 1] == task;
      IndexInAscending(a, n - 1);
    }
  }

  /** The loop of OnDispose, unwinding `a` down to `t`, the parentRootTask it dropped, which sits at `a[f - 1]`. */
  ghost predicate UnwindingTo(s: TaskStack, a: seq<int>, t: int, f: nat)
  {
    && Unwinding(s, a) && s.parentRootTask == Null && f <= |Chain(s)|
    && (t == Null ==> f == 0) && (t != Null ==> 0 < f && a[f - 1] == t)
  }

  /** Dropping parentRootTask, as OnDispose does, starts the unwinding of the whole chain down to it. */
  lemma UnwindStart(s: TaskStack)
    requires StackOK(s)
    ensures UnwindingTo(s.(parentRootTask := Null), Chain(s), s.parentRootTask, Floor(s))
  {
    var r := s.(parentRootTask := Null);
    assert Chain(r) == Chain(s);
    UnwindingChain(s);
  }

  /** A round of the loop of OnDispose: EndTask ends the current task. */
  lemma UnwindStep(s: TaskStack, a: seq<int>, t: int, f: nat)
    requires UnwindingTo(s, a, t, f) && s.currentTask != t && s.currentTask != Null
    ensures CanEnd(s) && UnwindingTo(EndOn(s), a, t, f) && |Chain(EndOn(s))| < |Chain(s)|
  {
    var n := |Chain(s)|;
    assert a[n - 1] == s.currentTask;
    if t != Null {
      assert a[f - 1] != s.currentTask;
    }
    EndUnwinding(s, a);
  }

  /** The loop of OnDispose stops with the dropped parentRootTask current and everything above it ended. */
  lemma UnwindDone(s: TaskStack, a: seq<int>, t: int, f: nat)
    requires UnwindingTo(s, a, t, f) && !(s.currentTask != t && s.currentTask != Null)
    ensures s.currentTask == t && |Chain(s)| == f
  {
    var n := |Chain(s)|;
    if n > 0 {
      assert a[n - 1] == s.currentTask;
      IndexInAscending(a, n - 1);
      if t != Null {
        IndexInAscending(a, f - 1);
      }
    }
  }

  /** ProgressMonitor, with the parent monitor seen only through what is handed to it. */
  class ProgressMonitor {
    /** currentTask, parentRootTask, rootTask and openStepWork, with the tasks they refer to. */
    var stack: TaskStack
    var disposed: bool
    /** parentMonitor != null */
    const hasParentMonitor: bool
    const reportGlobalDataToParent: bool
    /** The chain firstCachedLogChunk .. lastCachedLogChunk. */
    var logChunks: CoalescedChain
    /** The chunks handed to the parent monitor's DumpLog. */
    var sentToParent: seq<LogChunk>
    /** The calls of OnWriteLog, OnWriteErrorLog and OnWriteLogObject, in order, as chunks. */
    var written: seq<LogChunk>
    var errors: DescribedErrors
    /** The errors passed on to the parent monitor's ReportError. */
    var forwardedErrors: seq<ProgressError>
    /** The calls of LoggingService.LogError. */
    var loggedErrors: seq<LoggedError>

    ghost predicate Valid()
      reads this`stack
    {
      StackOK(stack)
    }

    /** The tasks begun and not ended, outermost first, currentTask last. */
    ghost function Stack(): seq<int>
      reads this`stack
      requires Valid()
    {
      Chain(stack)
    }

    /** Whether text and objects written to this monitor are cached for its parent. */
    predicate Reporting()
    {
      reportGlobalDataToParent && hasParentMonitor
    }

    function HasErrors(): bool
      reads this`errors
    {
      errors != []
    }

    /** `new ProgressMonitor ()`. */
    constructor ()
      ensures Valid() && !Reporting()
      ensures stack == TaskStack([], Null, Null, Null, NoStepWork) && Stack() == []
      ensures !disposed && logChunks == [] && sentToParent == [] && written == []
      ensures errors == [] && forwardedErrors == [] && loggedErrors == []
    {
      stack := TaskStack([], Null, Null, Null, NoStepWork);
      disposed := false;
      hasParentMonitor := false;
      reportGlobalDataToParent := false;
      logChunks := [];
      sentToParent := [];
      written := [];
      errors := [];
      forwardedErrors := [];
      loggedErrors := [];
    }

    /**
     * The monitor BeginAsyncStep makes for `work` units of the parent's current task, after
     * SetParentTask: the task, held as a stand-in, is both current and parentRootTask.
     */
    constructor Sub(parentTask: ProgressTask, work: nat)
      ensures Valid() && Reporting()
      ensures stack == SubStack(parentTask, work) && Stack() == [0]
      ensures !disposed && logChunks == [] && sentToParent == [] && written == []
      ensures errors == [] && forwardedErrors == [] && loggedErrors == []
    {
      stack := SubStack(parentTask, work);
      disposed := false;
      hasParentMonitor := true;
      reportGlobalDataToParent := true;
      logChunks := [];
      sentToParent := [];
      written := [];
      errors := [];
      forwardedErrors := [];
      loggedErrors := [];
      new;
      assert Chain(stack) == [0];
    }

    /**
     * BeginTask: a new task, which takes over the pending step work, is pushed on the stack;
     * it is the root task when the stack was empty, and a child of the current task otherwise.
     */
    method BeginTask(name: Option<string>, totalWork: int) returns (t: int)
      requires Valid()
      modifies this`stack
      ensures Valid()
      ensures stack == BeginOn(old(stack), name, totalWork)
      ensures t == old(|stack.tasks|) && stack.currentTask == t && Stack() == old(Stack()) + [t]
    {
      BeginStack(stack, name, totalWork);
      t := |stack.tasks|;
      stack := BeginOn(stack, name, totalWork);
    }

    /**
     * EndTask: the current task is popped and completed, unless there is none or it is
     * parentRootTask, in which case nothing changes but an error is logged.
     */
    method EndTask()
      requires Valid()
      modifies this`stack, this`loggedErrors
      ensures Valid()
      ensures old(CanEnd(stack)) ==> stack == EndOn(old(stack)) && unchanged(this`loggedErrors)
      ensures !old(CanEnd(stack)) ==> unchanged(this`stack) && loggedErrors == old(loggedErrors) + [TaskNotStarted]
    {
      if CanEnd(stack) {
        EndStack(stack);
        stack := EndOn(stack);
      } else {
        loggedErrors := loggedErrors + [TaskNotStarted];
      }
    }

    /** `task` is on the stack above parentRootTask, where EndTask may end it. */
    ghost predicate Endable(task: int)
      reads this`stack
      requires Valid()
    {
      EndableIn(Stack(), Floor(stack), task)
    }

    /**
     * EndTask(task) with the loop guard corrected to stop at parentRootTask: the tasks above
     * `task` are ended, then `task` itself; when `task` is not one EndTask may end, every task
     * EndTask may end is ended and one error is logged.
     */
    method EndTaskUpTo(task: int)
      requires Valid()
      modifies this`stack, this`loggedErrors
      ensures Valid()
      ensures stack.parentRootTask == old(stack.parentRootTask) && |stack.tasks| == old(|stack.tasks|)
      ensures old(Endable(task)) ==> Stack() == old(Stack()[..IndexIn(Stack(), task)]) && unchanged(this`loggedErrors)
      ensures !old(Endable(task)) ==> Stack() == old(Stack()[..Floor(stack)]) && loggedErrors == old(loggedErrors) + [TaskNotStarted]
      ensures forall i :: |Stack()| <= i < old(|Stack()|) ==> stack.tasks[old(Stack())[i]].completed
    {
      ghost var a, f := Stack(), Floor(stack);
      assert Endable(task) == EndableIn(a, f, task);
      UnwindingChain(stack);
      EndAbove(task, a, f);
      UpToExit(stack, a, task);
      if CanEnd(stack) {
        EndUnwinding(stack, a);
      }
      EndTask();
      assert EndableIn(a, f, task) ==> |Chain(stack)| == IndexIn(a, task) && unchanged(this`loggedErrors);
      assert !EndableIn(a, f, task) ==> |Chain(stack)| == f && loggedErrors == old(loggedErrors) + [TaskNotStarted];
    }

    /** The loop of EndTask(task): EndTask until the current task is null, `task` or parentRootTask. */
    method EndAbove(task: int, ghost a: seq<int>, ghost f: nat)
      requires Unwinding(stack, a) && Floor(stack) == f
      requires EndableIn(a, f, task) ==> IndexIn(a, task) < |Chain(stack)|
      modifies this`stack, this`loggedErrors
      ensures Unwinding(stack, a) && Floor(stack) == f
      ensures EndableIn(a, f, task) ==> IndexIn(a, task) < |Chain(stack)|
      ensures !(stack.currentTask != Null && stack.currentTask != task && stack.currentTask != stack.parentRootTask)
      ensures stack.parentRootTask == old(stack.parentRootTask) && |stack.tasks| == old(|stack.tasks|)
      ensures unchanged(this`loggedErrors)
    {
      while stack.currentTask != Null && stack.currentTask != task && stack.currentTask != stack.parentRootTask
        invariant Unwinding(stack, a) && Floor(stack) == f
        invariant stack.parentRootTask == old(stack.parentRootTask) && |stack.tasks| == old(|stack.tasks|)
        invariant unchanged(this`loggedErrors)
        invariant EndableIn(a, f, task) ==> IndexIn(a, task) < |Chain(stack)|
        decreases |Chain(stack)|
      {
        UpToStep(stack, a, task);
        EndUnwinding(stack, a);
        EndTask();
      }
    }

    // ----- steps -----

    /** ConsumePendingWork: a pending step's work is added to the current task. */
    method ConsumePendingWork()
      requires Valid()
      modifies this`stack
      ensures Valid()
      ensures stack == ConsumeOn(old(stack)) && Stack() == old(Stack()) && Floor(stack) == old(Floor(stack))
      ensures stack.openStepWork == NoStepWork
    {
      if stack.openStepWork != NoStepWork {
        var c := stack.currentTask;
        RecordKeeps(stack, TaskStep(stack.tasks[c], None, stack.openStepWork), NoStepWork);
        stack := stack.(tasks := stack.tasks[c := TaskStep(stack.tasks[c], None, stack.openStepWork)], openStepWork := NoStepWork);
      }
    }

    /**
     * Step: with no current task an error is logged; otherwise negative work counts as 0, the
     * pending step is consumed and the current task steps.
     */
    method Step(message: Option<string>, work: int)
      requires Valid()
      modifies this`stack, this`loggedErrors
      ensures Valid()
      ensures old(stack.currentTask) == Null ==> unchanged(this`stack) && loggedErrors == old(loggedErrors) + [TaskNotStartedInMonitor]
      ensures old(stack.currentTask) != Null ==>
        && stack == StepOn(old(stack), message, if work < 0 then 0 else work)
        && Stack() == old(Stack()) && unchanged(this`loggedErrors)
    {
      if stack.currentTask == Null {
        loggedErrors := loggedErrors + [TaskNotStartedInMonitor];
        return;
      }
      var w := if work < 0 then 0 else work;
      StepStack(stack, message, w);
      ConsumePendingWork();
      var c := stack.currentTask;
      stack := stack.(tasks := stack.tasks[c := TaskStep(stack.tasks[c], message, w)]);
    }

    /**
     * BeginStep: throws when no task is current or `work` is negative; otherwise the pending step
     * is consumed, `work` is pending, and a message becomes the current task's status.
     */
    method BeginStep(message: Option<string>, work: int) returns (thrown: Option<Exception>)
      requires Valid()
      modifies this`stack
      ensures Valid()
      ensures old(stack.currentTask) == Null ==> thrown == Some(InvalidOperation(NotStartedMessage)) && unchanged(this`stack)
      ensures old(stack.currentTask) != Null && work < 0 ==> thrown == Some(Argument(NegativeWorkMessage)) && unchanged(this`stack)
      ensures old(stack.currentTask) != Null && work >= 0 ==>
        thrown == None && stack == BeginStepOn(old(stack), message, work) && Stack() == old(Stack())
    {
      if stack.currentTask == Null {
        return Some(InvalidOperation(NotStartedMessage));
      }
      if work < 0 {
        return Some(Argument(NegativeWorkMessage));
      }
      BeginStepStack(stack, message, work);
      ConsumePendingWork();
      stack := stack.(openStepWork := work);
      if message.Some? {
        var c := stack.currentTask;
        stack := stack.(tasks := stack.tasks[c := TaskStep(stack.tasks[c], message, 0)]);
      }
      thrown := None;
    }

    // ----- the log -----

    /** AppendLog: the chain gains the message, at the end of its last chunk when that is text of the same kind. */
    method AppendLog(message: string, error: bool)
      modifies this`logChunks
      ensures logChunks == AppendText(old(logChunks), error, message)
    {
      AppendTextCoalesced(logChunks, error, message);
      logChunks := AppendText(logChunks, error, message);
    }

    /** AppendLogObject: the chain gains a chunk for the object. */
    method AppendLogObject(obj: nat)
      modifies this`logChunks
      ensures logChunks == AppendObject(old(logChunks), obj)
    {
      logChunks := AppendObject(logChunks, obj);
    }

    /** DoWriteLog and DoWriteErrorLog: the text is cached for the parent when reporting to it, and written. */
    method DoWriteText(message: string, error: bool)
      modifies this`logChunks, this`written
      ensures written == old(written) + [StringLogChunk(error, message)]
      ensures Reporting() ==> logChunks == AppendText(old(logChunks), error, message)
      ensures !Reporting() ==> unchanged(this`logChunks)
    {
      if Reporting() {
        AppendLog(message, error);
      }
      written := written + [StringLogChunk(error, message)];
    }

    /** DoWriteLogObject: the object is cached for the parent when reporting to it, and written. */
    method DoWriteLogObject(obj: nat)
      modifies this`logChunks, this`written
      ensures written == old(written) + [ObjectLogChunk(obj)]
      ensures Reporting() ==> logChunks == AppendObject(old(logChunks), obj)
      ensures !Reporting() ==> unchanged(this`logChunks)
    {
      if Reporting() {
        AppendLogObject(obj);
      }
      written := written + [ObjectLogChunk(obj)];
    }

    /** One chunk of a dumped log, written through DoWriteLogObject or DoWriteLog / DoWriteErrorLog. */
    method WriteChunk(c: LogChunk)
      modifies this`logChunks, this`written
      ensures written == old(written) + [c]
      ensures Reporting() ==> Events(logChunks) == old(Events(logChunks)) + ChunkEvents(c)
      ensures !Reporting() ==> unchanged(this`logChunks)
    {
      match c {
        case ObjectLogChunk(obj) =>
          DoWriteLogObject(obj);
        case StringLogChunk(isError, log) =>
          if Reporting() {
            AppendTextEvents(logChunks, isError, log);
          }
          DoWriteText(log, isError);
      }
    }

    /**
     * DumpLog (a sub-monitor's cached log arriving): every chunk is written in order, and cached
     * again when this monitor reports to its own parent.
     */
    method DumpLog(chain: seq<LogChunk>)
      modifies this`logChunks, this`written
      ensures written == old(written) + chain
      ensures Reporting() ==> Events(logChunks) == old(Events(logChunks)) + Events(chain)
      ensures !Reporting() ==> unchanged(this`logChunks)
    {
      ghost var w0, e0 := written, Events(logChunks);
      var i := 0;
      while i < |chain|
        invariant 0 <= i <= |chain|
        invariant written == w0 + chain[..i]
        invariant Reporting() ==> Events(logChunks) == e0 + Events(chain[..i])
        invariant !Reporting() ==> unchanged(this`logChunks)
        decreases |chain| - i
      {
        ghost var before := Events(logChunks);
        WriteChunk(chain[i]);
        EventsSnoc(chain[..i], chain[i]);
        if Reporting() {
          assert Events(logChunks) == before + ChunkEvents(chain[i]);
          assert e0 + Events(chain[..i]) + ChunkEvents(chain[i]) == e0 + (Events(chain[..i]) + ChunkEvents(chain[i]));
        }
        assert chain[..i + 1] == chain[..i] + [chain[i]];
        i := i + 1;
      }
      assert chain[..i] == chain;
    }

    // ----- errors -----

    /**
     * ReportError: the error goes to the parent monitor when reporting to it, and otherwise to
     * the log when it has an exception; the monitor keeps it, with a message derived from the
     * exception by `describe` when it has none.
     */
    method ReportError(message: Option<string>, exception: Option<nat>, describe: nat -> string)
      requires Valid()
      modifies this`errors, this`forwardedErrors, this`loggedErrors
      ensures Valid() && HasErrors()
      ensures errors == old(errors) + [StoredError(message, exception, describe)]
      ensures Reporting() ==> forwardedErrors == old(forwardedErrors) + [ProgressError(message, exception)] && unchanged(this`loggedErrors)
      ensures !Reporting() && exception.Some? ==>
        loggedErrors == old(loggedErrors) + [LoggedError(message, exception)] && unchanged(this`forwardedErrors)
      ensures !Reporting() && exception.None? ==> unchanged(this`loggedErrors, this`forwardedErrors)
    {
      if Reporting() {
        forwardedErrors := forwardedErrors + [ProgressError(message, exception)];
      } else if exception.Some? {
        loggedErrors := loggedErrors + [LoggedError(message, exception)];
      }
      var stored := StoredError(message, exception, describe);
      errors := errors + [stored];
    }

    // ----- disposal -----

    /**
     * OnDispose: the first call marks the monitor disposed, hands the cached log to the parent
     * monitor, and ends every task above parentRootTask, which stops being one; later calls
     * return at once.
     */
    method OnDispose()
      requires Valid()
      modifies this`disposed, this`logChunks, this`sentToParent, this`stack, this`loggedErrors
      ensures Valid() && unchanged(this`loggedErrors)
      ensures old(disposed) ==> unchanged(this)
      ensures !old(disposed) ==>
        && disposed
        && (if hasParentMonitor && old(logChunks) != []
            then sentToParent == old(sentToParent) + old(logChunks) && logChunks == []
            else unchanged(this`logChunks, this`sentToParent))
      ensures !old(disposed) ==>
        && stack.parentRootTask == Null && stack.currentTask == old(stack.parentRootTask)
        && Stack() == old(Stack()[..Floor(stack)]) && |stack.tasks| == old(|stack.tasks|)
      ensures !old(disposed) ==> forall i :: |Stack()| <= i < old(|Stack()|) ==> stack.tasks[old(Stack())[i]].completed
    {
      if disposed {
        return;
      }
      disposed := true;
      if hasParentMonitor && logChunks != [] {
        sentToParent := sentToParent + logChunks;
        logChunks := [];
      }
      EndAll();
    }

    /** The tasks part of OnDispose: parentRootTask is dropped, and every task above it is ended. */
    method EndAll()
      requires Valid()
      modifies this`stack, this`loggedErrors
      ensures Valid() && unchanged(this`loggedErrors)
      ensures stack.parentRootTask == Null && stack.currentTask == old(stack.parentRootTask)
      ensures Stack() == old(Stack()[..Floor(stack)]) && |stack.tasks| == old(|stack.tasks|)
      ensures forall i :: |Stack()| <= i < old(|Stack()|) ==> stack.tasks[old(Stack())[i]].completed
    {
      ghost var a, f := Stack(), Floor(stack);
      var t := stack.parentRootTask;
      UnwindStart(stack);
      stack := stack.(parentRootTask := Null);
      while stack.currentTask != t && stack.currentTask != Null
        invariant UnwindingTo(stack, a, t, f)
        invariant |stack.tasks| == old(|stack.tasks|) && unchanged(this`loggedErrors)
        decreases |Stack()|
      {
        UnwindStep(stack, a, t, f);
        EndTask();
      }
      UnwindDone(stack, a, t, f);
    }
  }
}
