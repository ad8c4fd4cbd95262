/** The workflow builder: scopes, task steps, the builder that admits steps
    only under its own root scope, and the text report it renders. */
module RefreshModule {
  import opened Text

  /** A named node of the scope tree, never changed after construction.
      Object identity is what the builder's admission rule compares. */
  class TaskScope {
    const name: string
    const parent: TaskScope?

    constructor (name: string, parent: TaskScope?)
      ensures this.name == name && this.parent == parent
    {
      this.name := name;
      this.parent := parent;
    }
  }

  /** A handle to a shared scope. */
  datatype TaskScopeRef = TaskScopeRef(scope: TaskScope)

  /** "Task `name` was registered under `scope`"; the scope is shared, not copied. */
  datatype TaskStep = TaskStep(name: string, scope: TaskScope)

  /** The one failure of the core: a scope other than the builder's root. */
  datatype BuildError = InvalidScope

  datatype Result<T> = Ok(value: T) | Err(error: BuildError)

  /** A step over the very scope the handle points to (a shared reference). */
  function NewStep(name: string, scope: TaskScopeRef): (s: TaskStep)
    ensures s.name == name && s.scope == scope.scope
  {
    TaskStep(name, scope.scope)
  }

  const StepPrefix := "TaskStep(name="
  const ScopeLabel := ", scope="

  /** The display form of a step; a step whose names hold no line break
      renders as a single line. */
  function StepString(s: TaskStep): (r: string)
    ensures '\n' !in s.name && '\n' !in s.scope.name ==> '\n' !in r
  {
    StepPrefix + s.name + ScopeLabel + s.scope.name + ")"
  }

  /** Reads a step's display form back into its step name and scope name,
      cutting at the last ", scope=". */
  function ParseStep(r: string): (names: Option<(string, string)>)
  {
    match Unwrap(StepPrefix, r)
    case None => None
    case Some(m) =>
      var i := LastOccurrence(m, ScopeLabel);
      if i >= 0 then Some((m[..i], m[i + |ScopeLabel|..])) else None
  }

  /** A step name may hold any text: as long as the scope's name does not
      contain ", scope=", the step's name and its scope's name are read back
      from its display form. */
  lemma StepStringRoundTrip(s: TaskStep)
    requires !Contains(s.scope.name, ScopeLabel)
    ensures ParseStep(StepString(s)) == Some((s.name, s.scope.name))
  {
    var name, scopeName := s.name, s.scope.name;
    var m := name + ScopeLabel + scopeName;
    assert StepString(s) == StepPrefix + m + ")";
    UnwrapWrapped(StepPrefix, m);
    var i := LastOccurrence(m, ScopeLabel);
    assert m[|name|..|name| + |ScopeLabel|] == ScopeLabel;
    assert OccursAt(m, ScopeLabel, |name|);
    forall k | |name| < k
      ensures !OccursAt(m, ScopeLabel, k)
    {
      if k < |name| + |ScopeLabel| {
        NoLabelInsideLabel(name, scopeName, k);
      } else {
        NoLabelInScopeName(name, scopeName, k);
      }
    }
    assert i == |name|;
    assert m[..i] == name;
    assert m[i + |ScopeLabel|..] == scopeName;
  }

  /** No ", scope=" starts inside the one written after the step name. */
  lemma NoLabelInsideLabel(name: string, scopeName: string, k: int)
    requires |name| < k < |name| + |ScopeLabel|
    ensures !OccursAt(name + ScopeLabel + scopeName, ScopeLabel, k)
  {
    var m := name + ScopeLabel + scopeName;
    assert m[k] == ScopeLabel[k - |name|] != ScopeLabel[0];
    assert k + |ScopeLabel| <= |m| ==> m[k..k + |ScopeLabel|][0] == m[k];
  }

  /** No ", scope=" starts within the scope name when the scope name holds none. */
  lemma NoLabelInScopeName(name: string, scopeName: string, k: int)
    requires !Contains(scopeName, ScopeLabel)
    requires |name| + |ScopeLabel| <= k
    ensures !OccursAt(name + ScopeLabel + scopeName, ScopeLabel, k)
  {
    var m := name + ScopeLabel + scopeName;
    if OccursAt(m, ScopeLabel, k) {
      var d := k - |name| - |ScopeLabel|;
      assert m[k..k + |ScopeLabel|] == scopeName[d..d + |ScopeLabel|];
      assert OccursAt(scopeName, ScopeLabel, d);
      assert false;
    }
  }

  /** A scope name holding ", scope=" does make the display form ambiguous:
      two steps with different names render alike. */
  lemma StepStringAmbiguous(name: string, left: string, a: TaskScope, b: TaskScope)
    requires a.name == left + ScopeLabel + b.name
    ensures TaskStep(name, a).name != TaskStep(name + ScopeLabel + left, b).name
    ensures StepString(TaskStep(name, a)) == StepString(TaskStep(name + ScopeLabel + left, b))
  {
  }

  /** The display form of a scope handle; it always gives the scope's name back. */
  function ScopeRefString(ref: TaskScopeRef): (r: string)
    ensures Unwrap("TaskScope(", r) == Some(ref.scope.name)
  {
    UnwrapWrapped("TaskScope(", ref.scope.name);
    "TaskScope(" + ref.scope.name + ")"
  }

  /** The fixed first two lines of every report. */
  function Header(workflowName: string): (header: string)
  {
    "Workflow: " + workflowName + "\nTasks:\n"
  }

  /** One display line per step; the i-th line renders the i-th step. */
  function Lines(tasks: seq<TaskStep>): (lines: seq<string>)
    ensures |lines| == |tasks|
    ensures forall i :: 0 <= i < |tasks| ==> lines[i] == StepString(tasks[i])
  {
    if |tasks| == 0 then [] else [StepString(tasks[0])] + Lines(tasks[1..])
  }

  /** The report for a workflow name and a task list. */
  function Report(workflowName: string, tasks: seq<TaskStep>): (report: string)
  {
    Header(workflowName) + Join(Lines(tasks), "\n")
  }

  /** Neither the step's name nor its scope's name holds a line break. */
  predicate LineSafe(s: TaskStep)
  {
    '\n' !in s.name && '\n' !in s.scope.name
  }

  predicate AllLineSafe(tasks: seq<TaskStep>)
  {
    forall i :: 0 <= i < |tasks| ==> LineSafe(tasks[i])
  }

  /** Appending a step to the list adds its line at the very end of the report,
      after a line break unless it is the first step. */
  lemma ReportAppend(workflowName: string, tasks: seq<TaskStep>, s: TaskStep)
    ensures Report(workflowName, tasks + [s])
         == Report(workflowName, tasks) + (if tasks == [] then "" else "\n") + StepString(s)
  {
    var lines := Lines(tasks);
    assert Lines(tasks + [s]) == lines + [StepString(s)];
    if tasks != [] {
      JoinAppend(lines, "\n", StepString(s));
    } else {
      assert Lines(tasks + [s]) == [StepString(s)];
    }
  }

  /** A report is a prefix of every later report of the same builder: steps
      are only ever appended, so earlier lines never change. */
  lemma {:induction false} ReportGrows(workflowName: string, tasks: seq<TaskStep>, more: seq<TaskStep>)
    ensures Report(workflowName, tasks) <= Report(workflowName, tasks + more)
    decreases |more|
  {
    if |more| == 0 {
      assert tasks + more == tasks;
    } else {
      var init := more[..|more| - 1];
      ReportGrows(workflowName, tasks, init);
      assert tasks + more == (tasks + init) + [more[|more| - 1]];
      ReportAppend(workflowName, tasks + init, more[|more| - 1]);
    }
  }

  /** When no name holds a line break, the body of the report splits back
      into exactly the steps' lines, in insertion order. */
  lemma ReportLines(workflowName: string, tasks: seq<TaskStep>)
    ensures |Header(workflowName)| <= |Report(workflowName, tasks)|
    ensures Report(workflowName, tasks)[..|Header(workflowName)|] == Header(workflowName)
    ensures tasks == [] ==> Report(workflowName, tasks) == Header(workflowName)
    ensures tasks != [] && AllLineSafe(tasks) ==>
      Split(Report(workflowName, tasks)[|Header(workflowName)|..], '\n') == Lines(tasks)
  {
    var h := Header(workflowName);
    var body := Join(Lines(tasks), "\n");
    assert Report(workflowName, tasks) == h + body;
    assert (h + body)[..|h|] == h;
    assert (h + body)[|h|..] == body;
    if tasks != [] && AllLineSafe(tasks) {
      var lines := Lines(tasks);
      forall i | 0 <= i < |lines|
        ensures '\n' !in lines[i]
      {
        assert LineSafe(tasks[i]);
      }
      SplitJoin(lines, '\n');
    }
  }

  /** The builder: a root scope fixed at construction and an append-only
      list of steps, all registered under that root. */
  class WorkflowBuilder {
    const workflowName: string
    const rootScope: TaskScope
    var tasks: seq<TaskStep>

    /** The root is the parentless scope named "root", and every stored
        step references that very scope. */
    ghost predicate Valid()
      reads this
    {
      && rootScope.name == "root"
      && rootScope.parent == null
      && forall i :: 0 <= i < |tasks| ==> tasks[i].scope == rootScope
    }

    constructor (name: string)
      ensures Valid()
      ensures workflowName == name && tasks == []
      ensures fresh(rootScope) && rootScope.name == "root" && rootScope.parent == null
    {
      workflowName := name;
      rootScope := new TaskScope("root", null);
      tasks := [];
    }

    /** A handle to the stored root; it reads no mutable state, so every call
        yields the identical scope and changes nothing. */
    function RootScope(): (r: TaskScopeRef)
      ensures r.scope == rootScope
    {
      TaskScopeRef(rootScope)
    }

    /** Admits a step only under the identical root scope (a distinct scope
        with the same name is refused). On success exactly one step is
        appended and returned; on failure nothing changes. */
    method AddTask(name: string, scope: TaskScopeRef) returns (r: Result<TaskStep>)
      requires Valid()
      modifies this`tasks
      ensures Valid()
      ensures r.Err? <==> scope.scope != rootScope
      ensures r.Err? ==> r.error == InvalidScope && tasks == old(tasks)
      ensures r.Ok? ==> r.value == TaskStep(name, rootScope) && tasks == old(tasks) + [r.value]
      ensures r.Ok? ==> Build() == old(Build()) + (if old(tasks) == [] then "" else "\n") + StepString(r.value)
    {
      if scope.scope != rootScope {
        return Err(InvalidScope);
      }
      var step := TaskStep(name, scope.scope);
      ReportAppend(workflowName, tasks, step);
      tasks := tasks + [step];
      r := Ok(step);
    }

    /** The report: the header, then one line per step in insertion order
        with no trailing line break. */
    function Build(): (r: string)
      reads this
      ensures |Header(workflowName)| <= |r| && r[..|Header(workflowName)|] == Header(workflowName)
      ensures tasks == [] ==> r == "Workflow: " + workflowName + "\nTasks:\n"
      ensures tasks != [] && AllLineSafe(tasks) ==>
        Split(r[|Header(workflowName)|..], '\n') == Lines(tasks)
    {
      ReportLines(workflowName, tasks);
      Report(workflowName, tasks)
    }

    /** Under the invariant, the i-th step renders as
        "TaskStep(name=<i-th name>, scope=root)"; when no step name holds a
        line break, these are exactly the report's lines after the header. */
    lemma StepLines()
      requires Valid()
      ensures forall i :: 0 <= i < |tasks| ==>
        Lines(tasks)[i] == "TaskStep(name=" + tasks[i].name + ", scope=root)"
      ensures tasks != [] && (forall i :: 0 <= i < |tasks| ==> '\n' !in tasks[i].name) ==>
        Split(Build()[|Header(workflowName)|..], '\n') == Lines(tasks)
    {
      LinesUnderRoot(tasks, rootScope);
      assert '\n' !in rootScope.name;
    }

    /** The display form of the builder; it always gives the workflow name back. */
    function ToString(): (r: string)
      ensures Unwrap("WorkflowBuilder(", r) == Some(workflowName)
    {
      UnwrapWrapped("WorkflowBuilder(", workflowName);
      "WorkflowBuilder(" + workflowName + ")"
    }
  }

  /** A step under a scope named "root" renders with that name. */
  lemma StepUnderRoot(name: string, root: TaskScope)
    requires root.name == "root"
    ensures StepString(TaskStep(name, root)) == "TaskStep(name=" + name + ", scope=root)"
  {
  }

  /** When every step references one scope named "root", the i-th step
      renders as "TaskStep(name=<i-th name>, scope=root)". */
  lemma LinesUnderRoot(tasks: seq<TaskStep>, root: TaskScope)
    requires root.name == "root"
    requires forall i :: 0 <= i < |tasks| ==> tasks[i].scope == root
    ensures |Lines(tasks)| == |tasks|
    ensures forall i :: 0 <= i < |tasks| ==>
      Lines(tasks)[i] == "TaskStep(name=" + tasks[i].name + ", scope=root)"
  {
  }

  /** The report of two steps under the root: header, first line, a line
      break, second line. */
  lemma ReportOfTwo(workflow: string, first: string, second: string, root: TaskScope)
    requires root.name == "root"
    ensures Report(workflow, [TaskStep(first, root), TaskStep(second, root)])
         == "Workflow: " + workflow + "\nTasks:\n"
          + "TaskStep(name=" + first + ", scope=root)" + "\n"
          + "TaskStep(name=" + second + ", scope=root)"
  {
    var s1, s2 := TaskStep(first, root), TaskStep(second, root);
    ReportAppend(workflow, [], s1);
    ReportAppend(workflow, [s1], s2);
    assert [] + [s1] == [s1];
    assert [s1] + [s2] == [s1, s2];
    StepUnderRoot(first, root);
    StepUnderRoot(second, root);
  }

  /** Two tasks registered under the root of a fresh builder: the report
      is the header alone before, and lists both steps in call order after. */
  method TwoTasksScenario(workflow: string, first: string, second: string) returns (empty: string, report: string)
    ensures empty == "Workflow: " + workflow + "\nTasks:\n"
    ensures report == "Workflow: " + workflow + "\nTasks:\n"
                    + "TaskStep(name=" + first + ", scope=root)" + "\n"
                    + "TaskStep(name=" + second + ", scope=root)"
  {
    var b := new WorkflowBuilder(workflow);
    empty := b.Build();
    var root := b.RootScope();
    var r1 := b.AddTask(first, root);
    var r2 := b.AddTask(second, root);
    report := b.Build();
    ReportOfTwo(workflow, first, second, b.rootScope);
  }

  /** A fresh scope named "root" and another builder's root are both refused,
      and the task list stays empty. */
  method ForeignScopeScenario() returns (sameName: Result<TaskStep>, otherRoot: Result<TaskStep>, count: nat)
    ensures sameName == Err(InvalidScope) && otherRoot == Err(InvalidScope)
    ensures count == 0
  {
    var b := new WorkflowBuilder("W");
    var other := new WorkflowBuilder("W");
    var lookalike := new TaskScope("root", null);
    sameName := b.AddTask("t", TaskScopeRef(lookalike));
    otherRoot := b.AddTask("t", other.RootScope());
    count := |b.tasks|;
  }
}
