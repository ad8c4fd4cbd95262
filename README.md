# Workflow builder model

A Dafny model of the workflow builder in `src/builder/refresh_module.rs`.

- A **task scope** is a named node with an optional parent. It never changes after construction.
- A **task step** pairs a task name with the scope it was registered under.
- A **workflow builder** owns one root scope, named `"root"` and without a parent, plus an ordered list of steps.
  - `add_task` admits a step only when the given scope is the *same object* as the builder's root (`Arc::ptr_eq`). A scope that is merely named `"root"` is refused.
  - `build` renders a text report of the workflow name and the steps, in insertion order.

Layout:

- `text.dfy` (module `Text`): `Join`, which behaves like Rust's `[String]::join`. It also holds the small parsers (`Split`, `LastOccurrence`, `Unwrap`) that undo the rendering. They exist only in the model, to state that the rendered text loses no information.
- `refresh_module.dfy` (module `RefreshModule`): the scopes, steps and builder.
  - `TaskScope` is a class with constant fields. Dafny's reference equality on it is the identity that `Arc::ptr_eq` compares.
  - `TaskScopeRef` and `TaskStep` are datatypes that hold a reference to that class. A shared `Arc` therefore stays a shared object.
  - `WorkflowBuilder` is a class with constant `workflowName` and `rootScope` fields and a `tasks` sequence that `AddTask` reassigns.
  - `Valid()` is the builder's invariant: the root is the parentless scope named `root`, and every stored step references that very scope.
  - `Report(name, tasks)` is the pure function behind `Build`. The lemmas about the report are stated on `Report`.
  - The constructor, `RootScope`, `Build` and the rendering functions are expressions, as they are in the source. `AddTask` is the one method that changes state.

## Model

| member | source | states |
|---|---|---|
| `RefreshModule.TaskScope.constructor` | src/builder/refresh_module.rs:13-15 | the new scope holds exactly the given name and parent link |
| `RefreshModule.NewStep` | src/builder/refresh_module.rs:29-32 | a step built from a scope handle has the given name and shares the handle's scope object; it is not a copy |
| `RefreshModule.StepString` | src/builder/refresh_module.rs:34-36 | a step whose name and scope name hold no line break renders as a single line |
| `RefreshModule.StepStringRoundTrip` | src/builder/refresh_module.rs:34-36 | the rendering `TaskStep(name=<name>, scope=<scope name>)` gives back both the step name, whatever it contains, and the scope name, provided the scope name does not contain `, scope=` |
| `RefreshModule.StepStringAmbiguous` | src/builder/refresh_module.rs:34-36 | when a scope name does contain `, scope=`, two steps with different names render as the same text, so no reader can recover them |
| `RefreshModule.StepUnderRoot` | src/builder/refresh_module.rs:34-36 | a step under a scope named `root` renders as `TaskStep(name=<name>, scope=root)` |
| `RefreshModule.ScopeRefString` | src/builder/refresh_module.rs:45-47 | the rendering `TaskScope(<name>)` always gives back the scope's name |
| `RefreshModule.WorkflowBuilder.constructor` | src/builder/refresh_module.rs:60-67 | a new builder keeps the given workflow name and has an empty task list; its root is a fresh scope named `root` with no parent; the invariant, which records that root, holds |
| `RefreshModule.WorkflowBuilder.RootScope` | src/builder/refresh_module.rs:69-71 | the handle points to the builder's stored root object; it reads no mutable state, so repeated calls give the identical scope and change nothing |
| `RefreshModule.WorkflowBuilder.AddTask` | src/builder/refresh_module.rs:73-80 | fails with `InvalidScope` exactly when the scope is not the identical root object, and the task list is then unchanged. On success exactly one step `(name, root)` is appended at the end and that same step is returned. The report then gains that step's line at its end. The invariant "every step references the root" is kept |
| `RefreshModule.WorkflowBuilder.Build` | src/builder/refresh_module.rs:82-86 | the report always starts with `Workflow: <name>\nTasks:\n`. With no steps it is exactly that header. When no name holds a line break, the rest splits at `\n` into exactly the steps' lines, in insertion order, with no trailing line break. It is a function of the current state and changes nothing. Its body is `Report`: `Header` (`Workflow: <name>\nTasks:\n`) followed by `Join` of the step lines with `\n`, as Rust's `[String]::join` does |
| `RefreshModule.WorkflowBuilder.ToString` | src/builder/refresh_module.rs:88-90 | the rendering `WorkflowBuilder(<name>)` always gives back the workflow name |
| `RefreshModule.Lines` | src/builder/refresh_module.rs:84 | one line per step, the i-th line being the i-th step's rendering |
| `RefreshModule.ReportAppend` | src/builder/refresh_module.rs:78-85 | appending a step to the list appends its line to the report, preceded by `\n` unless it is the first step |
| `RefreshModule.ReportGrows` | src/builder/refresh_module.rs:78-85 | an earlier report is a prefix of every report taken after further appends, so earlier lines never change |
| `RefreshModule.ReportLines` | src/builder/refresh_module.rs:84-85 | the report always starts with the header; for a non-empty task list whose names hold no line break, the rest splits back into exactly the steps' lines, in order; for an empty list the report is exactly the header |
| `RefreshModule.LinesUnderRoot` | src/builder/refresh_module.rs:74-84 | when every step references one scope named `root`, the i-th step's rendering (`Lines(tasks)[i]`) is `TaskStep(name=<i-th name>, scope=root)`, for any number of steps |
| `RefreshModule.WorkflowBuilder.StepLines` | src/builder/refresh_module.rs:60-85 | under the builder's invariant, the i-th step's rendering is `TaskStep(name=<i-th name>, scope=root)`. When the list is non-empty and no step name holds a line break, these renderings are exactly the lines of `Build()` after the header, in insertion order |
| `RefreshModule.ReportOfTwo` | src/builder/refresh_module.rs:82-86 | two steps under the root give `Workflow: <w>\nTasks:\nTaskStep(name=<t1>, scope=root)\nTaskStep(name=<t2>, scope=root)` |
| `RefreshModule.TwoTasksScenario` | src/builder/refresh_module.rs:60-86 | a fresh builder reports the header alone; after `add_task(t1, root)` and `add_task(t2, root)` it reports both lines in call order |
| `RefreshModule.ForeignScopeScenario` | src/builder/refresh_module.rs:73-76 | a separately built scope named `root` and another builder's root are both refused with `InvalidScope`; the task list stays empty |
| `Text.JoinAppend` | src/builder/refresh_module.rs:85 | joining one more part onto a non-empty list adds one separator and that part at the end (a one-element list joins to that element alone) |
| `Text.SplitJoin` | src/builder/refresh_module.rs:85 | a non-empty list of parts without the separator character comes back unchanged and in order when joined and split again |
| `Text.JoinSplit` | src/builder/refresh_module.rs:85 | splitting a text and joining the pieces again gives back the text |

## Left out

- Python bindings: the `#[pyclass]`/`#[pymethods]`/`#[new]` attributes and the `workflow_rs` module registration (lines 93-101) are host glue.
- Locking: the `Mutex` around `tasks` and `lock().unwrap()` exist only for thread safety. `tasks` is a plain sequence that `AddTask` replaces in one step. The model does not cover lock poisoning or panics, nor concurrent callers and their linearization.
- The error value: the `PyException` and its message text are a single `InvalidScope` variant. `build`'s `PyResult` is always `Ok`, so `Build` returns the string directly.
- `Arc` reference counting, lifetimes and the `Debug`/`Clone` derives are not modelled. Only the identity that `Arc::ptr_eq` compares is kept, through object references.
- Parent links: the parent link is stored but never read. The model does not state that the chain is acyclic.
- The unused `BTreeMap` import.
- `RefreshModule.WorkflowBuilder.AddTask`: requires the builder invariant `Valid()`. The constructor establishes it and `AddTask` preserves it. The source needs no such assumption, because its `tasks` field is private.
- `RefreshModule.StepStringRoundTrip`: reads a step back only when its scope's name does not contain `, scope=`. Such a scope name makes the rendering ambiguous, as `RefreshModule.StepStringAmbiguous` shows. Builder steps always use the scope named `root`.
- `RefreshModule.WorkflowBuilder.Build`: its split-back property is stated only when no name contains a line break. Otherwise the report's lines cannot be told apart.
