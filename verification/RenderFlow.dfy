/** What rendering preserves: the flow of data between components, and the absence of cycles. */
module RenderFlow {
  import opened Options
  import opened Sequences
  import opened Walks
  import opened Graph
  import opened Render
  import opened RenderShape

  /** One task depends on another. */
  ghost function TaskEdges(out: seq<Task>): Edges {
    iset f, y | f in out && y in f.dependencies :: (f.taskId, y)
  }

  /** A selected component takes an input from another. */
  ghost function NodeEdges(sc: Scope, tasks: seq<Task>): Edges {
    iset t, d | t in tasks && !t.node.IsPad() && DependsOn(sc, t.node.inputs, d) :: (t.node.id, d)
  }

  // ---------- edges of tasks and edges of nodes ----------

  /** The id of the submitted task that carries a component's own dependencies. */
  function CarrierId(jobId: string, n: Node): string {
    if n.IsModification() then GenExtendTaskId(GenTaskId(jobId, n.id)) else GenTaskId(jobId, n.id)
  }

  lemma TaskEdgeMeaning(env: Env, jobId: string, nodes: seq<Node>, tasks: seq<Task>, renamed: seq<Task>,
                        out: seq<Task>, x: string, y: string)
    returns (k: nat)
    requires Renders(env, jobId, nodes, tasks, renamed, out) && HasStep(TaskEdges(out), x, y)
    ensures k < |tasks| && !tasks[k].node.IsPad()
    ensures var n := tasks[k].node;
            || (n.IsModification() && x == GenTaskId(jobId, n.id) && y == GenExtendTaskId(x))
            || (x == CarrierId(jobId, n) && exists d :: DependsOn(ScopeOf(env, jobId, nodes, tasks), n.inputs, d) && y == GenTaskId(jobId, d))
  {
    hide RenderJob, RenderTasks, RenameTasks, GenTaskId, GenExtendTaskId, DependsOn;
    var f :| f in out && f.taskId == x && y in f.dependencies;
    Members(env, jobId, nodes, tasks, renamed, out, f);
    k :| 0 <= k < |tasks| && !tasks[k].node.IsPad() && Made(env, renamed[k], f);
    RenamedFacts(env, jobId, nodes, tasks, renamed, out, k);
  }

  /** The extra and the base task of a modification component, and what they depend on. */
  lemma SplitEdges(env: Env, jobId: string, nodes: seq<Node>, tasks: seq<Task>, renamed: seq<Task>, out: seq<Task>,
                   k: nat, x: string)
    requires Renders(env, jobId, nodes, tasks, renamed, out) && k < |tasks| == |renamed| && !tasks[k].node.IsPad()
    requires x in renamed[k].dependencies
    ensures HasStep(TaskEdges(out), CarrierId(jobId, tasks[k].node), x)
  {
    hide RenderJob, RenderTasks, RenameTasks, GenTaskId, GenExtendTaskId, DependsOn;
    var own := OwnTask(env, jobId, nodes, tasks, renamed, out, k);
    RenamedFacts(env, jobId, nodes, tasks, renamed, out, k);
    var f := if tasks[k].node.IsModification() then ExtraTask(env, renamed[k]) else renamed[k];
    assert Made(env, renamed[k], f);
    Members(env, jobId, nodes, tasks, renamed, out, f);
  }

  lemma BaseEdge(env: Env, jobId: string, nodes: seq<Node>, tasks: seq<Task>, renamed: seq<Task>, out: seq<Task>,
                 k: nat)
    requires Renders(env, jobId, nodes, tasks, renamed, out) && k < |tasks| && tasks[k].node.IsModification() && !tasks[k].node.IsPad()
    ensures HasStep(TaskEdges(out), GenTaskId(jobId, tasks[k].node.id), GenExtendTaskId(GenTaskId(jobId, tasks[k].node.id)))
  {
    hide RenderJob, RenderTasks, RenameTasks, GenTaskId, GenExtendTaskId, DependsOn;
    var own := OwnTask(env, jobId, nodes, tasks, renamed, out, k);
    RenamedFacts(env, jobId, nodes, tasks, renamed, out, k);
    assert own.dependencies == [GenExtendTaskId(renamed[k].taskId)];
  }

  /** `x` is the id of a task of component `n`. */
  ghost predicate Represents(jobId: string, tasks: seq<Task>, x: string, n: string) {
    exists k :: 0 <= k < |tasks| && !tasks[k].node.IsPad() && tasks[k].node.id == n
                && (x == GenTaskId(jobId, n) || (tasks[k].node.IsModification() && x == GenExtendTaskId(GenTaskId(jobId, n))))
  }

  lemma RepresentsOne(jobId: string, tasks: seq<Task>, x: string, n: string, m: string)
    requires Unambiguous(tasks) && Represents(jobId, tasks, x, n) && Represents(jobId, tasks, x, m)
    ensures n == m
  {
    hide GenTaskId, GenExtendTaskId;
    TaskIdInjective(jobId, n, m);
    TaskIdInjective(jobId, m, n);
  }

  /** A dependency of a component is itself represented by the id it is wired to. */
  lemma DependencyIsRepresented(env: Env, jobId: string, nodes: seq<Node>, tasks: seq<Task>, k: nat, d: string)
    requires FromGraph(jobId, nodes, tasks) && k < |tasks| && !tasks[k].node.IsPad()
    requires DependsOn(ScopeOf(env, jobId, nodes, tasks), tasks[k].node.inputs, d)
    ensures Represents(jobId, tasks, GenTaskId(jobId, d), d)
    ensures HasStep(NodeEdges(ScopeOf(env, jobId, nodes, tasks), tasks), tasks[k].node.id, d)
  {
    hide GenTaskId, FromSelected;
    var i :| 0 <= i < |tasks[k].node.inputs| && FromSelected(ScopeOf(env, jobId, nodes, tasks), tasks[k].node.inputs[i], d);
    var j := SelectedTask(env, jobId, nodes, tasks, tasks[k].node.inputs[i], d);
    assert tasks[k] in tasks;
  }

  /** Where a walk from a task of `n` to `x` has come to, in terms of components. */
  ghost predicate CameTo(jobId: string, tasks: seq<Task>, edges: Edges, first: string, n: string, x: string,
                         m: string) {
    && Represents(jobId, tasks, first, n) && Represents(jobId, tasks, x, m)
    && (Strict(edges, n, m) || (n == m && first == GenTaskId(jobId, n) && x == GenExtendTaskId(first)))
  }

  lemma OneStep(env: Env, jobId: string, nodes: seq<Node>, tasks: seq<Task>, renamed: seq<Task>, out: seq<Task>,
                x: string, y: string)
    returns (n: string, m: string)
    requires Renders(env, jobId, nodes, tasks, renamed, out) && HasStep(TaskEdges(out), x, y)
    ensures CameTo(jobId, tasks, NodeEdges(ScopeOf(env, jobId, nodes, tasks), tasks), x, n, y, m)
    ensures || HasStep(NodeEdges(ScopeOf(env, jobId, nodes, tasks), tasks), n, m)
            || (n == m && x == GenTaskId(jobId, n) && y == GenExtendTaskId(x))
  {
    hide RenderJob, RenderTasks, RenameTasks, GenTaskId, GenExtendTaskId, DependsOn, Strict, NodeEdges, TaskEdges;
    var k := TaskEdgeMeaning(env, jobId, nodes, tasks, renamed, out, x, y);
    var sc, edges := ScopeOf(env, jobId, nodes, tasks), NodeEdges(ScopeOf(env, jobId, nodes, tasks), tasks);
    n := tasks[k].node.id;
    assert Represents(jobId, tasks, x, n);
    if tasks[k].node.IsModification() && x == GenTaskId(jobId, n) && y == GenExtendTaskId(x) {
      m := n;
    } else {
      m :| DependsOn(sc, tasks[k].node.inputs, m) && y == GenTaskId(jobId, m);
      DependencyIsRepresented(env, jobId, nodes, tasks, k, m);
      StepIsStrict(edges, n, m);
    }
  }

  /** A walk along task dependencies is a walk along component dependencies, except inside one split component. */
  lemma {:induction false} TaskWalk(env: Env, jobId: string, nodes: seq<Node>, tasks: seq<Task>, renamed: seq<Task>,
                                    out: seq<Task>, p: seq<string>)
    returns (n: string, m: string)
    requires Renders(env, jobId, nodes, tasks, renamed, out) && Unambiguous(tasks)
    requires Walk(TaskEdges(out), p) && |p| >= 2
    ensures CameTo(jobId, tasks, NodeEdges(ScopeOf(env, jobId, nodes, tasks), tasks), p[0], n, p[|p| - 1], m)
    decreases |p|
  {
    hide Renders, GenTaskId, GenExtendTaskId, Strict, NodeEdges, TaskEdges, Represents, Unambiguous;
    var edges := NodeEdges(ScopeOf(env, jobId, nodes, tasks), tasks);
    var last := |p| - 1;
    LastStep(TaskEdges(out), p);
    var z, y := p[last - 1], p[last];
    var m', d := OneStep(env, jobId, nodes, tasks, renamed, out, z, y);
    if |p| == 2 {
      n, m := m', d;
    } else {
      var init := p[..last];
      n, m := TaskWalk(env, jobId, nodes, tasks, renamed, out, init);
      assert init[0] == p[0] && init[|init| - 1] == z;
      RepresentsOne(jobId, tasks, z, m, m');
      TaskIdInjective(jobId, n, n);
      if HasStep(edges, m, d) {
        if Strict(edges, n, m) {
          StrictThenStep(edges, n, m, d);
        } else {
          StepIsStrict(edges, n, d);
        }
      }
      m := d;
    }
  }

  /** A component dependency is a walk along task dependencies. */
  lemma NodeStep(env: Env, jobId: string, nodes: seq<Node>, tasks: seq<Task>, renamed: seq<Task>, out: seq<Task>,
                 n: string, d: string)
    requires Renders(env, jobId, nodes, tasks, renamed, out)
    requires HasStep(NodeEdges(ScopeOf(env, jobId, nodes, tasks), tasks), n, d)
    ensures Strict(TaskEdges(out), GenTaskId(jobId, n), GenTaskId(jobId, d))
  {
    hide RenderJob, RenderTasks, RenameTasks, GenTaskId, GenExtendTaskId, DependsOn, Strict, TaskEdges, RenderInputsOf;
    var sc := ScopeOf(env, jobId, nodes, tasks);
    var t :| t in tasks && !t.node.IsPad() && DependsOn(sc, t.node.inputs, d) && t.node.id == n;
    var k :| 0 <= k < |tasks| && tasks[k] == t;
    RenamedFacts(env, jobId, nodes, tasks, renamed, out, k);
    SplitEdges(env, jobId, nodes, tasks, renamed, out, k, GenTaskId(jobId, d));
    if t.node.IsModification() {
      BaseEdge(env, jobId, nodes, tasks, renamed, out, k);
      StepIsStrict(TaskEdges(out), GenTaskId(jobId, n), GenExtendTaskId(GenTaskId(jobId, n)));
      StrictThenStep(TaskEdges(out), GenTaskId(jobId, n), GenExtendTaskId(GenTaskId(jobId, n)), GenTaskId(jobId, d));
    } else {
      StepIsStrict(TaskEdges(out), GenTaskId(jobId, n), GenTaskId(jobId, d));
    }
  }

  lemma {:induction false} NodeWalk(env: Env, jobId: string, nodes: seq<Node>, tasks: seq<Task>, renamed: seq<Task>,
                                    out: seq<Task>, p: seq<string>)
    requires Renders(env, jobId, nodes, tasks, renamed, out)
    requires Walk(NodeEdges(ScopeOf(env, jobId, nodes, tasks), tasks), p) && |p| >= 2
    ensures Strict(TaskEdges(out), GenTaskId(jobId, p[0]), GenTaskId(jobId, p[|p| - 1]))
    decreases |p|
  {
    hide Renders, GenTaskId, Strict, NodeEdges, TaskEdges;
    var n := |p| - 1;
    LastStep(NodeEdges(ScopeOf(env, jobId, nodes, tasks), tasks), p);
    NodeStep(env, jobId, nodes, tasks, renamed, out, p[n - 1], p[n]);
    if |p| > 2 {
      NodeWalk(env, jobId, nodes, tasks, renamed, out, p[..n]);
      StrictThenStrict(TaskEdges(out), GenTaskId(jobId, p[0]), GenTaskId(jobId, p[n - 1]), GenTaskId(jobId, p[n]));
    }
  }

  /** The submitted tasks form a cycle exactly when the selected components do: the split adds none and hides none. */
  lemma CyclicIff(env: Env, jobId: string, nodes: seq<Node>, tasks: seq<Task>, out: seq<Task>)
    requires FromGraph(jobId, nodes, tasks) && RenderJob(env, jobId, nodes, tasks) == Ok(out) && Unambiguous(tasks)
    ensures Cyclic(TaskEdges(out)) <==> Cyclic(NodeEdges(ScopeOf(env, jobId, nodes, tasks), tasks))
  {
    hide Renders, GenTaskId, GenExtendTaskId, Strict, NodeEdges, TaskEdges, Represents, Unambiguous, FromGraph,
         RenderJob;
    var renamed := RendersExists(env, jobId, nodes, tasks, out);
    var edges := NodeEdges(ScopeOf(env, jobId, nodes, tasks), tasks);
    CyclicIffStrict(edges);
    CyclicIffStrict(TaskEdges(out));
    if Cyclic(TaskEdges(out)) {
      var p :| Walk(TaskEdges(out), p) && |p| >= 2 && p[0] == p[|p| - 1];
      var n, m := TaskWalk(env, jobId, nodes, tasks, renamed, out, p);
      RepresentsOne(jobId, tasks, p[0], n, m);
      TaskIdInjective(jobId, n, n);
    }
    if Cyclic(edges) {
      var p :| Walk(edges, p) && |p| >= 2 && p[0] == p[|p| - 1];
      NodeWalk(env, jobId, nodes, tasks, renamed, out, p);
    }
  }

  // ---------- data flow ----------

  /** The output survives the split: a modification component keeps its first two outputs only. */
  predicate Kept(n: Node, o: string) {
    if n.IsModification() then |n.outputs| >= 2 && (o == n.outputs[0] || o == n.outputs[1]) else o in n.outputs
  }

  /** Some submitted task produces `data`. */
  ghost predicate Produced(out: seq<Task>, data: string) {
    exists g :: g in out && data in g.node.outputs
  }

  /** Some submitted task that `x` waits for, directly or indirectly, produces `data`. */
  ghost predicate ProducedFor(out: seq<Task>, x: string, data: string) {
    exists g :: g in out && data in g.node.outputs && Strict(TaskEdges(out), x, g.taskId)
  }

  predicate IsTaskIdOf(jobId: string, n: Node, x: string) {
    x == GenTaskId(jobId, n.id) || (n.IsModification() && x == GenExtendTaskId(GenTaskId(jobId, n.id)))
  }

  /** The tasks of a component produce exactly its kept outputs, under their new names. */
  lemma TaskOutputs(env: Env, jobId: string, nodes: seq<Node>, tasks: seq<Task>, renamed: seq<Task>, out: seq<Task>,
                    k: nat, o: string)
    requires Renders(env, jobId, nodes, tasks, renamed, out) && k < |tasks| && !tasks[k].node.IsPad()
    ensures |renamed| == |tasks|
    ensures Kept(tasks[k].node, o) <==> exists g :: Made(env, renamed[k], g) && GenTaskOutputId(jobId, o) in g.node.outputs
    ensures forall g :: Made(env, renamed[k], g) ==> g in out && IsTaskIdOf(jobId, tasks[k].node, g.taskId)
  {
    hide RenderJob, RenderTasks, RenameTasks, GenTaskId, GenTaskOutputId, GenExtendTaskId, DependsOn;
    var own := OwnTask(env, jobId, nodes, tasks, renamed, out, k);
    RenamedFacts(env, jobId, nodes, tasks, renamed, out, k);
    forall g | Made(env, renamed[k], g) ensures g in out {
      Members(env, jobId, nodes, tasks, renamed, out, g);
    }
    var n := tasks[k].node;
    forall i | 0 <= i < |n.outputs| ensures renamed[k].node.outputs[i] == GenTaskOutputId(jobId, o) <==> n.outputs[i] == o {
      OutputIdInjective(jobId, n.outputs[i], o);
    }
    if n.IsModification() {
      assert Made(env, renamed[k], ExtraTask(env, renamed[k])) && Made(env, renamed[k], BaseTask(renamed[k]));
      assert GenTaskOutputId(jobId, n.outputs[0]) in ExtraTask(env, renamed[k]).node.outputs;
      assert GenTaskOutputId(jobId, n.outputs[1]) in BaseTask(renamed[k]).node.outputs;
    } else {
      assert Made(env, renamed[k], renamed[k]);
      if o in n.outputs {
        var i :| 0 <= i < |n.outputs| && n.outputs[i] == o;
        assert renamed[k].node.outputs[i] in renamed[k].node.outputs;
      }
    }
  }

  lemma OutputIdInjective(jobId: string, a: string, b: string)
    ensures GenTaskOutputId(jobId, a) == GenTaskOutputId(jobId, b) <==> a == b
  {
    if GenTaskOutputId(jobId, a) == GenTaskOutputId(jobId, b) {
      PrefixCancel(jobId + "-", a, b);
    }
  }

  /** The producers of an anchor among the submitted tasks all stem from the component that produces it in the graph. */
  lemma UniqueProducer(env: Env, jobId: string, nodes: seq<Node>, tasks: seq<Task>, renamed: seq<Task>,
                       out: seq<Task>, j: nat, a: string, g: Task)
    requires Renders(env, jobId, nodes, tasks, renamed, out) && WellDeclared(nodes)
    requires j < |tasks| && !tasks[j].node.IsPad() && ProducerOf(nodes, a) == Some(tasks[j].node)
    requires g in out && GenTaskOutputId(jobId, a) in g.node.outputs
    ensures Kept(tasks[j].node, a) && g.node.id == tasks[j].node.id
  {
    hide RenderJob, RenderTasks, RenameTasks, GenTaskId, GenTaskOutputId, GenExtendTaskId, DependsOn, ProducerOf, Kept;
    Members(env, jobId, nodes, tasks, renamed, out, g);
    var k :| 0 <= k < |tasks| && !tasks[k].node.IsPad() && Made(env, renamed[k], g);
    RenamedFacts(env, jobId, nodes, tasks, renamed, out, k);
    TaskOutputs(env, jobId, nodes, tasks, renamed, out, k, a);
    KeptIsDeclared(tasks[k].node, a);
    NodeByIdMeaning(nodes, tasks[k].node.id);
    DeclaredProducer(nodes, tasks[k].node, a);
  }

  lemma KeptIsDeclared(n: Node, o: string)
    requires Kept(n, o)
    ensures o in n.outputs
  {
  }

  /** `f` takes over the inputs of component k: its only task, or the identity task of a split. */
  ghost predicate Carries(env: Env, renamed: seq<Task>, k: nat, f: Task)
    requires k < |renamed|
  {
    Made(env, renamed[k], f) && f.dependencies == renamed[k].dependencies && f.node.inputs == renamed[k].node.inputs
  }

  /** What the tasks read at each position, in terms of what the graph connects there. */
  lemma RenamedInput(env: Env, jobId: string, nodes: seq<Node>, tasks: seq<Task>, renamed: seq<Task>, out: seq<Task>,
                     k: nat, i: nat)
    requires Renders(env, jobId, nodes, tasks, renamed, out) && k < |tasks| && !tasks[k].node.IsPad() && i < |tasks[k].node.inputs|
    ensures |renamed| == |tasks| && |renamed[k].node.inputs| == |tasks[k].node.inputs|
    ensures var r := RenderInput(ScopeOf(env, jobId, nodes, tasks), tasks[k].node.inputs[i]);
            r.Ok? && renamed[k].node.inputs[i] == if Declares(tasks, r.value.input) then GenTaskOutputId(jobId, r.value.input) else r.value.input
  {
    hide RenderJob, RenderTasks, FromGraph, RenderInputsOf, RenderInput, GenTaskOutputId, GenTaskId, SelectedIds;
    var sc := ScopeOf(env, jobId, nodes, tasks);
    RenderedAt(sc, tasks, k);
    WiringMeaning(sc, tasks[k].node.inputs);
    SameDeclarations(sc, tasks, RenderInput(sc, tasks[k].node.inputs[i]).value.input);
  }

  lemma SameDeclarations(sc: Scope, tasks: seq<Task>, o: string)
    requires RenderTasks(sc, tasks).Ok?
    ensures Declares(RenderTasks(sc, tasks).value, o) <==> Declares(tasks, o)
  {
    hide RenderTasks, RenderInputsOf;
    var wired := RenderTasks(sc, tasks).value;
    forall k | 0 <= k < |tasks| ensures wired[k].node.outputs == tasks[k].node.outputs {
      RenderedAt(sc, tasks, k);
    }
    if Declares(tasks, o) {
      var t :| t in tasks && o in t.node.outputs;
      var k :| 0 <= k < |tasks| && tasks[k] == t;
      assert wired[k] in wired;
    }
    if Declares(wired, o) {
      var t :| t in wired && o in t.node.outputs;
      var k :| 0 <= k < |wired| && wired[k] == t;
      assert tasks[k] in tasks;
    }
  }

  /**
   Data flow from a selected component: at each position the task carrying a component's inputs reads the new
   name of the anchor it was connected to, and a task it waits for produces that name (exactly) when the output
   survives the split. No task of another component produces it.
   */
  lemma FlowIff(env: Env, jobId: string, nodes: seq<Node>, tasks: seq<Task>, renamed: seq<Task>, out: seq<Task>,
                k: nat, i: nat, f: Task, j: nat)
    requires Renders(env, jobId, nodes, tasks, renamed, out) && WellDeclared(nodes)
    requires k < |tasks| == |renamed| && !tasks[k].node.IsPad() && Carries(env, renamed, k, f) && i < |tasks[k].node.inputs|
    requires j < |tasks| && !tasks[j].node.IsPad()
    requires tasks[k].node.inputs[i] in tasks[j].node.outputs
    ensures f in out && |f.node.inputs| == |tasks[k].node.inputs|
    ensures f.node.inputs[i] == GenTaskOutputId(jobId, tasks[k].node.inputs[i])
    ensures ProducedFor(out, f.taskId, f.node.inputs[i]) <==> Kept(tasks[j].node, tasks[k].node.inputs[i])
    ensures Produced(out, f.node.inputs[i]) <==> Kept(tasks[j].node, tasks[k].node.inputs[i])
    ensures forall g :: g in out && f.node.inputs[i] in g.node.outputs ==> g.node.id == tasks[j].node.id
  {
    hide Renders, WellDeclared, GenTaskId, GenTaskOutputId, GenExtendTaskId, DependsOn, ProducerOf, Kept, Made,
         Strict, TaskEdges, NodeEdges;
    var a, sc := tasks[k].node.inputs[i], ScopeOf(env, jobId, nodes, tasks);
    Members(env, jobId, nodes, tasks, renamed, out, f);
    RenamedInput(env, jobId, nodes, tasks, renamed, out, k, i);
    ConnectedProducer(env, jobId, nodes, tasks, renamed, out, j, a);
    assert Declares(tasks, a) by { assert tasks[j] in tasks; }
    assert RenderInput(sc, a).value.input == a;
    forall g | g in out && GenTaskOutputId(jobId, a) in g.node.outputs ensures Kept(tasks[j].node, a) && g.node.id == tasks[j].node.id {
      UniqueProducer(env, jobId, nodes, tasks, renamed, out, j, a, g);
    }
    if Kept(tasks[j].node, a) {
      TaskOutputs(env, jobId, nodes, tasks, renamed, out, j, a);
      var g :| Made(env, renamed[j], g) && GenTaskOutputId(jobId, a) in g.node.outputs;
      CarrierWaits(env, jobId, nodes, tasks, renamed, out, k, i, f, j, g);
    }
  }

  lemma ConnectedProducer(env: Env, jobId: string, nodes: seq<Node>, tasks: seq<Task>, renamed: seq<Task>,
                          out: seq<Task>, j: nat, a: string)
    requires Renders(env, jobId, nodes, tasks, renamed, out) && WellDeclared(nodes)
    requires j < |tasks| && !tasks[j].node.IsPad() && a in tasks[j].node.outputs
    ensures ProducerOf(nodes, a) == Some(tasks[j].node)
    ensures FromSelected(ScopeOf(env, jobId, nodes, tasks), a, tasks[j].node.id)
    ensures RenderInput(ScopeOf(env, jobId, nodes, tasks), a) == Ok(RenderedInput(a, Some(GenTaskId(jobId, tasks[j].node.id))))
  {
    hide RenderJob, RenderTasks, RenameTasks, ProducerOf, GenTaskId;
    NodeByIdMeaning(nodes, tasks[j].node.id);
    DeclaredProducer(nodes, tasks[j].node, a);
    assert tasks[j] in tasks;
  }

  lemma CarrierWaits(env: Env, jobId: string, nodes: seq<Node>, tasks: seq<Task>, renamed: seq<Task>,
                       out: seq<Task>, k: nat, i: nat, f: Task, j: nat, g: Task)
    requires Renders(env, jobId, nodes, tasks, renamed, out) && k < |tasks| == |renamed| && !tasks[k].node.IsPad()
    requires Carries(env, renamed, k, f) && i < |tasks[k].node.inputs| && j < |tasks| && !tasks[j].node.IsPad()
    requires FromSelected(ScopeOf(env, jobId, nodes, tasks), tasks[k].node.inputs[i], tasks[j].node.id)
    requires Made(env, renamed[j], g)
    ensures g in out && Strict(TaskEdges(out), f.taskId, g.taskId)
  {
    hide RenderJob, RenderTasks, RenameTasks, GenTaskId, GenExtendTaskId, GenTaskOutputId, FromSelected, Strict,
         Kept, Made;
    var d := GenTaskId(jobId, tasks[j].node.id);
    assert DependsOn(ScopeOf(env, jobId, nodes, tasks), tasks[k].node.inputs, tasks[j].node.id);
    RenamedFacts(env, jobId, nodes, tasks, renamed, out, k);
    assert d in f.dependencies;
    Members(env, jobId, nodes, tasks, renamed, out, f);
    assert HasStep(TaskEdges(out), f.taskId, d);
    hide TaskEdges, DependsOn, HasStep;
    StepIsStrict(TaskEdges(out), f.taskId, d);
    TaskOutputs(env, jobId, nodes, tasks, renamed, out, j, "");
    if g.taskId != d {
      BaseEdge(env, jobId, nodes, tasks, renamed, out, j);
      StrictThenStep(TaskEdges(out), f.taskId, d, g.taskId);
    }
  }

  /** Every other input is external: a datatable, or the output of an earlier run. Its id is passed on as it is. */
  lemma ExternalFlow(env: Env, jobId: string, nodes: seq<Node>, tasks: seq<Task>, renamed: seq<Task>, out: seq<Task>,
                     k: nat, i: nat, f: Task)
    requires Renders(env, jobId, nodes, tasks, renamed, out) && k < |tasks| == |renamed| && !tasks[k].node.IsPad()
    requires Carries(env, renamed, k, f) && i < |tasks[k].node.inputs|
    requires forall d :: !FromSelected(ScopeOf(env, jobId, nodes, tasks), tasks[k].node.inputs[i], d)
    ensures |f.node.inputs| == |tasks[k].node.inputs| && ProducerOf(nodes, tasks[k].node.inputs[i]).Some?
    ensures var p := ProducerOf(nodes, tasks[k].node.inputs[i]).value;
            var external := if !p.IsPad() then
                              (if p.id in env.latest then GenTaskOutputId(env.latest[p.id], tasks[k].node.inputs[i]) else "")
                            else if env.teeNodeId != "" then env.teeNodeId + "-" + p.def.DatatableId() else p.def.DatatableId();
            && (!p.IsPad() ==> p.id in env.latest)
            && (!Declares(tasks, external) ==> f.node.inputs[i] == external)
  {
    hide Renders, ProducerOf, GenTaskOutputId, Declares, GenTaskId;
    RenamedInput(env, jobId, nodes, tasks, renamed, out, k, i);
    var sc, a := ScopeOf(env, jobId, nodes, tasks), tasks[k].node.inputs[i];
    var p := ProducerOf(nodes, a).value;
    assert !FromSelected(sc, a, p.id);
  }

  /** Modification components declare exactly the two outputs that their tasks keep. */
  ghost predicate TwoOutputs(nodes: seq<Node>) {
    forall n :: n in nodes && n.IsModification() ==> |n.outputs| == 2
  }

  /** In such graphs every connection between selected components survives rendering. */
  lemma FlowPreserved(env: Env, jobId: string, nodes: seq<Node>, tasks: seq<Task>, renamed: seq<Task>,
                      out: seq<Task>, k: nat, i: nat, f: Task, j: nat)
    requires Renders(env, jobId, nodes, tasks, renamed, out) && WellDeclared(nodes) && TwoOutputs(nodes)
    requires k < |tasks| == |renamed| && !tasks[k].node.IsPad() && Carries(env, renamed, k, f) && i < |tasks[k].node.inputs|
    requires j < |tasks| && !tasks[j].node.IsPad()
    requires tasks[k].node.inputs[i] in tasks[j].node.outputs
    ensures |f.node.inputs| == |tasks[k].node.inputs| && ProducedFor(out, f.taskId, f.node.inputs[i])
  {
    hide RenderJob, RenderTasks, RenameTasks, WellDeclared, Carries, ProducedFor, Produced;
    FlowIff(env, jobId, nodes, tasks, renamed, out, k, i, f, j);
    NodeByIdMeaning(nodes, tasks[j].node.id);
  }

  /** What an input that no selected component produces is replaced by. */
  ghost predicate ExternalFor(env: Env, nodes: seq<Node>, input: string, external: string) {
    var p := ProducerOf(nodes, input);
    && p.Some?
    && if !p.value.IsPad() then p.value.id in env.latest && external == GenTaskOutputId(env.latest[p.value.id], input)
       else if env.teeNodeId != "" then external == env.teeNodeId + "-" + p.value.def.DatatableId()
       else external == p.value.def.DatatableId()
  }

  /** Every input of a selected component is a declared output, and no external id is mistaken for one. */
  ghost predicate Connected(env: Env, nodes: seq<Node>, tasks: seq<Task>) {
    && (forall t, a :: t in tasks && a in t.node.inputs ==> exists n :: n in nodes && a in n.outputs)
    && (forall t, a, x :: t in tasks && a in t.node.inputs && ExternalFor(env, nodes, a, x) ==> !Declares(tasks, x))
  }

  /** The io/write_data task inserted for a modification component that was edited. */
  ghost predicate IsInsertedWrite(env: Env, r: Task, f: Task) {
    r.node.IsModification() && |r.node.outputs| >= 2 && r.node.def.attrs != [] && f == ExtraTask(env, r)
  }

  lemma MadeKinds(env: Env, renamed: seq<Task>, k: nat, f: Task)
    requires k < |renamed| && Made(env, renamed[k], f) && !IsInsertedWrite(env, renamed[k], f)
    ensures Carries(env, renamed, k, f)
         || (renamed[k].node.IsModification() && |renamed[k].node.outputs| >= 2 && f == BaseTask(renamed[k]))
  {
  }

  /** The base task of a split component waits for the extra task of its component, which writes what it reads. */
  lemma BaseInputFlows(env: Env, jobId: string, nodes: seq<Node>, tasks: seq<Task>, renamed: seq<Task>, out: seq<Task>,
                       k: nat, f: Task)
    requires Renders(env, jobId, nodes, tasks, renamed, out) && k < |tasks| == |renamed| && !tasks[k].node.IsPad()
    requires renamed[k].node.IsModification() && |renamed[k].node.outputs| >= 2 && f == BaseTask(renamed[k])
    ensures |f.node.inputs| == 1 && ProducedFor(out, f.taskId, f.node.inputs[0])
  {
    hide RenderJob, RenderTasks, RenameTasks, GenTaskId, GenExtendTaskId, GenTaskOutputId, Strict, Walk;
    var g := ExtraTask(env, renamed[k]);
    assert Made(env, renamed[k], f) && Made(env, renamed[k], g);
    Members(env, jobId, nodes, tasks, renamed, out, f);
    Members(env, jobId, nodes, tasks, renamed, out, g);
    assert g.taskId in f.dependencies;
    assert HasStep(TaskEdges(out), f.taskId, g.taskId);
    StepIsStrict(TaskEdges(out), f.taskId, g.taskId);
    assert f.node.inputs[0] in g.node.outputs;
  }

  lemma CarriedInputFlows(env: Env, jobId: string, nodes: seq<Node>, tasks: seq<Task>, renamed: seq<Task>, out: seq<Task>,
                          k: nat, i: nat, f: Task)
    requires Renders(env, jobId, nodes, tasks, renamed, out) && WellDeclared(nodes) && TwoOutputs(nodes)
    requires Connected(env, nodes, tasks)
    requires k < |tasks| == |renamed| && !tasks[k].node.IsPad() && Carries(env, renamed, k, f) && i < |f.node.inputs|
    ensures |f.node.inputs| == |tasks[k].node.inputs|
    ensures ExternalFor(env, nodes, tasks[k].node.inputs[i], f.node.inputs[i]) || ProducedFor(out, f.taskId, f.node.inputs[i])
  {
    hide RenderJob, RenderTasks, RenameTasks, GenTaskId, GenTaskOutputId, Made, ProducedFor, Declares, ProducerOf;
    RenamedFacts(env, jobId, nodes, tasks, renamed, out, k);
    InputCount(env, jobId, nodes, tasks, renamed, out, k);
    var sc, a := ScopeOf(env, jobId, nodes, tasks), tasks[k].node.inputs[i];
    assert tasks[k] in tasks && a in tasks[k].node.inputs;
    if exists d :: FromSelected(sc, a, d) {
      var d :| FromSelected(sc, a, d);
      var j := SelectedTask(env, jobId, nodes, tasks, a, d);
      DeclaredBySelected(nodes, tasks, a, j);
      FlowPreserved(env, jobId, nodes, tasks, renamed, out, k, i, f, j);
    } else {
      ExternalFlow(env, jobId, nodes, tasks, renamed, out, k, i, f);
      ExternalIsExternal(env, nodes, tasks, a);
    }
  }

  lemma InputCount(env: Env, jobId: string, nodes: seq<Node>, tasks: seq<Task>, renamed: seq<Task>, out: seq<Task>, k: nat)
    requires Renders(env, jobId, nodes, tasks, renamed, out) && k < |tasks| && !tasks[k].node.IsPad()
    ensures |renamed| == |tasks| && |renamed[k].node.inputs| == |tasks[k].node.inputs|
  {
    hide RenderJob, RenderTasks, FromGraph, RenderInputsOf, GenTaskOutputId, GenTaskId, SelectedIds, RenameOutput;
    var sc := ScopeOf(env, jobId, nodes, tasks);
    RenderedAt(sc, tasks, k);
    WiringMeaning(sc, tasks[k].node.inputs);
  }

  /** The selected producer of a declared anchor declares it. */
  lemma DeclaredBySelected(nodes: seq<Node>, tasks: seq<Task>, a: string, j: nat)
    requires WellDeclared(nodes) && j < |tasks| && ProducerOf(nodes, a) == Some(tasks[j].node)
    requires exists n :: n in nodes && a in n.outputs
    ensures a in tasks[j].node.outputs
  {
    hide ProducerOf;
    var n :| n in nodes && a in n.outputs;
    DeclaredProducer(nodes, n, a);
  }

  lemma ExternalIsExternal(env: Env, nodes: seq<Node>, tasks: seq<Task>, a: string)
    requires ProducerOf(nodes, a).Some?
    ensures var p := ProducerOf(nodes, a).value;
            var external := if !p.IsPad() then (if p.id in env.latest then GenTaskOutputId(env.latest[p.id], a) else "")
                            else if env.teeNodeId != "" then env.teeNodeId + "-" + p.def.DatatableId() else p.def.DatatableId();
            (!p.IsPad() ==> p.id in env.latest) ==> ExternalFor(env, nodes, a, external)
  {
    hide ProducerOf, GenTaskOutputId;
  }

  /**
   The whole flow: every input of every submitted task, in its place, is external or is produced by a task that it
   waits for, directly or indirectly. Only the input of an inserted io/write_data task is its own affair.
   */
  lemma EveryInputFlows(env: Env, jobId: string, nodes: seq<Node>, tasks: seq<Task>, renamed: seq<Task>, out: seq<Task>,
                        k: nat, i: nat, f: Task)
    requires Renders(env, jobId, nodes, tasks, renamed, out) && WellDeclared(nodes) && TwoOutputs(nodes)
    requires Connected(env, nodes, tasks)
    requires k < |tasks| == |renamed| && !tasks[k].node.IsPad() && Made(env, renamed[k], f) && i < |f.node.inputs|
    requires !IsInsertedWrite(env, renamed[k], f)
    ensures || ProducedFor(out, f.taskId, f.node.inputs[i])
            || (i < |tasks[k].node.inputs| && ExternalFor(env, nodes, tasks[k].node.inputs[i], f.node.inputs[i]))
  {
    hide Renders, WellDeclared, TwoOutputs, Connected, Made, Carries, ProducedFor, IsInsertedWrite, ExternalFor;
    MadeKinds(env, renamed, k, f);
    if Carries(env, renamed, k, f) {
      CarriedInputFlows(env, jobId, nodes, tasks, renamed, out, k, i, f);
    } else {
      BaseInputFlows(env, jobId, nodes, tasks, renamed, out, k, f);
    }
  }

  // ---------- a graph in which a connection is lost ----------

  const THREE_OUTPUTS := Node("m", "c", [], ["x", "y", "z"], NodeDef("d", BINNING_MODIFICATIONS, "", [], [], ""))
  const READER := Node("r", "c", ["z"], ["w"], NodeDef("d", "n", "", [], [], ""))
  const LOSSY_GRAPH := [THREE_OUTPUTS, READER]
  const LOSSY_TASKS := [Task(GenTaskId("j", "m"), [], [], THREE_OUTPUTS), Task(GenTaskId("j", "r"), [], [], READER)]

  lemma LossyNodes()
    ensures THREE_OUTPUTS.id == "m" && READER.id == "r" && !THREE_OUTPUTS.IsPad() && !READER.IsPad()
    ensures THREE_OUTPUTS.IsModification() && !READER.IsModification()
    ensures WellDeclared(LOSSY_GRAPH) && FromGraph("j", LOSSY_GRAPH, LOSSY_TASKS)
    ensures ProducerOf(LOSSY_GRAPH, "z") == Some(THREE_OUTPUTS)
  {
    assert THREE_OUTPUTS.IsModification();
    assert !THREE_OUTPUTS.IsPad() by {
      if THREE_OUTPUTS.IsPad() {
        PadIsNoModification(THREE_OUTPUTS);
      }
    }
    assert READER.def.CompId()[0] == 'd' && READ_DATATABLE[0] == 'r' && READ_MODEL[0] == 'm';
    assert THREE_OUTPUTS.id != READER.id by { assert "m"[0] != "r"[0]; }
    assert "w" !in THREE_OUTPUTS.outputs by { assert "w"[0] != "x"[0] && "w"[0] != "y"[0] && "w"[0] != "z"[0]; }
    assert |READER.def.name| == 1;
    assert LOSSY_GRAPH[..1] == [THREE_OUTPUTS];
    DeclaredProducer(LOSSY_GRAPH, THREE_OUTPUTS, "z");
  }

  lemma OneInput(sc: Scope, input: string)
    ensures RenderInputsOf(sc, []).Ok?
    ensures RenderInput(sc, input).Ok? ==> RenderInputsOf(sc, [input]).Ok?
  {
    hide RenderInput;
    assert [input][..0] == [];
  }

  lemma LossyTasksRender(env: Env)
    ensures var sc := ScopeOf(env, "j", LOSSY_GRAPH, LOSSY_TASKS);
            RenderTask(sc, LOSSY_TASKS[0]).Ok? && RenderTask(sc, LOSSY_TASKS[1]).Ok?
  {
    hide THREE_OUTPUTS, READER, GenTaskId, FromGraph, ProducerOf, WellDeclared, RenderInputsOf;
    LossyNodes();
    LossyLists();
    var sc := ScopeOf(env, "j", LOSSY_GRAPH, LOSSY_TASKS);
    assert LOSSY_TASKS[0] in LOSSY_TASKS;
    assert THREE_OUTPUTS.id in sc.selected;
    assert RenderInput(sc, "z").Ok?;
    OneInput(sc, "z");
  }

  lemma LossyRendering(env: Env) returns (renamed: seq<Task>, out: seq<Task>)
    ensures Renders(env, "j", LOSSY_GRAPH, LOSSY_TASKS, renamed, out)
  {
    hide THREE_OUTPUTS, READER, GenTaskId, FromGraph, ProducerOf, WellDeclared;
    LossyNodes();
    LossyLists();
    var sc := ScopeOf(env, "j", LOSSY_GRAPH, LOSSY_TASKS);
    assert LOSSY_TASKS[..1] == [LOSSY_TASKS[0]] && LOSSY_TASKS[..1][..0] == [];
    LossyTasksRender(env);
    assert RenderTasks(sc, LOSSY_TASKS[..1]).Ok?;
    assert RenderTasks(sc, LOSSY_TASKS).Ok?;
    var wired := RenderTasks(sc, LOSSY_TASKS).value;
    RenderedAt(sc, LOSSY_TASKS, 0);
    RenderedAt(sc, LOSSY_TASKS, 1);
    renamed := RenameTasks("j", wired);
    assert renamed[..1] == [renamed[0]] && renamed[..1][..0] == [];
    assert renamed[0].node.IsModification() && |renamed[0].node.outputs| == 3 && !renamed[1].node.IsModification();
    assert SplitTask(env, renamed[0]).Ok? && SplitTask(env, renamed[1]).Ok?;
    assert SplitTasks(env, renamed[..1]).Ok? && SplitTasks(env, renamed).Ok?;
    out := Pruned(SplitTasks(env, renamed).value);
  }

  lemma LossyLists()
    ensures THREE_OUTPUTS.inputs == [] && THREE_OUTPUTS.outputs == ["x", "y", "z"] && READER.inputs == ["z"]
    ensures !Kept(THREE_OUTPUTS, "z")
  {
    assert "z"[0] != "x"[0] && "z"[0] != "y"[0];
  }

  /** The concrete failing input: the reader waits for data that no submitted task will ever produce. */
  lemma ThirdOutputIsLost(env: Env) returns (out: seq<Task>, f: Task)
    ensures RenderJob(env, "j", LOSSY_GRAPH, LOSSY_TASKS) == Ok(out)
    ensures f in out && |f.node.inputs| == 1 && !Produced(out, f.node.inputs[0])
  {
    hide THREE_OUTPUTS, READER, GenTaskId, GenTaskOutputId, RenderJob, RenderTasks, RenameTasks, FromGraph,
         WellDeclared, ProducerOf, Kept, Produced, ProducedFor;
    var renamed;
    renamed, out := LossyRendering(env);
    LossyNodes();
    LossyLists();
    RenamedFacts(env, "j", LOSSY_GRAPH, LOSSY_TASKS, renamed, out, 1);
    f := renamed[1];
    assert Made(env, renamed[1], f);
    FlowIff(env, "j", LOSSY_GRAPH, LOSSY_TASKS, renamed, out, 1, 0, f, 0);
  }
}
