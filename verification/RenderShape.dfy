/** Which tasks a rendered job consists of: their ids, and that every dependency names one of them. */
module RenderShape {
  import opened Options
  import opened Graph
  import opened Render

  /** The tasks that RunGraphJob makes of selected nodes of the graph. */
  ghost predicate FromGraph(jobId: string, nodes: seq<Node>, tasks: seq<Task>) {
    forall k :: 0 <= k < |tasks| ==>
      tasks[k].taskId == GenTaskId(jobId, tasks[k].node.id) && NodeById(nodes, tasks[k].node.id) == Some(tasks[k].node)
  }

  /** A rendering that succeeds, with its tasks before the split. */
  ghost predicate Renders(env: Env, jobId: string, nodes: seq<Node>, tasks: seq<Task>, renamed: seq<Task>,
                          out: seq<Task>) {
    && FromGraph(jobId, nodes, tasks)
    && RenderJob(env, jobId, nodes, tasks) == Ok(out)
    && RenderTasks(ScopeOf(env, jobId, nodes, tasks), tasks).Ok?
    && renamed == RenameTasks(jobId, RenderTasks(ScopeOf(env, jobId, nodes, tasks), tasks).value)
  }

  function ScopeOf(env: Env, jobId: string, nodes: seq<Node>, tasks: seq<Task>): Scope {
    Scope(env, jobId, nodes, SelectedIds(tasks))
  }

  lemma RendersExists(env: Env, jobId: string, nodes: seq<Node>, tasks: seq<Task>,
                      out: seq<Task>) returns (renamed: seq<Task>)
    requires FromGraph(jobId, nodes, tasks) && RenderJob(env, jobId, nodes, tasks) == Ok(out)
    ensures Renders(env, jobId, nodes, tasks, renamed, out)
  {
    hide RenderTasks, RenameTasks, SplitTasks, Pruned, FromGraph;
    renamed := RenameTasks(jobId, RenderTasks(ScopeOf(env, jobId, nodes, tasks), tasks).value);
  }

  // ---------- wiring ----------

  /** Input i of a node with these inputs comes from the selected component `d`. */
  ghost predicate FromSelected(sc: Scope, input: string, d: string) {
    var p := ProducerOf(sc.nodes, input);
    p.Some? && !p.value.IsPad() && p.value.id in sc.selected && p.value.id == d
  }

  ghost predicate DependsOn(sc: Scope, inputs: seq<string>, d: string) {
    exists i :: 0 <= i < |inputs| && FromSelected(sc, inputs[i], d)
  }

  lemma RenderInputDep(sc: Scope, input: string, d: string)
    requires RenderInput(sc, input).Ok?
    ensures RenderInput(sc, input).value.dep == Some(GenTaskId(sc.jobId, d)) <==> FromSelected(sc, input, d)
  {
    hide ProducerOf;
    var p := ProducerOf(sc.nodes, input);
    if p.Some? {
      TaskIdInjective(sc.jobId, p.value.id, d);
    }
    hide GenTaskId;
  }

  ghost predicate SomeDep(sc: Scope, inputs: seq<string>, x: string) {
    exists i :: 0 <= i < |inputs| && RenderInput(sc, inputs[i]).Ok? && RenderInput(sc, inputs[i]).value.dep == Some(x)
  }

  lemma OneMoreDep(sc: Scope, inputs: seq<string>, input: string, x: string)
    ensures SomeDep(sc, inputs + [input], x)
       <==> SomeDep(sc, inputs, x) || (RenderInput(sc, input).Ok? && RenderInput(sc, input).value.dep == Some(x))
  {
    hide RenderInput;
    var all := inputs + [input];
    assert all[|inputs|] == input;
    assert forall i :: 0 <= i < |inputs| ==> all[i] == inputs[i];
  }

  /** Each input is rendered on its own, in its place; the dependencies are the selected producers. */
  lemma {:induction false} WiringMeaning(sc: Scope, inputs: seq<string>)
    requires RenderInputsOf(sc, inputs).Ok?
    ensures var w := RenderInputsOf(sc, inputs).value;
            && |w.inputs| == |inputs|
            && (forall i :: 0 <= i < |inputs| ==>
                  RenderInput(sc, inputs[i]).Ok? && w.inputs[i] == RenderInput(sc, inputs[i]).value.input)
            && (forall x :: x in w.deps <==> SomeDep(sc, inputs, x))
  {
    hide RenderInput, SomeDep;
    if inputs == [] {
      assert forall x :: !SomeDep(sc, [], x) by { NoDeps(sc); }
    } else {
      var n := |inputs| - 1;
      var init := inputs[..n];
      WiringMeaning(sc, init);
      assert inputs == init + [inputs[n]];
      forall x ensures x in RenderInputsOf(sc, inputs).value.deps <==> SomeDep(sc, inputs, x) {
        OneMoreDep(sc, init, inputs[n], x);
      }
    }
  }

  lemma NoDeps(sc: Scope)
    ensures forall x :: !SomeDep(sc, [], x)
  {
  }

  lemma WiredDeps(sc: Scope, inputs: seq<string>, x: string)
    requires RenderInputsOf(sc, inputs).Ok?
    ensures x in RenderInputsOf(sc, inputs).value.deps <==> exists d :: DependsOn(sc, inputs, d) && x == GenTaskId(sc.jobId, d)
  {
    hide RenderInput, RenderInputsOf, GenTaskId, FromSelected;
    WiringMeaning(sc, inputs);
    if x in RenderInputsOf(sc, inputs).value.deps {
      var i :| 0 <= i < |inputs| && RenderInput(sc, inputs[i]).Ok? && RenderInput(sc, inputs[i]).value.dep == Some(x);
      var d := DepNode(sc, inputs[i], x);
      assert DependsOn(sc, inputs, d);
    }
    if exists d :: DependsOn(sc, inputs, d) && x == GenTaskId(sc.jobId, d) {
      var d :| DependsOn(sc, inputs, d) && x == GenTaskId(sc.jobId, d);
      var i :| 0 <= i < |inputs| && FromSelected(sc, inputs[i], d);
      RenderInputDep(sc, inputs[i], d);
    }
  }

  lemma DepNode(sc: Scope, input: string, x: string) returns (d: string)
    requires RenderInput(sc, input).Ok? && RenderInput(sc, input).value.dep == Some(x)
    ensures FromSelected(sc, input, d) && x == GenTaskId(sc.jobId, d)
  {
    hide ProducerOf, GenTaskId;
    d := ProducerOf(sc.nodes, input).value.id;
  }

  lemma {:induction false} RenderedAt(sc: Scope, tasks: seq<Task>, k: nat)
    requires RenderTasks(sc, tasks).Ok? && k < |tasks|
    ensures RenderTask(sc, tasks[k]) == Ok(RenderTasks(sc, tasks).value[k])
  {
    hide RenderTask;
    if k < |tasks| - 1 {
      RenderedAt(sc, tasks[..|tasks| - 1], k);
    }
  }

  /** What the split finds of each task: its identity, its kind, its wiring. */
  lemma RenamedFacts(env: Env, jobId: string, nodes: seq<Node>, tasks: seq<Task>, renamed: seq<Task>, out: seq<Task>,
                     k: nat)
    requires Renders(env, jobId, nodes, tasks, renamed, out) && k < |tasks|
    ensures |renamed| == |tasks|
    ensures renamed[k].taskId == tasks[k].taskId && renamed[k].node.id == tasks[k].node.id
    ensures renamed[k].node.IsPad() == tasks[k].node.IsPad() && renamed[k].node.IsModification() == tasks[k].node.IsModification()
    ensures |renamed[k].node.outputs| == |tasks[k].node.outputs|
    ensures forall i :: 0 <= i < |tasks[k].node.outputs| ==> renamed[k].node.outputs[i] == GenTaskOutputId(jobId, tasks[k].node.outputs[i])
    ensures !tasks[k].node.IsPad() ==>
              forall x :: x in renamed[k].dependencies
                <==> exists d :: DependsOn(ScopeOf(env, jobId, nodes, tasks), tasks[k].node.inputs, d) && x == GenTaskId(jobId, d)
  {
    hide RenderJob, RenderTasks, FromGraph, RenderInputsOf, RenameOutput, GenTaskOutputId, GenTaskId, SelectedIds;
    var sc := ScopeOf(env, jobId, nodes, tasks);
    RenderedAt(sc, tasks, k);
    if !tasks[k].node.IsPad() {
      forall x
        ensures x in renamed[k].dependencies <==> exists d :: DependsOn(sc, tasks[k].node.inputs, d) && x == GenTaskId(jobId, d)
      {
        WiredDeps(sc, tasks[k].node.inputs, x);
      }
    }
  }

  // ---------- members ----------

  /** `f` is one of the tasks that `r` is split into. */
  ghost predicate Made(env: Env, r: Task, f: Task) {
    if !r.node.IsModification() then f == r
    else |r.node.outputs| >= 2 && (f == ExtraTask(env, r) || f == BaseTask(r))
  }

  lemma SplitOne(env: Env, t: Task, f: Task)
    requires SplitTask(env, t).Ok?
    ensures f in SplitTask(env, t).value <==> Made(env, t, f)
    ensures t.node.IsModification() ==> |t.node.outputs| >= 2
  {
    hide ExtraTask, BaseTask;
  }

  ghost predicate Wide(t: Task) {
    t.node.IsModification() ==> |t.node.outputs| >= 2
  }

  lemma {:induction false} SplitMembers(env: Env, tasks: seq<Task>, f: Task)
    requires SplitTasks(env, tasks).Ok?
    ensures f in SplitTasks(env, tasks).value <==> exists k :: 0 <= k < |tasks| && Made(env, tasks[k], f)
    ensures forall k :: 0 <= k < |tasks| ==> Wide(tasks[k])
  {
    hide SplitTask, Made, Wide;
    if tasks != [] {
      var n := |tasks| - 1;
      var init := tasks[..n];
      SplitMembers(env, init, f);
      SplitOne(env, tasks[n], f);
      assert Wide(tasks[n]) by { SplitWide(env, tasks[n]); }
      assert forall k :: 0 <= k < n ==> init[k] == tasks[k];
      if exists k :: 0 <= k < |tasks| && Made(env, tasks[k], f) {
        var k :| 0 <= k < |tasks| && Made(env, tasks[k], f);
        assert k < n ==> Made(env, init[k], f);
      }
      forall k | 0 <= k < |tasks| ensures Wide(tasks[k]) {
        assert k < n ==> Wide(init[k]);
      }
    }
  }

  lemma SplitWide(env: Env, t: Task)
    requires SplitTask(env, t).Ok?
    ensures Wide(t)
  {
    hide ExtraTask, BaseTask;
  }

  lemma {:induction false} PrunedMembers(tasks: seq<Task>, f: Task)
    ensures f in Pruned(tasks) <==> f in tasks && !f.node.IsPad()
  {
    if tasks != [] {
      var n := |tasks| - 1;
      PrunedMembers(tasks[..n], f);
      assert tasks == tasks[..n] + [tasks[n]];
    }
  }

  lemma MadeIsPad(env: Env, r: Task, f: Task)
    requires Made(env, r, f)
    ensures f.node.IsPad() == r.node.IsPad()
  {
    if r.node.IsModification() {
      assert !r.node.IsPad() by {
        if r.node.IsPad() {
          PadIsNoModification(r.node);
        }
      }
      IoIsNoPad(f.node);
    }
  }

  lemma IoIsNoPad(n: Node)
    requires n.def.domain == "io"
    ensures !n.IsPad()
  {
    assert n.def.CompId()[0] == 'i';
    assert READ_DATATABLE[0] == 'r' && READ_MODEL[0] == 'm';
  }

  /** The submitted tasks: what every selected component that is not a platform one was split into. */
  lemma Members(env: Env, jobId: string, nodes: seq<Node>, tasks: seq<Task>, renamed: seq<Task>, out: seq<Task>,
                f: Task)
    requires Renders(env, jobId, nodes, tasks, renamed, out)
    ensures |renamed| == |tasks|
    ensures f in out <==> exists k :: 0 <= k < |tasks| && !tasks[k].node.IsPad() && Made(env, renamed[k], f)
    ensures forall k :: 0 <= k < |tasks| && tasks[k].node.IsModification() ==> |renamed[k].node.outputs| >= 2
  {
    hide RenderTasks, RenameTasks, SplitTasks, Pruned, FromGraph, Made;
    assert out == Pruned(SplitTasks(env, renamed).value);
    SplitMembers(env, renamed, f);
    assert forall k :: 0 <= k < |renamed| ==> Wide(renamed[k]);
    PrunedMembers(SplitTasks(env, renamed).value, f);
    forall k | 0 <= k < |tasks|
      ensures renamed[k].node.IsPad() == tasks[k].node.IsPad() && renamed[k].node.IsModification() == tasks[k].node.IsModification()
    {
      RenamedFacts(env, jobId, nodes, tasks, renamed, out, k);
    }
    forall k | 0 <= k < |tasks| && Made(env, renamed[k], f) ensures f.node.IsPad() == renamed[k].node.IsPad() {
      MadeIsPad(env, renamed[k], f);
    }
  }

  /** A selected producer is one of the tasks, and not a platform one. */
  lemma SelectedTask(env: Env, jobId: string, nodes: seq<Node>, tasks: seq<Task>, input: string,
                     d: string) returns (k: nat)
    requires FromGraph(jobId, nodes, tasks) && FromSelected(ScopeOf(env, jobId, nodes, tasks), input, d)
    ensures k < |tasks| && tasks[k].node.id == d && !tasks[k].node.IsPad() && ProducerOf(nodes, input) == Some(tasks[k].node)
  {
    var p := ProducerOf(nodes, input).value;
    var t :| t in tasks && t.node.id == d;
    k :| 0 <= k < |tasks| && tasks[k] == t;
    OutputOwnerMeaning(nodes, input);
    var owner := OutputOwner(nodes, input);
    NodeByIdMeaning(nodes, if owner.Some? then owner.value else FallbackId(input));
  }

  /** Each component that is not a platform one has a submitted task under its own task id. */
  lemma OwnTask(env: Env, jobId: string, nodes: seq<Node>, tasks: seq<Task>, renamed: seq<Task>, out: seq<Task>,
                k: nat) returns (f: Task)
    requires Renders(env, jobId, nodes, tasks, renamed, out) && k < |tasks| && !tasks[k].node.IsPad()
    ensures |renamed| == |tasks| && |renamed[k].node.outputs| == |tasks[k].node.outputs|
    ensures f in out && f.taskId == GenTaskId(jobId, tasks[k].node.id)
    ensures tasks[k].node.IsModification() ==> |tasks[k].node.outputs| >= 2 && f == BaseTask(renamed[k])
    ensures !tasks[k].node.IsModification() ==> f == renamed[k]
  {
    hide RenderJob, RenderTasks, RenameTasks, GenTaskId, DependsOn;
    RenamedFacts(env, jobId, nodes, tasks, renamed, out, k);
    Members(env, jobId, nodes, tasks, renamed, out, renamed[k]);
    f := if tasks[k].node.IsModification() then BaseTask(renamed[k]) else renamed[k];
    Members(env, jobId, nodes, tasks, renamed, out, f);
    assert Made(env, renamed[k], f);
  }

  ghost predicate ClosedJob(out: seq<Task>) {
    forall f, x :: f in out && x in f.dependencies ==> exists g :: g in out && g.taskId == x
  }

  /** Every dependency of a submitted task names a submitted task. */
  lemma DependenciesAreClosed(env: Env, jobId: string, nodes: seq<Node>, tasks: seq<Task>, out: seq<Task>)
    requires FromGraph(jobId, nodes, tasks) && RenderJob(env, jobId, nodes, tasks) == Ok(out)
    ensures ClosedJob(out)
  {
    hide RenderJob, RenderTasks, RenameTasks, GenTaskId, Made, FromSelected, Renders;
    var renamed := RendersExists(env, jobId, nodes, tasks, out);
    forall f, x | f in out && x in f.dependencies ensures exists g :: g in out && g.taskId == x {
      Members(env, jobId, nodes, tasks, renamed, out, f);
      var k :| 0 <= k < |tasks| && !tasks[k].node.IsPad() && Made(env, renamed[k], f);
      var g := DependencyTask(env, jobId, nodes, tasks, renamed, out, k, f, x);
    }
  }

  lemma DependencyTask(env: Env, jobId: string, nodes: seq<Node>, tasks: seq<Task>, renamed: seq<Task>,
                       out: seq<Task>, k: nat, f: Task, x: string)
    returns (g: Task)
    requires Renders(env, jobId, nodes, tasks, renamed, out) && k < |tasks| == |renamed| && !tasks[k].node.IsPad()
    requires Made(env, renamed[k], f) && x in f.dependencies
    ensures g in out && g.taskId == x
  {
    hide RenderJob, RenderTasks, RenameTasks, GenTaskId, FromSelected;
    RenamedFacts(env, jobId, nodes, tasks, renamed, out, k);
    if f.dependencies == renamed[k].dependencies {
      var d :| DependsOn(ScopeOf(env, jobId, nodes, tasks), tasks[k].node.inputs, d) && x == GenTaskId(jobId, d);
      var i :| 0 <= i < |tasks[k].node.inputs| && FromSelected(ScopeOf(env, jobId, nodes, tasks), tasks[k].node.inputs[i], d);
      var j := SelectedTask(env, jobId, nodes, tasks, tasks[k].node.inputs[i], d);
      g := OwnTask(env, jobId, nodes, tasks, renamed, out, j);
    } else {
      g := ExtraTask(env, renamed[k]);
      Members(env, jobId, nodes, tasks, renamed, out, g);
      assert Made(env, renamed[k], g);
    }
  }

  // ---------- distinct ids ----------

  predicate NoDuplicates(ids: seq<string>) {
    forall i, j :: 0 <= i < j < |ids| ==> ids[i] != ids[j]
  }

  function TaskIds(tasks: seq<Task>): (ids: seq<string>)
    ensures |ids| == |tasks|
  {
    seq(|tasks|, i requires 0 <= i < |tasks| => tasks[i].taskId)
  }

  /** The ids a task contributes. */
  function IdsOfOne(t: Task): seq<string> {
    if t.node.IsPad() then []
    else if t.node.IsModification() then [GenExtendTaskId(t.taskId), t.taskId]
    else [t.taskId]
  }

  function IdsOf(tasks: seq<Task>): seq<string> {
    if tasks == [] then [] else IdsOf(tasks[..|tasks| - 1]) + IdsOfOne(tasks[|tasks| - 1])
  }

  lemma {:induction false} PrunedConcat(a: seq<Task>, b: seq<Task>)
    ensures Pruned(a + b) == Pruned(a) + Pruned(b)
    decreases |b|
  {
    if b == [] {
      assert a + b == a;
    } else {
      var n := |b| - 1;
      assert (a + b)[..|a| + n] == a + b[..n] && (a + b)[|a| + n] == b[n];
      PrunedConcat(a, b[..n]);
    }
  }

  lemma SplitIdsOfOne(env: Env, t: Task)
    requires SplitTask(env, t).Ok?
    ensures TaskIds(Pruned(SplitTask(env, t).value)) == IdsOfOne(t)
  {
    hide GenExtendTaskId;
    if t.node.IsModification() {
      var extra, base := ExtraTask(env, t), BaseTask(t);
      MadeIsPad(env, t, extra);
      MadeIsPad(env, t, base);
      IoIsNoPad(base.node);
      assert [extra, base][..1] == [extra] && [extra][..0] == [];
      assert Pruned([extra]) == [extra];
      assert Pruned([extra, base]) == [extra, base];
    } else {
      assert [t][..0] == [];
    }
  }

  lemma {:induction false} SplitIds(env: Env, tasks: seq<Task>)
    requires SplitTasks(env, tasks).Ok?
    ensures TaskIds(Pruned(SplitTasks(env, tasks).value)) == IdsOf(tasks)
  {
    hide SplitTask, IdsOfOne, Pruned;
    if tasks == [] {
      assert Pruned([]) == [] by { PrunedNothing(); }
    } else {
      var n := |tasks| - 1;
      SplitIds(env, tasks[..n]);
      SplitIdsOfOne(env, tasks[n]);
      PrunedConcat(SplitTasks(env, tasks[..n]).value, SplitTask(env, tasks[n]).value);
      IdsConcat(Pruned(SplitTasks(env, tasks[..n]).value), Pruned(SplitTask(env, tasks[n]).value));
    }
  }

  lemma PrunedNothing()
    ensures Pruned([]) == []
  {
  }

  lemma IdsConcat(a: seq<Task>, b: seq<Task>)
    ensures TaskIds(a + b) == TaskIds(a) + TaskIds(b)
  {
  }

  lemma {:induction false} IdsMembers(tasks: seq<Task>, x: string)
    ensures x in IdsOf(tasks) <==> exists k :: 0 <= k < |tasks| && x in IdsOfOne(tasks[k])
  {
    hide IdsOfOne;
    if tasks != [] {
      var n := |tasks| - 1;
      var init := tasks[..n];
      IdsMembers(init, x);
      if exists k :: 0 <= k < |tasks| && x in IdsOfOne(tasks[k]) {
        var k :| 0 <= k < |tasks| && x in IdsOfOne(tasks[k]);
        assert k < n ==> init[k] == tasks[k];
      }
      if exists k :: 0 <= k < n && x in IdsOfOne(init[k]) {
        var k :| 0 <= k < n && x in IdsOfOne(init[k]);
        assert init[k] == tasks[k];
      }
    }
  }

  lemma NoDuplicatesConcat(a: seq<string>, b: seq<string>)
    ensures NoDuplicates(a + b) <==> NoDuplicates(a) && NoDuplicates(b) && forall x :: x in a ==> x !in b
  {
    var ab := a + b;
    if NoDuplicates(ab) {
      forall i, j | 0 <= i < j < |a| ensures a[i] != a[j] { assert ab[i] != ab[j]; }
      forall i, j | 0 <= i < j < |b| ensures b[i] != b[j] { assert ab[|a| + i] != ab[|a| + j]; }
      forall x | x in a ensures x !in b {
        var i :| 0 <= i < |a| && a[i] == x;
        forall j | 0 <= j < |b| ensures b[j] != x { assert ab[i] != ab[|a| + j]; }
      }
    }
    if NoDuplicates(a) && NoDuplicates(b) && forall x :: x in a ==> x !in b {
      forall i, j | 0 <= i < j < |ab| ensures ab[i] != ab[j] {
        if i < |a| <= j {
          assert ab[i] in a && ab[j] in b;
        }
      }
    }
  }

  /** Two components share an id of a submitted task. */
  predicate Clash(s: Task, t: Task) {
    exists x :: x in IdsOfOne(s) && x in IdsOfOne(t)
  }

  predicate NoClashes(tasks: seq<Task>) {
    forall i, j :: 0 <= i < j < |tasks| ==> !Clash(tasks[i], tasks[j])
  }

  lemma OneMoreTask(tasks: seq<Task>, t: Task)
    ensures NoClashes(tasks + [t]) <==> NoClashes(tasks) && forall i :: 0 <= i < |tasks| ==> !Clash(tasks[i], t)
  {
    hide Clash;
    var all := tasks + [t];
    assert all[|tasks|] == t && forall i :: 0 <= i < |tasks| ==> all[i] == tasks[i];
    if NoClashes(all) {
      forall i | 0 <= i < |tasks| ensures !Clash(tasks[i], t) {
        assert !Clash(all[i], all[|tasks|]);
      }
      forall i, j | 0 <= i < j < |tasks| ensures !Clash(tasks[i], tasks[j]) {
        assert !Clash(all[i], all[j]);
      }
    }
  }

  lemma {:induction false} DistinctIffNoClash(tasks: seq<Task>)
    ensures NoDuplicates(IdsOf(tasks)) <==> NoClashes(tasks)
  {
    hide Clash, IdsOfOne, NoClashes, NoDuplicates;
    if tasks == [] {
      assert NoClashes([]) && NoDuplicates([]) by { NothingClashes(); }
    } else {
      var n := |tasks| - 1;
      var init, last := tasks[..n], tasks[n];
      assert tasks == init + [last];
      DistinctIffNoClash(init);
      OneIsDistinct(last);
      NoDuplicatesConcat(IdsOf(init), IdsOfOne(last));
      ClashesWithLast(init, last);
      OneMoreTask(init, last);
    }
  }

  lemma NothingClashes()
    ensures NoClashes([]) && NoDuplicates([])
  {
  }

  lemma OneIsDistinct(t: Task)
    ensures NoDuplicates(IdsOfOne(t))
  {
    assert |GenExtendTaskId(t.taskId)| > |t.taskId|;
  }

  lemma ClashesWithLast(init: seq<Task>, last: Task)
    ensures (forall x :: x in IdsOf(init) ==> x !in IdsOfOne(last)) <==> (forall i :: 0 <= i < |init| ==> !Clash(init[i], last))
  {
    hide IdsOfOne;
    forall x ensures x in IdsOf(init) <==> exists k :: 0 <= k < |init| && x in IdsOfOne(init[k]) {
      IdsMembers(init, x);
    }
  }

  /** What makes the submitted ids unique: no component twice, and none named like the extra task of another. */
  ghost predicate Unambiguous(tasks: seq<Task>) {
    forall i, j :: 0 <= i < |tasks| && 0 <= j < |tasks| && i != j && !tasks[i].node.IsPad() && !tasks[j].node.IsPad() ==>
      tasks[i].node.id != tasks[j].node.id && (tasks[i].node.IsModification() ==> tasks[j].node.id != tasks[i].node.id + "--1")
  }

  lemma ClashMeaning(jobId: string, s: Task, t: Task)
    requires s.taskId == GenTaskId(jobId, s.node.id) && t.taskId == GenTaskId(jobId, t.node.id)
    ensures Clash(s, t) <==>
            && !s.node.IsPad() && !t.node.IsPad()
            && (s.node.id == t.node.id || (s.node.IsModification() && t.node.id == s.node.id + "--1")
                || (t.node.IsModification() && s.node.id == t.node.id + "--1"))
  {
    hide GenTaskId, GenExtendTaskId;
    TaskIdInjective(jobId, s.node.id, t.node.id);
    TaskIdInjective(jobId, t.node.id, s.node.id);
    assert s.taskId in IdsOfOne(s) || s.node.IsPad();
    assert t.taskId in IdsOfOne(t) || t.node.IsPad();
    assert s.node.IsModification() && !s.node.IsPad() ==> GenExtendTaskId(s.taskId) in IdsOfOne(s);
    assert t.node.IsModification() && !t.node.IsPad() ==> GenExtendTaskId(t.taskId) in IdsOfOne(t);
  }

  lemma {:induction false} SameIds(a: seq<Task>, b: seq<Task>)
    requires |a| == |b|
    requires forall k :: 0 <= k < |a| ==>
      a[k].taskId == b[k].taskId && a[k].node.IsPad() == b[k].node.IsPad() && a[k].node.IsModification() == b[k].node.IsModification()
    ensures IdsOf(a) == IdsOf(b)
  {
    if a != [] {
      SameIds(a[..|a| - 1], b[..|b| - 1]);
    }
  }

  /** The submitted ids: a task id for each component that is not a platform one, after its extra id if it is split. */
  lemma SubmittedIds(env: Env, jobId: string, nodes: seq<Node>, tasks: seq<Task>, out: seq<Task>)
    requires FromGraph(jobId, nodes, tasks) && RenderJob(env, jobId, nodes, tasks) == Ok(out)
    ensures TaskIds(out) == IdsOf(tasks)
  {
    hide RenderTasks, RenameTasks, SplitTasks, Pruned, IdsOf, DependsOn, NodeById, GenTaskId, GenTaskOutputId;
    var renamed := RendersExists(env, jobId, nodes, tasks, out);
    SplitIds(env, renamed);
    forall k | 0 <= k < |tasks|
      ensures |renamed| == |tasks| && renamed[k].taskId == tasks[k].taskId && renamed[k].node.IsPad() == tasks[k].node.IsPad()
      ensures renamed[k].node.IsModification() == tasks[k].node.IsModification()
    {
      RenamedFacts(env, jobId, nodes, tasks, renamed, out, k);
    }
    SameIds(renamed, tasks);
  }

  /** The submitted tasks have distinct ids exactly when the selection is unambiguous. */
  lemma DistinctIdsIff(env: Env, jobId: string, nodes: seq<Node>, tasks: seq<Task>, out: seq<Task>)
    requires FromGraph(jobId, nodes, tasks) && RenderJob(env, jobId, nodes, tasks) == Ok(out)
    ensures NoDuplicates(TaskIds(out)) <==> Unambiguous(tasks)
  {
    hide RenderJob, FromGraph, IdsOf, TaskIds, NoClashes, NoDuplicates, Unambiguous;
    SubmittedIds(env, jobId, nodes, tasks, out);
    DistinctIffNoClash(tasks);
    NoClashIffUnambiguous(jobId, nodes, tasks);
  }

  lemma NoClashIffUnambiguous(jobId: string, nodes: seq<Node>, tasks: seq<Task>)
    requires FromGraph(jobId, nodes, tasks)
    ensures NoClashes(tasks) <==> Unambiguous(tasks)
  {
    hide Clash, GenTaskId, NodeById;
    forall i, j | 0 <= i < |tasks| && 0 <= j < |tasks|
      ensures Clash(tasks[i], tasks[j]) <==>
              && !tasks[i].node.IsPad() && !tasks[j].node.IsPad()
              && (tasks[i].node.id == tasks[j].node.id || (tasks[i].node.IsModification() && tasks[j].node.id == tasks[i].node.id + "--1")
                  || (tasks[j].node.IsModification() && tasks[i].node.id == tasks[j].node.id + "--1"))
    {
      ClashMeaning(jobId, tasks[i], tasks[j]);
    }
    if NoClashes(tasks) {
      forall i, j | 0 <= i < |tasks| && 0 <= j < |tasks| && i != j && !tasks[i].node.IsPad() && !tasks[j].node.IsPad()
        ensures tasks[i].node.id != tasks[j].node.id
        ensures tasks[i].node.IsModification() ==> tasks[j].node.id != tasks[i].node.id + "--1"
      {
        assert if i < j then !Clash(tasks[i], tasks[j]) else !Clash(tasks[j], tasks[i]);
      }
    }
  }

  // ---------- when rendering succeeds ----------

  /** The component behind an input is there, and either selected or has run; a datatable it stands for can be read. */
  predicate Resolves(sc: Scope, input: string) {
    var p := ProducerOf(sc.nodes, input);
    && p.Some? && (p.value.id in sc.selected || p.value.id in sc.env.latest)
    && (p.value.IsPad() && (p.value.codeName == READ_DATATABLE || p.value.def.CompId() == READ_DATATABLE)
        ==> p.value.def.DatatableId() in sc.env.readable)
  }

  predicate Renderable(sc: Scope, t: Task) {
    if t.node.IsPad() then t.node.def.DatatableId() != ""
    else forall i :: 0 <= i < |t.node.inputs| ==> Resolves(sc, t.node.inputs[i])
  }

  lemma {:induction false} InputsRenderIff(sc: Scope, inputs: seq<string>)
    ensures RenderInputsOf(sc, inputs).Ok? <==> forall i :: 0 <= i < |inputs| ==> Resolves(sc, inputs[i])
  {
    if inputs != [] {
      var n := |inputs| - 1;
      InputsRenderIff(sc, inputs[..n]);
      assert RenderInput(sc, inputs[n]).Ok? <==> Resolves(sc, inputs[n]) by { hide ProducerOf; }
      hide RenderInput, Resolves;
      assert forall i :: 0 <= i < n ==> inputs[..n][i] == inputs[i];
    }
  }

  lemma {:induction false} TasksRenderIff(sc: Scope, tasks: seq<Task>)
    ensures RenderTasks(sc, tasks).Ok? <==> forall k :: 0 <= k < |tasks| ==> Renderable(sc, tasks[k])
  {
    hide Resolves, RenderInputsOf;
    if tasks != [] {
      var n := |tasks| - 1;
      TasksRenderIff(sc, tasks[..n]);
      InputsRenderIff(sc, tasks[n].node.inputs);
      assert RenderTask(sc, tasks[n]).Ok? <==> Renderable(sc, tasks[n]);
      hide RenderTask, Renderable;
      assert forall k :: 0 <= k < n ==> tasks[..n][k] == tasks[k];
    }
  }

  lemma {:induction false} TasksSplitIff(env: Env, tasks: seq<Task>)
    ensures SplitTasks(env, tasks).Ok? <==> forall k :: 0 <= k < |tasks| ==> Wide(tasks[k])
  {
    if tasks != [] {
      var n := |tasks| - 1;
      TasksSplitIff(env, tasks[..n]);
      assert SplitTask(env, tasks[n]).Ok? <==> Wide(tasks[n]);
      hide SplitTask, Wide;
      assert forall k :: 0 <= k < n ==> tasks[..n][k] == tasks[k];
    }
  }

  /** Rendering succeeds exactly when every selected component can be wired and no modification lacks its two outputs. */
  lemma RenderSucceedsIff(env: Env, jobId: string, nodes: seq<Node>, tasks: seq<Task>)
    ensures RenderJob(env, jobId, nodes, tasks).Ok?
       <==> forall k :: 0 <= k < |tasks| ==> Renderable(ScopeOf(env, jobId, nodes, tasks), tasks[k]) && Wide(tasks[k])
  {
    hide RenderTasks, SplitTasks, Renderable, Pruned, SelectedIds;
    var sc := ScopeOf(env, jobId, nodes, tasks);
    TasksRenderIff(sc, tasks);
    if RenderTasks(sc, tasks).Ok? {
      var wired := RenderTasks(sc, tasks).value;
      TasksSplitIff(env, RenameTasks(jobId, wired));
      forall k | 0 <= k < |tasks| ensures Wide(RenameTasks(jobId, wired)[k]) <==> Wide(tasks[k]) {
        RenderedAt(sc, tasks, k);
        RenderedWide(sc, tasks[k]);
      }
    }
  }

  lemma RenderedWide(sc: Scope, t: Task)
    requires RenderTask(sc, t).Ok?
    ensures Wide(RenderTask(sc, t).value) <==> Wide(t)
    ensures |RenderTask(sc, t).value.node.outputs| == |t.node.outputs|
  {
    hide RenderInputsOf;
  }
}
