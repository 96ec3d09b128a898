/** What the submitted tasks run: each in its place, with the definition of the component it was made of. */
module RenderContent {
  import opened Options
  import opened Graph
  import opened Render
  import opened RenderShape

  // ---------- places ----------

  /** How many tasks a component becomes. */
  function Width(n: Node): nat {
    if n.IsPad() then 0 else if n.IsModification() then 2 else 1
  }

  /** Where the tasks of component number k start. */
  function Place(tasks: seq<Task>, k: nat): nat
    requires k <= |tasks|
  {
    if k == 0 then 0 else Place(tasks, k - 1) + Width(tasks[k - 1].node)
  }

  lemma {:induction false} PlaceOfPrefix(tasks: seq<Task>, n: nat, k: nat)
    requires k <= n <= |tasks|
    ensures Place(tasks[..n], k) == Place(tasks, k) <= Place(tasks, n)
    decreases n + k
  {
    hide Width;
    if k > 0 {
      PlaceOfPrefix(tasks, n, k - 1);
    }
    if k < n {
      PlaceOfPrefix(tasks, n - 1, k);
      assert tasks[..n - 1][..k] == tasks[..k];
    }
  }

  lemma OneSplit(env: Env, t: Task)
    requires SplitTask(env, t).Ok?
    ensures Pruned(SplitTask(env, t).value)
         == if t.node.IsPad() then []
            else if t.node.IsModification() then [ExtraTask(env, t), BaseTask(t)] else [t]
    ensures |Pruned(SplitTask(env, t).value)| == Width(t.node)
  {
    hide Pruned, ExtraTask, BaseTask;
    if t.node.IsModification() {
      if t.node.IsPad() {
        PadIsNoModification(t.node);
      }
      var extra, base := ExtraTask(env, t), BaseTask(t);
      MadeIsPad(env, t, extra);
      MadeIsPad(env, t, base);
      hide Node.IsPad, Node.IsModification;
      PrunedConcat([extra], [base]);
      PrunedOne(extra);
      PrunedOne(base);
      assert [extra, base] == [extra] + [base];
    } else {
      PrunedOne(t);
    }
  }

  lemma PrunedOne(t: Task)
    ensures Pruned([t]) == if t.node.IsPad() then [] else [t]
  {
    hide Node.IsPad;
    assert [t][..0] == [];
  }

  /** The tasks that component number k was split into stand in its place. */
  lemma {:induction false} SplitInPlace(env: Env, tasks: seq<Task>, k: nat)
    requires SplitTasks(env, tasks).Ok? && k < |tasks|
    ensures var out := Pruned(SplitTasks(env, tasks).value);
            && SplitTask(env, tasks[k]).Ok?
            && |out| == Place(tasks, |tasks|) && Place(tasks, k) <= Place(tasks, k + 1) <= |out|
            && out[Place(tasks, k)..Place(tasks, k + 1)] == Pruned(SplitTask(env, tasks[k]).value)
  {
    hide SplitTask, Pruned, Width;
    var n := |tasks| - 1;
    var before, last := SplitTasks(env, tasks[..n]).value, SplitTask(env, tasks[n]).value;
    PrunedConcat(before, last);
    OneSplit(env, tasks[n]);
    PlaceOfPrefix(tasks, n, n);
    if n == 0 {
      assert Pruned([]) == [] by { PrunedNothing(); }
    } else if k < n {
      SplitInPlace(env, tasks[..n], k);
    } else {
      SplitInPlace(env, tasks[..n], n - 1);
    }
    if k < n {
      PlaceOfPrefix(tasks, n, k);
      PlaceOfPrefix(tasks, n, k + 1);
    }
  }

  // ---------- contents ----------

  /** Attribute for attribute: the custom value where there is one, and else as it was. */
  predicate AttrsCovered(covered: seq<Attr>, attrs: seq<Attr>) {
    && |covered| == |attrs|
    && forall i :: 0 <= i < |attrs| ==> covered[i] == if attrs[i].Stored? && attrs[i].custom.Some? then Written(attrs[i].custom.value) else attrs[i]
  }

  /** The two tasks are about one component and are run by the same parties. */
  predicate SameComponent(t: Task, f: Task) {
    f.parties == t.parties && f.node.id == t.node.id && f.node.codeName == t.node.codeName
  }

  /** The one task of a component that is not split runs what the component says. */
  predicate RunsComponent(jobId: string, t: Task, f: Task) {
    && SameComponent(t, f) && f.taskId == t.taskId
    && AttrsCovered(f.node.def.attrs, t.node.def.attrs)
    && f.node.def == t.node.def.(attrs := f.node.def.attrs)
    && f.node.outputs == seq(|t.node.outputs|, i requires 0 <= i < |t.node.outputs| => jobId + "-" + t.node.outputs[i])
  }

  /** A platform-provided definition without attributes. */
  predicate PlainIo(def: NodeDef, name: string) {
    def == NodeDef("io", name, "1.0.0", [], [], "")
  }

  /** The task under the component's own id only reads what the inserted one has written. */
  predicate ReadsBack(jobId: string, t: Task, f: Task)
    requires |t.node.outputs| >= 2
  {
    && SameComponent(t, f) && f.taskId == t.taskId && f.dependencies == [t.taskId + "--1"]
    && PlainIo(f.node.def, "read_data")
    && f.node.inputs == [jobId + "-" + t.node.outputs[0]] && f.node.outputs == [jobId + "-" + t.node.outputs[1]]
  }

  /** The modelHash of a payload names this hash, and a node behind an underscore, or else its own. */
  predicate Names(modelHash: string, own: string, hash: string, nodeId: string) {
    '_' !in hash && if '_' in modelHash then modelHash == hash + "_" + nodeId else modelHash == hash && nodeId == own
  }

  /** The data of a report: its id up to its last dash, or all of it if that comes first or there is none, and "-0". */
  predicate IsReportData(id: string, data: string) {
    && (forall i :: 0 < i < |id| && id[i] == '-' && '-' !in id[i + 1..] ==> data == id[..i] + "-0")
    && ((forall i :: 0 < i < |id| ==> id[i] != '-') ==> data == id + "-0")
  }

  /** The payload has been edited, and the report it was edited from is stored. */
  predicate FindsReport(env: Env, own: string, payload: string, hash: string, nodeId: string, report: string) {
    && payload in env.payloads && Names(env.payloads[payload].modelHash, own, hash, nodeId)
    && hash != "" && ReportKey(hash, nodeId) in env.reports && env.reports[ReportKey(hash, nodeId)] == report
  }

  /** Whether the payload's hash carries a node's id, which is cut off. */
  predicate IsCut(env: Env, payload: string) {
    payload in env.payloads && '_' in env.payloads[payload].modelHash
  }

  /**
   The inserted task stands in for the component's first output. Without attributes it passes the inputs through;
   else it writes them, of its own kind, and reads the report they were edited from, or the component's own output.
   */
  ghost predicate StandsIn(env: Env, jobId: string, t: Task, f: Task)
    requires |t.node.outputs| >= 2
  {
    && SameComponent(t, f) && f.taskId == t.taskId + "--1" && f.node.outputs == [jobId + "-" + t.node.outputs[0]]
    && if t.node.def.attrs == [] then PlainIo(f.node.def, "identity") && |f.node.inputs| == |t.node.inputs|
       else WritesEdits(env, jobId, t, f)
  }

  ghost predicate WritesEdits(env: Env, jobId: string, t: Task, f: Task)
    requires |t.node.outputs| >= 2 && t.node.def.attrs != []
  {
    var n, attrs := |t.node.def.attrs|, f.node.def.attrs;
    && f.node.def.domain == "io" && f.node.def.name == "write_data" && f.node.def.version == "1.0.0"
    && f.node.def.attrPaths == ["write_data", "write_data_type"] && f.node.def.checkpointUri == t.node.def.checkpointUri
    && |attrs| == n + 1
    && attrs[n] == Written(if t.node.def.name == "binning_modifications" then "sf.rule.binning" else "sf.model.ss_glm")
    && exists covered :: AttrsCovered(covered, t.node.def.attrs) && WritesCovered(env, jobId, t, f, covered)
  }

  ghost predicate WritesCovered(env: Env, jobId: string, t: Task, f: Task, covered: seq<Attr>)
    requires |t.node.outputs| >= 2 && t.node.def.attrs != [] && |f.node.def.attrs| > |covered| == |t.node.def.attrs|
  {
    var payload, own := covered[0].s, t.node.id;
    && f.node.def.attrs[1..|covered|] == covered[1..]
    && f.node.def.attrs[0] == (if IsCut(env, payload) then Written(env.payloads[payload].cutText) else covered[0])
    && |f.node.inputs| == 1
    && (forall hash, nodeId, report :: FindsReport(env, own, payload, hash, nodeId, report) ==> IsReportData(report, f.node.inputs[0]))
    && ((forall hash, nodeId, report :: !FindsReport(env, own, payload, hash, nodeId, report))
          ==> f.node.inputs[0] == jobId + "-" + t.node.outputs[0])
  }

  // ---------- proofs ----------

  lemma {:induction false} UnderscoreMeaning(s: string, i: nat)
    ensures var k := UnderscoreFrom(s, i);
            if k < 0 then k == -1 && forall j :: i <= j < |s| ==> s[j] != '_'
            else i <= k < |s| && s[k] == '_' && forall j :: i <= j < k ==> s[j] != '_'
    decreases |s| - i
  {
    if i < |s| && s[i] != '_' {
      UnderscoreMeaning(s, i + 1);
    }
  }

  /** The edit is the one pair of hash and node that the payload names. */
  lemma EditMeaning(env: Env, n: Node)
    requires n.def.attrs != []
    ensures var e, payload := EditOf(env, n), n.def.attrs[0].s;
            && e.payload == (if IsCut(env, payload) then Written(env.payloads[payload].cutText) else n.def.attrs[0])
            && (payload !in env.payloads ==> e.hash == "")
            && (payload in env.payloads ==> forall hash, nodeId ::
                  Names(env.payloads[payload].modelHash, n.id, hash, nodeId) <==> hash == e.hash && nodeId == e.nodeId)
  {
    var e, payload := EditOf(env, n), n.def.attrs[0].s;
    if payload in env.payloads {
      var modelHash := env.payloads[payload].modelHash;
      UnderscoreMeaning(modelHash, 0);
      var i := UnderscoreFrom(modelHash, 0);
      if 0 <= i {
        assert modelHash == modelHash[..i] + "_" + modelHash[i + 1..];
        forall hash: string, nodeId | Names(modelHash, n.id, hash, nodeId) ensures hash == modelHash[..i] && nodeId == modelHash[i + 1..] {
          assert modelHash[|hash|] == '_' && modelHash[..|hash|] == hash && modelHash[|hash| + 1..] == nodeId;
          assert i >= |hash| by { assert forall j :: 0 <= j < |hash| ==> modelHash[j] == hash[j]; }
        }
      }
    }
  }

  lemma {:induction false} DashMeaning(s: string, i: nat)
    requires i <= |s|
    ensures var k := LastIndexUpTo(s, "-", i);
            if k < 0 then k == -1 && forall j :: 0 <= j <= i && j < |s| ==> s[j] != '-'
            else k <= i && k < |s| && s[k] == '-' && forall j :: k < j <= i && j < |s| ==> s[j] != '-'
  {
    assert i < |s| ==> s[i..i + 1] == [s[i]];
    if i > 0 && !(i < |s| && s[i] == '-') {
      DashMeaning(s, i - 1);
    }
  }

  lemma ReportInputMeaning(id: string)
    ensures IsReportData(id, ReportInput(id))
  {
    DashMeaning(id, |id|);
    var k := LastIndex(id, "-");
    forall i | 0 < i < |id| && id[i] == '-' && '-' !in id[i + 1..] ensures i == k {
      assert forall j :: i < j < |id| ==> id[j] == id[i + 1..][j - i - 1];
    }
  }

  /** The component as it was wired: its definition covered, its outputs renamed. */
  lemma RenamedContent(env: Env, jobId: string, nodes: seq<Node>, tasks: seq<Task>, renamed: seq<Task>, out: seq<Task>,
                       k: nat)
    requires Renders(env, jobId, nodes, tasks, renamed, out) && k < |tasks| && !tasks[k].node.IsPad()
    ensures |renamed| == |tasks| && RunsComponent(jobId, tasks[k], renamed[k])
    ensures |renamed[k].node.inputs| == |tasks[k].node.inputs|
  {
    hide RenderJob, RenderTasks, FromGraph, RenderInputsOf, RenameOutput, SelectedIds;
    var sc := ScopeOf(env, jobId, nodes, tasks);
    RenderedAt(sc, tasks, k);
    WiringMeaning(sc, tasks[k].node.inputs);
  }

  lemma BaseContent(jobId: string, t: Task, r: Task)
    requires RunsComponent(jobId, t, r) && |t.node.outputs| >= 2
    ensures ReadsBack(jobId, t, BaseTask(r))
  {
  }

  lemma WriteContent(env: Env, jobId: string, t: Task, r: Task)
    requires RunsComponent(jobId, t, r) && |t.node.outputs| >= 2 && t.node.def.attrs != []
    ensures WritesEdits(env, jobId, t, ExtraTask(env, r))
  {
    hide EditOf, ReportInput, IsReportData, Names, IsCut;
    var f, covered := ExtraTask(env, r), r.node.def.attrs;
    EditMeaning(env, r.node);
    var e, payload := EditOf(env, r.node), covered[0].s;
    assert f.node.def.attrs[1..|covered|] == covered[1..];
    var key := ReportKey(e.hash, e.nodeId);
    if key in env.reports {
      ReportInputMeaning(env.reports[key]);
      if e.hash != "" {
        assert FindsReport(env, t.node.id, payload, e.hash, e.nodeId, env.reports[key]);
      }
    }
    assert WritesCovered(env, jobId, t, f, covered);
  }

  lemma ExtraContent(env: Env, jobId: string, t: Task, r: Task)
    requires RunsComponent(jobId, t, r) && |t.node.outputs| >= 2 && |r.node.inputs| == |t.node.inputs|
    ensures StandsIn(env, jobId, t, ExtraTask(env, r))
  {
    hide WritesEdits, WriteDef, WriteInput;
    if t.node.def.attrs != [] {
      WriteContent(env, jobId, t, r);
    }
  }

  /**
   The submitted job, place by place: nothing for a platform component, one task that runs it for an ordinary one,
   and for a modification the inserted task and, behind it, the one that reads back.
   */
  lemma SubmittedContent(env: Env, jobId: string, nodes: seq<Node>, tasks: seq<Task>, out: seq<Task>, k: nat)
    requires FromGraph(jobId, nodes, tasks) && RenderJob(env, jobId, nodes, tasks) == Ok(out) && k < |tasks|
    ensures |out| == Place(tasks, |tasks|) && Place(tasks, k) + Width(tasks[k].node) <= |out|
    ensures !tasks[k].node.IsPad() && !tasks[k].node.IsModification() ==> RunsComponent(jobId, tasks[k], out[Place(tasks, k)])
    ensures !tasks[k].node.IsPad() && tasks[k].node.IsModification() ==>
              && |tasks[k].node.outputs| >= 2
              && StandsIn(env, jobId, tasks[k], out[Place(tasks, k)]) && ReadsBack(jobId, tasks[k], out[Place(tasks, k) + 1])
  {
    hide RenderTasks, RenameTasks, SplitTasks, Pruned, FromGraph, StandsIn, ReadsBack, RunsComponent, ExtraTask, BaseTask,
         Node.IsPad, Node.IsModification, GenTaskId, GenTaskOutputId, SelectedIds, DependsOn;
    var renamed := RendersExists(env, jobId, nodes, tasks, out);
    forall j | 0 <= j < |tasks|
      ensures |renamed| == |tasks| && Width(renamed[j].node) == Width(tasks[j].node)
      ensures |renamed[j].node.outputs| == |tasks[j].node.outputs|
      ensures renamed[j].node.IsPad() == tasks[j].node.IsPad() && renamed[j].node.IsModification() == tasks[j].node.IsModification()
    {
      RenamedFacts(env, jobId, nodes, tasks, renamed, out, j);
    }
    SamePlaces(renamed, tasks, k);
    SamePlaces(renamed, tasks, k + 1);
    SamePlaces(renamed, tasks, |tasks|);
    SplitInPlace(env, renamed, k);
    OneSplit(env, renamed[k]);
    var r, at := renamed[k], Place(tasks, k);
    assert out[at..at + Width(r.node)] == Pruned(SplitTask(env, r).value);
    if !r.node.IsPad() {
      RenamedContent(env, jobId, nodes, tasks, renamed, out, k);
      assert out[at] == out[at..at + Width(r.node)][0];
      if r.node.IsModification() {
        assert out[at + 1] == out[at..at + Width(r.node)][1];
        SplitWide(env, r);
        BaseContent(jobId, tasks[k], r);
        ExtraContent(env, jobId, tasks[k], r);
      }
    }
  }

  lemma {:induction false} SamePlaces(a: seq<Task>, b: seq<Task>, k: nat)
    requires |a| == |b| && k <= |a| && forall j :: 0 <= j < |a| ==> Width(a[j].node) == Width(b[j].node)
    ensures Place(a, k) == Place(b, k)
  {
    if k > 0 {
      SamePlaces(a, b, k - 1);
    }
  }

  // ---------- what a failing rendering says ----------

  /** What is wrong with an input that cannot be resolved. */
  predicate InputError(sc: Scope, input: string, e: Error) {
    match ProducerOf(sc.nodes, input)
    case None => e == GraphNodeNotExists(input)
    case Some(p) =>
      if p.id !in sc.selected && p.id !in sc.env.latest then e == GraphDependentNodeNotRun(p.id)
      else e == DatatableNotExists(p.def.DatatableId())
  }

  lemma {:induction false} FirstBadInput(sc: Scope, inputs: seq<string>, i: nat)
    requires i < |inputs| && !Resolves(sc, inputs[i]) && forall j :: 0 <= j < i ==> Resolves(sc, inputs[j])
    ensures RenderInputsOf(sc, inputs).Err? && InputError(sc, inputs[i], RenderInputsOf(sc, inputs).error)
    decreases |inputs|
  {
    hide ProducerOf;
    var n := |inputs| - 1;
    if i < n {
      FirstBadInput(sc, inputs[..n], i);
    } else {
      InputsRenderIff(sc, inputs[..n]);
    }
  }

  lemma {:induction false} FirstBadTask(sc: Scope, tasks: seq<Task>, k: nat)
    requires k < |tasks| && !Renderable(sc, tasks[k]) && forall j :: 0 <= j < k ==> Renderable(sc, tasks[j])
    ensures RenderTasks(sc, tasks).Err? && RenderTask(sc, tasks[k]) == Err(RenderTasks(sc, tasks).error)
    decreases |tasks|
  {
    hide RenderTask, Renderable;
    var n := |tasks| - 1;
    if k < n {
      FirstBadTask(sc, tasks[..n], k);
    } else {
      TasksRenderIff(sc, tasks[..n]);
      assert forall j :: 0 <= j < n ==> tasks[..n][j] == tasks[j];
      NotRenderable(sc, tasks[k]);
    }
  }

  lemma NotRenderable(sc: Scope, t: Task)
    requires !Renderable(sc, t)
    ensures RenderTask(sc, t).Err?
  {
    hide RenderInputsOf, Resolves;
    InputsRenderIff(sc, t.node.inputs);
  }

  lemma {:induction false} FirstNarrowTask(env: Env, tasks: seq<Task>, k: nat)
    requires k < |tasks| && !Wide(tasks[k]) && forall j :: 0 <= j < k ==> Wide(tasks[j])
    ensures SplitTasks(env, tasks) == Err(GraphJobInvalid(tasks[k].node.id))
    decreases |tasks|
  {
    hide ExtraTask, BaseTask;
    var n := |tasks| - 1;
    if k < n {
      FirstNarrowTask(env, tasks[..n], k);
    } else {
      TasksSplitIff(env, tasks[..n]);
    }
  }

  /** A component that cannot be wired ends the rendering with what is wrong with the first such one, at its first such input. */
  lemma WiringError(env: Env, jobId: string, nodes: seq<Node>, tasks: seq<Task>, k: nat, i: nat)
    requires k < |tasks|
    requires var sc := ScopeOf(env, jobId, nodes, tasks);
             && !Renderable(sc, tasks[k]) && (forall j :: 0 <= j < k ==> Renderable(sc, tasks[j]))
             && (!tasks[k].node.IsPad() ==>
                   && i < |tasks[k].node.inputs| && !Resolves(sc, tasks[k].node.inputs[i])
                   && forall j :: 0 <= j < i ==> Resolves(sc, tasks[k].node.inputs[j]))
    ensures RenderJob(env, jobId, nodes, tasks).Err?
    ensures var e := RenderJob(env, jobId, nodes, tasks).error;
            if tasks[k].node.IsPad() then e == DatatableNotExists(tasks[k].node.id)
            else InputError(ScopeOf(env, jobId, nodes, tasks), tasks[k].node.inputs[i], e)
  {
    hide RenderTasks, SplitTasks, Resolves, InputError, SelectedIds, RenderInputsOf;
    var sc := ScopeOf(env, jobId, nodes, tasks);
    FirstBadTask(sc, tasks, k);
    if !tasks[k].node.IsPad() {
      FirstBadInput(sc, tasks[k].node.inputs, i);
    }
  }

  /** When all can be wired, the first modification component without two outputs is the error. */
  lemma SplitError(env: Env, jobId: string, nodes: seq<Node>, tasks: seq<Task>, k: nat)
    requires k < |tasks| && !Wide(tasks[k]) && forall j :: 0 <= j < k ==> Wide(tasks[j])
    requires forall j :: 0 <= j < |tasks| ==> Renderable(ScopeOf(env, jobId, nodes, tasks), tasks[j])
    ensures RenderJob(env, jobId, nodes, tasks) == Err(GraphJobInvalid(tasks[k].node.id))
  {
    hide RenderTasks, SplitTasks, Renderable, SelectedIds, RenderTask;
    var sc := ScopeOf(env, jobId, nodes, tasks);
    TasksRenderIff(sc, tasks);
    var wired := RenderTasks(sc, tasks).value;
    forall j | 0 <= j < |tasks| ensures Wide(RenameTasks(jobId, wired)[j]) <==> Wide(tasks[j]) {
      RenderedAt(sc, tasks, j);
      RenderedWide(sc, tasks[j]);
    }
    RenderedAt(sc, tasks, k);
    RenderedId(sc, tasks[k]);
    FirstNarrowTask(env, RenameTasks(jobId, wired), k);
  }

  lemma RenderedId(sc: Scope, t: Task)
    requires RenderTask(sc, t).Ok?
    ensures RenderTask(sc, t).value.node.id == t.node.id
  {
    hide RenderInputsOf;
  }
}
