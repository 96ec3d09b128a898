/** The rendering of a graph run into tasks (internal/service/graph_chain_render.go), stage by stage. */
module Render {
  import opened Options
  import opened Graph

  datatype Error =
    | DatatableNotExists(id: string)
    | GraphNodeNotExists(input: string)
    | GraphDependentNodeNotRun(id: string)
    | GraphJobInvalid(id: string)

  datatype Result<+T> = Ok(value: T) | Err(error: Error)

  /** What an edited rule or model says as JSON: its modelHash, and its text once a node's id is cut off that hash. */
  datatype Payload = Payload(modelHash: string, cutText: string)

  /** Under what a report that can be edited is stored. */
  datatype ReportKey = ReportKey(hash: string, nodeId: string)

  /**
   What rendering looks up outside: the TEE node (empty when there is none), the latest job of each node that
   has run, the datatables that pass checkReadData, the payloads that name a modelHash, and the ids of the stored
   reports.
   */
  datatype Env = Env(teeNodeId: string, latest: map<string, string>, readable: set<string>,
                     payloads: map<string, Payload>, reports: map<ReportKey, string>)

  /** What stays fixed while the tasks are rendered. */
  datatype Scope = Scope(env: Env, jobId: string, nodes: seq<Node>, selected: set<string>)

  function SelectedIds(tasks: seq<Task>): set<string> {
    set t | t in tasks :: t.node.id
  }

  // ---------- inputs ----------

  datatype RenderedInput = RenderedInput(input: string, dep: Option<string>)

  function RenderInput(sc: Scope, input: string): Result<RenderedInput> {
    match ProducerOf(sc.nodes, input)
    case None => Err(GraphNodeNotExists(input))
    case Some(dep) =>
      if dep.IsPad() then
        var dt := dep.def.DatatableId();
        if dep.id !in sc.selected && dep.id !in sc.env.latest then Err(GraphDependentNodeNotRun(dep.id))
        else if (dep.codeName == READ_DATATABLE || dep.def.CompId() == READ_DATATABLE) && dt !in sc.env.readable then
          Err(DatatableNotExists(dt))
        else Ok(RenderedInput(if sc.env.teeNodeId != "" then sc.env.teeNodeId + "-" + dt else dt, None))
      else if dep.id in sc.selected then Ok(RenderedInput(input, Some(GenTaskId(sc.jobId, dep.id))))
      else if dep.id in sc.env.latest then Ok(RenderedInput(GenTaskOutputId(sc.env.latest[dep.id], input), None))
      else Err(GraphDependentNodeNotRun(dep.id))
  }

  datatype Wiring = Wiring(inputs: seq<string>, deps: seq<string>)

  function Wire(w: Wiring, r: RenderedInput): Wiring {
    Wiring(w.inputs + [r.input], w.deps + if r.dep.Some? then [r.dep.value] else [])
  }

  /** The inputs of one node in turn, up to the first error. */
  function RenderInputsOf(sc: Scope, inputs: seq<string>): Result<Wiring> {
    if inputs == [] then Ok(Wiring([], []))
    else
      match RenderInputsOf(sc, inputs[..|inputs| - 1])
      case Err(e) => Err(e)
      case Ok(w) =>
        match RenderInput(sc, inputs[|inputs| - 1])
        case Err(e) => Err(e)
        case Ok(r) => Ok(Wire(w, r))
  }

  function RenderTask(sc: Scope, t: Task): Result<Task> {
    if t.node.IsPad() then
      if t.node.def.DatatableId() == "" then Err(DatatableNotExists(t.node.id)) else Ok(t)
    else
      match RenderInputsOf(sc, t.node.inputs)
      case Err(e) => Err(e)
      case Ok(w) => Ok(t.(node := t.node.(inputs := w.inputs, def := t.node.def.Covered()), dependencies := w.deps))
  }

  function RenderTasks(sc: Scope, tasks: seq<Task>): (r: Result<seq<Task>>)
    ensures r.Ok? ==> |r.value| == |tasks|
  {
    if tasks == [] then Ok([])
    else
      match RenderTasks(sc, tasks[..|tasks| - 1])
      case Err(e) => Err(e)
      case Ok(done) =>
        match RenderTask(sc, tasks[|tasks| - 1])
        case Err(e) => Err(e)
        case Ok(t) => Ok(done + [t])
  }

  // ---------- outputs ----------

  predicate Declares(tasks: seq<Task>, o: string) {
    exists t :: t in tasks && o in t.node.outputs
  }

  function RenameOutput(tasks: seq<Task>, jobId: string, input: string): string {
    if Declares(tasks, input) then GenTaskOutputId(jobId, input) else input
  }

  /** One task renamed, where `tasks` are all the tasks before renaming. */
  function RenameTask(tasks: seq<Task>, jobId: string, t: Task): Task {
    t.(node := t.node.(
      outputs := seq(|t.node.outputs|, i requires 0 <= i < |t.node.outputs| => GenTaskOutputId(jobId, t.node.outputs[i])),
      inputs := seq(|t.node.inputs|, i requires 0 <= i < |t.node.inputs| => RenameOutput(tasks, jobId, t.node.inputs[i]))))
  }

  function RenameTasks(jobId: string, tasks: seq<Task>): (r: seq<Task>)
    ensures |r| == |tasks|
  {
    seq(|tasks|, i requires 0 <= i < |tasks| => RenameTask(tasks, jobId, tasks[i]))
  }

  // ---------- the two-task split ----------

  function IoDef(name: string): NodeDef {
    NodeDef("io", name, "1.0.0", [], [], "")
  }

  function WriteType(n: Node): string {
    if n.def.name == BINNING_MODIFICATIONS then "sf.rule.binning" else "sf.model.ss_glm"
  }

  /** The original task, which now only reads outputs[0] and provides outputs[1]. */
  function BaseTask(t: Task): Task
    requires |t.node.outputs| >= 2
  {
    t.(node := t.node.(def := IoDef("read_data"), inputs := [t.node.outputs[0]], outputs := [t.node.outputs[1]]),
       dependencies := [GenExtendTaskId(t.taskId)])
  }

  /** strings.Index(s, "_") from i on. */
  function UnderscoreFrom(s: string, i: nat): int
    decreases |s| - i
  {
    if i >= |s| then -1 else if s[i] == '_' then i else UnderscoreFrom(s, i + 1)
  }

  /** What the edited payload refers to: a hash, the node that reported it, and the payload as it is written. */
  datatype Edit = Edit(hash: string, nodeId: string, payload: Attr)

  /** The payload is the first attribute; its modelHash may carry the id of another node behind an underscore. */
  function EditOf(env: Env, n: Node): Edit
    requires n.def.attrs != []
  {
    var first := n.def.attrs[0];
    if first.s !in env.payloads then Edit("", n.id, first)
    else
      var p := env.payloads[first.s];
      var i := UnderscoreFrom(p.modelHash, 0);
      if 0 <= i < |p.modelHash| then Edit(p.modelHash[..i], p.modelHash[i + 1..], Written(p.cutText))
      else Edit(p.modelHash, n.id, first)
  }

  /** The data behind a report: its id up to the last dash, and its first output. */
  function ReportInput(id: string): string {
    var i := LastIndex(id, "-");
    (if 0 < i <= |id| then id[..i] else id) + "-0"
  }

  function WriteDef(env: Env, n: Node): NodeDef
    requires n.def.attrs != []
  {
    n.def.(domain := "io", name := "write_data", version := "1.0.0",
           attrPaths := ["write_data", "write_data_type"],
           attrs := [EditOf(env, n).payload] + n.def.attrs[1..] + [Written(WriteType(n))])
  }

  /** What the io/write_data task reads: the edited report where it is found, else the component's first output. */
  function WriteInput(env: Env, n: Node): string
    requires n.def.attrs != [] && n.outputs != []
  {
    var e := EditOf(env, n);
    var key := ReportKey(e.hash, e.nodeId);
    if e.hash != "" && key in env.reports then ReportInput(env.reports[key]) else n.outputs[0]
  }

  /** The inserted task: it passes the original inputs through, or writes what was edited. */
  function ExtraTask(env: Env, t: Task): Task
    requires |t.node.outputs| >= 2
  {
    var n := t.node.(outputs := [t.node.outputs[0]]);
    var node :=
      if t.node.def.attrs == [] then n.(def := IoDef("identity"))
      else n.(def := WriteDef(env, t.node), inputs := [WriteInput(env, t.node)]);
    Task(GenExtendTaskId(t.taskId), t.parties, t.dependencies, node)
  }

  function SplitTask(env: Env, t: Task): Result<seq<Task>> {
    if !t.node.IsModification() then Ok([t])
    else if |t.node.outputs| < 2 then Err(GraphJobInvalid(t.node.id))
    else Ok([ExtraTask(env, t), BaseTask(t)])
  }

  function SplitTasks(env: Env, tasks: seq<Task>): Result<seq<Task>> {
    if tasks == [] then Ok([])
    else
      match SplitTasks(env, tasks[..|tasks| - 1])
      case Err(e) => Err(e)
      case Ok(done) =>
        match SplitTask(env, tasks[|tasks| - 1])
        case Err(e) => Err(e)
        case Ok(ts) => Ok(done + ts)
  }

  // ---------- the whole ----------

  function Pruned(tasks: seq<Task>): seq<Task> {
    if tasks == [] then []
    else
      var t := tasks[|tasks| - 1];
      Pruned(tasks[..|tasks| - 1]) + if t.node.IsPad() then [] else [t]
  }

  function RenderJob(env: Env, jobId: string, nodes: seq<Node>, tasks: seq<Task>): Result<seq<Task>> {
    match RenderTasks(Scope(env, jobId, nodes, SelectedIds(tasks)), tasks)
    case Err(e) => Err(e)
    case Ok(wired) =>
      match SplitTasks(env, RenameTasks(jobId, wired))
      case Err(e) => Err(e)
      case Ok(split) => Ok(Pruned(split))
  }

  // ---------- the job, rendered in place ----------

  class Job {
    const jobId: string
    const fullNodes: seq<Node>
    var tasks: seq<Task>

    constructor (jobId: string, fullNodes: seq<Node>, tasks: seq<Task>)
      ensures this.jobId == jobId && this.fullNodes == fullNodes && this.tasks == tasks
    {
      this.jobId, this.fullNodes, this.tasks := jobId, fullNodes, tasks;
    }

    /** renderInputs: on an error the job is left half rendered; its owner discards it. */
    method RenderInputs(env: Env) returns (failed: Option<Error>)
      modifies this`tasks
      ensures match RenderTasks(Scope(env, jobId, fullNodes, SelectedIds(old(tasks))), old(tasks))
              case Ok(wired) => failed == None && tasks == wired
              case Err(e) => failed == Some(e)
    {
      hide RenderTask, RenderTasks, SelectedIds, GraphBuilder.Indexes, WiredUpTo;
      ghost var before := tasks;
      var builder := new GraphBuilder(fullNodes);
      var sc := Scope(env, jobId, fullNodes, SelectedIds(tasks));
      NothingWired(sc, before);
      for i := 0 to |tasks|
        invariant WiredUpTo(sc, before, i, tasks) && |tasks| == |before|
        invariant builder.Indexes(fullNodes)
      {
        var r := RenderOne(builder, sc, tasks[i]);
        NextTask(sc, before, i, tasks, r);
        if r.Err? {
          return Some(r.error);
        }
        tasks := tasks[i := r.value];
      }
      AllWired(sc, before, tasks);
      failed := None;
    }

    /** One task of renderInputs, its inputs one by one. */
    method RenderOne(builder: GraphBuilder, sc: Scope, t: Task) returns (r: Result<Task>)
      requires builder.Indexes(sc.nodes)
      ensures r == RenderTask(sc, t)
    {
      hide RenderInput, Wire;
      if t.node.IsPad() {
        return if t.node.def.DatatableId() == "" then Err(DatatableNotExists(t.node.id)) else Ok(t);
      }
      var inputs := t.node.inputs;
      var w := Wiring([], []);
      for i := 0 to |inputs|
        invariant RenderInputsOf(sc, inputs[..i]) == Ok(w)
      {
        assert inputs[..i + 1][..i] == inputs[..i];
        var x := RenderAnchor(builder, sc, inputs[i]);
        if x.Err? {
          FailedInputs(sc, inputs, i + 1);
          return Err(x.error);
        }
        w := Wire(w, x.value);
      }
      assert inputs[..|inputs|] == inputs;
      r := Ok(t.(node := t.node.(inputs := w.inputs, def := t.node.def.Covered()), dependencies := w.deps));
    }

    method RenderAnchor(builder: GraphBuilder, sc: Scope, input: string) returns (r: Result<RenderedInput>)
      requires builder.Indexes(sc.nodes)
      ensures r == RenderInput(sc, input)
    {
      hide ProducerOf;
      var found := builder.NodeByInput(input, sc.nodes);
      if found.None? {
        return Err(GraphNodeNotExists(input));
      }
      var dep := found.value;
      if dep.IsPad() {
        if dep.id !in sc.selected && dep.id !in sc.env.latest {
          return Err(GraphDependentNodeNotRun(dep.id));
        }
        var dt := dep.def.DatatableId();
        if (dep.codeName == READ_DATATABLE || dep.def.CompId() == READ_DATATABLE) && dt !in sc.env.readable {
          return Err(DatatableNotExists(dt));
        }
        return Ok(RenderedInput(if sc.env.teeNodeId != "" then sc.env.teeNodeId + "-" + dt else dt, None));
      }
      if dep.id in sc.selected {
        return Ok(RenderedInput(input, Some(GenTaskId(sc.jobId, dep.id))));
      }
      if dep.id !in sc.env.latest {
        return Err(GraphDependentNodeNotRun(dep.id));
      }
      r := Ok(RenderedInput(GenTaskOutputId(sc.env.latest[dep.id], input), None));
    }

    /** renderOutputs: first every output, then every input that names one. */
    method RenderOutputs()
      modifies this`tasks
      ensures tasks == RenameTasks(jobId, old(tasks))
    {
      hide GenTaskOutputId;
      ghost var before := tasks;
      var outputMap := map[];
      for i := 0 to |tasks|
        invariant |tasks| == |before|
        invariant forall j :: 0 <= j < i ==> tasks[j] == before[j].(node := before[j].node.(outputs := RenameTask(before, jobId, before[j]).node.outputs))
        invariant forall j :: i <= j < |before| ==> tasks[j] == before[j]
        invariant forall o :: o in outputMap <==> Declares(before[..i], o)
        invariant forall o :: o in outputMap ==> outputMap[o] == GenTaskOutputId(jobId, o)
      {
        var t := tasks[i];
        var outs, added := RenameAll(t.node.outputs, outputMap);
        DeclaresOneMore(before, i);
        outputMap := added;
        tasks := tasks[i := t.(node := t.node.(outputs := outs))];
      }
      assert before[..|before|] == before;
      for i := 0 to |tasks|
        invariant |tasks| == |before|
        invariant forall j :: 0 <= j < i ==> tasks[j] == RenameTask(before, jobId, before[j])
        invariant forall j :: i <= j < |before| ==>
                    tasks[j] == before[j].(node := before[j].node.(outputs := RenameTask(before, jobId, before[j]).node.outputs))
      {
        var t := tasks[i];
        var ins := MapInputs(t.node.inputs, outputMap);
        assert ins == RenameTask(before, jobId, before[i]).node.inputs;
        tasks := tasks[i := t.(node := t.node.(inputs := ins))];
      }
    }

    method RenameAll(outputs: seq<string>, outputMap: map<string, string>) returns (outs: seq<string>,
                     added: map<string, string>)
      ensures outs == seq(|outputs|, i requires 0 <= i < |outputs| => GenTaskOutputId(jobId, outputs[i]))
      ensures forall o :: o in added <==> o in outputMap || o in outputs
      ensures forall o :: o in added ==> added[o] == if o in outputs then GenTaskOutputId(jobId, o) else outputMap[o]
    {
      hide GenTaskOutputId;
      outs, added := [], outputMap;
      for i := 0 to |outputs|
        invariant |outs| == i && forall j :: 0 <= j < i ==> outs[j] == GenTaskOutputId(jobId, outputs[j])
        invariant forall o :: o in added <==> o in outputMap || o in outputs[..i]
        invariant forall o :: o in added ==> added[o] == if o in outputs[..i] then GenTaskOutputId(jobId, o) else outputMap[o]
      {
        var n := GenTaskOutputId(jobId, outputs[i]);
        added := added[outputs[i] := n];
        outs := outs + [n];
      }
    }

    method MapInputs(inputs: seq<string>, outputMap: map<string, string>) returns (ins: seq<string>)
      ensures ins == seq(|inputs|, i requires 0 <= i < |inputs| => if inputs[i] in outputMap then outputMap[inputs[i]] else inputs[i])
    {
      ins := inputs;
      for i := 0 to |inputs|
        invariant |ins| == |inputs|
        invariant forall j :: 0 <= j < i ==> ins[j] == if inputs[j] in outputMap then outputMap[inputs[j]] else inputs[j]
        invariant forall j :: i <= j < |inputs| ==> ins[j] == inputs[j]
      {
        if ins[i] in outputMap {
          ins := ins[i := outputMap[ins[i]]];
        }
      }
    }

    /** renderCustomizeSpec: the extra task is inserted before the original. */
    method RenderCustomizeSpec(env: Env) returns (failed: Option<Error>)
      modifies this`tasks
      ensures match SplitTasks(env, old(tasks))
              case Ok(split) => failed == None && tasks == split
              case Err(e) => failed == Some(e)
    {
      hide SplitTask;
      ghost var before := tasks;
      var out := [];
      for i := 0 to |tasks|
        invariant tasks == before && SplitTasks(env, before[..i]) == Ok(out)
      {
        assert before[..i + 1][..i] == before[..i];
        var ts := SplitTask(env, tasks[i]);
        if ts.Err? {
          FailedSplit(env, before, i + 1);
          return Some(ts.error);
        }
        out := out + ts.value;
      }
      assert before[..|before|] == before;
      tasks := out;
      failed := None;
    }

    method Prune()
      modifies this`tasks
      ensures tasks == Pruned(old(tasks))
    {
      ghost var before := tasks;
      var kept := [];
      for i := 0 to |tasks|
        invariant tasks == before && kept == Pruned(before[..i])
      {
        assert before[..i + 1][..i] == before[..i];
        if !tasks[i].node.IsPad() {
          kept := kept + [tasks[i]];
        }
      }
      assert before[..|before|] == before;
      tasks := kept;
    }

    /** handle: the stages run on a copy, so a failing run leaves this job as it was. */
    method Handle(env: Env) returns (r: Result<seq<Task>>)
      ensures r == RenderJob(env, jobId, fullNodes, tasks)
    {
      hide RenderTasks, RenameTasks, SplitTasks, Pruned;
      var copy := new Job(jobId, fullNodes, tasks);
      var failed := copy.RenderInputs(env);
      if failed.Some? {
        return Err(failed.value);
      }
      copy.RenderOutputs();
      failed := copy.RenderCustomizeSpec(env);
      if failed.Some? {
        return Err(failed.value);
      }
      copy.Prune();
      r := Ok(copy.tasks);
    }
  }

  lemma DeclaresOneMore(tasks: seq<Task>, i: nat)
    requires i < |tasks|
    ensures forall o :: Declares(tasks[..i + 1], o) <==> Declares(tasks[..i], o) || o in tasks[i].node.outputs
  {
    assert tasks[..i + 1] == tasks[..i] + [tasks[i]];
    forall o | o in tasks[i].node.outputs ensures Declares(tasks[..i + 1], o) {
      assert tasks[i] in tasks[..i + 1];
    }
  }

  lemma {:induction false} FailedPrefix(sc: Scope, tasks: seq<Task>, k: nat)
    requires k <= |tasks| && RenderTasks(sc, tasks[..k]).Err?
    ensures RenderTasks(sc, tasks) == RenderTasks(sc, tasks[..k])
    decreases |tasks|
  {
    hide RenderTask;
    if k == |tasks| {
      assert tasks[..k] == tasks;
    } else {
      assert tasks[..|tasks| - 1][..k] == tasks[..k];
      FailedPrefix(sc, tasks[..|tasks| - 1], k);
    }
  }

  /** The first i tasks are wired, the others as they were. */
  ghost predicate WiredUpTo(sc: Scope, before: seq<Task>, i: nat, tasks: seq<Task>) {
    && i <= |before| == |tasks|
    && RenderTasks(sc, before[..i]) == Ok(tasks[..i]) && tasks[i..] == before[i..]
  }

  lemma NothingWired(sc: Scope, before: seq<Task>)
    ensures WiredUpTo(sc, before, 0, before)
  {
  }

  lemma AllWired(sc: Scope, before: seq<Task>, tasks: seq<Task>)
    requires WiredUpTo(sc, before, |tasks|, tasks)
    ensures RenderTasks(sc, before) == Ok(tasks)
  {
    assert before[..|before|] == before && tasks[..|tasks|] == tasks;
  }

  /** One more task of renderInputs: the wiring goes on behind it, or ends with its error. */
  lemma NextTask(sc: Scope, before: seq<Task>, i: nat, tasks: seq<Task>, r: Result<Task>)
    requires i < |tasks| && WiredUpTo(sc, before, i, tasks) && r == RenderTask(sc, tasks[i])
    ensures r.Ok? ==> WiredUpTo(sc, before, i + 1, tasks[i := r.value])
    ensures r.Err? ==> RenderTasks(sc, before) == Err(r.error)
  {
    hide RenderTask;
    assert tasks[i] == tasks[i..][0] == before[i];
    assert before[..i + 1][..i] == before[..i];
    if r.Ok? {
      var next := tasks[i := r.value];
      assert next[..i + 1] == tasks[..i] + [r.value];
      assert next[i + 1..] == tasks[i..][1..] == before[i + 1..];
    } else {
      FailedPrefix(sc, before, i + 1);
    }
  }

  lemma {:induction false} FailedInputs(sc: Scope, inputs: seq<string>, k: nat)
    requires k <= |inputs| && RenderInputsOf(sc, inputs[..k]).Err?
    ensures RenderInputsOf(sc, inputs) == RenderInputsOf(sc, inputs[..k])
    decreases |inputs|
  {
    hide RenderInput, Wire;
    if k == |inputs| {
      assert inputs[..k] == inputs;
    } else {
      assert inputs[..|inputs| - 1][..k] == inputs[..k];
      FailedInputs(sc, inputs[..|inputs| - 1], k);
    }
  }

  lemma {:induction false} FailedSplit(env: Env, tasks: seq<Task>, k: nat)
    requires k <= |tasks| && SplitTasks(env, tasks[..k]).Err?
    ensures SplitTasks(env, tasks) == SplitTasks(env, tasks[..k])
    decreases |tasks|
  {
    hide SplitTask;
    if k == |tasks| {
      assert tasks[..k] == tasks;
    } else {
      assert tasks[..|tasks| - 1][..k] == tasks[..k];
      FailedSplit(env, tasks[..|tasks| - 1], k);
    }
  }
}
