/** Graph nodes, tasks and the resolution of input anchors (internal/graphjob/node.go). */
module Graph {
  import opened Options
  import opened Sequences

  const READ_DATATABLE := "read_data/datatable"
  const READ_MODEL := "ml.predict/read_model"

  /** Components that the platform executes itself. */
  const PAD_COMPONENTS: set<string> := { READ_DATATABLE, READ_MODEL }

  const BINNING_MODIFICATIONS := "binning_modifications"
  const MODEL_PARAM_MODIFICATIONS := "model_param_modifications"

  /**
   An attribute as the graph stores it, with its member `s` (empty when there is none) and, if it carries
   custom_protobuf_cls, the text of its custom_value; or one that rendering writes, which has only `s`.
   */
  datatype Attr = Stored(text: string, s: string, custom: Option<string>) | Written(s: string) {
    predicate IsCustom() { Stored? && custom.Some? }
  }

  datatype NodeDef = NodeDef(domain: string, name: string, version: string, attrPaths: seq<string>, attrs: seq<Attr>,
                             checkpointUri: string) {
    function CompId(): string { domain + "/" + name }

    /** The first selected datatable that is not empty, else the first attribute. */
    function DatatableId(): string { SelectedFrom(0) }

    function SelectedFrom(i: nat): string
      decreases |attrPaths| - i
    {
      if i >= |attrPaths| then (if attrs != [] then attrs[0].s else "")
      else if attrPaths[i] == "datatable_selected" && i < |attrs| && attrs[i].s != "" then attrs[i].s
      else SelectedFrom(i + 1)
    }

    /** CoverCustomAttrs. */
    function Covered(): NodeDef {
      this.(attrs := seq(|attrs|, i requires 0 <= i < |attrs| =>
        if attrs[i].IsCustom() then Written(attrs[i].custom.value) else attrs[i]))
    }
  }

  datatype Node = Node(id: string, codeName: string, inputs: seq<string>, outputs: seq<string>, def: NodeDef) {
    /** Judged on the definition; on the code name only when that is empty. */
    predicate IsPad() {
      if def.domain != "" || def.name != "" then def.CompId() in PAD_COMPONENTS else codeName in PAD_COMPONENTS
    }

    predicate IsModification() {
      def.name == BINNING_MODIFICATIONS || def.name == MODEL_PARAM_MODIFICATIONS
    }
  }

  datatype Task = Task(taskId: string, parties: seq<string>, dependencies: seq<string>, node: Node)

  lemma PadIsNoModification(n: Node)
    requires n.IsPad()
    ensures !n.IsModification()
  {
    var c := n.def.CompId();
    assert n.def.name != "" ==> c[|c| - 1] == n.def.name[|n.def.name| - 1];
    assert READ_DATATABLE[|READ_DATATABLE| - 1] == 'e' && READ_MODEL[|READ_MODEL| - 1] == 'l';
  }

  lemma OneSlash(domain: string, name: string, d: string, n: string)
    requires '/' !in d && '/' !in n && domain + "/" + name == d + "/" + n
    ensures domain == d && name == n
  {
    var c := domain + "/" + name;
    assert c[|domain|] == '/' && c[|d|] == '/';
    assert forall i :: 0 <= i < |d| ==> c[i] == d[i];
    assert forall i :: 0 <= i < |n| ==> c[|d| + 1 + i] == n[i];
    assert |domain| == |d|;
    assert domain == c[..|d|] && name == c[|d| + 1..];
    assert d == c[..|d|] && n == c[|d| + 1..];
  }

  /** The platform's own components: two definitions, or, of nodes without one, two code names. */
  lemma PlatformComponents(n: Node)
    ensures n.IsPad()
       <==> || (n.def.domain == "read_data" && n.def.name == "datatable")
            || (n.def.domain == "ml.predict" && n.def.name == "read_model")
            || (n.def.domain == "" && n.def.name == "" && (n.codeName == "read_data/datatable" || n.codeName == "ml.predict/read_model"))
  {
    assert READ_DATATABLE == "read_data" + "/" + "datatable" && READ_MODEL == "ml.predict" + "/" + "read_model";
    if n.def.CompId() == READ_DATATABLE {
      OneSlash(n.def.domain, n.def.name, "read_data", "datatable");
    }
    if n.def.CompId() == READ_MODEL {
      OneSlash(n.def.domain, n.def.name, "ml.predict", "read_model");
    }
  }

  // ---------- ids ----------

  function GenTaskId(jobId: string, nodeId: string): string { jobId + "-" + nodeId }

  function GenTaskOutputId(jobId: string, outputId: string): string { jobId + "-" + outputId }

  function GenExtendTaskId(taskId: string): string { taskId + "--1" }

  lemma TaskIdInjective(jobId: string, a: string, b: string)
    ensures GenTaskId(jobId, a) == GenTaskId(jobId, b) <==> a == b
    ensures GenExtendTaskId(GenTaskId(jobId, a)) == GenExtendTaskId(GenTaskId(jobId, b)) <==> a == b
    ensures GenExtendTaskId(GenTaskId(jobId, a)) == GenTaskId(jobId, b) <==> b == a + "--1"
    ensures GenExtendTaskId(GenTaskId(jobId, a)) != GenTaskId(jobId, a)
  {
    var p := jobId + "-";
    if GenTaskId(jobId, a) == GenTaskId(jobId, b) {
      PrefixCancel(p, a, b);
    }
    if GenExtendTaskId(GenTaskId(jobId, a)) == GenExtendTaskId(GenTaskId(jobId, b)) {
      SuffixCancel(p + a, p + b, "--1");
      PrefixCancel(p, a, b);
    }
    assert GenExtendTaskId(GenTaskId(jobId, a)) == p + (a + "--1");
    if GenExtendTaskId(GenTaskId(jobId, a)) == GenTaskId(jobId, b) {
      PrefixCancel(p, a + "--1", b);
    }
  }

  // ---------- who produces an anchor ----------

  /** The node that declares output `o`; a later declaration wins. */
  function OutputOwner(nodes: seq<Node>, o: string): Option<string> {
    if nodes == [] then None
    else
      var n := nodes[|nodes| - 1];
      if o in n.outputs then Some(n.id) else OutputOwner(nodes[..|nodes| - 1], o)
  }

  /** The node with that id; a later one wins. */
  function NodeById(nodes: seq<Node>, id: string): Option<Node> {
    if nodes == [] then None
    else
      var n := nodes[|nodes| - 1];
      if n.id == id then Some(n) else NodeById(nodes[..|nodes| - 1], id)
  }

  /** The last index, at most `i`, where `t` occurs in `s`. */
  function LastIndexUpTo(s: string, t: string, i: nat): int {
    if i + |t| <= |s| && s[i..i + |t|] == t then i else if i == 0 then -1 else LastIndexUpTo(s, t, i - 1)
  }

  function LastIndex(s: string, t: string): int { LastIndexUpTo(s, t, |s|) }

  /** Undeclared anchors are taken to be "{node id}-output-{i}". */
  function FallbackId(input: string): string {
    var i := LastIndex(input, "-output-");
    if 0 < i <= |input| then input[..i] else ""
  }

  function ProducerOf(nodes: seq<Node>, input: string): Option<Node> {
    var owner := OutputOwner(nodes, input);
    NodeById(nodes, if owner.Some? then owner.value else FallbackId(input))
  }

  lemma {:induction false} NodeByIdMeaning(nodes: seq<Node>, id: string)
    ensures NodeById(nodes, id).Some? ==> NodeById(nodes, id).value.id == id && NodeById(nodes, id).value in nodes
    ensures NodeById(nodes, id).None? ==> forall n :: n in nodes ==> n.id != id
  {
    if nodes != [] {
      NodeByIdMeaning(nodes[..|nodes| - 1], id);
      assert nodes == nodes[..|nodes| - 1] + [nodes[|nodes| - 1]];
    }
  }

  lemma {:induction false} OutputOwnerMeaning(nodes: seq<Node>, o: string)
    ensures match OutputOwner(nodes, o)
            case None => forall n :: n in nodes ==> o !in n.outputs
            case Some(id) => exists n :: n in nodes && o in n.outputs && n.id == id
  {
    if nodes != [] {
      var init, last := nodes[..|nodes| - 1], nodes[|nodes| - 1];
      OutputOwnerMeaning(init, o);
      assert nodes == init + [last];
      if o in last.outputs {
        assert last in nodes;
      }
    }
  }

  /** Of several nodes with an id, or several declarations of an output, the last one counts. */
  lemma {:induction false} LastWins(nodes: seq<Node>, k: nat, id: string, o: string)
    requires k < |nodes|
    ensures nodes[k].id == id && (forall j :: k < j < |nodes| ==> nodes[j].id != id) ==> NodeById(nodes, id) == Some(nodes[k])
    ensures o in nodes[k].outputs && (forall j :: k < j < |nodes| ==> o !in nodes[j].outputs) ==> OutputOwner(nodes, o) == Some(nodes[k].id)
    decreases |nodes|
  {
    if k < |nodes| - 1 {
      LastWins(nodes[..|nodes| - 1], k, id, o);
    }
  }

  predicate OccursAt(s: string, t: string, i: nat) {
    i + |t| <= |s| && s[i..i + |t|] == t
  }

  lemma {:induction false} LastIndexMeaning(s: string, t: string, i: nat, k: nat)
    requires k <= i && OccursAt(s, t, k) && forall j: nat :: k < j <= i ==> !OccursAt(s, t, j)
    ensures LastIndexUpTo(s, t, i) == k
  {
    if i > k {
      assert !OccursAt(s, t, i);
      LastIndexMeaning(s, t, i - 1, k);
    }
  }

  /** An anchor that no node declares belongs to the node whose id stands before its last "-output-". */
  lemma UndeclaredProducer(nodes: seq<Node>, input: string, id: string, rest: string)
    requires forall n :: n in nodes ==> input !in n.outputs
    requires input == id + "-output-" + rest && id != ""
    requires forall j: nat :: |id| < j ==> !OccursAt(input, "-output-", j)
    ensures ProducerOf(nodes, input) == NodeById(nodes, id)
  {
    OutputOwnerMeaning(nodes, input);
    assert input[|id|..|id| + 8] == "-output-";
    LastIndexMeaning(input, "-output-", |input|, |id|);
    assert input[..|id|] == id;
  }

  predicate SelectsAt(def: NodeDef, i: int) {
    0 <= i < |def.attrPaths| && def.attrPaths[i] == "datatable_selected" && i < |def.attrs| && def.attrs[i].s != ""
  }

  lemma {:induction false} SelectedMeaning(def: NodeDef, i: nat)
    ensures match def.SelectedFrom(i)
            case s => && (forall k :: i <= k && SelectsAt(def, k) && (forall j :: i <= j < k ==> !SelectsAt(def, j)) ==> s == def.attrs[k].s)
                      && ((forall k :: i <= k ==> !SelectsAt(def, k)) ==> s == if def.attrs != [] then def.attrs[0].s else "")
    decreases |def.attrPaths| - i
  {
    if i < |def.attrPaths| && !SelectsAt(def, i) {
      SelectedMeaning(def, i + 1);
    }
  }

  /** The datatable of a component: its first selection that is not empty, and else its first attribute. */
  lemma DatatableMeaning(def: NodeDef)
    ensures forall k :: SelectsAt(def, k) && (forall j :: 0 <= j < k ==> !SelectsAt(def, j)) ==> def.DatatableId() == def.attrs[k].s
    ensures (forall k :: !SelectsAt(def, k)) ==> def.DatatableId() == if def.attrs != [] then def.attrs[0].s else ""
  {
    hide SelectsAt;
    SelectedMeaning(def, 0);
    assert forall k :: SelectsAt(def, k) ==> 0 <= k by { OnlyIndexes(def); }
  }

  lemma OnlyIndexes(def: NodeDef)
    ensures forall k :: SelectsAt(def, k) ==> 0 <= k
  {
  }

  /** Distinct ids, and every anchor declared by one node only. */
  ghost predicate WellDeclared(nodes: seq<Node>) {
    && (forall m, n :: m in nodes && n in nodes && m.id == n.id ==> m == n)
    && (forall m, n, o :: m in nodes && n in nodes && o in m.outputs && o in n.outputs ==> m == n)
  }

  /** In such a graph the producer of a declared anchor is the node that declares it. */
  lemma DeclaredProducer(nodes: seq<Node>, n: Node, o: string)
    requires WellDeclared(nodes) && n in nodes && o in n.outputs
    ensures ProducerOf(nodes, o) == Some(n)
  {
    OutputOwnerMeaning(nodes, o);
    NodeByIdMeaning(nodes, OutputOwner(nodes, o).value);
  }

  /** The two indexes of GraphBuilder. */
  class GraphBuilder {
    var output2node: map<string, string>
    var nodes: map<string, Node>

    ghost predicate Indexes(full: seq<Node>)
      reads this
    {
      && (forall o :: o in output2node <==> OutputOwner(full, o).Some?)
      && (forall o :: o in output2node ==> OutputOwner(full, o) == Some(output2node[o]))
      && (forall id :: id in nodes <==> NodeById(full, id).Some?)
      && (forall id :: id in nodes ==> NodeById(full, id) == Some(nodes[id]))
    }

    constructor (full: seq<Node>)
      ensures Indexes(full)
    {
      output2node, nodes := map[], map[];
      new;
      for i := 0 to |full|
        invariant Indexes(full[..i])
      {
        assert full[..i + 1] == full[..i] + [full[i]];
        AddNode(full[i], full[..i]);
      }
      assert full[..|full|] == full;
    }

    /** One round of the indexing loop. */
    method AddNode(n: Node, ghost before: seq<Node>)
      requires Indexes(before)
      modifies this
      ensures Indexes(before + [n])
    {
      IndexOutputs(n);
      nodes := nodes[n.id := n];
      assert (before + [n])[..|before|] == before;
    }

    method IndexOutputs(n: Node)
      modifies this`output2node
      ensures forall o :: o in output2node <==> o in old(output2node) || o in n.outputs
      ensures forall o :: o in output2node ==> output2node[o] == if o in n.outputs then n.id else old(output2node)[o]
    {
      for j := 0 to |n.outputs|
        invariant forall o :: o in output2node <==> o in old(output2node) || o in n.outputs[..j]
        invariant forall o :: o in output2node ==> output2node[o] == if o in n.outputs[..j] then n.id else old(output2node)[o]
      {
        output2node := output2node[n.outputs[j] := n.id];
      }
    }

    method NodeByInput(input: string, ghost full: seq<Node>) returns (n: Option<Node>)
      requires Indexes(full)
      ensures n == ProducerOf(full, input)
    {
      var id := "";
      if input in output2node {
        id := output2node[input];
      } else {
        var i := LastIndex(input, "-output-");
        if 0 < i <= |input| {
          id := input[..i];
        }
      }
      n := if id in nodes then Some(nodes[id]) else None;
    }
  }
}
