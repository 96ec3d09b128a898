/** Rendering and folding together: the statuses of the submitted tasks come back to the tasks that were persisted. */
module FoldRendered {
  import opened Graph
  import opened Render
  import opened RenderShape
  import opened Fold

  /** The ids of the persisted tasks that Kuscia is to report on. */
  function PersistedIds(tasks: seq<Task>): set<string> {
    set t | t in tasks && !t.node.IsPad() :: t.taskId
  }

  function SplitTaskIds(tasks: seq<Task>): set<string> {
    set t | t in tasks && !t.node.IsPad() && t.node.IsModification() :: t.taskId
  }

  lemma SubmittedMembers(tasks: seq<Task>, x: string)
    ensures x in IdsOf(tasks)
       <==> IsSubmitted(PersistedIds(tasks), SplitTaskIds(tasks), x)
  {
    hide GenExtendTaskId, IdsOf, IdsOfOne, PersistedIds, SplitTaskIds, Node.IsPad, Node.IsModification;
    if x in IdsOf(tasks) {
      SubmittedOfSelected(tasks, x);
    }
    if x in PersistedIds(tasks) {
      PersistedSubmitted(tasks, x);
    }
    if y :| y in SplitTaskIds(tasks) && x == GenExtendTaskId(y) {
      SplitSubmitted(tasks, y);
    }
  }

  lemma SubmittedOfSelected(tasks: seq<Task>, x: string)
    requires x in IdsOf(tasks)
    ensures IsSubmitted(PersistedIds(tasks), SplitTaskIds(tasks), x)
  {
    hide GenExtendTaskId, Node.IsPad, Node.IsModification;
    IdsMembers(tasks, x);
    var k :| 0 <= k < |tasks| && x in IdsOfOne(tasks[k]);
    assert tasks[k] in tasks;
    if x != tasks[k].taskId {
      assert tasks[k].taskId in SplitTaskIds(tasks);
    }
  }

  lemma PersistedSubmitted(tasks: seq<Task>, x: string)
    requires x in PersistedIds(tasks)
    ensures x in IdsOf(tasks)
  {
    hide GenExtendTaskId, Node.IsPad, Node.IsModification;
    IdsMembers(tasks, x);
    var t :| t in tasks && !t.node.IsPad() && t.taskId == x;
    var k :| 0 <= k < |tasks| && tasks[k] == t;
    assert x in IdsOfOne(tasks[k]);
  }

  lemma SplitSubmitted(tasks: seq<Task>, y: string)
    requires y in SplitTaskIds(tasks)
    ensures GenExtendTaskId(y) in IdsOf(tasks)
  {
    hide GenExtendTaskId, Node.IsPad, Node.IsModification;
    IdsMembers(tasks, GenExtendTaskId(y));
    var t :| t in tasks && !t.node.IsPad() && t.node.IsModification() && t.taskId == y;
    var k :| 0 <= k < |tasks| && tasks[k] == t;
    assert GenExtendTaskId(y) in IdsOfOne(tasks[k]);
  }

  /** Kuscia reports under exactly the ids that were submitted. */
  ghost predicate ReportsJob(reports: seq<Report>, out: seq<Task>) {
    forall x :: Reported(reports, x) <==> x in TaskIds(out)
  }

  /**
   One status per submitted task folds back to exactly the persisted tasks that are not platform ones if and only if
   no id of theirs has a double dash and every extra id is cut to one of them; and it does so report by report,
   each into the task it is about, if and only if the split ids do not end in a dash either.
   */
  lemma FoldUndoesRender(env: Env, jobId: string, nodes: seq<Node>, tasks: seq<Task>, out: seq<Task>,
                         reports: seq<Report>)
    requires FromGraph(jobId, nodes, tasks) && RenderJob(env, jobId, nodes, tasks) == Ok(out) && ReportsJob(reports, out)
    ensures var ids, split := PersistedIds(tasks), SplitTaskIds(tasks);
            && (Merge(reports).Keys == ids
                <==> && (forall x :: x in ids ==> Clean(x))
                     && (forall y :: y in split ==> Cut(GenExtendTaskId(y)) in ids))
            && ((forall t, x :: t in reports && x in ids && IsAbout(RawName(t), split, x) ==> Cut(RawName(t)) == x)
                <==> (forall x :: x in ids ==> Clean(x)) && (forall y :: y in split ==> Foldable(y)))
  {
    hide RenderJob, FromGraph, IdsOf, TaskIds, Merge, Clean, Foldable, Reported, IsSubmitted, Cut, GenExtendTaskId, IsAbout;
    SubmittedIds(env, jobId, nodes, tasks, out);
    forall x ensures Reported(reports, x) <==> IsSubmitted(PersistedIds(tasks), SplitTaskIds(tasks), x) {
      SubmittedMembers(tasks, x);
    }
    assert SplitTaskIds(tasks) <= PersistedIds(tasks);
    FoldUndoesSplit(reports, PersistedIds(tasks), SplitTaskIds(tasks));
    ReportsReachTheirTasks(reports, PersistedIds(tasks), SplitTaskIds(tasks));
  }
}
