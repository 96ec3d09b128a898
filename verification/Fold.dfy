/** Folding the reports of split tasks back into their base tasks (mergeExtendedTasks of internal/service/job_sync_service.go). */
module Fold {
  import opened Statuses
  import opened Graph

  datatype Party = Party(domainId: string, state: string, errMsg: string)

  /** What Kuscia reports of one task. */
  datatype Report = Report(taskId: string, alias: string, state: string, errMsg: string, parties: seq<Party>, progress: real)

  /** The name that counts. */
  function RawName(t: Report): string {
    if t.alias == "" then t.taskId else t.alias
  }

  predicate DashesAt(s: string, i: nat) {
    i + 1 < |s| && s[i] == '-' && s[i + 1] == '-'
  }

  /** strings.Index(s, "--"). */
  function IndexFrom(s: string, i: nat): int
    decreases |s| - i
  {
    if i >= |s| then -1 else if DashesAt(s, i) then i else IndexFrom(s, i + 1)
  }

  function Cut(raw: string): string {
    var i := IndexFrom(raw, 0);
    if 0 <= i <= |raw| then raw[..i] else raw
  }

  predicate IsExtended(raw: string) {
    IndexFrom(raw, 0) >= 0
  }

  lemma {:induction false} IndexMeaning(s: string, i: nat)
    ensures var k := IndexFrom(s, i);
            if k < 0 then forall j: nat :: i <= j ==> !DashesAt(s, j)
            else i <= k && DashesAt(s, k) && forall j: nat :: i <= j < k ==> !DashesAt(s, j)
    decreases |s| - i
  {
    if i < |s| && !DashesAt(s, i) {
      IndexMeaning(s, i + 1);
    }
  }

  // ---------- the merge ----------

  /** The last extended report of each base, and the last report of each base itself. */
  function Extended(tasks: seq<Report>): map<string, Report> {
    if tasks == [] then map[]
    else
      var before, t := Extended(tasks[..|tasks| - 1]), tasks[|tasks| - 1];
      if IsExtended(RawName(t)) then before[Cut(RawName(t)) := t] else before
  }

  function Bases(tasks: seq<Report>): map<string, Report> {
    if tasks == [] then map[]
    else
      var before, t := Bases(tasks[..|tasks| - 1]), tasks[|tasks| - 1];
      if IsExtended(RawName(t)) then before else before[RawName(t) := t]
  }

  /** An extended report on its own: its base has not even started. */
  function AloneExtended(e: Report): Report {
    var st := TaskStatusFromKuscia(e.state);
    if st == TaskSucceed || st == TaskRunning then e.(state := "Running") else e
  }

  function FoldInto(b: Report, e: Report): Report {
    var est := TaskStatusFromKuscia(e.state);
    var b1 := if TaskStatusFromKuscia(b.state) == TaskInitialized && est != TaskInitialized then b.(state := "Running") else b;
    if est == TaskFailed then b1.(state := "Failed", errMsg := e.errMsg, parties := b1.parties + e.parties) else b1
  }

  function MergedOf(ext: map<string, Report>, base: map<string, Report>, id: string): Report
    requires id in ext || id in base
  {
    if id !in base then AloneExtended(ext[id]) else if id in ext then FoldInto(base[id], ext[id]) else base[id]
  }

  function Merge(tasks: seq<Report>): map<string, Report> {
    var ext, base := Extended(tasks), Bases(tasks);
    map id | id in ext.Keys + base.Keys :: MergedOf(ext, base, id)
  }

  method MergeExtendedTasks(tasks: seq<Report>) returns (out: map<string, Report>)
    ensures out == Merge(tasks)
  {
    hide Cut, IsExtended, MergedOf, AloneExtended, FoldInto;
    var ext, base: map<string, Report> := map[], map[];
    for i := 0 to |tasks|
      invariant ext == Extended(tasks[..i]) && base == Bases(tasks[..i])
    {
      assert tasks[..i + 1][..i] == tasks[..i];
      var raw := RawName(tasks[i]);
      if IsExtended(raw) {
        ext := ext[Cut(raw) := tasks[i]];
      } else {
        base := base[raw := tasks[i]];
      }
    }
    assert tasks[..|tasks|] == tasks;
    out := AddExtended(ext);
    out := AddBases(ext, base, out);
  }

  method AddExtended(ext: map<string, Report>) returns (out: map<string, Report>)
    ensures out.Keys == ext.Keys && forall id :: id in ext ==> out[id] == AloneExtended(ext[id])
  {
    hide AloneExtended;
    out := map[];
    var todo := ext.Keys;
    while todo != {}
      invariant todo <= ext.Keys && out.Keys == ext.Keys - todo
      invariant forall id :: id in out ==> out[id] == AloneExtended(ext[id])
      decreases |todo|
    {
      var id :| id in todo;
      out := out[id := AloneExtended(ext[id])];
      todo := todo - {id};
    }
  }

  /** The bases still to do are as the first pass left them, the others merged. */
  ghost predicate MergedExcept(ext: map<string, Report>, base: map<string, Report>, todo: set<string>,
                               out: map<string, Report>) {
    && todo <= base.Keys
    && (forall id :: id in out <==> id in ext || (id in base && id !in todo))
    && (forall id :: id in out && id in todo ==> out[id] == AloneExtended(ext[id]))
    && (forall id :: id in out && id !in todo ==> out[id] == MergedOf(ext, base, id))
  }

  lemma MergeOneMore(ext: map<string, Report>, base: map<string, Report>, todo: set<string>, out: map<string,
                     Report>, id: string)
    requires MergedExcept(ext, base, todo, out) && id in todo
    ensures MergedExcept(ext, base, todo - {id}, out[id := MergedOf(ext, base, id)])
  {
    hide MergedOf, AloneExtended;
  }

  method AddBases(ext: map<string, Report>, base: map<string, Report>, alone: map<string,
                  Report>) returns (out: map<string, Report>)
    requires alone.Keys == ext.Keys && forall id :: id in ext ==> alone[id] == AloneExtended(ext[id])
    ensures out.Keys == ext.Keys + base.Keys && forall id :: id in out ==> out[id] == MergedOf(ext, base, id)
  {
    hide AloneExtended, FoldInto, MergedExcept;
    out := alone;
    var todo := base.Keys;
    FirstPass(ext, base, alone);
    while todo != {}
      invariant MergedExcept(ext, base, todo, out) && todo <= base.Keys
      decreases |todo|
    {
      var id :| id in todo;
      MergeOneMore(ext, base, todo, out, id);
      var b := base[id];
      if id in ext {
        b := FoldInto(b, ext[id]);
      }
      out := out[id := b];
      todo := todo - {id};
    }
    LastPass(ext, base, out);
  }

  lemma FirstPass(ext: map<string, Report>, base: map<string, Report>, alone: map<string, Report>)
    requires alone.Keys == ext.Keys && forall id :: id in ext ==> alone[id] == AloneExtended(ext[id])
    ensures MergedExcept(ext, base, base.Keys, alone)
  {
    hide AloneExtended, FoldInto;
  }

  lemma LastPass(ext: map<string, Report>, base: map<string, Report>, out: map<string, Report>)
    requires MergedExcept(ext, base, {}, out)
    ensures out.Keys == ext.Keys + base.Keys && forall id :: id in out ==> out[id] == MergedOf(ext, base, id)
  {
    hide MergedOf;
  }

  // ---------- folding undoes splitting ----------

  /** Without a double dash. */
  predicate Clean(x: string) {
    forall i: nat :: i + 1 < |x| ==> !(x[i] == '-' && x[i + 1] == '-')
  }

  /** An id to which "--1" can be appended and cut off again. */
  predicate Foldable(x: string) {
    Clean(x) && (x == "" || x[|x| - 1] != '-')
  }

  lemma CleanMeaning(x: string)
    ensures Clean(x) <==> forall i: nat :: i < |x| ==> !DashesAt(x, i)
  {
    if Clean(x) {
      forall i: nat | i < |x| ensures !DashesAt(x, i) {
        assert i + 1 < |x| ==> x[i + 1] == '-' ==> x[i] != '-';
      }
    }
    if forall i: nat :: i < |x| ==> !DashesAt(x, i) {
      forall i: nat | i + 1 < |x| ensures !(x[i] == '-' && x[i + 1] == '-') {
        assert !DashesAt(x, i);
      }
    }
  }

  lemma CutOfBase(x: string)
    ensures Clean(x) <==> !IsExtended(x)
    ensures Cut(x) == x <==> Clean(x)
  {
    CleanMeaning(x);
    IndexMeaning(x, 0);
  }

  /** Where the double dash of an extra id is found: at the end of the base id, or earlier. */
  lemma ExtraIndex(x: string)
    ensures var k := IndexFrom(GenExtendTaskId(x), 0);
            0 <= k <= |x| && (k == |x| <==> Foldable(x))
  {
    CleanMeaning(x);
    var y := GenExtendTaskId(x);
    IndexMeaning(y, 0);
    assert DashesAt(y, |x|);
    forall i: nat | i + 1 < |x| ensures DashesAt(y, i) == DashesAt(x, i) {
    }
    assert x != "" ==> DashesAt(y, |x| - 1) == (x[|x| - 1] == '-');
  }

  /** The extra task's report reaches its base exactly when the base id is foldable. */
  lemma CutOfExtra(x: string)
    ensures IsExtended(GenExtendTaskId(x))
    ensures Cut(GenExtendTaskId(x)) == x <==> Foldable(x)
  {
    hide IndexFrom, Foldable;
    ExtraIndex(x);
    assert GenExtendTaskId(x)[..|x|] == x;
  }

  /** Cutting never leaves a double dash, so an id that has one is never reported under. */
  lemma CutIsClean(raw: string)
    ensures Clean(Cut(raw))
  {
    CleanMeaning(Cut(raw));
    IndexMeaning(raw, 0);
    var c := Cut(raw);
    assert forall i: nat :: i < |c| && DashesAt(c, i) ==> DashesAt(raw, i);
  }

  function CutNames(tasks: seq<Report>): set<string> {
    set t | t in tasks :: Cut(RawName(t))
  }

  lemma OneMoreName(tasks: seq<Report>, t: Report)
    ensures CutNames(tasks + [t]) == CutNames(tasks) + {Cut(RawName(t))}
  {
    hide Cut;
    assert t in tasks + [t];
    forall x | x in tasks ensures Cut(RawName(x)) in CutNames(tasks + [t]) {
      assert x in tasks + [t];
    }
  }

  lemma {:induction false} ReportedKeys(tasks: seq<Report>)
    ensures Extended(tasks).Keys + Bases(tasks).Keys == CutNames(tasks)
  {
    hide IsExtended, Cut, CutNames, Clean;
    if tasks == [] {
      assert CutNames([]) == {} by { NoNames(); }
    } else {
      var init, t := tasks[..|tasks| - 1], tasks[|tasks| - 1];
      ReportedKeys(init);
      assert tasks == init + [t];
      CutOfBase(RawName(t));
      OneMoreName(init, t);
    }
  }

  lemma NoNames()
    ensures CutNames([]) == {}
  {
  }

  lemma MergeKeys(tasks: seq<Report>)
    ensures Merge(tasks).Keys == CutNames(tasks)
  {
    hide Extended, Bases, CutNames, MergedOf;
    ReportedKeys(tasks);
  }

  /** A report goes by its alias, and by its task id only without one. */
  lemma NamedByAlias(t: Report)
    ensures Merge([t]).Keys == {Cut(if t.alias != "" then t.alias else t.taskId)}
  {
    hide Merge, Cut;
    MergeKeys([t]);
    OneMoreName([], t);
    NoNames();
    assert [] + [t] == [t];
  }

  /** The ids of the submitted tasks: the base ids, and an extra id for each of `split`. */
  ghost predicate ReportsAll(tasks: seq<Report>, ids: set<string>, split: set<string>) {
    && split <= ids
    && forall x :: Reported(tasks, x) <==> IsSubmitted(ids, split, x)
  }

  predicate Reported(tasks: seq<Report>, x: string) {
    exists t :: t in tasks && RawName(t) == x
  }

  predicate IsSubmitted(ids: set<string>, split: set<string>, x: string) {
    x in ids || exists y :: y in split && x == GenExtendTaskId(y)
  }

  /**
   One status per submitted task folds back to exactly the persisted tasks if and only if no id has a double dash
   and every extra id is cut to an id.
   */
  lemma FoldUndoesSplit(tasks: seq<Report>, ids: set<string>, split: set<string>)
    requires ReportsAll(tasks, ids, split)
    ensures Merge(tasks).Keys == ids
       <==> && (forall x :: x in ids ==> Clean(x))
            && (forall y :: y in split ==> Cut(GenExtendTaskId(y)) in ids)
  {
    hide Merge, Cut, Clean, GenExtendTaskId;
    MergeKeys(tasks);
    if Merge(tasks).Keys == ids {
      forall x | x in ids ensures Clean(x) {
        var t :| t in tasks && Cut(RawName(t)) == x;
        CutIsClean(RawName(t));
      }
      forall y | y in split ensures Cut(GenExtendTaskId(y)) in ids {
        assert IsSubmitted(ids, split, GenExtendTaskId(y));
        assert Reported(tasks, GenExtendTaskId(y));
      }
    }
    if (forall x :: x in ids ==> Clean(x)) && (forall y :: y in split ==> Cut(GenExtendTaskId(y)) in ids) {
      forall x | x in Merge(tasks).Keys ensures x in ids {
        var t :| t in tasks && Cut(RawName(t)) == x;
        assert Reported(tasks, RawName(t));
        CutOfBase(RawName(t));
      }
      forall x | x in ids ensures x in Merge(tasks).Keys {
        assert IsSubmitted(ids, split, x);
        var t :| t in tasks && RawName(t) == x;
        CutOfBase(x);
      }
    }
  }

  /** The report is about the task x: its own, or that of the extra task split off it. */
  predicate IsAbout(raw: string, split: set<string>, x: string) {
    raw == x || (x in split && raw == GenExtendTaskId(x))
  }

  /** Every report is folded into the task it is about if and only if all ids are clean and the split ones foldable. */
  lemma ReportsReachTheirTasks(tasks: seq<Report>, ids: set<string>, split: set<string>)
    requires ReportsAll(tasks, ids, split)
    ensures (forall t, x :: t in tasks && x in ids && IsAbout(RawName(t), split, x) ==> Cut(RawName(t)) == x)
       <==> (forall x :: x in ids ==> Clean(x)) && (forall y :: y in split ==> Foldable(y))
  {
    hide Cut, Clean, Foldable, GenExtendTaskId;
    forall x ensures Cut(x) == x <==> Clean(x) {
      CutOfBase(x);
    }
    forall y ensures Cut(GenExtendTaskId(y)) == y <==> Foldable(y) {
      CutOfExtra(y);
    }
    if forall t, x :: t in tasks && x in ids && IsAbout(RawName(t), split, x) ==> Cut(RawName(t)) == x {
      forall x | x in ids ensures Clean(x) {
        assert IsSubmitted(ids, split, x);
        var t :| t in tasks && RawName(t) == x;
        assert IsAbout(RawName(t), split, x);
      }
      forall y | y in split ensures Foldable(y) {
        assert IsSubmitted(ids, split, GenExtendTaskId(y));
        var t :| t in tasks && RawName(t) == GenExtendTaskId(y);
        assert IsAbout(RawName(t), split, y);
      }
    }
  }

  /** A task id with a double dash never gets a status. */
  lemma UncleanIsNeverReported(tasks: seq<Report>, x: string)
    requires !Clean(x)
    ensures x !in Merge(tasks)
  {
    hide Merge, Cut, Clean;
    MergeKeys(tasks);
    if x in Merge(tasks).Keys {
      var t :| t in tasks && Cut(RawName(t)) == x;
      CutIsClean(RawName(t));
    }
  }

  /** Where an extra task of an unfoldable id that ends in a dash is folded to: the id without that dash. */
  lemma TrailingDashMisfolds(x: string)
    requires Clean(x) && x != "" && x[|x| - 1] == '-'
    ensures Cut(GenExtendTaskId(x)) == x[..|x| - 1]
  {
    CleanMeaning(x);
    var y := GenExtendTaskId(x);
    IndexMeaning(y, 0);
    assert DashesAt(y, |x| - 1);
    assert forall i: nat :: i + 1 < |x| ==> DashesAt(y, i) == DashesAt(x, i);
    var k := IndexFrom(y, 0);
    assert forall j: nat :: j < |x| - 1 ==> !DashesAt(y, j);
    assert k == |x| - 1;
    assert y[..|x| - 1] == x[..|x| - 1];
  }

  /** The last report under this name. */
  predicate LastNamed(tasks: seq<Report>, id: string, i: nat) {
    i < |tasks| && RawName(tasks[i]) == id && forall j :: i < j < |tasks| ==> RawName(tasks[j]) != id
  }

  /** The last report of an extra task that is folded into this name. */
  predicate LastFolded(tasks: seq<Report>, id: string, i: nat) {
    && i < |tasks| && IsExtended(RawName(tasks[i])) && Cut(RawName(tasks[i])) == id
    && forall j :: i < j < |tasks| ==> !(IsExtended(RawName(tasks[j])) && Cut(RawName(tasks[j])) == id)
  }

  lemma {:induction false} LastReportOf(tasks: seq<Report>, id: string, i: nat)
    requires LastNamed(tasks, id, i) && !IsExtended(id)
    ensures id in Bases(tasks) && Bases(tasks)[id] == tasks[i]
    decreases |tasks|
  {
    hide IsExtended, Cut;
    if i < |tasks| - 1 {
      LastReportOf(tasks[..|tasks| - 1], id, i);
    }
  }

  lemma {:induction false} LastExtraOf(tasks: seq<Report>, id: string, i: nat)
    requires LastFolded(tasks, id, i)
    ensures id in Extended(tasks) && Extended(tasks)[id] == tasks[i]
    decreases |tasks|
  {
    hide IsExtended, Cut;
    if i < |tasks| - 1 {
      LastExtraOf(tasks[..|tasks| - 1], id, i);
    }
  }

  /** The status of a fold, from the statuses of base and extra. */
  function FoldedStatus(b: TaskStatus, e: TaskStatus): TaskStatus {
    if e == TaskFailed then TaskFailed
    else if b == TaskInitialized && e != TaskInitialized then TaskRunning
    else b
  }

  lemma StateNames()
    ensures TaskStatusFromKuscia("Running") == TaskRunning && TaskStatusFromKuscia("Failed") == TaskFailed
  {
    assert "Running"[0] != "Succeeded"[0] && "Running"[0] != "Failed"[0];
    assert "Failed"[0] != "Succeeded"[0];
  }

  lemma FoldStatus(b: Report, e: Report)
    ensures TaskStatusFromKuscia(FoldInto(b, e).state) == FoldedStatus(TaskStatusFromKuscia(b.state), TaskStatusFromKuscia(e.state))
  {
    StateNames();
    hide TaskStatusFromKuscia;
  }

  /**
   A split component's status: it has succeeded only when its base task has and its extra task has not failed, it
   has failed when either has, and a base task that has not started shows as running once the extra one has.
   */
  lemma MergedStatus(tasks: seq<Report>, id: string, i: nat, k: nat)
    requires LastNamed(tasks, id, i) && LastFolded(tasks, id, k) && Clean(id)
    ensures id in Merge(tasks)
    ensures var m, b, e := Merge(tasks)[id], tasks[i], tasks[k];
            var st, bst, est := TaskStatusFromKuscia(m.state), TaskStatusFromKuscia(b.state), TaskStatusFromKuscia(e.state);
            && (st == TaskSucceed <==> bst == TaskSucceed && est != TaskFailed)
            && (st == TaskFailed <==> bst == TaskFailed || est == TaskFailed)
            && (st == TaskInitialized <==> bst == TaskInitialized && est == TaskInitialized)
            && (st == TaskRunning <==> est != TaskFailed && (bst == TaskRunning || (bst == TaskInitialized && est != TaskInitialized)))
            && if est == TaskFailed then m == b.(state := "Failed", errMsg := e.errMsg, parties := b.parties + e.parties)
               else m == b.(state := m.state) && (m.state == b.state || m.state == "Running")
  {
    hide TaskStatusFromKuscia, IsExtended, Cut, Clean;
    CutOfBase(id);
    LastReportOf(tasks, id, i);
    LastExtraOf(tasks, id, k);
    FoldStatus(tasks[i], tasks[k]);
  }

  /** The last report of a component that is not split, or whose extra task is not reported, is taken as it is. */
  lemma BaseAlone(tasks: seq<Report>, id: string, i: nat)
    requires LastNamed(tasks, id, i) && Clean(id)
    requires forall s :: s in tasks && IsExtended(RawName(s)) ==> Cut(RawName(s)) != id
    ensures id in Merge(tasks) && Merge(tasks)[id] == tasks[i]
  {
    hide IsExtended, Cut, Clean;
    CutOfBase(id);
    LastReportOf(tasks, id, i);
    NoExtraOf(tasks, id);
  }

  lemma {:induction false} NoExtraOf(tasks: seq<Report>, id: string)
    requires forall s :: s in tasks && IsExtended(RawName(s)) ==> Cut(RawName(s)) != id
    ensures id !in Extended(tasks)
  {
    hide IsExtended, Cut;
    if tasks != [] {
      NoExtraOf(tasks[..|tasks| - 1], id);
    }
  }

  /** Until its base is reported, a split component shows its extra task's status, never success. */
  lemma ExtraAlone(tasks: seq<Report>, id: string, k: nat)
    requires LastFolded(tasks, id, k) && forall s :: s in tasks ==> RawName(s) != id
    ensures id in Merge(tasks)
    ensures var m, e := Merge(tasks)[id], tasks[k];
            && m == e.(state := m.state)
            && TaskStatusFromKuscia(m.state)
               == if TaskStatusFromKuscia(e.state) == TaskSucceed then TaskRunning else TaskStatusFromKuscia(e.state)
  {
    hide Extended, Bases, Cut, IsExtended;
    LastExtraOf(tasks, id, k);
    NoBaseOf(tasks, id);
    StateNames();
    hide TaskStatusFromKuscia;
  }

  lemma {:induction false} NoBaseOf(tasks: seq<Report>, id: string)
    requires forall s :: s in tasks ==> RawName(s) != id
    ensures id !in Bases(tasks)
  {
    hide IsExtended, Cut;
    if tasks != [] {
      NoBaseOf(tasks[..|tasks| - 1], id);
    }
  }
}
