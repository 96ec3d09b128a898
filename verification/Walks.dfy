/** Walks in a directed graph, given by its edges. */
module Walks {

  type Edges = iset<(string, string)>

  ghost predicate HasStep(edges: Edges, a: string, b: string) {
    (a, b) in edges
  }

  /** Consecutive nodes of `p` are joined by edges. */
  ghost predicate Walk(edges: Edges, p: seq<string>) {
    p != [] && forall i, j :: 0 <= i && j == i + 1 && j < |p| ==> HasStep(edges, p[i], p[j])
  }

  ghost predicate Reaches(edges: Edges, a: string, b: string) {
    exists p :: Walk(edges, p) && p[0] == a && p[|p| - 1] == b
  }

  ghost predicate Cyclic(edges: Edges) {
    exists p :: Walk(edges, p) && |p| >= 2 && p[0] == p[|p| - 1]
  }

  lemma ReachesSelf(edges: Edges, a: string)
    ensures Reaches(edges, a, a)
  {
    assert Walk(edges, [a]) && [a][0] == a;
  }

  lemma StepThenReach(edges: Edges, a: string, b: string, c: string)
    requires HasStep(edges, a, b) && Reaches(edges, b, c)
    ensures Reaches(edges, a, c)
  {
    var p :| Walk(edges, p) && p[0] == b && p[|p| - 1] == c;
    var q := [a] + p;
    forall i, j | 0 <= i && j == i + 1 && j < |q| ensures HasStep(edges, q[i], q[j]) {
      if i > 0 {
        assert q[i] == p[i - 1] && q[j] == p[j - 1];
      }
    }
    assert Walk(edges, q) && q[0] == a && q[|q| - 1] == c;
  }

  /** A set closed under predecessors holds everything that reaches one of its members. */
  lemma {:induction false} ClosedHoldsAncestors(edges: Edges, closed: set<string>, p: seq<string>)
    requires forall a, b :: b in closed && HasStep(edges, a, b) ==> a in closed
    requires Walk(edges, p) && p[|p| - 1] in closed
    ensures p[0] in closed
    decreases |p|
  {
    if |p| > 1 {
      var n := |p| - 1;
      assert HasStep(edges, p[n - 1], p[n]);
      var init := p[..n];
      forall i, j | 0 <= i && j == i + 1 && j < |init| ensures HasStep(edges, init[i], init[j]) {
        assert HasStep(edges, p[i], p[j]);
      }
      ClosedHoldsAncestors(edges, closed, init);
    }
  }

  // ---------- walks of at least one edge ----------

  ghost predicate Strict(edges: Edges, a: string, b: string) {
    exists p :: Walk(edges, p) && |p| >= 2 && p[0] == a && p[|p| - 1] == b
  }

  lemma CyclicIffStrict(edges: Edges)
    ensures Cyclic(edges) <==> exists a :: Strict(edges, a, a)
  {
    if Cyclic(edges) {
      var p :| Walk(edges, p) && |p| >= 2 && p[0] == p[|p| - 1];
      assert Strict(edges, p[0], p[0]);
    }
  }

  lemma StepIsStrict(edges: Edges, a: string, b: string)
    requires HasStep(edges, a, b)
    ensures Strict(edges, a, b)
  {
    var p := [a, b];
    assert Walk(edges, p) && p[0] == a && p[|p| - 1] == b;
  }

  lemma StrictThenStep(edges: Edges, a: string, b: string, c: string)
    requires Strict(edges, a, b) && HasStep(edges, b, c)
    ensures Strict(edges, a, c)
  {
    var p :| Walk(edges, p) && |p| >= 2 && p[0] == a && p[|p| - 1] == b;
    var q := p + [c];
    assert Walk(edges, q) && q[0] == a && q[|q| - 1] == c;
  }

  lemma StrictThenStrict(edges: Edges, a: string, b: string, c: string)
    requires Strict(edges, a, b) && Strict(edges, b, c)
    ensures Strict(edges, a, c)
  {
    var p :| Walk(edges, p) && |p| >= 2 && p[0] == a && p[|p| - 1] == b;
    var q :| Walk(edges, q) && |q| >= 2 && q[0] == b && q[|q| - 1] == c;
    var r := p + q[1..];
    forall i, j | 0 <= i && j == i + 1 && j < |r| ensures HasStep(edges, r[i], r[j]) {
      if j < |p| {
        assert HasStep(edges, p[i], p[j]);
      } else {
        var m, n := i - (|p| - 1), j - (|p| - 1);
        assert r[i] == q[m] && r[j] == q[n];
        assert HasStep(edges, q[m], q[n]);
      }
    }
    assert Walk(edges, r) && r[0] == a && r[|r| - 1] == c;
  }

  /** The last step of a walk. */
  lemma LastStep(edges: Edges, p: seq<string>)
    requires Walk(edges, p) && |p| >= 2
    ensures HasStep(edges, p[|p| - 2], p[|p| - 1]) && Walk(edges, p[..|p| - 1])
  {
    var n := |p| - 1;
    var init := p[..n];
    assert HasStep(edges, p[n - 1], p[n]);
    forall i, j | 0 <= i && j == i + 1 && j < |init| ensures HasStep(edges, init[i], init[j]) {
      assert HasStep(edges, p[i], p[j]);
    }
  }
}
