/** Values describing a linked management hierarchy, and what it means for a
    sequence of nodes to be a root-to-employee path, for a node to manage an
    employee, and for the hierarchy to be a tree. */
module OrgChart {

  /** A node is identified by the position of its employee record in the
      input list; two nodes are the same node exactly when they are the same
      record, as the Go code compares node pointers (hierarchy.go:105). */
  type Node = nat

  datatype Option<T> = None | Some(value: T)

  /** One parsed employee record: its identifier, display name and the
      identifiers of the employees it manages directly, in input order. */
  datatype Record = Record(id: string, name: string, managed: seq<string>)

  /** A snapshot of a linked hierarchy: the records, each node's map from a
      subordinate's identifier to that subordinate's node (None is the nil
      entry left by an identifier that had no record), and the root. */
  datatype Chart = Chart(nodes: seq<Record>, links: seq<map<string, Option<Node>>>, root: Node)

  ghost predicate WellFormed(c: Chart) {
    |c.links| == |c.nodes| && c.root < |c.nodes|
  }

  /** No nil child entry, and every child entry names a node. */
  ghost predicate Resolved(c: Chart) {
    && WellFormed(c)
    && forall p, k :: 0 <= p < |c.links| && k in c.links[p] ==>
         c.links[p][k].Some? && c.links[p][k].value < |c.nodes|
  }

  /** The nodes a node's children map points to. */
  function Children(c: Chart, p: Node): set<Node>
    requires p < |c.links|
  {
    set k | k in c.links[p] && c.links[p][k].Some? :: c.links[p][k].value
  }

  ghost predicate IsChild(c: Chart, a: Node, b: Node) {
    a < |c.links| && b in Children(c, a)
  }

  /** Consecutive elements are parent and child. */
  ghost predicate Chain(c: Chart, p: seq<Node>) {
    forall i :: 0 <= i < |p| - 1 ==> IsChild(c, p[i], p[i + 1])
  }

  /** A downward path that starts at the root. */
  ghost predicate RootPath(c: Chart, p: seq<Node>) {
    && WellFormed(c)
    && |p| > 0
    && p[0] == c.root
    && (forall i :: 0 <= i < |p| ==> p[i] < |c.nodes|)
    && Chain(c, p)
  }

  /** A path as the depth-first search records it: from the root down to a
      node whose identifier is t, with no node before it carrying t. */
  ghost predicate IsPathTo(c: Chart, p: seq<Node>, t: string) {
    && RootPath(c, p)
    && c.nodes[p[|p| - 1]].id == t
    && forall i :: 0 <= i < |p| - 1 ==> c.nodes[p[i]].id != t
  }

  ghost predicate Reachable(c: Chart, t: string) {
    exists p :: IsPathTo(c, p, t)
  }

  /** a is a strict manager of employee t: a lies on a path to t, above t. */
  ghost predicate Manages(c: Chart, a: Node, t: string) {
    exists p, x :: IsPathTo(c, p, t) && 0 <= x < |p| - 1 && p[x] == a
  }

  /** a is v itself or one of v's managers. */
  ghost predicate IsAncestor(c: Chart, a: Node, v: Node) {
    exists p :: RootPath(c, p) && p[|p| - 1] == v && a in p
  }

  /** a manages both employees, and every node that manages both is a or
      above a: a is their lowest common strict manager. */
  ghost predicate IsClosestManager(c: Chart, a: Node, t1: string, t2: string) {
    && Manages(c, a, t1)
    && Manages(c, a, t2)
    && forall b :: Manages(c, b, t1) && Manages(c, b, t2) ==> IsAncestor(c, b, a)
  }

  /** What the closest-manager query owes on a tree: the lowest common
      strict manager of t1 and t2 when they have one, the root otherwise. */
  ghost predicate ClosestOrRoot(c: Chart, a: Node, t1: string, t2: string) {
    if exists b :: Manages(c, b, t1) && Manages(c, b, t2)
    then IsClosestManager(c, a, t1, t2)
    else a == c.root
  }

  /** rank strictly decreases from a node to each of its children: a
      witness that the links contain no cycle. */
  ghost predicate Ranked(c: Chart, rank: seq<nat>) {
    && |rank| == |c.links|
    && forall a: Node, b: Node :: IsChild(c, a, b) && b < |rank| ==> rank[b] < rank[a]
  }

  ghost predicate HasParent(c: Chart, b: Node) {
    exists a: Node :: IsChild(c, a, b)
  }

  /** Every node but the root is the child of some node. */
  ghost predicate Parented(c: Chart) {
    forall b: Node :: b != c.root && b < |c.nodes| ==> HasParent(c, b)
  }

  ghost predicate UniqueParent(c: Chart) {
    forall a1: Node, a2: Node, b: Node :: IsChild(c, a1, b) && IsChild(c, a2, b) ==> a1 == a2
  }

  ghost predicate UniqueIds(nodes: seq<Record>) {
    forall i, j :: 0 <= i < j < |nodes| ==> nodes[i].id != nodes[j].id
  }

  /** Each children map is keyed by its children's own identifiers. */
  ghost predicate Consistent(c: Chart) {
    forall p, k :: 0 <= p < |c.links| && k in c.links[p] && c.links[p][k].Some? ==>
      c.links[p][k].value < |c.nodes| && c.nodes[c.links[p][k].value].id == k
  }

  ghost predicate IsTree(c: Chart, rank: seq<nat>) {
    Resolved(c) && Ranked(c, rank) && UniqueParent(c) && UniqueIds(c.nodes) && Consistent(c)
  }

  ghost predicate NoDup<T>(s: seq<T>) {
    forall i, j :: 0 <= i < j < |s| ==> s[i] != s[j]
  }

  lemma NoDupConcat<T>(a: seq<T>, b: seq<T>)
    requires NoDup(a) && NoDup(b)
    requires forall i, j :: 0 <= i < |a| && 0 <= j < |b| ==> a[i] != b[j]
    ensures NoDup(a + b)
  {
    forall i, j | 0 <= i < j < |a + b| ensures (a + b)[i] != (a + b)[j] {
      if j < |a| {
      } else if i >= |a| {
        assert (a + b)[i] == b[i - |a|] && (a + b)[j] == b[j - |a|];
      } else {
        assert (a + b)[j] == b[j - |a|];
      }
    }
  }

  /** Along a chain of nodes, rank strictly decreases. */
  lemma {:induction false} RankDecreases(c: Chart, rank: seq<nat>, p: seq<Node>, i: int, j: int)
    requires Ranked(c, rank) && Chain(c, p)
    requires forall k :: 0 <= k < |p| ==> p[k] < |rank|
    requires 0 <= i < j < |p|
    ensures rank[p[j]] < rank[p[i]]
    decreases j - i
  {
    assert IsChild(c, p[j - 1], p[j]);
    if j > i + 1 {
      RankDecreases(c, rank, p, i, j - 1);
    }
  }

  /** A root path followed by a child of its last node is a root path. */
  lemma RootPathAppend(c: Chart, p: seq<Node>, child: Node)
    requires RootPath(c, p) && IsChild(c, p[|p| - 1], child) && child < |c.nodes|
    ensures RootPath(c, p + [child])
  {
    var p' := p + [child];
    forall k | 0 <= k < |p'| - 1 ensures IsChild(c, p'[k], p'[k + 1]) {
      if k < |p| - 1 {
        assert p'[k] == p[k] && p'[k + 1] == p[k + 1];
      }
    }
  }

  /** The largest rank, an upper bound on every rank. */
  function MaxRank(rank: seq<nat>): (m: nat)
    ensures forall k :: 0 <= k < |rank| ==> rank[k] <= m
  {
    if rank == [] then 0
    else
      var m' := MaxRank(rank[..|rank| - 1]);
      if rank[|rank| - 1] > m' then rank[|rank| - 1] else m'
  }

  /** When every node but the root has a parent and rank rises towards the
      parents, the root reaches every node: walk up from b, one parent at a
      time. */
  lemma {:induction false} ReachesNode(c: Chart, rank: seq<nat>, b: Node) returns (p: seq<Node>)
    requires WellFormed(c) && Ranked(c, rank) && Parented(c) && b < |c.nodes|
    ensures RootPath(c, p) && p[|p| - 1] == b
    decreases MaxRank(rank) - rank[b]
  {
    if b == c.root {
      p := [b];
    } else {
      assert HasParent(c, b);
      var a: Node :| IsChild(c, a, b);
      var above := ReachesNode(c, rank, a);
      RootPathAppend(c, above, b);
      p := above + [b];
    }
  }

  /** A root path never visits a node twice. */
  lemma RootPathDistinct(c: Chart, rank: seq<nat>, p: seq<Node>)
    requires Ranked(c, rank) && RootPath(c, p)
    ensures NoDup(p)
  {
    forall i, j | 0 <= i < j < |p| ensures p[i] != p[j] {
      RankDecreases(c, rank, p, i, j);
    }
  }

  /** In a tree, two root paths that share a node reach it at the same depth
      and agree on everything above it. */
  lemma {:induction false} Agreement(c: Chart, rank: seq<nat>, p: seq<Node>, q: seq<Node>, a: int, b: int)
    requires Ranked(c, rank) && UniqueParent(c) && RootPath(c, p) && RootPath(c, q)
    requires 0 <= a < |p| && 0 <= b < |q| && p[a] == q[b]
    ensures a == b && p[..a + 1] == q[..b + 1]
    decreases a + b
  {
    if a == 0 && b == 0 {
    } else if a == 0 {
      RankDecreases(c, rank, q, 0, b);
      assert false;
    } else if b == 0 {
      RankDecreases(c, rank, p, 0, a);
      assert false;
    } else {
      assert IsChild(c, p[a - 1], p[a]) && IsChild(c, q[b - 1], q[b]);
      Agreement(c, rank, p, q, a - 1, b - 1);
      assert p[..a + 1] == p[..a] + [p[a]];
      assert q[..b + 1] == q[..b] + [q[b]];
    }
  }

  /** In a tree there is at most one path to an employee. */
  lemma PathUnique(c: Chart, rank: seq<nat>, p: seq<Node>, q: seq<Node>, t: string)
    requires IsTree(c, rank) && IsPathTo(c, p, t) && IsPathTo(c, q, t)
    ensures p == q
  {
    var u, v := p[|p| - 1], q[|q| - 1];
    assert c.nodes[u].id == c.nodes[v].id;
    assert u == v;
    Agreement(c, rank, p, q, |p| - 1, |q| - 1);
    assert p == p[..|p|] && q == q[..|q|];
  }

  /** A list holding each path to t exactly once has at most one element in
      a tree. */
  lemma AtMostOnePath(c: Chart, rank: seq<nat>, paths: seq<seq<Node>>, t: string)
    requires IsTree(c, rank)
    requires forall q :: q in paths <==> IsPathTo(c, q, t)
    requires NoDup(paths)
    ensures |paths| <= 1
    ensures |paths| == 1 <==> Reachable(c, t)
  {
    if |paths| >= 2 {
      assert paths[0] in paths && paths[1] in paths;
      PathUnique(c, rank, paths[0], paths[1], t);
    }
    if Reachable(c, t) {
      var p :| IsPathTo(c, p, t);
      assert p in paths;
    }
    if |paths| == 1 {
      assert IsPathTo(c, paths[0], t);
    }
  }

  /** Being one of the other's ancestors both ways makes two nodes equal. */
  lemma AncestorAntisymmetric(c: Chart, rank: seq<nat>, a: Node, b: Node)
    requires Ranked(c, rank) && UniqueParent(c)
    requires IsAncestor(c, a, b) && IsAncestor(c, b, a)
    ensures a == b
  {
    var p :| RootPath(c, p) && p[|p| - 1] == b && a in p;
    var q :| RootPath(c, q) && q[|q| - 1] == a && b in q;
    var i :| 0 <= i < |p| && p[i] == a;
    var j :| 0 <= j < |q| && q[j] == b;
    Agreement(c, rank, p, q, i, |q| - 1);
    Agreement(c, rank, q, p, j, |p| - 1);
  }

  /** The lowest common strict manager is unique. */
  lemma ClosestUnique(c: Chart, rank: seq<nat>, a: Node, b: Node, t1: string, t2: string)
    requires Ranked(c, rank) && UniqueParent(c)
    requires IsClosestManager(c, a, t1, t2) && IsClosestManager(c, b, t1, t2)
    ensures a == b
  {
    AncestorAntisymmetric(c, rank, a, b);
  }

  /** Pigeonhole: distinct node handles below n number at most n. */
  lemma DistinctBound(s: seq<Node>, n: nat)
    requires NoDup(s)
    requires forall i :: 0 <= i < |s| ==> s[i] < n
    ensures |s| <= n
  {
    var elems := set i | 0 <= i < |s| :: s[i];
    DistinctCard(s);
    SetBelowCard(elems, n);
  }

  lemma {:induction false} DistinctCard(s: seq<Node>)
    requires NoDup(s)
    ensures |set i | 0 <= i < |s| :: s[i]| == |s|
  {
    if |s| > 0 {
      var t := s[..|s| - 1];
      assert NoDup(t);
      DistinctCard(t);
      var before := set i | 0 <= i < |t| :: t[i];
      var all := set i | 0 <= i < |s| :: s[i];
      assert all == before + {s[|s| - 1]};
      assert s[|s| - 1] !in before;
    }
  }

  lemma {:induction false} SetBelowCard(elems: set<Node>, n: nat)
    requires forall x :: x in elems ==> x < n
    ensures |elems| <= n
  {
    if n > 0 {
      var rest := elems - {n - 1};
      SetBelowCard(rest, n - 1);
    } else {
      assert elems == {};
    }
  }
}
