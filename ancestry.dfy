/** The cost measure that the closest-manager search minimises over pairs of
    paths, and why, on a tree, its minimum picks out the lowest common
    strict manager. */
module Ancestry {
  import opened OrgChart

  /** Number of links from the candidate at p[x] (= q[y]) down to the last
      node of p plus down to the last node of q, minus one. */
  function Cost(p: seq<Node>, q: seq<Node>, x: int, y: int): int {
    ((|p| - 1) - x) + ((|q| - 1) - y) - 1
  }

  /** A node shared by the two paths, both occurrences strictly above the
      paths' last nodes. */
  ghost predicate Match(p: seq<Node>, q: seq<Node>, x: int, y: int) {
    0 <= x < |p| - 1 && 0 <= y < |q| - 1 && p[x] == q[y]
  }

  /** In a tree a shared node sits at the same depth in both root paths. */
  lemma MatchSameDepth(c: Chart, rank: seq<nat>, p: seq<Node>, q: seq<Node>, x: int, y: int)
    requires Ranked(c, rank) && UniqueParent(c) && RootPath(c, p) && RootPath(c, q)
    requires Match(p, q, x, y)
    ensures x == y
  {
    Agreement(c, rank, p, q, x, y);
  }

  /** In a tree, two root paths that share a node agree at every depth
      above it. */
  lemma AgreeAbove(c: Chart, rank: seq<nat>, p: seq<Node>, q: seq<Node>, a: int, b: int, d: int)
    requires Ranked(c, rank) && UniqueParent(c) && RootPath(c, p) && RootPath(c, q)
    requires 0 <= a < |p| && 0 <= b < |q| && p[a] == q[b]
    requires 0 <= d && (d <= a || d <= b)
    ensures a == b && p[d] == q[d]
  {
    Agreement(c, rank, p, q, a, b);
    assert p[..a + 1][d] == q[..b + 1][d];
  }

  /** In a tree, the match at which two root paths part (no match one level
      deeper) costs less than the number of nodes. */
  lemma PartingCostBound(c: Chart, rank: seq<nat>, p: seq<Node>, q: seq<Node>, x: int)
    requires Ranked(c, rank) && UniqueParent(c) && RootPath(c, p) && RootPath(c, q)
    requires Match(p, q, x, x) && !Match(p, q, x + 1, x + 1)
    ensures Cost(p, q, x, x) < |c.nodes|
  {
    RootPathDistinct(c, rank, p);
    RootPathDistinct(c, rank, q);
    if x + 1 >= |p| - 1 {
      DistinctBound(q, |c.nodes|);
    } else if x + 1 >= |q| - 1 {
      DistinctBound(p, |c.nodes|);
    } else {
      assert p[x + 1] != q[x + 1];
      var tail := q[x + 1..];
      forall i, j | 0 <= i < |p| && 0 <= j < |tail| ensures p[i] != tail[j] {
        assert q[j + x + 1] == tail[j];
        if p[i] == tail[j] {
          AgreeAbove(c, rank, p, q, i, j + x + 1, x + 1);
        }
      }
      assert NoDup(tail) by {
        forall i, j | 0 <= i < j < |tail| ensures tail[i] != tail[j] {
          assert tail[i] == q[i + x + 1] && tail[j] == q[j + x + 1];
        }
      }
      NoDupConcat(p, tail);
      var s := p + tail;
      forall i | 0 <= i < |s| ensures s[i] < |c.nodes| {
        if i >= |p| {
          assert s[i] == q[i - |p| + x + 1];
        }
      }
      DistinctBound(s, |c.nodes|);
    }
  }

  /** In a tree, whenever the two paths share a strict manager at all, some
      match costs less than the number of nodes: the initial bound of the
      search is always beaten. */
  lemma {:induction false} CheapMatchExists(c: Chart, rank: seq<nat>, p: seq<Node>, q: seq<Node>, x: int, y: int)
    requires Ranked(c, rank) && UniqueParent(c) && RootPath(c, p) && RootPath(c, q)
    requires Match(p, q, x, y)
    ensures exists x', y' :: Match(p, q, x', y') && Cost(p, q, x', y') < |c.nodes|
    decreases |p| - x
  {
    MatchSameDepth(c, rank, p, q, x, y);
    if Match(p, q, x + 1, x + 1) {
      CheapMatchExists(c, rank, p, q, x + 1, x + 1);
    } else {
      PartingCostBound(c, rank, p, q, x);
    }
  }

  /** In a tree, every common strict manager of the two paths' employees is
      a match of the two paths. */
  lemma CommonManagerIsMatch(c: Chart, rank: seq<nat>, p: seq<Node>, q: seq<Node>, t1: string, t2: string, b: Node)
    requires IsTree(c, rank) && IsPathTo(c, p, t1) && IsPathTo(c, q, t2)
    requires Manages(c, b, t1) && Manages(c, b, t2)
    ensures exists x :: Match(p, q, x, x) && p[x] == b
  {
    var p', x :| IsPathTo(c, p', t1) && 0 <= x < |p'| - 1 && p'[x] == b;
    var q', y :| IsPathTo(c, q', t2) && 0 <= y < |q'| - 1 && q'[y] == b;
    PathUnique(c, rank, p, p', t1);
    PathUnique(c, rank, q, q', t2);
    MatchSameDepth(c, rank, p, q, x, y);
    assert Match(p, q, x, x);
  }

  /** A match of the two paths is a common strict manager of their
      employees. */
  lemma MatchManagesBoth(c: Chart, p: seq<Node>, q: seq<Node>, t1: string, t2: string, x: int, y: int)
    requires IsPathTo(c, p, t1) && IsPathTo(c, q, t2) && Match(p, q, x, y)
    ensures Manages(c, p[x], t1) && Manages(c, p[x], t2)
  {
  }

  /** On a tree, the cheapest match of the paths to t1 and t2 is the lowest
      common strict manager of t1 and t2. */
  lemma CheapestMatchIsClosest(c: Chart, rank: seq<nat>, p: seq<Node>, q: seq<Node>, t1: string, t2: string, x: int, y: int)
    requires IsTree(c, rank) && IsPathTo(c, p, t1) && IsPathTo(c, q, t2)
    requires Match(p, q, x, y)
    requires forall x', y' :: Match(p, q, x', y') ==> Cost(p, q, x, y) <= Cost(p, q, x', y')
    ensures IsClosestManager(c, p[x], t1, t2)
  {
    MatchManagesBoth(c, p, q, t1, t2, x, y);
    MatchSameDepth(c, rank, p, q, x, y);
    forall b | Manages(c, b, t1) && Manages(c, b, t2) ensures IsAncestor(c, b, p[x]) {
      CommonManagerIsMatch(c, rank, p, q, t1, t2, b);
      var x' :| Match(p, q, x', x') && p[x'] == b;
      assert Cost(p, q, x, y) <= Cost(p, q, x', x');
      PrefixAncestor(c, p, x', x);
    }
  }

  /** A node on a root path is an ancestor of every node below it there. */
  lemma PrefixAncestor(c: Chart, p: seq<Node>, i: int, j: int)
    requires RootPath(c, p) && 0 <= i <= j < |p|
    ensures IsAncestor(c, p[i], p[j])
  {
    var r := p[..j + 1];
    assert r[i] == p[i];
    assert RootPath(c, r) by {
      forall k | 0 <= k < |r| - 1 ensures IsChild(c, r[k], r[k + 1]) {
        assert r[k] == p[k] && r[k + 1] == p[k + 1];
      }
    }
  }

  /** On a tree, the match at which the two paths part is the lowest common
      strict manager. */
  lemma PartingMatchIsClosest(c: Chart, rank: seq<nat>, p: seq<Node>, q: seq<Node>, t1: string, t2: string, x: int)
    requires IsTree(c, rank) && IsPathTo(c, p, t1) && IsPathTo(c, q, t2)
    requires Match(p, q, x, x) && !Match(p, q, x + 1, x + 1)
    ensures IsClosestManager(c, p[x], t1, t2)
  {
    forall x', y' | Match(p, q, x', y') ensures Cost(p, q, x, x) <= Cost(p, q, x', y') {
      MatchSameDepth(c, rank, p, q, x', y');
      if x' > x {
        AgreeAbove(c, rank, p, q, x', y', x + 1);
      }
    }
    CheapestMatchIsClosest(c, rank, p, q, t1, t2, x, x);
  }

  /** Without a match there is no common strict manager. */
  lemma NoMatchNoManager(c: Chart, rank: seq<nat>, p: seq<Node>, q: seq<Node>, t1: string, t2: string)
    requires IsTree(c, rank) && IsPathTo(c, p, t1) && IsPathTo(c, q, t2)
    requires forall x, y :: !Match(p, q, x, y)
    ensures !exists b :: Manages(c, b, t1) && Manages(c, b, t2)
  {
    if b :| Manages(c, b, t1) && Manages(c, b, t2) {
      CommonManagerIsMatch(c, rank, p, q, t1, t2, b);
    }
  }
}
