/** The hierarchy object: the two-pass tree builder, the depth-first path
    enumeration and the closest-manager query, as the imperative code they
    are, each proved against the specification in OrgChart, TreeBuild and
    Ancestry. */
module Hierarchy {
  import opened OrgChart
  import opened TreeBuild
  import opened Ancestry

  /** The only error kind a query reports; it carries the unknown
      identifier. */
  datatype Error = EmployeeNotFound(id: string)

  datatype Result<T> = Ok(value: T) | Err(error: Error)

  /** A pair of path lists has a match, in some pair of paths, whose cost is
      below the bound n the search starts from. */
  ghost predicate HasCheapMatch(pathsOne: seq<seq<Node>>, pathsTwo: seq<seq<Node>>, n: int) {
    exists i, j, x, y :: PairMatch(pathsOne, pathsTwo, i, j, x, y) && Cost(pathsOne[i], pathsTwo[j], x, y) < n
  }

  ghost predicate PairMatch(pathsOne: seq<seq<Node>>, pathsTwo: seq<seq<Node>>, i: int, j: int, x: int, y: int) {
    0 <= i < |pathsOne| && 0 <= j < |pathsTwo| && Match(pathsOne[i], pathsTwo[j], x, y)
  }

  /** Pair (i', j') comes before pair (i, j) in the order the search visits
      pairs. */
  predicate Before(i': int, j': int, i: int, j: int) {
    i' < i || (i' == i && j' < j)
  }

  /** The match at x, y of pair i, j has the least cost over all pairs, no
      pair visited before it has a match that cheap, and no earlier position
      of its own first path does either. */
  ghost predicate Best(pathsOne: seq<seq<Node>>, pathsTwo: seq<seq<Node>>, i: int, j: int, x: int, y: int) {
    && PairMatch(pathsOne, pathsTwo, i, j, x, y)
    && (forall i', j', x', y' :: PairMatch(pathsOne, pathsTwo, i', j', x', y') ==>
          Cost(pathsOne[i], pathsTwo[j], x, y) <= Cost(pathsOne[i'], pathsTwo[j'], x', y'))
    && (forall i', j', x', y' :: PairMatch(pathsOne, pathsTwo, i', j', x', y') && Before(i', j', i, j) ==>
          Cost(pathsOne[i], pathsTwo[j], x, y) < Cost(pathsOne[i'], pathsTwo[j'], x', y'))
    && (forall x', y' :: x' < x && Match(pathsOne[i], pathsTwo[j], x', y') ==>
          Cost(pathsOne[i], pathsTwo[j], x, y) < Cost(pathsOne[i], pathsTwo[j], x', y'))
  }

  /** qs holds exactly the paths to t that begin with prefix. */
  ghost predicate Lists(c: Chart, t: string, prefix: seq<Node>, qs: seq<seq<Node>>) {
    forall q :: q in qs <==> IsPathTo(c, q, t) && prefix <= q
  }

  /** No node on path carries t. */
  ghost predicate Clear(c: Chart, path: seq<Node>, t: string) {
    forall i :: 0 <= i < |path| ==> path[i] < |c.nodes| && c.nodes[path[i]].id != t
  }

  /** found holds exactly the paths to t that continue here with a child
      in done. */
  ghost predicate FoundBelow(c: Chart, t: string, here: seq<Node>, found: seq<seq<Node>>, done: set<Node>) {
    forall q :: q in found <==> IsPathTo(c, q, t) && here <= q && |q| > |here| && q[|here|] in done
  }

  /** Adding the paths found below one more child. */
  lemma ExtendFound(c: Chart, t: string, here: seq<Node>, found: seq<seq<Node>>, done: set<Node>,
                    more: seq<seq<Node>>, child: Node)
    requires FoundBelow(c, t, here, found, done)
    requires Lists(c, t, here + [child], more)
    ensures FoundBelow(c, t, here, found + more, done + {child})
    ensures child !in done && NoDup(found) && NoDup(more) ==> NoDup(found + more)
  {
    forall q ensures q in found + more <==> IsPathTo(c, q, t) && here <= q && |q| > |here| && q[|here|] in done + {child} {
      if here <= q && |q| > |here| {
        assert (here + [child] <= q) <==> q[|here|] == child by {
          if q[|here|] == child {
            assert q[..|here| + 1] == here + [child];
          }
        }
      } else {
        assert !(here + [child] <= q);
      }
    }
    if child !in done && NoDup(found) && NoDup(more) {
      forall i, j | 0 <= i < |found| && 0 <= j < |more| ensures found[i] != more[j] {
        assert found[i] in found && more[j] in more;
        assert (here + [child])[|here|] == child;
      }
      NoDupConcat(found, more);
    }
  }

  /** Once every child of the last node of here is done, found holds all
      paths to t that continue here. */
  lemma FoundAll(c: Chart, t: string, node: Node, here: seq<Node>, found: seq<seq<Node>>, done: set<Node>)
    requires |here| > 0 && here[|here| - 1] == node && node < |c.links| && node < |c.nodes|
    requires c.nodes[node].id != t
    requires FoundBelow(c, t, here, found, done)
    requires Children(c, node) <= done
    ensures Lists(c, t, here, found)
  {
    forall q | IsPathTo(c, q, t) && here <= q ensures q in found {
      assert q[|here| - 1] == node;
      assert |q| > |here|;
      assert IsChild(c, q[|here| - 1], q[|here|]);
    }
  }

  /** The base case of the search: the only path to t that continues
      path + [node], when node carries t and nothing on path does, is
      path + [node] itself. */
  lemma FoundAtTarget(c: Chart, t: string, path: seq<Node>, node: Node)
    requires RootPath(c, path + [node]) && node < |c.nodes| && c.nodes[node].id == t
    requires Clear(c, path, t)
    ensures Lists(c, t, path + [node], [path + [node]])
  {
    var here := path + [node];
    forall q | IsPathTo(c, q, t) && here <= q ensures q == here {
      assert q[|path|] == node;
    }
    assert IsPathTo(c, here, t) by {
      forall i | 0 <= i < |here| - 1 ensures c.nodes[here[i]].id != t {
        assert here[i] == path[i];
      }
    }
  }

  lemma ClearExtend(c: Chart, path: seq<Node>, node: Node, t: string)
    requires Clear(c, path, t) && node < |c.nodes| && c.nodes[node].id != t
    ensures Clear(c, path + [node], t)
  {
  }

  lemma AppendAssoc<T>(a: seq<T>, b: seq<T>, d: seq<T>)
    ensures (a + b) + d == a + (b + d)
  {
  }

  lemma ChildRank(c: Chart, rank: seq<nat>, node: Node, child: Node)
    requires Ranked(c, rank) && node < |c.links| && child in Children(c, node) && child < |rank|
    ensures node < |rank| && rank[child] < rank[node]
  {
    assert IsChild(c, node, child);
  }

  /** Bookkeeping of the loop over a node's children map: keys are the
      entries not yet visited, done the children already searched. */
  ghost predicate DoneKeys(c: Chart, node: Node, keys: set<string>, done: set<Node>) {
    && Resolved(c)
    && node < |c.links|
    && keys <= c.links[node].Keys
    && (forall k :: k in c.links[node] && k !in keys ==> c.links[node][k].value in done)
    && done <= Children(c, node)
    && (Consistent(c) ==> forall k :: k in keys ==> c.links[node][k].value !in done)
  }

  lemma DoneKeysStep(c: Chart, node: Node, keys: set<string>, done: set<Node>, k: string)
    requires DoneKeys(c, node, keys, done) && k in keys
    ensures c.links[node][k].Some? && c.links[node][k].value in Children(c, node)
    ensures c.links[node][k].value < |c.nodes|
    ensures Consistent(c) ==> c.links[node][k].value !in done
    ensures DoneKeys(c, node, keys - {k}, done + {c.links[node][k].value})
  {
  }

  lemma DoneKeysAll(c: Chart, node: Node, done: set<Node>)
    requires DoneKeys(c, node, {}, done)
    ensures Children(c, node) <= done
  {
  }

  /** Depth-first search below node, which comes after path: a node
      carrying the target identifier is recorded (path plus the node)
      and not descended into; otherwise each child is searched with the
      node appended to the path. The paths found are appended to paths. */
  method GetPath(c: Chart, node: Node, employee: string, path: seq<Node>, paths: seq<seq<Node>>, ghost rank: seq<nat>)
    returns (out: seq<seq<Node>>)
    requires Resolved(c) && Ranked(c, rank)
    requires node < |c.nodes| && RootPath(c, path + [node])
    requires Clear(c, path, employee)
    ensures |paths| <= |out| && out[..|paths|] == paths
    ensures Lists(c, employee, path + [node], out[|paths|..])
    ensures Consistent(c) ==> NoDup(out[|paths|..])
    decreases rank[node]
  {
    var here := path + [node];
    if c.nodes[node].id == employee {
      out := paths + [here];
      assert out[|paths|..] == [here];
      FoundAtTarget(c, employee, path, node);
      return;
    }
    ClearExtend(c, path, node, employee);
    out := paths;
    ghost var found: seq<seq<Node>> := [];
    ghost var done: set<Node> := {};
    var keys := c.links[node].Keys;
    while keys != {}
      invariant DoneKeys(c, node, keys, done)
      invariant out == paths + found
      invariant FoundBelow(c, employee, here, found, done)
      invariant Consistent(c) ==> NoDup(found)
      decreases keys
    {
      var k :| k in keys;
      DoneKeysStep(c, node, keys, done, k);
      var child := c.links[node][k].value;
      ChildRank(c, rank, node, child);
      RootPathAppend(c, here, child);
      var next := GetPath(c, child, employee, here, out, rank);
      ghost var more := next[|out|..];
      assert next == out + more;
      ExtendFound(c, employee, here, found, done, more, child);
      AppendAssoc(paths, found, more);
      keys := keys - {k};
      found := found + more;
      done := done + {child};
      out := next;
    }
    assert out[|paths|..] == found;
    DoneKeysAll(c, node, done);
    FoundAll(c, employee, node, here, found, done);
  }

  class Hierarchy {
    /** The employee records; a node is a position in this list. */
    var nodes: seq<Record>
    /** Each node's map from a subordinate's identifier to its node. */
    var links: seq<map<string, Option<Node>>>
    /** Identifier to node, filled by the first pass of the builder. */
    var index: map<string, Node>
    var root: Node
    /** Number of records the hierarchy was built from. */
    var employeeNo: int

    function State(): Chart
      reads this
    {
      Chart(nodes, links, root)
    }

    ghost predicate Valid()
      reads this
    {
      WellFormed(State()) && employeeNo == |nodes|
    }

    /** Builds the hierarchy of the given records; the first record is the
        root. */
    constructor (employees: seq<Record>)
      requires |employees| > 0
      ensures Valid()
      ensures nodes == employees && root == 0 && employeeNo == |employees|
      ensures index == IndexOf(employees) && links == LinksOf(employees, index)
      ensures State() == Built(employees)
    {
      nodes := employees;
      links := seq(|employees|, _ => map[]);
      index := map[];
      root := 0;
      employeeNo := |employees|;
      new;
      root := MakeHierarchyTree();
      assert map[] + IndexOf(employees) == IndexOf(employees);
    }

    /** Enters subordinate employeeID into node e's children map, bound to
        what the index holds for it (nil when it holds nothing). */
    method AddReportingEmployee(e: Node, employeeID: string)
      requires e < |links|
      modifies this
      ensures links == old(links)[e := old(links)[e][employeeID := Lookup(index, employeeID)]]
      ensures nodes == old(nodes) && index == old(index) && root == old(root) && employeeNo == old(employeeNo)
    {
      links := links[e := links[e][employeeID := Lookup(index, employeeID)]];
    }

    /** First pass: every record into the index. Second pass: starting from
        the first record, give each record a fresh children map and add its
        listed subordinates. Returns the root. */
    method MakeHierarchyTree() returns (r: Node)
      requires |nodes| > 0 && |links| == |nodes|
      modifies this
      ensures r == 0
      ensures nodes == old(nodes) && root == old(root) && employeeNo == old(employeeNo)
      ensures index == old(index) + IndexOf(nodes)
      ensures links == LinksOf(nodes, index)
    {
      var i := 0;
      while i < |nodes|
        invariant 0 <= i <= |nodes|
        invariant index == old(index) + IndexOf(nodes[..i])
        invariant nodes == old(nodes) && links == old(links) && root == old(root) && employeeNo == old(employeeNo)
      {
        IndexStep(old(index), nodes, i);
        index := index[nodes[i].id := i];
        i := i + 1;
      }
      assert nodes[..|nodes|] == nodes;

      r := 0;
      var curr := r;
      while true
        invariant nodes == old(nodes) && root == old(root) && employeeNo == old(employeeNo)
        invariant index == old(index) + IndexOf(nodes)
        invariant 0 <= curr < |nodes| && |links| == |nodes|
        invariant LinkedBelow(links, nodes, index, curr)
        decreases |nodes| - curr
      {
        links := links[curr := map[]];
        var managed := nodes[curr].managed;
        var j := 0;
        while j < |managed|
          invariant nodes == old(nodes) && root == old(root) && employeeNo == old(employeeNo)
          invariant index == old(index) + IndexOf(nodes)
          invariant 0 <= j <= |managed| && |links| == |nodes|
          invariant links[curr] == ChildMap(managed[..j], index)
          invariant LinkedBelow(links, nodes, index, curr)
        {
          ChildMapStep(managed, j, index);
          AddReportingEmployee(curr, managed[j]);
          j := j + 1;
        }
        assert managed[..|managed|] == managed;
        LinkedStep(links, nodes, index, curr);
        if curr == |nodes| - 1 {
          LinkedAll(links, nodes, index);
          break;
        }
        curr := curr + 1;
      }
    }

    /** All paths from the root to a node carrying the identifier employee. */
    method GetPaths(employee: string, ghost rank: seq<nat>) returns (paths: seq<seq<Node>>)
      requires Resolved(State()) && Ranked(State(), rank)
      ensures forall q :: q in paths <==> IsPathTo(State(), q, employee)
      ensures Consistent(State()) ==> NoDup(paths)
      ensures IsTree(State(), rank) ==> |paths| <= 1 && (|paths| == 1 <==> Reachable(State(), employee))
    {
      paths := GetPath(State(), root, employee, [], [], rank);
      assert paths[0..] == paths;
      if IsTree(State(), rank) {
        AtMostOnePath(State(), rank, paths, employee);
      }
    }

    /** For one pair of paths: cnt is the least cost of a match (positions
        before the last of each path) if that is below employeeNo, and
        employeeNo otherwise; idx is the position in pathOne of the first
        match, in row order, that reaches cnt (0 if none does). */
    method FindLCA(pathOne: seq<Node>, pathTwo: seq<Node>) returns (cnt: int, idx: int)
      requires |pathOne| > 0 && |pathTwo| > 0
      ensures cnt <= employeeNo
      ensures forall x, y :: Match(pathOne, pathTwo, x, y) ==> cnt <= Cost(pathOne, pathTwo, x, y)
      ensures cnt < employeeNo ==>
        && 0 <= idx < |pathOne| - 1
        && (exists y :: Match(pathOne, pathTwo, idx, y) && Cost(pathOne, pathTwo, idx, y) == cnt)
        && (forall x, y :: x < idx && Match(pathOne, pathTwo, x, y) ==> cnt < Cost(pathOne, pathTwo, x, y))
      ensures cnt == employeeNo ==> idx == 0
    {
      cnt, idx := employeeNo, 0;
      ghost var best := 0;
      var x := 0;
      while x < |pathOne| - 1
        invariant 0 <= x <= |pathOne| - 1
        invariant cnt <= employeeNo
        invariant forall x', y' :: x' < x && Match(pathOne, pathTwo, x', y') ==> cnt <= Cost(pathOne, pathTwo, x', y')
        invariant cnt < employeeNo ==>
          && 0 <= idx < x
          && Match(pathOne, pathTwo, idx, best) && Cost(pathOne, pathTwo, idx, best) == cnt
          && (forall x', y' :: x' < idx && Match(pathOne, pathTwo, x', y') ==> cnt < Cost(pathOne, pathTwo, x', y'))
        invariant cnt == employeeNo ==> idx == 0
      {
        var y := 0;
        while y < |pathTwo| - 1
          invariant 0 <= y <= |pathTwo| - 1
          invariant cnt <= employeeNo
          invariant forall x', y' :: Before(x', y', x, y) && Match(pathOne, pathTwo, x', y') ==> cnt <= Cost(pathOne, pathTwo, x', y')
          invariant cnt < employeeNo ==>
            && 0 <= idx <= x
            && Match(pathOne, pathTwo, idx, best) && Cost(pathOne, pathTwo, idx, best) == cnt
            && (forall x', y' :: x' < idx && Match(pathOne, pathTwo, x', y') ==> cnt < Cost(pathOne, pathTwo, x', y'))
          invariant cnt == employeeNo ==> idx == 0
        {
          if pathOne[x] == pathTwo[y] {
            var cnt1 := (|pathOne| - 1) - x;
            var cnt2 := (|pathTwo| - 1) - y;
            if (cnt1 + cnt2) - 1 < cnt {
              cnt := (cnt1 + cnt2) - 1;
              idx := x;
              best := y;
            }
          }
          y := y + 1;
        }
        x := x + 1;
      }
    }

    /** The pair loop of the closest-manager query: over every pair of a
        path to the first employee and a path to the second, keep the
        cheapest match, the first one found on ties; the manager is that
        match's node, or the first node of the first path if no match beats
        employeeNo. */
    method PickManager(pathsOne: seq<seq<Node>>, pathsTwo: seq<seq<Node>>) returns (manager: Node)
      requires |pathsOne| > 0
      requires forall i :: 0 <= i < |pathsOne| ==> |pathsOne[i]| > 0
      requires forall j :: 0 <= j < |pathsTwo| ==> |pathsTwo[j]| > 0
      ensures HasCheapMatch(pathsOne, pathsTwo, employeeNo) ==>
        exists i, j, x, y :: Best(pathsOne, pathsTwo, i, j, x, y) && manager == pathsOne[i][x]
      ensures !HasCheapMatch(pathsOne, pathsTwo, employeeNo) ==> manager == pathsOne[0][0]
    {
      var minCnt, minIdx, minPathOne := employeeNo, 0, 0;
      ghost var minPathTwo, minY := 0, 0;
      var i := 0;
      while i < |pathsOne|
        invariant 0 <= i <= |pathsOne|
        invariant minCnt <= employeeNo
        invariant forall i', j', x', y' :: Before(i', j', i, 0) && PairMatch(pathsOne, pathsTwo, i', j', x', y') ==>
          minCnt <= Cost(pathsOne[i'], pathsTwo[j'], x', y')
        invariant minCnt < employeeNo ==>
          && Before(minPathOne, minPathTwo, i, 0)
          && PairMatch(pathsOne, pathsTwo, minPathOne, minPathTwo, minIdx, minY)
          && Cost(pathsOne[minPathOne], pathsTwo[minPathTwo], minIdx, minY) == minCnt
          && (forall i', j', x', y' :: Before(i', j', minPathOne, minPathTwo) && PairMatch(pathsOne, pathsTwo, i', j', x', y') ==>
                minCnt < Cost(pathsOne[i'], pathsTwo[j'], x', y'))
          && (forall x', y' :: x' < minIdx && Match(pathsOne[minPathOne], pathsTwo[minPathTwo], x', y') ==>
                minCnt < Cost(pathsOne[minPathOne], pathsTwo[minPathTwo], x', y'))
        invariant minCnt == employeeNo ==> minPathOne == 0 && minIdx == 0
      {
        var j := 0;
        while j < |pathsTwo|
          invariant 0 <= j <= |pathsTwo|
          invariant minCnt <= employeeNo
          invariant forall i', j', x', y' :: Before(i', j', i, j) && PairMatch(pathsOne, pathsTwo, i', j', x', y') ==>
            minCnt <= Cost(pathsOne[i'], pathsTwo[j'], x', y')
          invariant minCnt < employeeNo ==>
            && Before(minPathOne, minPathTwo, i, j)
            && PairMatch(pathsOne, pathsTwo, minPathOne, minPathTwo, minIdx, minY)
            && Cost(pathsOne[minPathOne], pathsTwo[minPathTwo], minIdx, minY) == minCnt
            && (forall i', j', x', y' :: Before(i', j', minPathOne, minPathTwo) && PairMatch(pathsOne, pathsTwo, i', j', x', y') ==>
                  minCnt < Cost(pathsOne[i'], pathsTwo[j'], x', y'))
            && (forall x', y' :: x' < minIdx && Match(pathsOne[minPathOne], pathsTwo[minPathTwo], x', y') ==>
                  minCnt < Cost(pathsOne[minPathOne], pathsTwo[minPathTwo], x', y'))
          invariant minCnt == employeeNo ==> minPathOne == 0 && minIdx == 0
        {
          var cnt, idx := FindLCA(pathsOne[i], pathsTwo[j]);
          if cnt < minCnt {
            minCnt, minPathOne, minIdx := cnt, i, idx;
            minPathTwo := j;
            minY :| Match(pathsOne[i], pathsTwo[j], idx, minY) && Cost(pathsOne[i], pathsTwo[j], idx, minY) == cnt;
          }
          j := j + 1;
        }
        i := i + 1;
      }
      manager := pathsOne[minPathOne][minIdx];
      if minCnt < employeeNo {
        assert Best(pathsOne, pathsTwo, minPathOne, minPathTwo, minIdx, minY);
      }
    }

    /** The closest manager of two employees: an error naming the first
        identifier that is not in the index, otherwise the node the pair
        loop picks over their paths. On a tree that node is their lowest
        common strict manager, or the root when they have none. */
    method FindClosestManager(employeeOne: string, employeeTwo: string, ghost rank: seq<nat>)
      returns (r: Result<Node>)
      requires Valid() && Resolved(State()) && Ranked(State(), rank)
      requires employeeOne in index && employeeTwo in index ==> Reachable(State(), employeeOne)
      ensures employeeOne !in index ==> r == Err(EmployeeNotFound(employeeOne))
      ensures employeeOne in index && employeeTwo !in index ==> r == Err(EmployeeNotFound(employeeTwo))
      ensures employeeOne in index && employeeTwo in index ==> r.Ok?
      ensures r.Ok? ==>
        r.value == root || (Manages(State(), r.value, employeeOne) && Manages(State(), r.value, employeeTwo))
      ensures r.Ok? && IsTree(State(), rank) ==> ClosestOrRoot(State(), r.value, employeeOne, employeeTwo)
    {
      if employeeOne !in index {
        return Err(EmployeeNotFound(employeeOne));
      }
      if employeeTwo !in index {
        return Err(EmployeeNotFound(employeeTwo));
      }
      var pathsOne := GetPaths(employeeOne, rank);
      var pathsTwo := GetPaths(employeeTwo, rank);
      ghost var p :| IsPathTo(State(), p, employeeOne);
      assert p in pathsOne;
      forall i | 0 <= i < |pathsOne| ensures |pathsOne[i]| > 0 {
        assert pathsOne[i] in pathsOne;
      }
      forall j | 0 <= j < |pathsTwo| ensures |pathsTwo[j]| > 0 {
        assert pathsTwo[j] in pathsTwo;
      }
      var manager := PickManager(pathsOne, pathsTwo);
      r := Ok(manager);
      assert IsPathTo(State(), pathsOne[0], employeeOne);
      if HasCheapMatch(pathsOne, pathsTwo, employeeNo) {
        var i, j, x, y :| Best(pathsOne, pathsTwo, i, j, x, y) && manager == pathsOne[i][x];
        MatchManagesBoth(State(), pathsOne[i], pathsTwo[j], employeeOne, employeeTwo, x, y);
      }
      if IsTree(State(), rank) {
        ClosestOnTree(State(), rank, pathsOne, pathsTwo, employeeOne, employeeTwo, manager);
      }
    }
  }

  /** In a tree every entry of a complete path list is the same path. */
  lemma SinglePath(c: Chart, rank: seq<nat>, paths: seq<seq<Node>>, t: string)
    requires IsTree(c, rank)
    requires forall q :: q in paths <==> IsPathTo(c, q, t)
    requires |paths| > 0
    ensures IsPathTo(c, paths[0], t)
    ensures forall i :: 0 <= i < |paths| ==> paths[i] == paths[0]
  {
    assert paths[0] in paths;
    forall i | 0 <= i < |paths| ensures paths[i] == paths[0] {
      assert paths[i] in paths;
      PathUnique(c, rank, paths[i], paths[0], t);
    }
  }

  /** With one path on each side, the best match over all pairs is the
      cheapest match of those two paths. */
  lemma BestOfSingle(pathsOne: seq<seq<Node>>, pathsTwo: seq<seq<Node>>, i: int, j: int, x: int, y: int)
    requires |pathsOne| > 0 && |pathsTwo| > 0
    requires forall i' :: 0 <= i' < |pathsOne| ==> pathsOne[i'] == pathsOne[0]
    requires forall j' :: 0 <= j' < |pathsTwo| ==> pathsTwo[j'] == pathsTwo[0]
    requires Best(pathsOne, pathsTwo, i, j, x, y)
    ensures pathsOne[i] == pathsOne[0] && pathsTwo[j] == pathsTwo[0]
    ensures Match(pathsOne[0], pathsTwo[0], x, y)
    ensures forall x', y' :: Match(pathsOne[0], pathsTwo[0], x', y') ==>
      Cost(pathsOne[0], pathsTwo[0], x, y) <= Cost(pathsOne[0], pathsTwo[0], x', y')
  {
    forall x', y' | Match(pathsOne[0], pathsTwo[0], x', y')
      ensures Cost(pathsOne[0], pathsTwo[0], x, y) <= Cost(pathsOne[0], pathsTwo[0], x', y')
    {
      assert PairMatch(pathsOne, pathsTwo, 0, 0, x', y');
    }
  }

  /** A shared manager gives the pair search a match below its initial
      bound. */
  lemma SharedIsCheap(c: Chart, rank: seq<nat>, pathsOne: seq<seq<Node>>, pathsTwo: seq<seq<Node>>,
                      t1: string, t2: string, b: Node)
    requires IsTree(c, rank)
    requires forall q :: q in pathsOne <==> IsPathTo(c, q, t1)
    requires forall q :: q in pathsTwo <==> IsPathTo(c, q, t2)
    requires Manages(c, b, t1) && Manages(c, b, t2)
    ensures |pathsOne| > 0 && |pathsTwo| > 0
    ensures IsPathTo(c, pathsOne[0], t1) && IsPathTo(c, pathsTwo[0], t2)
    ensures forall i :: 0 <= i < |pathsOne| ==> pathsOne[i] == pathsOne[0]
    ensures forall j :: 0 <= j < |pathsTwo| ==> pathsTwo[j] == pathsTwo[0]
    ensures HasCheapMatch(pathsOne, pathsTwo, |c.nodes|)
  {
    var p', x0 :| IsPathTo(c, p', t1) && 0 <= x0 < |p'| - 1 && p'[x0] == b;
    var q', y0 :| IsPathTo(c, q', t2) && 0 <= y0 < |q'| - 1 && q'[y0] == b;
    assert p' in pathsOne && q' in pathsTwo;
    SinglePath(c, rank, pathsOne, t1);
    SinglePath(c, rank, pathsTwo, t2);
    var p, q := pathsOne[0], pathsTwo[0];
    CommonManagerIsMatch(c, rank, p, q, t1, t2, b);
    var x :| Match(p, q, x, x) && p[x] == b;
    CheapMatchExists(c, rank, p, q, x, x);
    var x1, y1 :| Match(p, q, x1, y1) && Cost(p, q, x1, y1) < |c.nodes|;
    assert PairMatch(pathsOne, pathsTwo, 0, 0, x1, y1);
  }

  /** When the two employees share a manager, the pair search picks the
      closest one. */
  lemma SharedPicksClosest(c: Chart, rank: seq<nat>, pathsOne: seq<seq<Node>>, pathsTwo: seq<seq<Node>>,
                           t1: string, t2: string, manager: Node, b: Node)
    requires IsTree(c, rank)
    requires forall q :: q in pathsOne <==> IsPathTo(c, q, t1)
    requires forall q :: q in pathsTwo <==> IsPathTo(c, q, t2)
    requires Manages(c, b, t1) && Manages(c, b, t2)
    requires HasCheapMatch(pathsOne, pathsTwo, |c.nodes|) ==>
      exists i, j, x, y :: Best(pathsOne, pathsTwo, i, j, x, y) && manager == pathsOne[i][x]
    ensures IsClosestManager(c, manager, t1, t2)
  {
    SharedIsCheap(c, rank, pathsOne, pathsTwo, t1, t2, b);
    var i, j, x, y :| Best(pathsOne, pathsTwo, i, j, x, y) && manager == pathsOne[i][x];
    BestOfSingle(pathsOne, pathsTwo, i, j, x, y);
    CheapestMatchIsClosest(c, rank, pathsOne[0], pathsTwo[0], t1, t2, x, y);
  }

  /** When no node manages both employees, the pair search falls back to
      the first node of the first path: the root. */
  lemma UnsharedPicksRoot(c: Chart, pathsOne: seq<seq<Node>>, pathsTwo: seq<seq<Node>>,
                          t1: string, t2: string, manager: Node)
    requires forall q :: q in pathsOne <==> IsPathTo(c, q, t1)
    requires forall q :: q in pathsTwo <==> IsPathTo(c, q, t2)
    requires |pathsOne| > 0 && |pathsOne[0]| > 0
    requires !exists b :: Manages(c, b, t1) && Manages(c, b, t2)
    requires !HasCheapMatch(pathsOne, pathsTwo, |c.nodes|) ==> manager == pathsOne[0][0]
    ensures manager == c.root
  {
    assert pathsOne[0] in pathsOne;
    if HasCheapMatch(pathsOne, pathsTwo, |c.nodes|) {
      var i, j, x, y :| PairMatch(pathsOne, pathsTwo, i, j, x, y) && Cost(pathsOne[i], pathsTwo[j], x, y) < |c.nodes|;
      assert pathsOne[i] in pathsOne && pathsTwo[j] in pathsTwo;
      MatchManagesBoth(c, pathsOne[i], pathsTwo[j], t1, t2, x, y);
    }
  }

  /** On a tree, the pair search's choice is the lowest common strict
      manager when there is one, and the root otherwise. */
  lemma ClosestOnTree(c: Chart, rank: seq<nat>, pathsOne: seq<seq<Node>>, pathsTwo: seq<seq<Node>>,
                      t1: string, t2: string, manager: Node)
    requires IsTree(c, rank)
    requires forall q :: q in pathsOne <==> IsPathTo(c, q, t1)
    requires forall q :: q in pathsTwo <==> IsPathTo(c, q, t2)
    requires |pathsOne| > 0 && |pathsOne[0]| > 0
    requires HasCheapMatch(pathsOne, pathsTwo, |c.nodes|) ==>
      exists i, j, x, y :: Best(pathsOne, pathsTwo, i, j, x, y) && manager == pathsOne[i][x]
    requires !HasCheapMatch(pathsOne, pathsTwo, |c.nodes|) ==> manager == pathsOne[0][0]
    ensures ClosestOrRoot(c, manager, t1, t2)
  {
    if b :| Manages(c, b, t1) && Manages(c, b, t2) {
      SharedPicksClosest(c, rank, pathsOne, pathsTwo, t1, t2, manager, b);
    } else {
      UnsharedPicksRoot(c, pathsOne, pathsTwo, t1, t2, manager);
    }
  }
}
