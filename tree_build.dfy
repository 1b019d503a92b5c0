/** What the two-pass builder computes, as functions of the record list:
    the identifier index, each node's children map, and the linked chart;
    and what those hold. */
module TreeBuild {
  import opened OrgChart

  /** The index after the first pass: every record entered under its
      identifier in input order, so a later record replaces an earlier one
      with the same identifier. */
  function IndexOf(s: seq<Record>): map<string, Node>
  {
    if s == [] then map[] else IndexOf(s[..|s| - 1])[s[|s| - 1].id := |s| - 1]
  }

  /** Reading the index: a missing identifier reads as nil. */
  function Lookup(index: map<string, Node>, id: string): Option<Node> {
    if id in index then Some(index[id]) else None
  }

  /** A node's children map after adding each listed subordinate in turn. */
  function ChildMap(managed: seq<string>, index: map<string, Node>): map<string, Option<Node>>
  {
    if managed == [] then map[]
    else
      var last := managed[|managed| - 1];
      ChildMap(managed[..|managed| - 1], index)[last := Lookup(index, last)]
  }

  /** Every node's children map, resolved through the given index. */
  function LinksOf(s: seq<Record>, index: map<string, Node>): seq<map<string, Option<Node>>>
  {
    seq(|s|, k requires 0 <= k < |s| => ChildMap(s[k].managed, index))
  }

  /** The chart a fresh hierarchy holds after building from s. */
  function Built(s: seq<Record>): Chart {
    Chart(s, LinksOf(s, IndexOf(s)), 0)
  }

  /** One step of the first pass, on top of whatever the index held before. */
  lemma IndexStep(m: map<string, Node>, s: seq<Record>, i: int)
    requires 0 <= i < |s|
    ensures (m + IndexOf(s[..i]))[s[i].id := i] == m + IndexOf(s[..i + 1])
  {
    assert s[..i + 1][..i] == s[..i];
  }

  /** One step of adding a node's subordinates. */
  lemma ChildMapStep(managed: seq<string>, j: int, index: map<string, Node>)
    requires 0 <= j < |managed|
    ensures ChildMap(managed[..j], index)[managed[j] := Lookup(index, managed[j])] == ChildMap(managed[..j + 1], index)
  {
    assert managed[..j + 1][..j] == managed[..j];
  }

  /** The first n children maps are the ones built from their records. */
  ghost predicate LinkedBelow(links: seq<map<string, Option<Node>>>, s: seq<Record>, index: map<string, Node>, n: int) {
    n <= |links| && n <= |s| && forall k :: 0 <= k < n ==> links[k] == ChildMap(s[k].managed, index)
  }

  lemma LinkedStep(links: seq<map<string, Option<Node>>>, s: seq<Record>, index: map<string, Node>, n: int)
    requires 0 <= n < |links| && n < |s| && LinkedBelow(links, s, index, n)
    requires links[n] == ChildMap(s[n].managed, index)
    ensures LinkedBelow(links, s, index, n + 1)
  {
  }

  /** Once every children map is built, the links are LinksOf. */
  lemma LinkedAll(links: seq<map<string, Option<Node>>>, s: seq<Record>, index: map<string, Node>)
    requires |links| == |s| && LinkedBelow(links, s, index, |s|)
    ensures links == LinksOf(s, index)
  {
  }

  /** The index has a key for exactly the identifiers that occur in s. */
  lemma {:induction false} IndexKeys(s: seq<Record>)
    ensures forall id :: id in IndexOf(s) <==> exists i :: 0 <= i < |s| && s[i].id == id
  {
    if s != [] {
      var t := s[..|s| - 1];
      IndexKeys(t);
      forall id ensures id in IndexOf(s) <==> exists i :: 0 <= i < |s| && s[i].id == id {
        if id in IndexOf(t) {
          var i :| 0 <= i < |t| && t[i].id == id;
          assert s[i].id == id;
        }
        if i :| 0 <= i < |s| && s[i].id == id {
          if i < |t| {
            assert t[i].id == id;
          }
        }
      }
    }
  }

  /** The index maps an identifier to the LAST record carrying it. */
  lemma {:induction false} IndexLastWins(s: seq<Record>, id: string)
    requires id in IndexOf(s)
    ensures IndexOf(s)[id] < |s| && s[IndexOf(s)[id]].id == id
    ensures forall j :: IndexOf(s)[id] < j < |s| ==> s[j].id != id
  {
    var t := s[..|s| - 1];
    if s[|s| - 1].id != id {
      IndexLastWins(t, id);
    }
  }

  /** With unique identifiers, the index sends each record's identifier to
      that record. */
  lemma IndexOfUnique(s: seq<Record>, i: int)
    requires UniqueIds(s) && 0 <= i < |s|
    ensures s[i].id in IndexOf(s) && IndexOf(s)[s[i].id] == i
  {
    IndexKeys(s);
    IndexLastWins(s, s[i].id);
  }

  /** A children map has exactly the listed identifiers as keys, each bound
      to what the index holds for it; a repeated identifier gives one entry. */
  lemma {:induction false} ChildMapSpec(managed: seq<string>, index: map<string, Node>)
    ensures forall id :: id in ChildMap(managed, index) <==> id in managed
    ensures forall id :: id in ChildMap(managed, index) ==> ChildMap(managed, index)[id] == Lookup(index, id)
  {
    if managed != [] {
      var init := managed[..|managed| - 1];
      ChildMapSpec(init, index);
      assert managed == init + [managed[|managed| - 1]];
    }
  }

  /** A built chart's children maps are keyed by the children's own
      identifiers. */
  lemma BuiltConsistent(s: seq<Record>)
    ensures Consistent(Built(s))
  {
    var c := Built(s);
    forall p, k | 0 <= p < |c.links| && k in c.links[p] && c.links[p][k].Some?
      ensures c.links[p][k].value < |c.nodes| && c.nodes[c.links[p][k].value].id == k
    {
      ChildMapSpec(s[p].managed, IndexOf(s));
      IndexLastWins(s, k);
    }
  }

  /** A built chart has no nil child exactly when every listed subordinate
      has a record. */
  lemma BuiltResolved(s: seq<Record>)
    requires |s| > 0
    ensures Resolved(Built(s)) <==>
      forall p, id :: 0 <= p < |s| && id in s[p].managed ==> exists i :: 0 <= i < |s| && s[i].id == id
  {
    var c := Built(s);
    var index := IndexOf(s);
    IndexKeys(s);
    forall p | 0 <= p < |s|
      ensures forall id :: id in c.links[p] <==> id in s[p].managed
      ensures forall id :: id in c.links[p] ==> c.links[p][id] == Lookup(index, id)
    {
      assert c.links[p] == ChildMap(s[p].managed, index);
      ChildMapSpec(s[p].managed, index);
    }
    forall p, k | 0 <= p < |c.links| && k in c.links[p] && k in index
      ensures c.links[p][k].value < |c.nodes|
    {
      IndexLastWins(s, k);
    }
  }

  /** The parents of b in a built chart with unique identifiers are exactly
      the records that list b's identifier. */
  lemma BuiltChild(s: seq<Record>, a: Node, b: Node)
    requires UniqueIds(s) && a < |s| && b < |s|
    ensures IsChild(Built(s), a, b) <==> s[b].id in s[a].managed
  {
    var c := Built(s);
    var index := IndexOf(s);
    ChildMapSpec(s[a].managed, index);
    IndexOfUnique(s, b);
    if IsChild(c, a, b) {
      var k :| k in c.links[a] && c.links[a][k].Some? && c.links[a][k].value == b;
      IndexLastWins(s, k);
    }
    if s[b].id in s[a].managed {
      assert c.links[a][s[b].id] == Some(b);
    }
  }

  /** A sequence of positions that starts at the first record and steps
      each time to a listed subordinate is, in the built chart, a path to
      the identifier of its last record when no earlier record carries
      that identifier. */
  lemma BuiltPath(s: seq<Record>, p: seq<Node>, t: string)
    requires UniqueIds(s) && |p| > 0 && p[0] == 0
    requires forall i :: 0 <= i < |p| ==> p[i] < |s|
    requires forall i :: 0 <= i < |p| - 1 ==> s[p[i + 1]].id in s[p[i]].managed
    requires s[p[|p| - 1]].id == t
    requires forall i :: 0 <= i < |p| - 1 ==> s[p[i]].id != t
    ensures IsPathTo(Built(s), p, t)
  {
    forall i | 0 <= i < |p| - 1 ensures IsChild(Built(s), p[i], p[i + 1]) {
      BuiltChild(s, p[i], p[i + 1]);
    }
  }

  /** Record sequences that describe a tree: unique identifiers, every
      listed subordinate has a record and is listed by one record only,
      every record after the first is listed by some record, and a rank on
      records that decreases from a manager to each subordinate. */
  ghost predicate FormsTree(s: seq<Record>, rank: seq<nat>) {
    && |s| > 0
    && |rank| == |s|
    && UniqueIds(s)
    && (forall p, id :: 0 <= p < |s| && id in s[p].managed ==> exists i :: 0 <= i < |s| && s[i].id == id)
    && (forall p1, p2, id :: 0 <= p1 < |s| && 0 <= p2 < |s| && id in s[p1].managed && id in s[p2].managed ==> p1 == p2)
    && (forall p, i :: 0 <= p < |s| && 0 <= i < |s| && s[i].id in s[p].managed ==> rank[i] < rank[p])
    && (forall i :: 0 < i < |s| ==> Listed(s, s[i].id))
  }

  /** Some record lists id as a subordinate. */
  ghost predicate Listed(s: seq<Record>, id: string) {
    exists p :: 0 <= p < |s| && id in s[p].managed
  }

  /** Building from records that describe a tree gives a tree. */
  lemma BuiltIsTree(s: seq<Record>, rank: seq<nat>)
    requires FormsTree(s, rank)
    ensures IsTree(Built(s), rank)
  {
    var c := Built(s);
    BuiltResolved(s);
    BuiltConsistent(s);
    forall a: Node, b: Node | IsChild(c, a, b) && b < |rank| ensures rank[b] < rank[a] {
      BuiltChild(s, a, b);
    }
    forall a1: Node, a2: Node, b: Node | IsChild(c, a1, b) && IsChild(c, a2, b) ensures a1 == a2 {
      assert b < |s|;
      BuiltChild(s, a1, b);
      BuiltChild(s, a2, b);
    }
  }

  /** In a hierarchy built from records that describe a tree, every node
      but the root has a parent. */
  lemma BuiltParented(s: seq<Record>, rank: seq<nat>)
    requires FormsTree(s, rank)
    ensures Parented(Built(s))
  {
    forall b: Node | b != Built(s).root && b < |Built(s).nodes| ensures HasParent(Built(s), b) {
      assert Listed(s, s[b].id);
      var a :| 0 <= a < |s| && s[b].id in s[a].managed;
      BuiltChild(s, a, b);
    }
  }

  /** Every identifier in the index of such records is reachable from the
      root: the search finds a path to it. */
  lemma BuiltReachable(s: seq<Record>, rank: seq<nat>, id: string)
    requires FormsTree(s, rank) && id in IndexOf(s)
    ensures Reachable(Built(s), id)
  {
    var c := Built(s);
    IndexKeys(s);
    var i :| 0 <= i < |s| && s[i].id == id;
    BuiltIsTree(s, rank);
    BuiltParented(s, rank);
    var p := ReachesNode(c, rank, i);
    RootPathDistinct(c, rank, p);
    assert IsPathTo(c, p, id);
  }
}
