/** An organisation chosen to agree with the query tests' expected
    answers: A manages B and G, B manages F, Q and P, G manages L, F
    manages H and H manages X and T1. The tests' own data file is not part
    of this model, and other trees agree with the answers too. The expected
    answers are proved for this record list. */
module Scenario {
  import opened OrgChart
  import opened TreeBuild
  import opened Ancestry
  import opened Hierarchy

  /** The records, root first; node k is the k-th record. */
  function Records(): seq<Record> {
    [ Record("A", "A", ["B", "G"]),
      Record("B", "B", ["F", "Q", "P"]),
      Record("G", "G", ["L"]),
      Record("F", "F", ["H"]),
      Record("Q", "Q", []),
      Record("P", "P", []),
      Record("L", "L", []),
      Record("H", "H", ["X", "T1"]),
      Record("X", "X", []),
      Record("T1", "T1", []) ]
  }

  /** Height of each node above its deepest subordinate. */
  function Ranks(): seq<nat> {
    [4, 3, 1, 2, 0, 0, 0, 1, 0, 0]
  }

  lemma RecordsUnique()
    ensures UniqueIds(Records())
  {
  }

  /** The one record that lists each subordinate. */
  function Boss(id: string): int {
    if id == "B" || id == "G" then 0
    else if id == "F" || id == "Q" || id == "P" then 1
    else if id == "L" then 2
    else if id == "H" then 3
    else 7
  }

  lemma ListedByBoss(p: int, id: string)
    requires 0 <= p < |Records()| && id in Records()[p].managed
    ensures Boss(id) == p
  {
    var s := Records();
    if p == 0 { assert id == "B" || id == "G"; }
    else if p == 1 { assert id == "F" || id == "Q" || id == "P"; }
    else if p == 2 { assert id == "L"; }
    else if p == 3 { assert id == "H"; }
    else if p == 7 { assert id == "X" || id == "T1"; }
  }

  lemma ListedHaveRecords(p: int, id: string)
    requires 0 <= p < |Records()| && id in Records()[p].managed
    ensures exists i :: 0 <= i < |Records()| && Records()[i].id == id
  {
    var s := Records();
    ListedByBoss(p, id);
    if id == "B" { assert s[1].id == id; }
    else if id == "G" { assert s[2].id == id; }
    else if id == "F" { assert s[3].id == id; }
    else if id == "Q" { assert s[4].id == id; }
    else if id == "P" { assert s[5].id == id; }
    else if id == "L" { assert s[6].id == id; }
    else if id == "H" { assert s[7].id == id; }
    else if id == "X" { assert s[8].id == id; }
    else { assert id == "T1" && s[9].id == id; }
  }

  lemma RankBelowBoss(p: int, i: int)
    requires 0 <= p < |Records()| && 0 <= i < |Records()| && Records()[i].id in Records()[p].managed
    ensures Ranks()[i] < Ranks()[p]
  {
    ListedByBoss(p, Records()[i].id);
  }

  lemma AllListedHaveRecords()
    ensures forall p, id :: 0 <= p < |Records()| && id in Records()[p].managed ==>
      exists i :: 0 <= i < |Records()| && Records()[i].id == id
  {
    forall p, id | 0 <= p < |Records()| && id in Records()[p].managed
      ensures exists i :: 0 <= i < |Records()| && Records()[i].id == id
    {
      ListedHaveRecords(p, id);
    }
  }

  lemma OneBossEach()
    ensures forall p1, p2, id ::
      (0 <= p1 < |Records()| && 0 <= p2 < |Records()| && id in Records()[p1].managed && id in Records()[p2].managed)
      ==> p1 == p2
  {
    forall p1, p2, id | 0 <= p1 < |Records()| && 0 <= p2 < |Records()| &&
      id in Records()[p1].managed && id in Records()[p2].managed
      ensures p1 == p2
    {
      ListedByBoss(p1, id);
      ListedByBoss(p2, id);
    }
  }

  lemma RanksDecrease()
    ensures forall p, i :: 0 <= p < |Records()| && 0 <= i < |Records()| && Records()[i].id in Records()[p].managed ==>
      Ranks()[i] < Ranks()[p]
  {
    forall p, i | 0 <= p < |Records()| && 0 <= i < |Records()| && Records()[i].id in Records()[p].managed
      ensures Ranks()[i] < Ranks()[p]
    {
      RankBelowBoss(p, i);
    }
  }

  lemma ListedByOwnBoss(i: int)
    requires 0 < i < |Records()|
    ensures 0 <= Boss(Records()[i].id) < |Records()| && Records()[i].id in Records()[Boss(Records()[i].id)].managed
  {
    var s := Records();
    if i == 1 { assert s[0].managed[0] == s[i].id; }
    else if i == 2 { assert s[0].managed[1] == s[i].id; }
    else if i == 3 { assert s[1].managed[0] == s[i].id; }
    else if i == 4 { assert s[1].managed[1] == s[i].id; }
    else if i == 5 { assert s[1].managed[2] == s[i].id; }
    else if i == 6 { assert s[2].managed[0] == s[i].id; }
    else if i == 7 { assert s[3].managed[0] == s[i].id; }
    else if i == 8 { assert s[7].managed[0] == s[i].id; }
    else { assert s[7].managed[1] == s[i].id; }
  }

  lemma EveryoneListed()
    ensures forall i :: 0 < i < |Records()| ==> Listed(Records(), Records()[i].id)
  {
    forall i | 0 < i < |Records()| ensures Listed(Records(), Records()[i].id) {
      ListedByOwnBoss(i);
    }
  }

  /** The records describe a tree, so the built hierarchy is one. */
  lemma RecordsFormTree()
    ensures FormsTree(Records(), Ranks())
    ensures IsTree(Built(Records()), Ranks())
  {
    RecordsUnique();
    AllListedHaveRecords();
    OneBossEach();
    RanksDecrease();
    EveryoneListed();
    BuiltIsTree(Records(), Ranks());
  }

  /** The hierarchy built from the records. */
  function TestChart(): Chart {
    Built(Records())
  }

  /** What the queries need of the built hierarchy: its records, its root,
      that it is a tree, and the links on the paths the queries follow. */
  ghost predicate Scenario(c: Chart) {
    && c.nodes == Records() && c.root == 0
    && IsTree(c, Ranks())
    && IsChild(c, 0, 1) && IsChild(c, 0, 2) && IsChild(c, 1, 3) && IsChild(c, 1, 4) && IsChild(c, 1, 5)
    && IsChild(c, 2, 6) && IsChild(c, 3, 7) && IsChild(c, 7, 8) && IsChild(c, 7, 9)
  }

  /** A manager-to-subordinate step of the records is a link of the built
      hierarchy. */
  lemma Edge(a: Node, b: Node)
    requires a < |Records()| && b < |Records()| && Records()[b].id in Records()[a].managed
    ensures IsChild(TestChart(), a, b)
  {
    RecordsUnique();
    BuiltChild(Records(), a, b);
  }

  lemma BuiltScenario()
    ensures Scenario(TestChart())
  {
    BuiltEdges();
    ChartIsTree();
  }

  lemma BuiltEdges()
    ensures IsChild(TestChart(), 0, 1) && IsChild(TestChart(), 0, 2) && IsChild(TestChart(), 1, 3)
    ensures IsChild(TestChart(), 1, 4) && IsChild(TestChart(), 1, 5) && IsChild(TestChart(), 2, 6)
    ensures IsChild(TestChart(), 3, 7) && IsChild(TestChart(), 7, 8) && IsChild(TestChart(), 7, 9)
  {
    EdgesFromA();
    EdgesFromBAndG();
    EdgesFromFAndH();
  }

  lemma EdgesFromA()
    ensures IsChild(TestChart(), 0, 1) && IsChild(TestChart(), 0, 2) && IsChild(TestChart(), 1, 3)
  {
    Edge(0, 1);
    Edge(0, 2);
    Edge(1, 3);
  }

  lemma EdgesFromBAndG()
    ensures IsChild(TestChart(), 1, 4) && IsChild(TestChart(), 1, 5) && IsChild(TestChart(), 2, 6)
  {
    Edge(1, 4);
    Edge(1, 5);
    Edge(2, 6);
  }

  lemma EdgesFromFAndH()
    ensures IsChild(TestChart(), 3, 7) && IsChild(TestChart(), 7, 8) && IsChild(TestChart(), 7, 9)
  {
    Edge(3, 7);
    Edge(7, 8);
    Edge(7, 9);
  }

  /** B is the closest manager of Q and T1. */
  lemma PathsQT1(c: Chart)
    requires c.nodes == Records() && c.root == 0 && WellFormed(c)
    requires IsChild(c, 0, 1) && IsChild(c, 1, 4) && IsChild(c, 1, 3) && IsChild(c, 3, 7) && IsChild(c, 7, 9)
    ensures IsPathTo(c, [0, 1, 4], "Q") && IsPathTo(c, [0, 1, 3, 7, 9], "T1")
  {
  }

  lemma ClosestOfQAndT1(c: Chart)
    requires Scenario(c)
    ensures Reachable(c, "Q")
    ensures IsClosestManager(c, 1, "Q", "T1")
  {
    var p, q := [0, 1, 4], [0, 1, 3, 7, 9];
    PathsQT1(c);
    PartingMatchIsClosest(c, Ranks(), p, q, "Q", "T1", 1);
  }

  lemma PathsLG(c: Chart)
    requires c.nodes == Records() && c.root == 0 && WellFormed(c)
    requires IsChild(c, 0, 2) && IsChild(c, 2, 6)
    ensures IsPathTo(c, [0, 2, 6], "L") && IsPathTo(c, [0, 2], "G")
  {
  }

  /** A is the closest manager of L and G: G's own manager, above both. */
  lemma ClosestOfLAndG(c: Chart)
    requires Scenario(c)
    ensures Reachable(c, "L")
    ensures IsClosestManager(c, 0, "L", "G")
  {
    var p, q := [0, 2, 6], [0, 2];
    PathsLG(c);
    PartingMatchIsClosest(c, Ranks(), p, q, "L", "G", 0);
  }

  lemma PathsFP(c: Chart)
    requires c.nodes == Records() && c.root == 0 && WellFormed(c)
    requires IsChild(c, 0, 1) && IsChild(c, 1, 3) && IsChild(c, 1, 5)
    ensures IsPathTo(c, [0, 1, 3], "F") && IsPathTo(c, [0, 1, 5], "P")
  {
  }

  /** B is the closest manager of F and P. */
  lemma ClosestOfFAndP(c: Chart)
    requires Scenario(c)
    ensures Reachable(c, "F")
    ensures IsClosestManager(c, 1, "F", "P")
  {
    var p, q := [0, 1, 3], [0, 1, 5];
    PathsFP(c);
    PartingMatchIsClosest(c, Ranks(), p, q, "F", "P", 1);
  }

  lemma PathsXT1(c: Chart)
    requires c.nodes == Records() && c.root == 0 && WellFormed(c)
    requires IsChild(c, 0, 1) && IsChild(c, 1, 3) && IsChild(c, 3, 7) && IsChild(c, 7, 8) && IsChild(c, 7, 9)
    ensures IsPathTo(c, [0, 1, 3, 7, 8], "X") && IsPathTo(c, [0, 1, 3, 7, 9], "T1")
  {
  }

  /** H is the closest manager of X and T1. */
  lemma ClosestOfXAndT1(c: Chart)
    requires Scenario(c)
    ensures Reachable(c, "X")
    ensures IsClosestManager(c, 7, "X", "T1")
  {
    var p, q := [0, 1, 3, 7, 8], [0, 1, 3, 7, 9];
    PathsXT1(c);
    PartingMatchIsClosest(c, Ranks(), p, q, "X", "T1", 3);
  }

  /** Nobody manages the root A: every path to A is the root alone. */
  lemma RootUnmanaged(c: Chart)
    requires c.nodes == Records() && c.root == 0 && WellFormed(c)
    ensures Reachable(c, "A")
    ensures !exists b :: Manages(c, b, "A")
  {
    assert IsPathTo(c, [0], "A");
  }

  /** Each record's identifier is in the index. */
  lemma Holds(i: int)
    requires 0 <= i < |Records()|
    ensures Records()[i].id in IndexOf(Records())
  {
    RecordsUnique();
    IndexOfUnique(Records(), i);
  }

  /** An identifier no record carries is not in the index. */
  lemma Lacks(id: string)
    requires forall i :: 0 <= i < |Records()| ==> Records()[i].id != id
    ensures id !in IndexOf(Records())
  {
    IndexKeys(Records());
  }

  /** The identifiers the index holds, and two it does not. */
  lemma Indexed()
    ensures "A" in IndexOf(Records()) && "B" in IndexOf(Records()) && "G" in IndexOf(Records())
    ensures "F" in IndexOf(Records()) && "Q" in IndexOf(Records()) && "P" in IndexOf(Records())
    ensures "L" in IndexOf(Records()) && "X" in IndexOf(Records()) && "T1" in IndexOf(Records())
    ensures "Z1" !in IndexOf(Records()) && "L1" !in IndexOf(Records())
  {
    Holds(0);
    Holds(1);
    Holds(2);
    Holds(3);
    Holds(4);
    Holds(5);
    Holds(6);
    Holds(8);
    Holds(9);
    Lacks("Z1");
    Lacks("L1");
  }

  lemma NamesOf()
    ensures Records()[0].id == "A" && Records()[1].id == "B" && Records()[7].id == "H"
  {
  }

  lemma ChartIsTree()
    ensures IsTree(TestChart(), Ranks())
  {
    RecordsFormTree();
  }

  /** Whatever satisfies the query's promise for Q and T1 is B. */
  lemma AnswerQAndT1(v: Node)
    requires ClosestOrRoot(TestChart(), v, "Q", "T1")
    ensures v == 1
  {
    BuiltScenario();
    ClosestOfQAndT1(TestChart());
    ClosestUnique(TestChart(), Ranks(), v, 1, "Q", "T1");
  }

  lemma AnswerLAndG(v: Node)
    requires ClosestOrRoot(TestChart(), v, "L", "G")
    ensures v == 0
  {
    BuiltScenario();
    ClosestOfLAndG(TestChart());
    ClosestUnique(TestChart(), Ranks(), v, 0, "L", "G");
  }

  lemma AnswerFAndP(v: Node)
    requires ClosestOrRoot(TestChart(), v, "F", "P")
    ensures v == 1
  {
    BuiltScenario();
    ClosestOfFAndP(TestChart());
    ClosestUnique(TestChart(), Ranks(), v, 1, "F", "P");
  }

  lemma AnswerAAndB(v: Node)
    requires ClosestOrRoot(TestChart(), v, "A", "B")
    ensures v == 0
  {
    BuiltScenario();
    RootUnmanaged(TestChart());
  }

  lemma AnswerXAndT1(v: Node)
    requires ClosestOrRoot(TestChart(), v, "X", "T1")
    ensures v == 7
  {
    BuiltScenario();
    ClosestOfXAndT1(TestChart());
    ClosestUnique(TestChart(), Ranks(), v, 7, "X", "T1");
  }

  /** The first employee of every query is reachable, as every indexed
      identifier of a hierarchy built from tree records is. */
  lemma FirstReachable()
    ensures Reachable(TestChart(), "Q") && Reachable(TestChart(), "L") && Reachable(TestChart(), "F")
    ensures Reachable(TestChart(), "A") && Reachable(TestChart(), "X")
  {
    RecordsFormTree();
    Indexed();
    BuiltReachable(Records(), Ranks(), "Q");
    BuiltReachable(Records(), Ranks(), "L");
    BuiltReachable(Records(), Ranks(), "F");
    BuiltReachable(Records(), Ranks(), "A");
    BuiltReachable(Records(), Ranks(), "X");
  }

  /** The five queries whose answers are known: the closest manager's
      identifier for each pair. */
  method TestHierarchies() returns (managers: seq<string>)
    ensures managers == ["B", "A", "B", "A", "H"]
  {
    var h := new Hierarchy(Records());
    ChartIsTree();
    FirstReachable();
    Indexed();
    var r := h.FindClosestManager("Q", "T1", Ranks());
    AnswerQAndT1(r.value);
    var m1 := h.nodes[r.value].id;

    r := h.FindClosestManager("L", "G", Ranks());
    AnswerLAndG(r.value);
    var m2 := h.nodes[r.value].id;

    r := h.FindClosestManager("F", "P", Ranks());
    AnswerFAndP(r.value);
    var m3 := h.nodes[r.value].id;

    r := h.FindClosestManager("A", "B", Ranks());
    AnswerAAndB(r.value);
    var m4 := h.nodes[r.value].id;

    r := h.FindClosestManager("X", "T1", Ranks());
    AnswerXAndT1(r.value);
    var m5 := h.nodes[r.value].id;

    NamesOf();
    managers := [m1, m2, m3, m4, m5];
  }

  /** The two queries naming an identifier without a record: each reports
      the first unknown identifier. */
  method TestNotExistingEmployees() returns (results: seq<Result<Node>>)
    ensures results == [Err(EmployeeNotFound("Z1")), Err(EmployeeNotFound("L1"))]
  {
    var h := new Hierarchy(Records());
    ChartIsTree();
    Indexed();
    var r1 := h.FindClosestManager("Z1", "T1", Ranks());
    var r2 := h.FindClosestManager("Q", "L1", Ranks());
    results := [r1, r2];
  }
}
