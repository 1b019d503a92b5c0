# Management hierarchy: tree builder, path search and closest manager

This project is a Dafny model of the core of the `hierarchy` Go package (hierarchy.go). Given an already parsed list of employee records (identifier, name, identifiers of direct reports), the package does three things:

- **Tree builder.** `makeHierarchyTree` runs two passes. The first puts every record into an identifier-to-node index; a later record with the same identifier replaces an earlier one. The second takes the first record as the root and walks all records in order. Each record gets a fresh children map, filled by `addReportingEmployee`. That function looks each listed identifier up in the index and stores nil when the identifier has no record. `NewHierarchy` also records the number of records (`EmployeeNo`).
- **Path search.** `GetPaths` / `getPath` is a depth-first search from the root. It records a copy of the root-to-node path each time it reaches a node carrying the target identifier, and it does not descend below that node.
- **Closest-manager query.** `FindClosestManager` first checks that both identifiers are in the index; the first one missing is reported as `EmployeeNotFound`. It then compares every pair of paths with `findLCA`. A node shared by both paths, excluding each path's last node, is a candidate. Its cost is `(len1-1-x)+(len2-1-y)-1`, and the method keeps the first strict minimum. If no candidate beats `EmployeeNo`, the answer is `pathsOne[0][0]`, which is the root.

Modules:

- `OrgChart` (org_chart.dfy): values that describe a linked hierarchy.
  - A `Chart` holds a node's records, each node's children map and the root.
  - Nodes are positions in the record list. This stands in for the pointer identity the Go code compares at hierarchy.go:105.
  - Its predicates are the root path, the search's path to an identifier, strict manager, ancestor, tree, and lowest common strict manager (`IsClosestManager`).
  - Its lemmas cover paths in a tree.
- `TreeBuild` (tree_build.dfy): what the builder computes, as functions of the record list (`IndexOf`, `ChildMap`, `LinksOf`, `Built`). Also what those functions hold, and when a record list yields a tree.
- `Ancestry` (ancestry.dfy): the cost measure and why, on a tree, the cheapest shared node is the lowest common strict manager.
- `Hierarchy` (hierarchy.dfy):
  - The class `Hierarchy`, holding the records, the children maps, the index, the root and `employeeNo`.
  - Its builder, search and query as imperative methods with loops, each proved against the functions above.
  - `GetPath`, the recursive worker, as a method over the node graph.
- `Scenario` (scenario.dfy): a tree chosen to agree with the query tests' expected answers (A→{B,G}, B→{F,Q,P}, G→{L}, F→{H}, H→{X,T1}), and those answers, proved for the model. The tests' data file is not available, and other trees agree with those answers too.

Inputs the model takes as parameters:

- The parsed record list is a parameter of the constructor.
- Acyclicity is witnessed by a ghost `rank` argument that drops strictly from every node to each of its children. The Go code has no such witness. With every `Visited` flag false (see "## Left out"), its search fails on a cycle whose nodes all lack the target, reached from the root through nodes that lack it. The recursion then grows until Go's stack overflows, a fatal error. The rank excludes every cycle, which is more than the code needs.

## Model

| member | source | states |
|---|---|---|
| TreeBuild.IndexKeys | hierarchy.go:183-185 | the index built from the records has a key for exactly the identifiers that occur in the record list |
| TreeBuild.IndexLastWins | hierarchy.go:183-185 | the index maps an identifier to the last record carrying it: that record has the identifier and no later record does |
| TreeBuild.IndexOfUnique | hierarchy.go:183-185 | with distinct identifiers, the index maps each record's identifier to that record |
| TreeBuild.ChildMapSpec | hierarchy.go:200-203 | a node's children map has exactly its listed subordinates as keys, a repeated identifier giving one entry, each bound to what the index holds for it (nil when absent) |
| TreeBuild.BuiltConsistent | hierarchy.go:31-33 | in a built hierarchy every non-nil child entry is keyed by that child's own identifier |
| TreeBuild.BuiltResolved | hierarchy.go:31-33 | a built hierarchy has no nil child entry exactly when every listed subordinate identifier has a record |
| TreeBuild.BuiltChild | hierarchy.go:200-203 | with distinct identifiers, b is a child of a in the built hierarchy exactly when a's record lists b's identifier |
| TreeBuild.BuiltPath | hierarchy.go:196-203 | a sequence of records that starts at the first record and steps to a listed subordinate each time is a path of the built hierarchy to its last identifier |
| TreeBuild.BuiltIsTree | hierarchy.go:181-215 | records with distinct identifiers, all listed subordinates present, each listed by one record, every record after the first listed by some record, and ranked downward, build a tree |
| TreeBuild.BuiltParented | hierarchy.go:196-203 | in a hierarchy built from such records every node but the root (the first record) is the child of some node |
| TreeBuild.BuiltReachable | hierarchy.go:181-215 | in a hierarchy built from such records every identifier entered into the index is reachable from the returned root, so the search finds a path to it |
| OrgChart.ReachesNode | hierarchy.go:122-138 | when every node but the root has a parent and rank rises towards parents, some root path ends at any given node |
| Hierarchy.Hierarchy.constructor | hierarchy.go:149-154 | the hierarchy holds the records, the root is the first record, employeeNo is the number of records, and index and children maps are those the two passes compute |
| Hierarchy.Hierarchy.AddReportingEmployee | hierarchy.go:31-33 | only node e's children map changes: the subordinate identifier is bound to the index entry, or nil when the index has none |
| Hierarchy.Hierarchy.MakeHierarchyTree | hierarchy.go:181-215 | returns the first record as root; the index becomes the old index overwritten by every record in input order; every children map becomes the one built from its record through the new index |
| Hierarchy.GetPath | hierarchy.go:122-138 | appends to the accumulated paths, leaving them as they were, exactly the paths to the target that begin with the current path and node; each once when the children maps are keyed by child identifiers |
| Hierarchy.Hierarchy.GetPaths | hierarchy.go:45-52 | returns exactly the paths from the root to the target (root first, parent to child, target last and nowhere earlier), without repeats; on a tree at most one, and one exactly when the target is reachable |
| OrgChart.RootPathDistinct | hierarchy.go:122-138 | a root path never visits a node twice |
| OrgChart.PathUnique | hierarchy.go:122-138 | in a tree two paths to the same identifier are equal |
| OrgChart.AtMostOnePath | hierarchy.go:45-52 | a complete duplicate-free list of paths to t in a tree has at most one element, and one exactly when t is reachable |
| Hierarchy.Hierarchy.FindLCA | hierarchy.go:97-118 | cnt is at most employeeNo and at most the cost of every shared node above both path ends; if below employeeNo, idx is the row of a shared node reaching cnt and every earlier row costs more; otherwise idx is 0 |
| Hierarchy.Hierarchy.PickManager | hierarchy.go:69-90 | if some pair of paths has a shared node costing less than employeeNo, the manager is the node of the least-cost match, the first such pair in (i, j) order, and the first row within that pair; otherwise the first node of the first path |
| Hierarchy.Hierarchy.FindClosestManager | hierarchy.go:56-92 | the first unknown identifier (first, then second) is reported as EmployeeNotFound; with both known the result is Ok; the node is the root or a strict manager of both; on a tree it is their lowest common strict manager, or the root when they have none |
| Hierarchy.ClosestOnTree | hierarchy.go:69-90 | on a tree the pair search's choice is the lowest common strict manager of the two employees when they share one, and the root otherwise |
| Hierarchy.SharedIsCheap | hierarchy.go:71-86 | on a tree a shared manager makes the single paths to both employees have a match cheaper than the number of records, so the search's initial value is beaten |
| Hierarchy.SharedPicksClosest | hierarchy.go:82-90 | when the employees share a manager on a tree, the node the pair search keeps is their lowest common strict manager |
| Hierarchy.UnsharedPicksRoot | hierarchy.go:70-90 | when no node manages both employees, the pair search falls back to the first node of the first path, the root |
| Hierarchy.SinglePath | hierarchy.go:45-52 | in a tree every entry of a complete path list is the same path to t |
| Hierarchy.BestOfSingle | hierarchy.go:69-90 | with one path on each side, the best match over all pairs is the cheapest match of those two paths |
| Ancestry.MatchSameDepth | hierarchy.go:101-105 | in a tree a node shared by two root paths sits at the same depth in both |
| Ancestry.PartingCostBound | hierarchy.go:99-113 | in a tree the shared node where two root paths part costs less than the number of records |
| Ancestry.CheapMatchExists | hierarchy.go:99-113 | in a tree, if two root paths share a node above both ends, some shared node costs less than the number of records |
| Ancestry.CommonManagerIsMatch | hierarchy.go:101-105 | in a tree every common strict manager of the two employees is a shared node of their paths at the same depth |
| Ancestry.MatchManagesBoth | hierarchy.go:101-105 | a shared node above both path ends is a strict manager of both employees |
| Ancestry.CheapestMatchIsClosest | hierarchy.go:101-113 | in a tree the least-cost shared node of the two paths is the lowest common strict manager |
| Ancestry.PrefixAncestor | hierarchy.go:122-138 | a node on a root path is an ancestor of every node below it on that path |
| Ancestry.PartingMatchIsClosest | hierarchy.go:101-113 | in a tree the shared node where the two paths part is the lowest common strict manager |
| Ancestry.NoMatchNoManager | hierarchy.go:88-90 | when the two paths share no node above both ends, the employees have no common strict manager |
| OrgChart.AncestorAntisymmetric | hierarchy.go:54-55 | in a tree two nodes that are each other's ancestors are equal |
| OrgChart.ClosestUnique | hierarchy.go:54-55 | the lowest common strict manager of two employees is unique |
| Scenario.RecordsFormTree | hierarchy_test.go:19-28 | the reconstructed records form a tree, and so does the hierarchy built from them |
| Scenario.ClosestOfQAndT1 | hierarchy_test.go:53-58 | B is the lowest common strict manager of Q and T1 |
| Scenario.ClosestOfLAndG | hierarchy_test.go:59-64 | A, G's own manager, is the lowest common strict manager of L and G |
| Scenario.ClosestOfFAndP | hierarchy_test.go:65-70 | B is the lowest common strict manager of F and P |
| Scenario.RootUnmanaged | hierarchy_test.go:71-76 | nobody manages the root A, so A and B have no common strict manager |
| Scenario.ClosestOfXAndT1 | hierarchy_test.go:77-82 | H is the lowest common strict manager of X and T1 |
| Scenario.AnswerQAndT1 | hierarchy_test.go:53-58 | any node the query may answer for Q and T1 is B |
| Scenario.AnswerLAndG | hierarchy_test.go:59-64 | any node the query may answer for L and G is A |
| Scenario.AnswerFAndP | hierarchy_test.go:65-70 | any node the query may answer for F and P is B |
| Scenario.AnswerAAndB | hierarchy_test.go:71-76 | any node the query may answer for A and B is the root A |
| Scenario.AnswerXAndT1 | hierarchy_test.go:77-82 | any node the query may answer for X and T1 is H |
| Scenario.TestHierarchies | hierarchy_test.go:51-87 | querying (Q,T1), (L,G), (F,P), (A,B), (X,T1) on the built hierarchy answers B, A, B, A, H |
| Scenario.TestNotExistingEmployees | hierarchy_test.go:89-107 | querying (Z1,T1) reports Z1 not found and (Q,L1) reports L1 not found |

## Left out

- Reading and decoding the data file (`loadEmployeesList`, the file part of `NewHierarchy`, the `DataFile` field, hierarchy.go:141-178) is I/O. The constructor takes the decoded record list instead.
- errors.go message formatting uses `fmt.Sprintf` and a foreign `error` value. Only the error kind is modelled, as the `EmployeeNotFound` variant carrying the identifier.
- examples/main.go is a command-line demo that prints. hierarchy_test.go's harness (`TestMain`, logging) is left out too, and its data file is not part of this model. The scenario tree is one chosen to agree with the tests' expected answers; other trees agree with them too.
- The `Visited` flag (hierarchy.go:25, 134) is never assigned by the code. It is exported and has no json tag, though, so the decoder at hierarchy.go:168 fills it from a `"Visited"` key of the data file. A non-root record decoded with it true is never entered from its parent at hierarchy.go:134. The root is searched regardless (hierarchy.go:50). The model's records have no such field, so the model assumes that every decoded record has `Visited` false. Termination comes from the ghost `rank` argument.
- Go's map iteration order at hierarchy.go:133 is not deterministic. `GetPath` visits the children map's keys in an unspecified order. For that reason its contract speaks of which paths are found, not of their order.
- The index is a process-global map in the source (hierarchy.go:11-15) and is scoped to the object here. `MakeHierarchyTree` states that it overwrites whatever the index held before with this build's records. Linking across builds is not modelled. A leftover entry holds a position in the current record list, whereas in Go it points to a node of the earlier hierarchy. The model never builds twice over one index.
- TreeBuild.BuiltIsTree: the tree predicate `IsTree` does not itself demand that the root reach every node. Connectivity of a built hierarchy is stated on its own, by `TreeBuild.BuiltParented` and `TreeBuild.BuiltReachable`.
- Hierarchy.Hierarchy.constructor: requires a non-empty record list. On an empty list the source dereferences a nil root at hierarchy.go:200 and panics. The source has no error path for this case, so none is modelled.
- Hierarchy.GetPath: requires that no children map holds a nil entry (`Resolved`), and `GetPaths` and `FindClosestManager` require the same. This is stronger than the source needs: it only dereferences the children of nodes it visits.
- Hierarchy.GetPath: requires the ghost `rank` witness of acyclicity, and `GetPaths` and `FindClosestManager` require it too. The source fails only on a cycle whose nodes all lack the target, reached from the root through nodes that lack it. There its recursion ends in a stack-overflow fatal error. With records A→B and B→A, the search for "B" stops at B and the search for "A" stops at the root, so the source answers A for (A, B). The model excludes every cycle.
- Hierarchy.Hierarchy.GetPaths: requires `Resolved` and the ghost `rank` witness, as `Hierarchy.GetPath` does. The source needs neither on nodes it never visits, and it fails only on a cycle the search enters.
- Hierarchy.Hierarchy.FindClosestManager: requires `Resolved` and the ghost `rank` witness for the two path searches, as `Hierarchy.GetPath` does. The source needs neither on nodes it never visits, and it fails only on a cycle the search enters.
- Hierarchy.Hierarchy.FindClosestManager: when both identifiers are indexed, it requires the first employee to be reachable from the root. Otherwise `pathsOne[0]` at hierarchy.go:90 panics. The second employee need not be reachable: the source then answers the root.
- Hierarchy.Hierarchy.FindLCA: requires both paths to be non-empty. The slice `pathOne[0 : len(pathOne)-1]` at hierarchy.go:101 panics on an empty path, and every path the search produces is non-empty.
- Integer widths: `int` counts and costs are unbounded here. A cost need not be below the number of records; only the node where two paths part is (`Ancestry.PartingCostBound`). Every cost is at most the sum of the two path lengths minus three, which is below twice `EmployeeNo`. So Go's 64-bit `int` cannot overflow on any input that fits in memory.
- The employee's `Name` field is carried but never read by the core.
