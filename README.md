# Road network graph engine

A Dafny model of the graph engine behind the road-network reports: the adjacency-list
graph of `Graph.cc` and its town/road twin in `province.cc`. A dataset names the towns
(vertices) and lists the roads (edges) as records `(tail name, head name, type, length)`.
The constructor registers each road at both ends, which makes the graph undirected.
Two read-only algorithms run on the result:

- a breadth-first traversal from a start vertex. It reports one line per adjacency entry
  of each visited vertex, marked "via bridge" when the road type is `'B'`.
- Kahn's topological sort. It emits vertices in dependency order, or it stops with the
  cycle message once the ready queue runs dry.

The project has four modules:

- `Network` (`network.dfy`) holds the values (`Edge`, `Vertex`, `Record`, `Report`) and
  the specification functions the code is proved against:
  - `Build`: the array after the first i records;
  - `Dedup` and `Heads`: the traversal order as a fixpoint;
  - `Reports`: the report lines;
  - `InDegree`, `InitialReady` and `Released`: the topological sort's counts and queues;
  - `KahnOutcome`: what the sort promises.

  It also holds the lemmas about these functions.
- `Graph` (`graph.dfy`) is the class `Graph` of `Graph.cc`. It keeps the fields
  `numberOfVertices` and `vertex: array<Vertex>`. Its constructor and methods keep the
  source's loops (the name loop, the edge loop, the traversal's queue loop with its
  inner neighbour loop, and the three counting loops and the main loop of the sort), and
  each loop is proved against the specification functions.
- `Province` (`province.dfy`) is the same engine as `province.cc` writes it. The class
  is `Province`, the fields are `numberOfTowns` and `town: array<Town>`, and `Town` and
  `Road` name the same values as `Vertex` and `Edge`. The source duplicates the code, and
  so does the model.
- `Undirected` (`undirected.dfy`) holds the consequences of the undirected
  construction:
  - both endpoints of every road get a nonzero predecessor count;
  - the topological sort of a built graph emits exactly the towns without roads;
  - the sort raises the cycle flag exactly when at least one road was read.

Three behaviours of the code shape the model:

- A road naming an unknown town is not rejected. `std::map::operator[]` inserts the
  name with index 0, so the road is registered at vertex 0 (`IndexOf`, `Lookup`).
- When the ready queue runs dry, the vertices emitted so far have already been printed,
  so `Topsort` returns that prefix together with the cycle flag.
- A name listed twice keeps its last index.

## Model

| member | source | states |
|---|---|---|
| Graph.Graph.constructor | Graph.cc:13-57 | the array is `Build` of all records: vertex i carries names[i], each record's road is appended to both endpoints' lists, and every stored head names a vertex |
| Graph.Graph.ReadVertices | Graph.cc:25-33 | a fresh array whose vertex i is names[i] with an empty list, and a name map that holds exactly the names read, each sent to its last position |
| Graph.Graph.ReadEdges | Graph.cc:38-56 | after the edge loop the array equals `Build` of all records, registered in input order |
| Graph.Graph.ReadEdge | Graph.cc:39-55 | one pass of the edge loop turns the array built from records before i into the array built from records up to i, and the name map still resolves every name |
| Graph.Graph.Lookup | Graph.cc:41-42 | `nameMap[name]` yields the name's last position, or 0 for an unknown name, which it inserts into the map |
| Graph.Graph.PushRoad | Graph.cc:53-55 | the two push_back calls: the head's entry goes at the end of the tail's list, then the tail's entry at the end of the head's list |
| Graph.Graph.Bfs | Graph.cc:64-114 | the start vertex comes first; the order is duplicate-free and contains exactly the vertices reachable from start; it is the FIFO fixpoint (start, then each visited list's new neighbours in list order); each later vertex was discovered from an earlier one; the report holds one line per adjacency entry of each visited vertex, in order |
| Graph.Graph.Unscheduled | Graph.cc:75-78 | n flags, none set |
| Graph.Graph.ScanNeighbours | Graph.cc:94-110 | the inner loop reports every entry of the list in order, with the bridge note iff the type is 'B'; it queues, in list order, exactly the neighbours not met before, and sets their flags |
| Graph.Graph.Topsort | Graph.cc:120-191 | the emitted vertices are duplicate-free and in range, and each is emitted after all of its predecessors; they begin with the initially ready vertices; without the cycle flag they are a topological order of all n vertices; the flag is raised only when no topological order exists |
| Graph.Graph.CountPredecessors | Graph.cc:130-140 | every count starts at zero and ends as the number of adjacency entries, over all lists, whose head is that vertex |
| Graph.Graph.CountHeads | Graph.cc:136-139 | the inner counting loop adds to each count the number of entries of the list with that head |
| Graph.Graph.ReadyVertices | Graph.cc:145-150 | the ready queue is seeded with every zero-count vertex in ascending index order |
| Graph.Graph.ReleaseSuccessors | Graph.cc:182-189 | the decrement loop lowers each head's count once per entry and queues a head each time its count drops to zero |
| Province.Province.constructor | province.cc:23-74 | the town array is `Build` of all records: town i carries names[i], and each road is appended to both towns' lists |
| Province.Province.ReadTowns | province.cc:37-48 | a fresh array whose town i is names[i] with no roads, and a name map that sends each name read to its last position |
| Province.Province.ReadRoads | province.cc:56-73 | after the road loop the array equals `Build` of all records, registered in input order |
| Province.Province.ReadRoad | province.cc:57-72 | one pass of the road loop turns the array built from records before i into the array built from records up to i |
| Province.Province.Lookup | province.cc:59-60 | `nameMap[name]` yields the name's last position, or 0 for an unknown name, which it inserts into the map |
| Province.Province.PushRoad | province.cc:71-72 | `Road(headIndex, ..)` goes at the end of the tail's list, then `Road(tailIndex, ..)` at the end of the head's list |
| Province.Province.Bfs | province.cc:86-144 | the start town comes first; no town is visited twice; the towns visited are exactly those reachable from start, in FIFO discovery order; every road of each visited town is reported, with the bridge note iff its type is 'B' |
| Province.Province.Unscheduled | province.cc:98-101 | every scheduled flag starts false |
| Province.Province.ScanNeighbours | province.cc:118-140 | every road of the current town is reported, including roads to towns already scheduled; it queues, in order, exactly the towns not yet scheduled, and sets their flags |
| Province.Province.Topsort | province.cc:150-220 | the emitted towns are duplicate-free, each follows its predecessors, and they begin with the initially ready towns; without the cycle flag every town is emitted once in dependency order; the flag is raised only when no such order exists |
| Province.Province.CountPredecessors | province.cc:160-170 | counts start at 0 and end as the number of roads, over all lists, whose head is that town |
| Province.Province.CountHeads | province.cc:166-169 | the inner loop adds one to a town's count per road of the list that leads to it |
| Province.Province.ReadyVertices | province.cc:175-180 | the zero-count towns are queued in index order |
| Province.Province.ReleaseSuccessors | province.cc:211-218 | each road's head loses one from its count, and a head is queued when its count reaches zero |
| Network.IndexOf | Graph.cc:28-33 | with at least one name, the index lies in [0, n); a name that was read maps to a position holding that name; an unknown name maps to 0 |
| Network.IndexOfIsLast | Graph.cc:32 | a later duplicate overwrites an earlier one: no later position holds the name |
| Network.NameMapAgrees | Graph.cc:28-33 | the map's keys are exactly the names read, and each is sent to `IndexOf` |
| Network.Initial | Graph.cc:25-31 | before any edge, vertex i has names[i] and an empty list |
| Network.AddRoadAt | Graph.cc:53-55 | registering one record keeps every name; it appends the head's entry to the tail's list and the tail's entry to the head's list, and leaves every other list unchanged |
| Network.BuildNames | Graph.cc:31 | building never renames a vertex |
| Network.BuildWellFormed | Graph.cc:38-56 | with n ≥ 1, every stored head lies in [0, n), unknown names included |
| Network.BuildIncidence | Graph.cc:38-56 | each vertex's list is the concatenation, in record order, of the entries the records contribute to it, so the lists keep registration order |
| Network.BuildEntryCount | Graph.cc:38-56 | after E records the lists hold 2 × E entries in total |
| Network.ReportsOf | Graph.cc:94-103 | one report line per adjacency entry in list order, marked via bridge iff the type is 'B' |
| Network.MarkStep | Graph.cc:105-108 | a vertex's flag is set exactly when it has been met, and is set at push time |
| Network.ScanAdvance | Graph.cc:97-109 | one pass of the inner loop: the entry is reported, and its head is queued iff its flag was clear |
| Network.TraversalStep | Graph.cc:86-110 | visiting the front of the queue keeps the loop state: no vertex is queued twice, and at most n vertices are ever queued |
| Network.ReachableAreVisited | Graph.cc:84-111 | every vertex reachable from start is in the final order |
| Network.VisitedAreReachable | Graph.cc:104-109 | every vertex in an order built by discovery is reachable from the first one |
| Network.TraversalComplete | Graph.cc:84-111 | once the queue is empty, the order starts with start, is duplicate-free, and is exactly the reachable set |
| Network.ReadyUpTo | Graph.cc:146-150 | the zero-in-degree vertices below m, strictly ascending |
| Network.ReleaseFacts | Graph.cc:182-189 | the decrement loop lowers each count by the entries handled, and queues, once each, exactly the handled heads whose count is now zero |
| Network.KahnStart | Graph.cc:130-150 | the in-degree counts and the seeded queue satisfy the main loop's state |
| Network.KahnEmit | Graph.cc:162-189 | emitting the front of the queue and releasing its successors keeps the loop state: nothing is queued twice, and each emitted vertex follows its predecessors |
| Network.KahnCycle | Graph.cc:167-172 | a queue that runs dry before n vertices are emitted means that no topological order exists |
| Network.KahnDone | Graph.cc:156-190 | after n emissions the output is a topological order |
| Network.EmittedIsTopological | Graph.cc:156-190 | a full, duplicate-free emission in which each vertex follows its predecessors is a permutation in which every entry's source precedes its head |
| Network.NoTopologicalOrder | Graph.cc:158-172 | when every vertex left over has a predecessor that is left over too, no topological order exists |
| Undirected.AddRoadSymmetric | Graph.cc:53-55 | registering one record at both ends keeps the graph undirected |
| Undirected.BuildSymmetric | Graph.cc:38-56 | the constructor builds an undirected graph |
| Undirected.UndirectedInDegree | Graph.cc:135-140 | on an undirected graph a vertex's count is nonzero iff its own list is not empty |
| Undirected.EndpointsCounted | Graph.cc:135-140 | both endpoints of every record read have a nonzero predecessor count |
| Undirected.EmittedAreIsolated | Graph.cc:156-190 | on an undirected graph every emitted vertex has an empty list |
| Undirected.UndirectedTopsort | Graph.cc:145-190 | on an undirected graph the sort emits exactly the vertices without entries, which are the initial ready queue, and flags a cycle iff some list is not empty |
| Undirected.BuiltTopsort | Graph.cc:120-191 | on a constructed graph the sort emits only vertices without roads, and reports a cycle iff at least one record was read |

## Left out

- Stream parsing (`operator>>` on the dataset stream) is not modelled. The constructor takes the names and the already-tokenised records. The declared vertex and edge counts are therefore the lengths of those sequences.
- Output formatting is not modelled: the banners, the indentation, the " mi" suffix, the newlines and the cycle message's text. `Bfs` returns the visit order and `Report` values (vertex, neighbour, length, bridge flag). `Topsort` returns the emitted vertices and a cycle flag.
- project5.cc is not part of this model. It holds the end-of-file peek helper and the read loop that builds one graph per dataset, which is I/O plumbing.
- town.h, town.cc, road.h and road.cc are not part of this model. They are leftover template code with no graph behaviour.
- Shortest path, spanning tree and articulation points are not modelled. Only a declaration of the shortest path exists (province.h:43), with no implementation.
- Road lengths are `double` in the source. They are only stored and printed, so they are modelled as `int`.
- `new[]`, `delete[]` and stack arrays are not modelled, and neither is memory management. The vertex array is a Dafny `array`.
- The topological sort's `visited` array is never read, so it is not modelled.
- Graph.Graph.constructor requires at least one name when any record is given. With no vertices the source would index an empty array, which is undefined behaviour. Province.Province.constructor has the same requirement.
- Graph.Graph.Bfs keeps the `scheduled` flags and the FIFO queue as local sequences rather than a stack array and a `std::queue`. The values are the same, but in-place updates and aliasing of those locals are not modelled. Province.Province.Bfs does the same.
- Graph.Graph.Topsort keeps `unvisitedPredecessors` and the `visitable` queue as local sequences, with the same consequence. Province.Province.Topsort does the same.
- The `Road(int, bool, double)` constructor in province.h (lines 67-73) does not match how province.cc uses roads: province.cc reads `_type` and `_weight`. The model follows province.cc, with a character type where 'B' marks a bridge.
