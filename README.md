# tipe-la-ville: a verified model of the gondola network core

The system plans trips on an aerial cable-car (gondola) network laid over a
city map. Stations are the nodes of a graph, given by a 0/1 adjacency matrix.
This project models four pieces of its sequential logic in Dafny and proves
what each promises:

- **The A\* search engine** (`road_network.dfy`, module `Pathfinder`):
  - search nodes with mutable cost `g`, heuristic `h` and parent fields;
  - a list-backed priority queue whose `pull` scans for the lowest f-score;
  - the road network, which derives a weight matrix from the adjacency matrix,
    looks up nodes and neighbours, rebuilds paths from parent links, and runs
    the search.
- **Route requests** (`route_manager.dfy`, module `RouteManager`): a FIFO queue,
  the choice of the station nearest to the start point and to the destination,
  and the conversion of a path length to a travel time.
- **Platform generation** (`platforms.dfy`, module `Platforms`): one pass over
  the upper triangle of the adjacency matrix. It writes two platform records
  per link, and the two records target each other.
- **The station gondola counter** (`map.dfy`, module `BuildNetwork`).

Conventions of the model:

- The network holds n nodes and an n-by-n matrix. Node k (from 0) carries id
  k + 1 and owns row k of the matrix.
- The length of a link is an abstract non-negative integer function that is 0
  from a node to itself. The source uses a floating-point Euclidean distance
  there.
- "Infinity" in the weight matrix is the datatype case `MatrixWeight.Infinite`.
- A search runs once, from a fresh search state: every `g`, `h` and parent
  is unset.
- The database table of platforms is a log of rows. A row appended at
  position k is taken to get platform id k + 1.

What is proved about the search:

- The returned path starts at the start id, ends at the goal id, and every
  consecutive pair of ids is linked by the matrix.
- A start equal to the goal gives `[start]`, and no other node gets a cost.
- The result is empty exactly when the goal cannot be reached from the start
  by any walk in the matrix.
- The search loop terminates. Its measure is, lexicographically: the number
  of unreached nodes, then the sum of costs, then the queue length.
- `build_path_to` terminates. Each parent carries a lower (cost, update stamp)
  pair than its child.

Behaviour of the code that the model keeps and a reader might not expect:

- On equal f-scores, the queue's `pull` returns the **last** such entry: the
  comparator keeps its second argument unless the first is strictly smaller.
- When the goal is pulled, its neighbours are still relaxed before the loop
  condition stops the search.
- `weight` reads the weight matrix, so an unlinked pair gives 0 on the
  diagonal and infinity elsewhere; it never fails.
- `pathfinder` takes two ids, always uses the Manhattan heuristic, and
  returns only the list of ids.

## Model

| member | source | states |
|---|---|---|
| Pathfinder.Node.constructor | pathfinder/road_network.py:14-23 | stores id and coordinates; cost, heuristic and parent start unset |
| Pathfinder.Node.HighestHeuristicNode | pathfinder/road_network.py:25-37 | returns one of the two nodes with the smaller f-score; returns n1 only when its f-score is strictly smaller, so ties go to n2 |
| Pathfinder.Node.F | pathfinder/road_network.py:77-81 | the f-score is cost plus heuristic: at least each of them, and equal to the cost exactly when the heuristic is 0 |
| Pathfinder.ParseNodesById | pathfinder/road_network.py:39-45 | same length as the node list; entry k is the id of node k |
| Pathfinder.ManhattanDistance | pathfinder/road_network.py:148-152 | non-negative; 0 exactly when the coordinates coincide; at least each of abs(dx) and abs(dy) |
| Pathfinder.ManhattanMetric | pathfinder/road_network.py:148-152 | the distance is symmetric and obeys the triangle inequality |
| Pathfinder.IndexOf | pathfinder/road_network.py:110 | the position list.remove drops: x is there and nowhere before it |
| Pathfinder.RemoveFirst | pathfinder/road_network.py:110 | list.remove makes the list one shorter |
| Pathfinder.RemoveFirstAt | pathfinder/road_network.py:110 | entries before the removed position stay put; later ones move down one, in order |
| Pathfinder.RemoveFirstMembers | pathfinder/road_network.py:110 | removal adds nothing and keeps every other element |
| Pathfinder.RemoveFirstNoDup | pathfinder/road_network.py:110 | on a list without duplicates, removal leaves no duplicates and no x |
| Pathfinder.LastArgMin | pathfinder/road_network.py:107-109 | the scan ends on a minimal value that is strictly below every later value (last minimum wins) |
| Pathfinder.LastArgMinStep | pathfinder/road_network.py:108-109 | one scan step keeps the candidate exactly when it is strictly smaller than the new element |
| Pathfinder.PriorityQueue.constructor | pathfinder/road_network.py:91-93 | the queue starts empty |
| Pathfinder.PriorityQueue.Add | pathfinder/road_network.py:95-101 | appends x at the back |
| Pathfinder.PriorityQueue.Highest | pathfinder/road_network.py:107-109 | the scan loop returns the last entry of minimal f-score |
| Pathfinder.PriorityQueue.Pull | pathfinder/road_network.py:103-111 | returns the last entry of minimal f-score and removes exactly its first occurrence, the rest in order |
| Pathfinder.PriorityQueue.IsEmpty | pathfinder/road_network.py:113-117 | true exactly when the queue has no entries |
| Pathfinder.PriorityQueue.InQueue | pathfinder/road_network.py:119-125 | true exactly when x is in the queue |
| Pathfinder.MeasureDrops | pathfinder/road_network.py:265-276 | reaching a node, or lowering the cost of a reached node, lowers the loop's termination measure |
| Pathfinder.Ones | pathfinder/road_network.py:216-218 | the columns of a row holding 1 |
| Pathfinder.OnesSpec | pathfinder/road_network.py:216-218 | the columns listed are exactly those holding 1, in increasing order |
| Pathfinder.RoadNetwork.constructor | pathfinder/road_network.py:136-140 | stores nodes and matrix and builds a weight matrix that matches the adjacency matrix |
| Pathfinder.RoadNetwork.GetNodeById | pathfinder/road_network.py:166-175 | the first node in list order with the id, null exactly when none has it; with ids 1..n this is node id - 1 |
| Pathfinder.RoadNetwork.SetNetworkMatrix | pathfinder/road_network.py:177-200 | n-by-n; entry (i, j) is the distance for a 1, 0 on an unlinked diagonal, infinity otherwise |
| Pathfinder.RoadNetwork.DiagonalZero | pathfinder/road_network.py:182-199 | every diagonal entry of the weight matrix is 0, even where the adjacency matrix links a node to itself |
| Pathfinder.RoadNetwork.NeighborsOf | pathfinder/road_network.py:208-220 | every neighbour is a network node linked from the given node |
| Pathfinder.RoadNetwork.NeighborFacts | pathfinder/road_network.py:208-220 | the neighbours are exactly the nodes whose column holds a 1 in the row, by increasing id |
| Pathfinder.RoadNetwork.GetNeighbors | pathfinder/road_network.py:208-220 | the loop returns exactly the linked nodes of row id - 1, in ascending column order |
| Pathfinder.RoadNetwork.Weight | pathfinder/road_network.py:236-242 | the distance for linked nodes; 0 for an unlinked node to itself; infinity otherwise |
| Pathfinder.RoadNetwork.RelaxTrace | pathfinder/road_network.py:268-276 | relaxing a link never unsets a cost: every node reached before stays reached |
| Pathfinder.RoadNetwork.ExpandTrace | pathfinder/road_network.py:267-276 | relaxing all links of the pulled node never unsets a cost: every node reached before stays reached |
| Pathfinder.RoadNetwork.BuildPathTo | pathfinder/road_network.py:222-234 | starts at start and ends at final; each later entry's parent is its predecessor; consecutive entries are linked |
| Pathfinder.RoadNetwork.WalkStaysReached | pathfinder/road_network.py:265-281 | once every reached node is closed, a walk from a reached node ends at a reached node |
| Pathfinder.RoadNetwork.UnreachedIsUnreachable | pathfinder/road_network.py:278-281 | if the search ends with the goal unreached, no walk leads from start to goal |
| Pathfinder.RoadNetwork.InitialSearch | pathfinder/road_network.py:254-264 | the state after scoring and queueing the start satisfies the search invariant |
| Pathfinder.RoadNetwork.QueueAfterPull | pathfinder/road_network.py:266 | the pulled node is a reached member; the rest of the queue stays duplicate-free and scored |
| Pathfinder.RoadNetwork.FrontierAfterPull | pathfinder/road_network.py:266 | after a pull, every reached node is queued, closed or the pulled one |
| Pathfinder.RoadNetwork.AfterPull | pathfinder/road_network.py:266 | a pull keeps the search invariant and the goal's place in the queue |
| Pathfinder.RoadNetwork.TreeAfterUpdate | pathfinder/road_network.py:269-273 | an improving update keeps parent links pointing to lower (cost, stamp) |
| Pathfinder.RoadNetwork.QueueAfterUpdate | pathfinder/road_network.py:269-273 | an improving update keeps the queue scored and duplicate-free |
| Pathfinder.RoadNetwork.FrontierAfterUpdate | pathfinder/road_network.py:269-273 | an improving update keeps every other reached node queued or closed |
| Pathfinder.RoadNetwork.QueueAfterAdd | pathfinder/road_network.py:275-276 | the guarded add keeps the queue free of duplicates |
| Pathfinder.RoadNetwork.SearchAfterAdd | pathfinder/road_network.py:275-276 | the guarded add keeps the search invariant |
| Pathfinder.RoadNetwork.ImprovedKeeps | pathfinder/road_network.py:268-276 | an improving relaxation keeps the invariant, reaches the neighbour and lowers the measure |
| Pathfinder.RoadNetwork.RelaxKeeps | pathfinder/road_network.py:268-276 | any relaxation keeps the invariant, reaches the neighbour, and lowers the measure or changes nothing |
| Pathfinder.RoadNetwork.ExpandKeeps | pathfinder/road_network.py:267-276 | relaxing all links of u keeps the invariant and reaches every neighbour |
| Pathfinder.RoadNetwork.StillReached | pathfinder/road_network.py:267-276 | neighbours reached earlier in the expansion stay reached |
| Pathfinder.RoadNetwork.NeighborsReached | pathfinder/road_network.py:267-276 | after the expansion the pulled node is closed |
| Pathfinder.RoadNetwork.FrontierClosed | pathfinder/road_network.py:265-276 | once the pulled node u is closed, every reached node is queued or closed without exempting u |
| Pathfinder.RoadNetwork.CloseNode | pathfinder/road_network.py:265-276 | after the expansion the invariant holds without the pulled node being set apart |
| Pathfinder.RoadNetwork.PullExpand | pathfinder/road_network.py:265-276 | one loop iteration keeps the invariant and lowers the measure |
| Pathfinder.RoadNetwork.QueueScored | pathfinder/road_network.py:103-111 | every queued node has cost and heuristic, so the comparison in pull is defined |
| Pathfinder.RoadNetwork.PathIds | pathfinder/road_network.py:279 | the ids of a linked node path form a walk |
| Pathfinder.RoadNetwork.MarksAfterWrite | pathfinder/road_network.py:271-273 | writing one node's fields changes only that node's entry of the snapshot |
| Pathfinder.RoadNetwork.Relax | pathfinder/road_network.py:268-276 | the update of one neighbour has the effect RelaxTrace describes |
| Pathfinder.RoadNetwork.Expand | pathfinder/road_network.py:267-276 | the loop over the neighbours has the effect ExpandTrace describes |
| Pathfinder.RoadNetwork.SearchStep | pathfinder/road_network.py:266-276 | pulls a queued member and expands it as ExpandTrace describes |
| Pathfinder.RoadNetwork.Turn | pathfinder/road_network.py:265-276 | one iteration keeps the invariant and lowers the measure |
| Pathfinder.RoadNetwork.StartSearch | pathfinder/road_network.py:252-264 | looks up start and goal; the start gets cost 0, the Manhattan distance to the goal as heuristic and no parent; the queue is exactly [start]; only the start is reached |
| Pathfinder.RoadNetwork.RunSearch | pathfinder/road_network.py:264-276 | the loop ends with the goal reached, or with the goal unreached and every reached node closed |
| Pathfinder.RoadNetwork.Search | pathfinder/road_network.py:252-276 | set-up plus loop; a start equal to the goal gives no other node a cost |
| Pathfinder.RoadNetwork.Pathfinder | pathfinder/road_network.py:244-281 | [start] when start = goal; a non-empty result is a walk from start to goal; [] exactly when the goal is unreachable |
| RouteManager.Queue.constructor | route_manager.py:5-6 | the queue starts empty |
| RouteManager.Queue.IsEmpty | route_manager.py:8-9 | true exactly when the queue has no elements |
| RouteManager.Queue.Push | route_manager.py:11-12 | appends x at the back, earlier elements unchanged |
| RouteManager.Queue.Pull | route_manager.py:14-15 | returns the front element and removes it, the rest in order |
| RouteManager.Queue.Front | route_manager.py:17-18 | returns the front element and changes nothing |
| RouteManager.FirstInFirstOut | route_manager.py:4-18 | two pushed elements come out in the order they went in, and the queue is then empty |
| RouteManager.FirstArgMin | route_manager.py:47-51 | the scan's result is a position of the list |
| RouteManager.FirstArgMinSpec | route_manager.py:47-51 | the position holds a minimal value and every earlier value is strictly larger (first minimum wins) |
| RouteManager.FirstArgMinUnique | route_manager.py:47-51 | a first minimum is the scan's result |
| RouteManager.ScanStep | route_manager.py:47-51 | one scan step moves the candidate exactly when the new station is strictly nearer |
| RouteManager.Distances | route_manager.py:48-50 | entry k is the distance from the point to station k |
| RouteManager.TravelTime | route_manager.py:56 | time times 50000 equals distance times 60 |
| RouteManager.TravelTimeLinear | route_manager.py:56 | travel time is additive, scales with the distance, and is 0 for 0 |
| RouteManager.RouteRequest.constructor | route_manager.py:22-31 | stores the network and builds the start and destination points from the coordinate pairs |
| RouteManager.RouteRequest.SelectStations | route_manager.py:43-51 | each chosen station is the first station in list order at minimal distance from its point |
| RouteManager.RouteRequest.GetRouteData | route_manager.py:33-58 | searches between the two nearest stations; the length is the path's weight and the time is length * 60 / 50000 |
| Platforms.Platform.constructor | platforms.py:10-15 | stores id, station, target platform, people count and open flag unchanged |
| Platforms.PlatformTable.Insert | platforms.py:35-36 | an insert appends one row to the table |
| Platforms.RowEdges | platforms.py:33-34 | the links of a row from the diagonal up to a column bound, at most one per column |
| Platforms.RowEdgesSpec | platforms.py:33-34 | row i lists exactly the 1-cells (i, j) with i <= j below the bound, in increasing column order |
| Platforms.EdgesBeforeSpec | platforms.py:32-34 | the rows before i list exactly the 1-cells on or above the diagonal, in row-major order |
| Platforms.RowsFor | platforms.py:35-37 | two rows per link |
| Platforms.RowsForSnoc | platforms.py:35-37 | one more link appends (i + 1, id + 1) then (j + 1, id), with id = 1 + 2 * links so far |
| Platforms.RowsForAt | platforms.py:35-37 | row r belongs to link r / 2: its first end for even r (targeting r + 2), its second end for odd r (targeting r) |
| Platforms.GenerateRow | platforms.py:33-37 | the inner loop appends the rows of row i's links and advances current_id by 2 per 1 |
| Platforms.GenerateWithAdjacencyMatrix | platforms.py:18-37 | the table gains exactly the rows for the upper-triangle links in row-major order, with current_id starting at 1 |
| Platforms.RowEdgesAgree | platforms.py:33-34 | a row's links depend only on cells on or above the diagonal |
| Platforms.EdgesBeforeAgree | platforms.py:32-34 | the links of the first rows depend only on cells on or above the diagonal |
| Platforms.LowerTriangleIgnored | platforms.py:31-37 | cells below the diagonal never change the rows written |
| Platforms.RowMajorCard | platforms.py:32-34 | a list in strict row-major order has no repeats |
| Platforms.RowCount | platforms.py:31-37 | rows written = 2 times the number of 1-cells on or above the diagonal |
| Platforms.Partner | platforms.py:35-37 | the other platform of the same link: a different id in the same pair |
| Platforms.PartnerInvolution | platforms.py:35-37 | the partner of the partner is the platform itself |
| Platforms.TargetIsPartner | platforms.py:35-37 | every platform targets its partner |
| Platforms.StationsOfLink | platforms.py:35-36 | the two rows of link k sit at its two end stations |
| Platforms.PlatformsPaired | platforms.py:28-37 | platforms 2k+1 and 2k+2 target each other and sit at the ends of a 1 on or above the diagonal |
| BuildNetwork.Station.constructor | build_network/map.py:15-18 | stores id, name and coordinates; the gondola count starts at 0 |
| BuildNetwork.Station.AddGondola | build_network/map.py:20-21 | the count goes up by exactly 1 |
| BuildNetwork.Station.RemoveGondola | build_network/map.py:23-24 | the count goes down by exactly 1, with no lower bound |
| BuildNetwork.Station.GetCurrentNumberOfGondola | build_network/map.py:26-27 | returns the count and changes nothing |
| BuildNetwork.ArriveThenLeave | build_network/map.py:20-24 | an add followed by a remove restores the count; the other fields are constant |
| BuildNetwork.RemoveFromEmpty | build_network/map.py:23-24 | removing from a new station gives -1: the count can go negative |

## Left out

- Floating-point geometry: `get_distance` (a square root) and the Euclidean distance of route requests are abstract distance functions. Link lengths are non-negative integers; route distances are reals.
- `float("inf")` in the weight matrix is the datatype case `MatrixWeight.Infinite`.
- Pathfinder.RoadNetwork.Pathfinder: does not claim a shortest path. The Manhattan heuristic can overestimate the link lengths, so optimality does not hold in general.
- Pathfinder.RoadNetwork.Pathfinder: requires a fresh search state. The source never resets `g`, `h` or the parent between calls, and repeated calls are not modelled.
- Pathfinder.RoadNetwork.constructor: requires exactly n nodes for an n-row matrix, node k (from 0) carrying id k + 1, and every row having exactly n entries. The source accepts more than this, and the model does not cover these inputs:
  - ids 1..n listed in any order. Id k still picks row k - 1, so the network and the search behave as with the sorted list. The nearest-station choice in route_manager.py breaks distance ties by list position, though, so a permuted list can pick a different station than the model, whose list is always in id order.
  - repeated ids: `get_node_by_id` returns the first node in list order with the id.
  - more nodes than matrix rows.
  - rows longer than n, whose extra columns are never read.
  - ids missing from 1..n. `get_node_by_id` then returns None and does not fail. The source fails only where that None is used. Building the network fails in `get_distance` (pathfinder/road_network.py:190-193) when a 1 in the matrix names the missing id. A search fails at `start.g = 0` (line 257) when the start id is missing, and in `get_manhattan_distance` (line 258) when the goal id is missing. Once the network is built, `get_neighbors` returns only nodes that exist, so `weight` never receives None. A network with ids [1, 2, 4] and no 1 in row or column 2 builds without error, and searches between ids 1 and 2 run. A search from id 4 raises an IndexError at the matrix row read in `get_neighbors` (line 217).
  - ids below 1, as in pathfinder/test.py, whose ids start at 0. The source accepts them: `get_neighbors` and `weight` then compute index -1, which Python reads as the last row or column.
- The priority queue's comparator is fixed to `get_highest_heuristic_node`, the only one the source passes in.
- Python exceptions become preconditions: pulling from an empty queue, `front` of an empty queue, an id with no node, a matrix row shorter than the matrix, and an empty station list in a route request. The `TypeError` that `get_f` raises on a node whose `g` or `h` is None becomes `requires Scored()` on `Node.F`, `Node.HighestHeuristicNode`, `PriorityQueue.Highest` and `PriorityQueue.Pull`.
- `Station` is a class of its own. It carries the id, name and coordinates; the search fields it inherits from `Node` are unused there.
- RouteManager.RouteRequest.GetRouteData: the path search and the path weight are parameters. The `Point` class, the three-argument `pathfinder` and `path_weight` that route_manager.py calls are not part of this model. The path is returned as the search gives it, without `parse_nodes_by_id`.
- `RouteManager` is an empty class and is not modelled.
- The travel-time division is real division.
- Platforms.GenerateWithAdjacencyMatrix: platform ids come from the database. The model assumes they are 1, 2, 3, ... in insertion order.
- The database (connections and SQL), the `Map` class of build_network/map.py, main.py and pathfinder/test.py are not part of this model.
- The getters `get_x`, `get_y`, `get_cost`, `get_heuristic`, `get_parent_node`, `get_adjacency_matrix`, `get_nodes` and `get_network` are plain field reads.
