/**
 * The A* search engine of the road network (pathfinder/road_network.py): search
 * nodes with mutable cost, heuristic and parent fields, a list-backed priority
 * queue that finds the lowest f-score by a linear scan, and the network that
 * derives a weight matrix from a 0/1 adjacency matrix, looks up neighbours,
 * rebuilds paths from parent links and runs the search.
 */
module Pathfinder {

  datatype Option<T> = None | Some(value: T)

  /** An entry of the weight matrix: a finite distance, or +infinity for unlinked pairs. */
  datatype MatrixWeight = Finite(value: nat) | Infinite

  function Abs(a: int): nat
  {
    if a < 0 then -a else a
  }

  /** A graph node: a fixed id and position, plus the scratch state of one search. */
  class Node {
    const id: int
    const x: int
    const y: int
    var g: Option<nat>      // cost of the best route found so far
    var h: Option<nat>      // heuristic estimate of the remaining cost
    var parent: Node?       // node this one was last reached from

    constructor (id: int, x: int, y: int)
      ensures this.id == id && this.x == x && this.y == y
      ensures g == None && h == None && parent == null
    {
      this.id := id;
      this.x := x;
      this.y := y;
      g := None;
      h := None;
      parent := null;
    }

    /** Both search values are set, so the f-score is defined. */
    predicate Scored()
      reads this
    {
      g.Some? && h.Some?
    }

    /** The f-score: cost so far plus heuristic. */
    function F(): (f: nat)
      reads this
      requires Scored()
      ensures f >= g.value && f >= h.value
      ensures f == g.value <==> h.value == 0
    {
      h.value + g.value
    }

    /**
     * Of two scored nodes, the one the queue prefers: n1 only when its f-score is
     * strictly smaller, n2 otherwise (so ties go to n2).
     */
    static function HighestHeuristicNode(n1: Node, n2: Node): (r: Node)
      reads n1, n2
      requires n1.Scored() && n2.Scored()
      ensures r == n1 || r == n2
      ensures r.F() <= n1.F() && r.F() <= n2.F()
      ensures r == n2 || n1.F() < n2.F()
    {
      if n1.F() < n2.F() then n1 else n2
    }
  }

  /** The ids of a list of nodes, in the same order. */
  function ParseNodesById(nodes: seq<Node>): (ids: seq<int>)
    ensures |ids| == |nodes|
    ensures forall k :: 0 <= k < |nodes| ==> ids[k] == nodes[k].id
  {
    seq(|nodes|, k requires 0 <= k < |nodes| => nodes[k].id)
  }

  /** Manhattan distance between the positions of two nodes. */
  function ManhattanDistance(n1: Node, n2: Node): (d: nat)
    ensures d == 0 <==> n1.x == n2.x && n1.y == n2.y
    ensures d >= Abs(n2.x - n1.x) && d >= Abs(n2.y - n1.y)
  {
    Abs(n2.x - n1.x) + Abs(n2.y - n1.y)
  }

  /** The Manhattan distance is symmetric and satisfies the triangle inequality. */
  lemma ManhattanMetric(a: Node, b: Node, c: Node)
    ensures ManhattanDistance(a, b) == ManhattanDistance(b, a)
    ensures ManhattanDistance(a, c) <= ManhattanDistance(a, b) + ManhattanDistance(b, c)
  {
  }

  // ---------------------------------------------------------------------------
  // Sequence helpers for the priority queue

  /** No object occurs twice. */
  ghost predicate NoDup<T>(s: seq<T>)
  {
    forall a, b :: 0 <= a < b < |s| ==> s[a] != s[b]
  }

  /** Position of the first occurrence of x. */
  function IndexOf<T(==)>(s: seq<T>, x: T): (i: nat)
    requires x in s
    ensures i < |s| && s[i] == x && x !in s[..i]
  {
    if s[0] == x then 0 else 1 + IndexOf(s[1..], x)
  }

  /** Python's list.remove: drop the first occurrence of x, keep the rest in order. */
  function RemoveFirst<T(==)>(s: seq<T>, x: T): (r: seq<T>)
    requires x in s
    ensures |r| == |s| - 1
  {
    if s[0] == x then s[1..]
    else [s[0]] + RemoveFirst(s[1..], x)
  }

  /** Element k of RemoveFirst(s, x) is s[k] before the removed position and s[k + 1] from it on. */
  lemma {:induction false} RemoveFirstAt<T>(s: seq<T>, x: T, k: nat)
    requires x in s && k < |s| - 1
    ensures |RemoveFirst(s, x)| == |s| - 1
    ensures RemoveFirst(s, x)[k] == if k < IndexOf(s, x) then s[k] else s[k + 1]
  {
    if s[0] != x && k > 0 {
      assert x in s[1..];
      RemoveFirstAt(s[1..], x, k - 1);
    }
  }

  /** Removing x keeps every other element and adds none. */
  lemma RemoveFirstMembers<T>(s: seq<T>, x: T)
    requires x in s
    ensures forall y :: y in RemoveFirst(s, x) ==> y in s
    ensures forall y :: y in s && y != x ==> y in RemoveFirst(s, x)
  {
    var i := IndexOf(s, x);
    var r := RemoveFirst(s, x);
    forall y | y in r ensures y in s {
      var k :| 0 <= k < |r| && r[k] == y;
      RemoveFirstAt(s, x, k);
    }
    forall y | y in s && y != x ensures y in r {
      var k :| 0 <= k < |s| && s[k] == y;
      var k' := if k < i then k else k - 1;
      RemoveFirstAt(s, x, k');
    }
  }

  /** In a list without duplicates, removing x leaves a list without duplicates and without x. */
  lemma RemoveFirstNoDup<T>(s: seq<T>, x: T)
    requires NoDup(s) && x in s
    ensures NoDup(RemoveFirst(s, x)) && x !in RemoveFirst(s, x)
  {
    var i := IndexOf(s, x);
    var r := RemoveFirst(s, x);
    forall a, b | 0 <= a < b < |r| ensures r[a] != r[b] {
      RemoveFirstAt(s, x, a);
      RemoveFirstAt(s, x, b);
    }
    if x in r {
      var k :| 0 <= k < |r| && r[k] == x;
      RemoveFirstAt(s, x, k);
    }
  }

  /**
   * The index the queue's scan ends on: a minimal value, and the last one among
   * equal minima, because the scan replaces its candidate unless the candidate
   * is strictly smaller.
   */
  function LastArgMin(fs: seq<int>): (k: nat)
    requires |fs| > 0
    ensures k < |fs|
    ensures forall j :: 0 <= j < |fs| ==> fs[k] <= fs[j]
    ensures forall j :: k < j < |fs| ==> fs[k] < fs[j]
  {
    if |fs| == 1 then 0
    else
      var k := LastArgMin(fs[..|fs| - 1]);
      if fs[k] < fs[|fs| - 1] then k else |fs| - 1
  }

  /** Extending the scanned prefix by one element keeps the candidate unless it is strictly smaller. */
  lemma LastArgMinStep(fs: seq<int>, i: nat)
    requires 0 < i < |fs|
    ensures LastArgMin(fs[..i + 1])
      == (if fs[LastArgMin(fs[..i])] < fs[i] then LastArgMin(fs[..i]) else i)
  {
    assert fs[..i + 1][..i] == fs[..i];
  }

  /** The f-scores of a list of scored nodes. */
  function FValues(s: seq<Node>): (fs: seq<int>)
    reads s
    requires forall k :: 0 <= k < |s| ==> s[k].Scored()
    ensures |fs| == |s| && forall k :: 0 <= k < |s| ==> fs[k] == s[k].F()
  {
    seq(|s|, k requires 0 <= k < |s| && s[k].Scored() reads s => s[k].F())
  }

  /** Pending nodes, kept in insertion order; pull scans for the lowest f-score. */
  class PriorityQueue {
    var content: seq<Node>

    constructor ()
      ensures content == []
    {
      content := [];
    }

    method Add(x: Node)
      modifies this
      ensures content == old(content) + [x]
    {
      content := content + [x];
    }

    /** The scan in pull: the node with the lowest f-score, the last one on ties. */
    static method Highest(c: seq<Node>) returns (highest: Node)
      requires c != []
      requires forall k :: 0 <= k < |c| ==> c[k].Scored()
      ensures highest == c[LastArgMin(FValues(c))]
    {
      ghost var fs := FValues(c);
      highest := c[0];
      for i := 0 to |c|
        invariant i == 0 ==> highest == c[0]
        invariant i > 0 ==> highest == c[LastArgMin(fs[..i])]
      {
        if i > 0 {
          LastArgMinStep(fs, i);
        }
        highest := Node.HighestHeuristicNode(highest, c[i]);
      }
      assert fs[..|c|] == fs;
    }

    /**
     * Returns the node with the lowest f-score, the last one on ties, and removes
     * its first occurrence from the queue.
     */
    method Pull() returns (highest: Node)
      requires content != []
      requires forall k :: 0 <= k < |content| ==> content[k].Scored()
      modifies this
      ensures highest == old(content)[LastArgMin(FValues(old(content)))]
      ensures content == RemoveFirst(old(content), highest)
    {
      highest := Highest(content);
      content := RemoveFirst(content, highest);
    }

    function IsEmpty(): (empty: bool)
      reads this
      ensures empty <==> |content| == 0
    {
      |content| == 0
    }

    function InQueue(x: Node): (present: bool)
      reads this
      ensures present <==> x in content
    {
      x in content
    }
  }

  // ---------------------------------------------------------------------------
  // Snapshots of the search fields, and the termination measure of the search

  /** The search fields (g, h, parent) of one node, as a value. */
  datatype Mark = Mark(g: Option<nat>, h: Option<nat>, parent: Node?)

  /** A search state: the snapshot, the queue contents, and the update stamps issued so far with the next one. */
  datatype Trace = Trace(ms: seq<Mark>, q: seq<Node>, rank: seq<nat>, clock: nat)

  /** Number of nodes that have not been reached yet. */
  ghost function NoneCount(ms: seq<Mark>): nat
  {
    if ms == [] then 0 else (if ms[0].g.None? then 1 else 0) + NoneCount(ms[1..])
  }

  /** Sum of the costs of the nodes that have been reached. */
  ghost function SomeSum(ms: seq<Mark>): nat
  {
    if ms == [] then 0 else (if ms[0].g.Some? then ms[0].g.value else 0) + SomeSum(ms[1..])
  }

  /** a is below b in the lexicographic order on (unreached count, sum of costs). */
  ghost predicate Below(a: seq<Mark>, b: seq<Mark>)
  {
    NoneCount(a) < NoneCount(b) || (NoneCount(a) == NoneCount(b) && SomeSum(a) < SomeSum(b))
  }

  /** Every node reached in a is still reached in b. */
  ghost predicate Grown(a: seq<Mark>, b: seq<Mark>)
  {
    |a| == |b| && forall k :: 0 <= k < |a| && a[k].g.Some? ==> b[k].g.Some?
  }

  /** Reaching a node, or lowering the cost of a reached node, lowers the measure. */
  lemma {:induction false} MeasureDrops(ms: seq<Mark>, k: nat, m: Mark)
    requires k < |ms| && m.g.Some?
    requires ms[k].g.None? || m.g.value < ms[k].g.value
    ensures Below(ms[k := m], ms)
  {
    var ms' := ms[k := m];
    if k > 0 {
      assert ms'[1..] == ms[1..][k - 1 := m];
      MeasureDrops(ms[1..], k - 1, m);
    } else {
      assert ms'[1..] == ms[1..];
    }
  }

  // ---------------------------------------------------------------------------
  // Column indices of the 1-entries of a matrix row

  /** The column indices j with row[j] == 1, ascending. */
  function Ones(row: seq<int>): (cols: seq<nat>)
    ensures forall k :: 0 <= k < |cols| ==> cols[k] < |row| && row[cols[k]] == 1
  {
    if row == [] then []
    else Ones(row[..|row| - 1]) + (if row[|row| - 1] == 1 then [|row| - 1] else [])
  }

  /** Ones lists exactly the columns holding a 1, in strictly ascending order. */
  lemma {:induction false} OnesSpec(row: seq<int>)
    ensures forall k :: 0 <= k < |Ones(row)| ==> Ones(row)[k] < |row| && row[Ones(row)[k]] == 1
    ensures forall j :: 0 <= j < |row| && row[j] == 1 ==> j in Ones(row)
    ensures forall a, b :: 0 <= a < b < |Ones(row)| ==> Ones(row)[a] < Ones(row)[b]
  {
    if row != [] {
      var front := row[..|row| - 1];
      OnesSpec(front);
      forall j | 0 <= j < |row| - 1 ensures row[j] == front[j] { }
    }
  }

  // ---------------------------------------------------------------------------
  // The road network

  class RoadNetwork {
    const nodes: seq<Node>
    const matrix: seq<seq<int>>
    /** Geometric length of the link between two nodes (a non-negative distance). */
    const distance: (Node, Node) -> nat
    var network: seq<seq<MatrixWeight>>

    /** n nodes, an n-by-n matrix, and node k carries id k + 1 (row k of the matrix). */
    ghost predicate WellIndexed()
    {
      && |nodes| == |matrix|
      && (forall i :: 0 <= i < |matrix| ==> |matrix[i]| == |matrix|)
      && (forall k :: 0 <= k < |nodes| ==> nodes[k].id == k + 1)
    }

    /** The weight matrix entry for rows i, j, as set_network_matrix defines it. */
    function Entry(i: nat, j: nat): MatrixWeight
      requires WellIndexed() && i < |nodes| && j < |nodes|
    {
      if matrix[i][j] == 1 then Finite(distance(nodes[i], nodes[j]))
      else if i == j then Finite(0)
      else Infinite
    }

    ghost predicate NetworkMatches(w: seq<seq<MatrixWeight>>)
      requires WellIndexed()
    {
      && |w| == |nodes|
      && forall i :: 0 <= i < |nodes| ==> |w[i]| == |nodes| && forall j :: 0 <= j < |nodes| ==> w[i][j] == Entry(i, j)
    }

    /** The distance from each node of the network to itself is 0, as for the Euclidean distance. */
    ghost predicate ZeroOnSelf()
    {
      forall k :: 0 <= k < |nodes| ==> distance(nodes[k], nodes[k]) == 0
    }

    ghost predicate Valid()
      reads this
    {
      WellIndexed() && ZeroOnSelf() && NetworkMatches(network)
    }

    /** v is the node the network numbers v.id. */
    ghost predicate Member(v: Node)
    {
      1 <= v.id <= |nodes| && nodes[v.id - 1] == v
    }

    /** The adjacency matrix links the nodes with ids a and b. */
    ghost predicate Adjacent(a: int, b: int)
      requires WellIndexed()
    {
      1 <= a <= |nodes| && 1 <= b <= |nodes| && matrix[a - 1][b - 1] == 1
    }

    /** A sequence of node ids in which each id is linked to the next. */
    ghost predicate IsWalk(p: seq<int>)
      requires WellIndexed()
    {
      && |p| > 0
      && (forall k :: 0 <= k < |p| ==> 1 <= p[k] <= |nodes|)
      && (forall k :: 0 <= k < |p| - 1 ==> Adjacent(p[k], p[k + 1]))
    }

    ghost predicate Reachable(a: int, b: int)
      requires WellIndexed()
    {
      exists p :: IsWalk(p) && p[0] == a && p[|p| - 1] == b
    }

    constructor (nodes: seq<Node>, adjacencyMatrix: seq<seq<int>>, distance: (Node, Node) -> nat)
      requires |nodes| == |adjacencyMatrix|
      requires forall i :: 0 <= i < |adjacencyMatrix| ==> |adjacencyMatrix[i]| == |adjacencyMatrix|
      requires forall k :: 0 <= k < |nodes| ==> nodes[k].id == k + 1
      requires forall k :: 0 <= k < |nodes| ==> distance(nodes[k], nodes[k]) == 0
      ensures this.nodes == nodes && this.matrix == adjacencyMatrix && this.distance == distance
      ensures Valid()
    {
      this.nodes := nodes;
      this.matrix := adjacencyMatrix;
      this.distance := distance;
      network := [];
      new;
      SetNetworkMatrix();
    }

    /** The first node in list order that carries the id, or null if there is none. */
    method GetNodeById(id: int) returns (r: Node?)
      ensures r == null <==> forall k :: 0 <= k < |nodes| ==> nodes[k].id != id
      ensures r != null ==> exists k :: 0 <= k < |nodes| && nodes[k] == r && r.id == id
                                         && forall m :: 0 <= m < k ==> nodes[m].id != id
      ensures WellIndexed() && 1 <= id <= |nodes| ==> r == nodes[id - 1]
    {
      for k := 0 to |nodes|
        invariant forall m :: 0 <= m < k ==> nodes[m].id != id
      {
        if nodes[k].id == id {
          return nodes[k];
        }
      }
      return null;
    }

    /** Builds the weight matrix row by row from the adjacency matrix. */
    method SetNetworkMatrix()
      requires WellIndexed()
      modifies this`network
      ensures NetworkMatches(network)
    {
      network := [];
      var n := |matrix|;
      for i := 0 to n
        invariant |network| == i
        invariant forall r :: 0 <= r < i ==> |network[r]| == n && forall j :: 0 <= j < n ==> network[r][j] == Entry(r, j)
      {
        var line: seq<MatrixWeight> := [];
        ghost var done := network;
        for j := 0 to n
          invariant network == done
          invariant |line| == j
          invariant forall c :: 0 <= c < j ==> line[c] == Entry(i, c)
        {
          if matrix[i][j] == 1 {
            var nodeI := GetNodeById(i + 1);
            var nodeJ := GetNodeById(j + 1);
            var d := distance(nodeI, nodeJ);
            line := line + [Finite(d)];
          } else {
            if i == j {
              line := line + [Finite(0)];
            } else {
              line := line + [Infinite];
            }
          }
        }
        network := network + [line];
      }
    }

    /**
     * The nodes linked from the node with index i by row i of the adjacency
     * matrix, in ascending column order: column j contributes the node with id j + 1.
     */
    ghost function NeighborsOf(i: nat): (ns: seq<Node>)
      requires WellIndexed() && i < |nodes|
      ensures forall k :: 0 <= k < |ns| ==> Member(ns[k]) && Adjacent(i + 1, ns[k].id)
    {
      seq(|Ones(matrix[i])|, k requires 0 <= k < |Ones(matrix[i])| => nodes[Ones(matrix[i])[k]])
    }

    /** NeighborsOf lists members of the network linked from node i + 1, all of them, by increasing id. */
    lemma NeighborFacts(i: nat)
      requires WellIndexed() && i < |nodes|
      ensures forall k :: 0 <= k < |NeighborsOf(i)| ==> Member(NeighborsOf(i)[k]) && Adjacent(i + 1, NeighborsOf(i)[k].id)
      ensures forall j :: 0 <= j < |nodes| && matrix[i][j] == 1 ==> nodes[j] in NeighborsOf(i)
      ensures forall a, b :: 0 <= a < b < |NeighborsOf(i)| ==> NeighborsOf(i)[a].id < NeighborsOf(i)[b].id
    {
      var ns := NeighborsOf(i);
      OnesSpec(matrix[i]);
      forall j | 0 <= j < |nodes| && matrix[i][j] == 1 ensures nodes[j] in ns {
        var k :| 0 <= k < |Ones(matrix[i])| && Ones(matrix[i])[k] == j;
        assert ns[k] == nodes[j];
      }
    }

    method GetNeighbors(node: Node) returns (neighbors: seq<Node>)
      requires WellIndexed()
      requires 1 <= node.id <= |nodes|
      ensures neighbors == NeighborsOf(node.id - 1)
      ensures forall k :: 0 <= k < |neighbors| ==> Member(neighbors[k]) && Adjacent(node.id, neighbors[k].id)
      ensures forall j :: 0 <= j < |nodes| && matrix[node.id - 1][j] == 1 ==> nodes[j] in neighbors
      ensures forall a, b :: 0 <= a < b < |neighbors| ==> neighbors[a].id < neighbors[b].id
    {
      var i := node.id - 1;
      neighbors := [];
      for j := 0 to |matrix|
        invariant |neighbors| == |Ones(matrix[i][..j])|
        invariant forall k :: 0 <= k < |neighbors| ==> neighbors[k] == nodes[Ones(matrix[i][..j])[k]]
      {
        assert matrix[i][..j + 1][..j] == matrix[i][..j];
        if matrix[i][j] == 1 {
          var v := GetNodeById(j + 1);
          neighbors := neighbors + [v];
        }
      }
      assert matrix[i][..|matrix|] == matrix[i];
      NeighborFacts(i);
    }

    /** The weight of the link from n1 to n2, read from the weight matrix. */
    function Weight(n1: Node, n2: Node): (w: MatrixWeight)
      reads this
      requires Valid()
      requires 1 <= n1.id <= |nodes| && 1 <= n2.id <= |nodes|
      ensures Adjacent(n1.id, n2.id) ==> w == Finite(distance(nodes[n1.id - 1], nodes[n2.id - 1]))
      ensures !Adjacent(n1.id, n2.id) ==> w == (if n1.id == n2.id then Finite(0) else Infinite)
    {
      network[n1.id - 1][n2.id - 1]
    }

    /** Every diagonal entry of the weight matrix is 0, whether or not the adjacency matrix links the node to itself. */
    lemma DiagonalZero(i: nat)
      requires Valid() && i < |nodes|
      ensures network[i][i] == Finite(0)
      ensures Weight(nodes[i], nodes[i]) == Finite(0)
    {
    }

    // -------------------------------------------------------------------------
    // The state of a search in progress, read from a snapshot of the search fields

    /** The search fields of every node, in node order. */
    ghost function Marks(): (ms: seq<Mark>)
      reads nodes
      ensures |ms| == |nodes|
      ensures forall k {:trigger ms[k]} :: 0 <= k < |nodes| ==> ms[k] == Mark(nodes[k].g, nodes[k].h, nodes[k].parent)
    {
      seq(|nodes|, k requires 0 <= k < |nodes| reads nodes => Mark(nodes[k].g, nodes[k].h, nodes[k].parent))
    }
    /**
     * The node with index k, if reached and not the start (index s), links back to
     * a reached neighbour of strictly lower rank: lower cost, or equal cost and an
     * earlier update stamp.
     */
    ghost predicate ParentLink(ms: seq<Mark>, s: nat, rank: seq<nat>, k: nat)
      requires WellIndexed() && |ms| == |nodes| && |rank| == |nodes| && k < |nodes|
    {
      ms[k].g.Some? && k != s ==>
        var p := ms[k].parent;
        && p != null && Member(p) && ms[p.id - 1].g.Some?
        && Adjacent(p.id, k + 1)
        && (ms[p.id - 1].g.value < ms[k].g.value
            || (ms[p.id - 1].g.value == ms[k].g.value && rank[p.id - 1] < rank[k]))
    }

    ghost predicate SearchTree(ms: seq<Mark>, s: nat, rank: seq<nat>)
      requires WellIndexed() && |ms| == |nodes| && |rank| == |nodes|
    {
      forall k :: 0 <= k < |nodes| ==> ParentLink(ms, s, rank, k)
    }

    /** Every reached node is scored and carries an update stamp below the clock. */
    ghost predicate Stamped(ms: seq<Mark>, rank: seq<nat>, clock: nat)
      requires |ms| == |rank|
    {
      forall k :: 0 <= k < |ms| && ms[k].g.Some? ==> ms[k].h.Some? && rank[k] < clock
    }

    /** The queue holds reached, scored members of the network, each once. */
    ghost predicate QueueOk(ms: seq<Mark>, q: seq<Node>)
      requires |ms| == |nodes|
    {
      NoDup(q) && Queued(ms, q)
    }

    /** Every queue entry is a member the snapshot records as scored. */
    ghost predicate Queued(ms: seq<Mark>, q: seq<Node>)
      requires |ms| == |nodes|
    {
      forall k :: 0 <= k < |q| ==> Member(q[k]) && ms[q[k].id - 1].g.Some? && ms[q[k].id - 1].h.Some?
    }

    /** Every link out of the node with index k leads to a reached node. */
    ghost predicate Closed(ms: seq<Mark>, k: nat)
      requires WellIndexed() && |ms| == |nodes| && k < |nodes|
    {
      forall j :: 0 <= j < |nodes| && matrix[k][j] == 1 ==> ms[j].g.Some?
    }

    /** Every reached node other than u and x is pending in q or closed. */
    ghost predicate Frontier(ms: seq<Mark>, q: seq<Node>, u: Node?, x: Node?)
      requires WellIndexed() && |ms| == |nodes|
    {
      forall k :: 0 <= k < |nodes| && ms[k].g.Some? ==>
        nodes[k] == u || nodes[k] == x || nodes[k] in q || Closed(ms, k)
    }

    /** The invariant of a search from the node with index s, with u the node just pulled (or null). */
    ghost predicate Searching(t: Trace, s: nat, u: Node?)
      requires WellIndexed()
    {
      && |t.ms| == |nodes| && |t.rank| == |nodes| && s < |nodes| && t.ms[s].g.Some?
      && SearchTree(t.ms, s, t.rank) && Stamped(t.ms, t.rank, t.clock)
      && QueueOk(t.ms, t.q) && Frontier(t.ms, t.q, u, null)
    }

    /** Once reached, the goal is pending in the queue or is the node just pulled. */
    ghost predicate GoalLine(ms: seq<Mark>, goal: Node, q: seq<Node>, u: Node?)
      requires WellIndexed() && |ms| == |nodes| && Member(goal)
    {
      ms[goal.id - 1].g.Some? ==> goal in q || u == goal
    }

    ghost predicate FreshSearchState()
      reads nodes
    {
      forall k :: 0 <= k < |nodes| ==> nodes[k].g == None && nodes[k].h == None && nodes[k].parent == null
    }

    // -------------------------------------------------------------------------
    // One search step, on snapshots

    /** The cost of reaching v through u: defined when u is reached and the matrix links u to v. */
    ghost function ViaCost(ms: seq<Mark>, u: Node, v: Node): Option<nat>
      requires WellIndexed() && |ms| == |nodes| && Member(u) && Member(v)
    {
      if ms[u.id - 1].g.Some? && matrix[u.id - 1][v.id - 1] == 1 then Some(ms[u.id - 1].g.value + distance(u, v))
      else None
    }

    /** Reaching v through u beats the cost v has, if any. */
    ghost predicate Improves(ms: seq<Mark>, u: Node, v: Node)
      requires WellIndexed() && |ms| == |nodes| && Member(u) && Member(v)
    {
      ViaCost(ms, u, v).Some? && (ms[v.id - 1].g.None? || ViaCost(ms, u, v).value < ms[v.id - 1].g.value)
    }

    /**
     * The search state after relaxing the link from u to v: on an improvement v
     * takes the new cost, its heuristic towards goal and parent u, gets the next
     * update stamp, and is queued unless already pending; otherwise nothing changes.
     */
    ghost function RelaxTrace(t: Trace, u: Node, v: Node, goal: Node): (r: Trace)
      requires WellIndexed() && |t.ms| == |nodes| && |t.rank| == |nodes| && Member(u) && Member(v)
      ensures |r.ms| == |nodes| && |r.rank| == |nodes| && Grown(t.ms, r.ms)
    {
      if Improves(t.ms, u, v) then
        Trace(t.ms[v.id - 1 := Mark(ViaCost(t.ms, u, v), Some(ManhattanDistance(v, goal)), u)],
              if v in t.q then t.q else t.q + [v],
              t.rank[v.id - 1 := t.clock], t.clock + 1)
      else t
    }

    /** The search state after relaxing the links from u to each node of ns, in order. */
    ghost function ExpandTrace(t: Trace, u: Node, ns: seq<Node>, goal: Node): (r: Trace)
      requires WellIndexed() && |t.ms| == |nodes| && |t.rank| == |nodes| && Member(u)
      requires forall k :: 0 <= k < |ns| ==> Member(ns[k])
      ensures |r.ms| == |nodes| && |r.rank| == |nodes| && Grown(t.ms, r.ms)
      decreases |ns|
    {
      if ns == [] then t
      else RelaxTrace(ExpandTrace(t, u, ns[..|ns| - 1], goal), u, ns[|ns| - 1], goal)
    }

    /**
     * Follows parent links back from `final` to `start` and returns the nodes on
     * the way, from start to final.
     */
    function BuildPathTo(start: Node, final: Node, ghost rank: seq<nat>): (path: seq<Node>)
      reads nodes
      requires WellIndexed() && Member(start) && |rank| == |nodes| && SearchTree(Marks(), start.id - 1, rank)
      requires Member(final) && final.g.Some?
      ensures |path| > 0 && path[0] == start && path[|path| - 1] == final
      ensures forall k :: 0 <= k < |path| ==> Member(path[k])
      ensures forall k :: 0 < k < |path| ==> path[k] != start && path[k].parent == path[k - 1]
      ensures forall k :: 0 <= k < |path| - 1 ==> Adjacent(path[k].id, path[k + 1].id)
      decreases final.g.value, rank[final.id - 1]
    {
      if final == start then [final]
      else
        assert ParentLink(Marks(), start.id - 1, rank, final.id - 1);
        BuildPathTo(start, final.parent, rank) + [final]
    }

    /** When every reached node is closed, every walk from a reached node ends at a reached node. */
    lemma {:induction false} WalkStaysReached(ms: seq<Mark>, p: seq<int>)
      requires WellIndexed() && |ms| == |nodes| && IsWalk(p)
      requires ms[p[0] - 1].g.Some?
      requires forall k :: 0 <= k < |nodes| && ms[k].g.Some? ==> Closed(ms, k)
      ensures ms[p[|p| - 1] - 1].g.Some?
    {
      if |p| > 1 {
        var front := p[..|p| - 1];
        assert IsWalk(front);
        WalkStaysReached(ms, front);
        var a := p[|p| - 2];
        assert Adjacent(a, p[|p| - 1]);
        assert Closed(ms, a - 1);
      }
    }

    /** With the queue empty, a node the search never reached cannot be reached from the start. */
    lemma UnreachedIsUnreachable(ms: seq<Mark>, a: int, b: int)
      requires WellIndexed() && |ms| == |nodes| && 1 <= a <= |nodes| && 1 <= b <= |nodes|
      requires ms[a - 1].g.Some? && ms[b - 1].g.None?
      requires Frontier(ms, [], null, null)
      ensures !Reachable(a, b)
    {
      if Reachable(a, b) {
        var p :| IsWalk(p) && p[0] == a && p[|p| - 1] == b;
        WalkStaysReached(ms, p);
      }
    }

    /** The search state right after the start node has been scored and queued. */
    lemma InitialSearch(ms: seq<Mark>, start: Node, goal: Node, rank: seq<nat>)
      requires WellIndexed() && |ms| == |nodes| && Member(start) && Member(goal)
      requires forall k :: 0 <= k < |nodes| && k != start.id - 1 ==> ms[k].g.None?
      requires ms[start.id - 1].g == Some(0) && ms[start.id - 1].h.Some?
      requires |rank| == |nodes| && forall k :: 0 <= k < |rank| ==> rank[k] == 0
      ensures Searching(Trace(ms, [start], rank, 1), start.id - 1, null)
      ensures GoalLine(ms, goal, [start], start)
    {
    }

    /** Pulling u keeps the queue made of reached, scored members, each once. */
    lemma QueueAfterPull(ms: seq<Mark>, q: seq<Node>, u: Node)
      requires |ms| == |nodes| && QueueOk(ms, q) && u in q
      ensures Member(u) && ms[u.id - 1].g.Some?
      ensures QueueOk(ms, RemoveFirst(q, u))
    {
      RemoveFirstNoDup(q, u);
      var q1 := RemoveFirst(q, u);
      var i := IndexOf(q, u);
      assert Member(q[i]);
      forall k | 0 <= k < |q1| ensures Member(q1[k]) && ms[q1[k].id - 1].g.Some? && ms[q1[k].id - 1].h.Some? {
        RemoveFirstAt(q, u, k);
        var j := if k < i then k else k + 1;
        assert q1[k] == q[j];
      }
    }

    /** Pulling u leaves u as the only reached node that may be neither pending nor closed. */
    lemma FrontierAfterPull(ms: seq<Mark>, q: seq<Node>, u: Node)
      requires WellIndexed() && |ms| == |nodes| && Frontier(ms, q, null, null) && u in q
      ensures Frontier(ms, RemoveFirst(q, u), u, null)
    {
      RemoveFirstMembers(q, u);
    }

    /** The search invariant after pulling u from the queue. */
    lemma AfterPull(t: Trace, s: nat, u: Node, goal: Node)
      requires WellIndexed() && Searching(t, s, null) && u in t.q
      requires Member(goal) && (t.ms[goal.id - 1].g.Some? ==> goal in t.q)
      ensures Member(u) && t.ms[u.id - 1].g.Some?
      ensures Searching(t.(q := RemoveFirst(t.q, u)), s, u)
      ensures GoalLine(t.ms, goal, RemoveFirst(t.q, u), u)
    {
      QueueAfterPull(t.ms, t.q, u);
      FrontierAfterPull(t.ms, t.q, u);
      RemoveFirstMembers(t.q, u);
    }

    /** Lowering the cost of node i and pointing it at u keeps every parent link ranked below its child. */
    lemma TreeAfterUpdate(ms: seq<Mark>, s: nat, rank: seq<nat>, clock: nat, u: Node, i: nat, m: Mark)
      requires WellIndexed() && |ms| == |nodes| && |rank| == |nodes| && i < |nodes|
      requires SearchTree(ms, s, rank) && Stamped(ms, rank, clock)
      requires Member(u) && u.id - 1 != i && Adjacent(u.id, i + 1) && ms[u.id - 1].g.Some?
      requires m.g.Some? && m.parent == u && ms[u.id - 1].g.value <= m.g.value
      requires ms[i].g.None? || m.g.value < ms[i].g.value
      ensures SearchTree(ms[i := m], s, rank[i := clock])
    {
      var ms', rank' := ms[i := m], rank[i := clock];
      forall k | 0 <= k < |nodes| ensures ParentLink(ms', s, rank', k) {
        if k != i && ms'[k].g.Some? && k != s {
          assert ParentLink(ms, s, rank, k);
        }
      }
    }

    lemma QueueAfterUpdate(ms: seq<Mark>, q: seq<Node>, i: nat, m: Mark)
      requires |ms| == |nodes| && i < |nodes| && QueueOk(ms, q) && m.g.Some? && m.h.Some?
      ensures QueueOk(ms[i := m], q)
    {
      forall k | 0 <= k < |q| ensures Member(q[k]) && ms[i := m][q[k].id - 1].g.Some? && ms[i := m][q[k].id - 1].h.Some? {
        assert Member(q[k]) && ms[q[k].id - 1].g.Some? && ms[q[k].id - 1].h.Some?;
      }
    }

    /** Reaching node i keeps every other reached node pending or closed. */
    lemma FrontierAfterUpdate(ms: seq<Mark>, q: seq<Node>, u: Node, i: nat, m: Mark)
      requires WellIndexed() && |ms| == |nodes| && i < |nodes| && Frontier(ms, q, u, null) && m.g.Some?
      ensures Frontier(ms[i := m], q, u, nodes[i])
    {
      var ms' := ms[i := m];
      forall k | 0 <= k < |nodes| && ms'[k].g.Some? && k != i && nodes[k] != u && nodes[k] !in q
        ensures Closed(ms', k)
      {
        assert Closed(ms, k);
      }
    }

    /** Appending a reached, scored node that is not yet queued keeps the queue free of duplicates. */
    lemma QueueAfterAdd(ms: seq<Mark>, q: seq<Node>, v: Node)
      requires |ms| == |nodes| && QueueOk(ms, q) && v !in q
      requires Member(v) && ms[v.id - 1].g.Some? && ms[v.id - 1].h.Some?
      ensures QueueOk(ms, q + [v])
    {
      var q' := q + [v];
      forall a, b | 0 <= a < b < |q'| ensures q'[a] != q'[b] {
        if b == |q| { assert q'[a] in q; }
      }
    }

    /** Once the node just reached is queued, the search invariant holds again. */
    lemma SearchAfterAdd(ms: seq<Mark>, s: nat, rank: seq<nat>, clock: nat, q1: seq<Node>, q2: seq<Node>, u: Node, v: Node)
      requires WellIndexed() && |ms| == |nodes| && |rank| == |nodes| && s < |nodes| && ms[s].g.Some?
      requires SearchTree(ms, s, rank) && Stamped(ms, rank, clock) && QueueOk(ms, q2)
      requires Frontier(ms, q1, u, v) && v in q2 && forall y :: y in q1 ==> y in q2
      ensures Searching(Trace(ms, q2, rank, clock), s, u)
    {
    }

    /** An improving relaxation of the link from u to v keeps the search invariant and lowers the measure. */
    lemma ImprovedKeeps(t: Trace, s: nat, u: Node, v: Node, goal: Node)
      requires WellIndexed() && Searching(t, s, u) && Member(goal) && GoalLine(t.ms, goal, t.q, u)
      requires Member(u) && Member(v) && t.ms[u.id - 1].g.Some? && Adjacent(u.id, v.id)
      requires Improves(t.ms, u, v)
      ensures var r := Trace(t.ms[v.id - 1 := Mark(ViaCost(t.ms, u, v), Some(ManhattanDistance(v, goal)), u)],
                             if v in t.q then t.q else t.q + [v],
                             t.rank[v.id - 1 := t.clock], t.clock + 1);
        Searching(r, s, u) && GoalLine(r.ms, goal, r.q, u) && r.ms[v.id - 1].g.Some? && Below(r.ms, t.ms)
    {
      var i := v.id - 1;
      var m := Mark(ViaCost(t.ms, u, v), Some(ManhattanDistance(v, goal)), u);
      var ms' := t.ms[i := m];
      var q2 := if v in t.q then t.q else t.q + [v];
      assert u != v;
      MeasureDrops(t.ms, i, m);
      TreeAfterUpdate(t.ms, s, t.rank, t.clock, u, i, m);
      QueueAfterUpdate(t.ms, t.q, i, m);
      FrontierAfterUpdate(t.ms, t.q, u, i, m);
      if v !in t.q {
        QueueAfterAdd(ms', t.q, v);
      }
      SearchAfterAdd(ms', s, t.rank[i := t.clock], t.clock + 1, t.q, q2, u, v);
    }

    /** Relaxing the link from u to v keeps the search invariant, reaches v, and lowers the measure or changes nothing. */
    lemma RelaxKeeps(t: Trace, s: nat, u: Node, v: Node, goal: Node)
      requires WellIndexed() && Searching(t, s, u) && Member(goal) && GoalLine(t.ms, goal, t.q, u)
      requires Member(u) && Member(v) && t.ms[u.id - 1].g.Some? && Adjacent(u.id, v.id)
      ensures Searching(RelaxTrace(t, u, v, goal), s, u)
      ensures GoalLine(RelaxTrace(t, u, v, goal).ms, goal, RelaxTrace(t, u, v, goal).q, u)
      ensures RelaxTrace(t, u, v, goal).ms[v.id - 1].g.Some?
      ensures Below(RelaxTrace(t, u, v, goal).ms, t.ms) || RelaxTrace(t, u, v, goal) == t
    {
      if Improves(t.ms, u, v) {
        ImprovedKeeps(t, s, u, v, goal);
      }
    }

    /** Relaxing every link out of u keeps the invariant and reaches every node of ns. */
    lemma {:induction false} ExpandKeeps(t: Trace, s: nat, u: Node, ns: seq<Node>, goal: Node)
      requires WellIndexed() && Searching(t, s, u) && Member(goal) && GoalLine(t.ms, goal, t.q, u)
      requires Member(u) && t.ms[u.id - 1].g.Some?
      requires forall k :: 0 <= k < |ns| ==> Member(ns[k]) && Adjacent(u.id, ns[k].id)
      ensures Searching(ExpandTrace(t, u, ns, goal), s, u)
      ensures GoalLine(ExpandTrace(t, u, ns, goal).ms, goal, ExpandTrace(t, u, ns, goal).q, u)
      ensures forall k :: 0 <= k < |ns| ==> ExpandTrace(t, u, ns, goal).ms[ns[k].id - 1].g.Some?
      ensures Below(ExpandTrace(t, u, ns, goal).ms, t.ms) || ExpandTrace(t, u, ns, goal) == t
      decreases |ns|
    {
      if ns != [] {
        var front := ns[..|ns| - 1];
        var v := ns[|ns| - 1];
        ExpandKeeps(t, s, u, front, goal);
        var r1 := ExpandTrace(t, u, front, goal);
        RelaxKeeps(r1, s, u, v, goal);
        var r := RelaxTrace(r1, u, v, goal);
        assert ExpandTrace(t, u, ns, goal) == r;
        StillReached(r1.ms, r.ms, front, v, ns);
      }
    }

    /** Nodes reached before stay reached once more nodes are reached. */
    lemma StillReached(ms: seq<Mark>, ms': seq<Mark>, front: seq<Node>, v: Node, ns: seq<Node>)
      requires WellIndexed() && |ms| == |nodes| == |ms'| && Grown(ms, ms')
      requires |ns| > 0 && front == ns[..|ns| - 1] && v == ns[|ns| - 1]
      requires forall k :: 0 <= k < |front| ==> Member(front[k]) && ms[front[k].id - 1].g.Some?
      requires Member(v) && ms'[v.id - 1].g.Some?
      ensures forall k :: 0 <= k < |ns| ==> Member(ns[k]) && ms'[ns[k].id - 1].g.Some?
    {
      forall k | 0 <= k < |ns| ensures Member(ns[k]) && ms'[ns[k].id - 1].g.Some? {
        if k < |front| {
          assert ns[k] == front[k];
        }
      }
    }

    /** When every neighbour of u has been reached, u is closed. */
    lemma NeighborsReached(ms: seq<Mark>, u: Node, ns: seq<Node>)
      requires WellIndexed() && |ms| == |nodes| && Member(u) && ns == NeighborsOf(u.id - 1)
      requires forall k :: 0 <= k < |ns| ==> Member(ns[k]) && ms[ns[k].id - 1].g.Some?
      ensures Closed(ms, u.id - 1)
    {
      NeighborFacts(u.id - 1);
      forall j | 0 <= j < |nodes| && matrix[u.id - 1][j] == 1 ensures ms[j].g.Some? {
        var k :| 0 <= k < |ns| && ns[k] == nodes[j];
        assert ns[k].id == j + 1;
      }
    }

    /** Once u is closed it no longer needs its exemption from the frontier. */
    lemma FrontierClosed(ms: seq<Mark>, q: seq<Node>, u: Node)
      requires WellIndexed() && |ms| == |nodes| && Member(u)
      requires Frontier(ms, q, u, null) && Closed(ms, u.id - 1)
      ensures Frontier(ms, q, null, null)
    {
      forall k | 0 <= k < |nodes| && ms[k].g.Some? && nodes[k] == u ensures Closed(ms, k) {
        assert k == u.id - 1;
      }
    }

    /** When every neighbour of u has been reached, u is closed and the search invariant holds without exemption. */
    lemma CloseNode(t: Trace, s: nat, u: Node, ns: seq<Node>)
      requires WellIndexed() && Searching(t, s, u) && Member(u) && ns == NeighborsOf(u.id - 1)
      requires forall k :: 0 <= k < |ns| ==> Member(ns[k]) && t.ms[ns[k].id - 1].g.Some?
      ensures Searching(t, s, null)
    {
      NeighborsReached(t.ms, u, ns);
      FrontierClosed(t.ms, t.q, u);
    }

    /**
     * One turn of the loop keeps the search invariant, whichever queue member u is
     * pulled, and makes progress: a cost appears or drops, or the queue shrinks.
     */
    lemma PullExpand(t0: Trace, s: nat, u: Node, goal: Node)
      requires WellIndexed() && Searching(t0, s, null) && u in t0.q
      requires Member(goal) && GoalLine(t0.ms, goal, t0.q, null)
      ensures Member(u) && t0.ms[u.id - 1].g.Some?
      ensures var r := ExpandTrace(t0.(q := RemoveFirst(t0.q, u)), u, NeighborsOf(u.id - 1), goal);
        && Searching(r, s, null) && GoalLine(r.ms, goal, r.q, u) && r.ms[u.id - 1].g.Some?
        && (Below(r.ms, t0.ms) || (r.ms == t0.ms && |r.q| < |t0.q|))
    {
      AfterPull(t0, s, u, goal);
      var t1 := t0.(q := RemoveFirst(t0.q, u));
      var ns := NeighborsOf(u.id - 1);
      ExpandKeeps(t1, s, u, ns, goal);
      CloseNode(ExpandTrace(t1, u, ns, goal), s, u, ns);
    }

    /** Queue members the snapshot records as scored are scored. */
    lemma QueueScored(q: seq<Node>)
      requires WellIndexed() && Queued(Marks(), q)
      ensures forall k :: 0 <= k < |q| ==> q[k].Scored()
    {
      forall k | 0 <= k < |q| ensures q[k].Scored() {
        assert Marks()[q[k].id - 1] == Mark(q[k].g, q[k].h, q[k].parent);
      }
    }

    /** The ids of a chain of linked members form a walk. */
    lemma PathIds(np: seq<Node>)
      requires WellIndexed() && |np| > 0
      requires forall k :: 0 <= k < |np| ==> Member(np[k])
      requires forall k :: 0 <= k < |np| - 1 ==> Adjacent(np[k].id, np[k + 1].id)
      ensures IsWalk(ParseNodesById(np))
    {
    }

    /** Writing the search fields of v alone changes only v's entry of the snapshot. */
    twostate lemma MarksAfterWrite(v: Node)
      requires WellIndexed() && Member(v)
      requires forall k :: 0 <= k < |nodes| && nodes[k] != v ==> unchanged(nodes[k])
      ensures Marks() == old(Marks())[v.id - 1 := Mark(v.g, v.h, v.parent)]
    {
    }

    // -------------------------------------------------------------------------
    // The search itself

    /** One relaxation step of the search, for the link from u to neighbor. */
    method Relax(pq: PriorityQueue, u: Node, neighbor: Node, goal: Node, ghost rank: seq<nat>, ghost clock: nat)
      requires Valid() && Member(u) && Member(neighbor) && |rank| == |nodes|
      requires u.g.Some? && Adjacent(u.id, neighbor.id)
      modifies neighbor, pq
      ensures Marks() == RelaxTrace(Trace(old(Marks()), old(pq.content), rank, clock), u, neighbor, goal).ms
      ensures pq.content == RelaxTrace(Trace(old(Marks()), old(pq.content), rank, clock), u, neighbor, goal).q
    {
      label Entry:
      ghost var t := Trace(Marks(), pq.content, rank, clock);
      var newCost := u.g.value + Weight(u, neighbor).value;
      assert ViaCost(t.ms, u, neighbor) == Some(newCost) && t.ms[neighbor.id - 1].g == neighbor.g;
      if neighbor.g.None? || newCost < neighbor.g.value {
        neighbor.g := Some(newCost);
        neighbor.parent := u;
        neighbor.h := Some(ManhattanDistance(neighbor, goal));
        MarksAfterWrite@Entry(neighbor);
        ghost var ms' := Marks();
        if !pq.InQueue(neighbor) {
          pq.Add(neighbor);
        }
        assert Marks() == ms';
      }
    }

    /** Relaxes every link out of u, in the order get_neighbors lists them. */
    method Expand(pq: PriorityQueue, u: Node, goal: Node, ghost t: Trace)
      requires Valid() && Member(u) && u.g.Some? && |t.rank| == |nodes|
      requires t.ms == Marks() && t.q == pq.content
      modifies nodes, pq
      ensures Marks() == ExpandTrace(t, u, NeighborsOf(u.id - 1), goal).ms
      ensures pq.content == ExpandTrace(t, u, NeighborsOf(u.id - 1), goal).q
    {
      var neighbors := GetNeighbors(u);
      for idx := 0 to |neighbors|
        invariant Marks() == ExpandTrace(t, u, neighbors[..idx], goal).ms
        invariant pq.content == ExpandTrace(t, u, neighbors[..idx], goal).q
      {
        ghost var r := ExpandTrace(t, u, neighbors[..idx], goal);
        assert neighbors[..idx + 1][..idx] == neighbors[..idx];
        assert Marks()[u.id - 1].g == u.g && Grown(t.ms, r.ms);
        Relax(pq, u, neighbors[idx], goal, r.rank, r.clock);
        assert ExpandTrace(t, u, neighbors[..idx + 1], goal) == RelaxTrace(r, u, neighbors[idx], goal);
      }
      assert neighbors[..|neighbors|] == neighbors;
    }

    /**
     * One turn of the search loop: pull the queue's best node and relax every link
     * out of it. The snapshot tr describes the state before, tr' the state after.
     */
    method SearchStep(pq: PriorityQueue, ghost tr: Trace, goal: Node) returns (u: Node, ghost tr': Trace)
      requires Valid() && Member(goal) && |tr.rank| == |nodes|
      requires tr.ms == Marks() && tr.q == pq.content && tr.q != [] && Queued(tr.ms, tr.q)
      modifies nodes, pq
      ensures u in tr.q && Member(u)
      ensures tr' == ExpandTrace(tr.(q := RemoveFirst(tr.q, u)), u, NeighborsOf(u.id - 1), goal)
      ensures tr'.ms == Marks() && tr'.q == pq.content
    {
      QueueScored(tr.q);
      u := pq.Pull();
      assert u in tr.q;
      assert Marks() == tr.ms;
      assert Marks()[u.id - 1].g == u.g;
      ghost var t1 := tr.(q := RemoveFirst(tr.q, u));
      Expand(pq, u, goal, t1);
      tr' := ExpandTrace(t1, u, NeighborsOf(u.id - 1), goal);
    }

    /** One turn of the search loop, with the loop's invariant as its contract. */
    method Turn(pq: PriorityQueue, start: Node, goal: Node, u: Node, ghost tr: Trace) returns (u': Node, ghost tr': Trace)
      requires Valid() && Member(start) && Member(goal) && u != goal && pq.content != []
      requires tr.ms == Marks() && tr.q == pq.content
      requires Searching(tr, start.id - 1, null) && GoalLine(tr.ms, goal, tr.q, u)
      modifies nodes, pq
      ensures tr'.ms == Marks() && tr'.q == pq.content
      ensures Member(u') && tr'.ms[u'.id - 1].g.Some?
      ensures Searching(tr', start.id - 1, null) && GoalLine(tr'.ms, goal, tr'.q, u')
      ensures Below(tr'.ms, tr.ms) || (tr'.ms == tr.ms && |tr'.q| < |tr.q|)
    {
      assert GoalLine(tr.ms, goal, tr.q, null);
      u', tr' := SearchStep(pq, tr, goal);
      PullExpand(tr, start.id - 1, u', goal);
    }

    /**
     * The set-up before the search loop: the start node gets cost 0 and its
     * heuristic towards the goal, and is the only entry of a new queue.
     */
    method StartSearch(startId: int, goalId: int) returns (pq: PriorityQueue, start: Node, goal: Node, ghost tr0: Trace)
      requires Valid()
      requires 1 <= startId <= |nodes| && 1 <= goalId <= |nodes|
      requires FreshSearchState()
      modifies nodes
      ensures fresh(pq)
      ensures start == nodes[startId - 1] && goal == nodes[goalId - 1]
      ensures start.id == startId && goal.id == goalId && Member(start) && Member(goal)
      ensures start.g == Some(0) && start.h == Some(ManhattanDistance(start, goal)) && start.parent == null
      ensures pq.content == [start]
      ensures tr0.ms == Marks() && tr0.q == pq.content
      ensures Searching(tr0, start.id - 1, null) && GoalLine(tr0.ms, goal, tr0.q, start)
      ensures forall k :: 0 <= k < |nodes| && k != start.id - 1 ==> tr0.ms[k].g == None
    {
      pq := new PriorityQueue();
      var s := GetNodeById(startId);
      var t := GetNodeById(goalId);
      start, goal := s, t;
      start.g := Some(0);
      start.h := Some(ManhattanDistance(start, goal));
      pq.Add(start);

      ghost var rank0: seq<nat> := seq(|nodes|, k => 0);
      assert forall k :: 0 <= k < |nodes| && k != startId - 1 ==> nodes[k] != start && nodes[k].g == None;
      InitialSearch(Marks(), start, goal, rank0);
      tr0 := Trace(Marks(), [start], rank0, 1);
      assert pq.content == tr0.q;
    }

    /**
     * The search loop: repeat SearchStep until the goal is the node just pulled or
     * the queue is empty. tr0 describes the state on entry, tr the state on exit.
     */
    method RunSearch(pq: PriorityQueue, start: Node, goal: Node, ghost tr0: Trace) returns (u: Node, ghost tr: Trace)
      requires Valid() && Member(start) && Member(goal)
      requires tr0.ms == Marks() && tr0.q == pq.content
      requires Searching(tr0, start.id - 1, null) && GoalLine(tr0.ms, goal, tr0.q, start)
      modifies nodes, pq
      ensures tr.ms == Marks() && |tr.rank| == |nodes|
      ensures SearchTree(tr.ms, start.id - 1, tr.rank) && tr.ms[start.id - 1].g.Some?
      ensures u == goal ==> tr.ms[goal.id - 1].g.Some?
      ensures u != goal ==> tr.ms[goal.id - 1].g.None? && Frontier(tr.ms, [], null, null)
      ensures start == goal ==> u == start && tr.ms == tr0.ms
    {
      u, tr := start, tr0;
      while u != goal && !pq.IsEmpty()
        invariant tr.ms == Marks() && tr.q == pq.content
        invariant Member(u) && tr.ms[u.id - 1].g.Some?
        invariant Searching(tr, start.id - 1, null)
        invariant GoalLine(tr.ms, goal, tr.q, u)
        invariant start == goal ==> u == start && tr == tr0
        decreases NoneCount(tr.ms), SomeSum(tr.ms), |tr.q|
      {
        u, tr := Turn(pq, start, goal, u, tr);
      }
      assert u != goal ==> tr.q == [];
    }

    /**
     * The set-up and the search loop together. On exit the snapshot tr describes
     * the search tree grown from start; u is the goal, or the queue ran empty with
     * the goal never reached.
     */
    method Search(startId: int, goalId: int) returns (start: Node, goal: Node, u: Node, ghost tr: Trace)
      requires Valid()
      requires 1 <= startId <= |nodes| && 1 <= goalId <= |nodes|
      requires FreshSearchState()
      modifies nodes
      ensures start == nodes[startId - 1] && goal == nodes[goalId - 1]
      ensures start.id == startId && goal.id == goalId
      ensures tr.ms == Marks() && |tr.rank| == |nodes|
      ensures SearchTree(tr.ms, start.id - 1, tr.rank) && tr.ms[start.id - 1].g.Some?
      ensures u == goal ==> tr.ms[goal.id - 1].g.Some?
      ensures u != goal ==> tr.ms[goal.id - 1].g.None? && Frontier(tr.ms, [], null, null)
      ensures start == goal ==> u == start && forall k :: 0 <= k < |nodes| && k != start.id - 1 ==> tr.ms[k].g == None
    {
      var pq: PriorityQueue;
      ghost var tr0: Trace;
      pq, start, goal, tr0 := StartSearch(startId, goalId);
      u, tr := RunSearch(pq, start, goal, tr0);
    }

    /**
     * A* search from the node with id startId to the node with id goalId, from a
     * fresh search state. Returns the ids of the path found, or [] when the queue
     * runs empty first.
     */
    method Pathfinder(startId: int, goalId: int) returns (path: seq<int>)
      requires Valid()
      requires 1 <= startId <= |nodes| && 1 <= goalId <= |nodes|
      requires FreshSearchState()
      modifies nodes
      ensures startId == goalId ==> path == [startId]
      ensures startId == goalId ==> forall k :: 0 <= k < |nodes| && k != startId - 1 ==> nodes[k].g == None
      ensures path != [] ==> IsWalk(path) && path[0] == startId && path[|path| - 1] == goalId
      ensures path == [] <==> !Reachable(startId, goalId)
    {
      var start: Node, goal: Node, u: Node;
      ghost var tr: Trace;
      start, goal, u, tr := Search(startId, goalId);
      if start == goal {
        forall k | 0 <= k < |nodes| && k != startId - 1 ensures nodes[k].g == None {
          assert tr.ms[k].g == nodes[k].g;
        }
      }
      if u == goal {
        var nodePath := BuildPathTo(start, u, tr.rank);
        assert start == goal ==> nodePath == [start];
        path := ParseNodesById(nodePath);
        PathIds(nodePath);
      } else {
        path := [];
        UnreachedIsUnreachable(tr.ms, startId, goalId);
      }
    }
  }
}
