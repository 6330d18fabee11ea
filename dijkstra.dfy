/*
 * The shortest-path engine: Dijkstra's algorithm with lazy deletion over a
 * dense cost matrix. A positive matrix entry is an edge weight; any entry
 * <= 0 means "no edge". Every node gets a record {node, prev, cost}; cost
 * starts at the INT_MAX sentinel and prev at -1. The queue holds copies of
 * records keyed by their cost, and stale copies are tolerated.
 *
 * The algorithm is the method Dijkstra. Its loop invariants are predicates
 * on the value of the record table and the multiset of queued entries, and
 * each step of the loop is a lemma about those values. At the end the table
 * satisfies Certificate, from which the shortest-path property is proved.
 */
module ShortestPaths {
  import opened HeapSpec
  import opened PriorityQueue

  /** The "infinite" cost sentinel (C's INT_MAX). */
  const INF: int := 2147483647

  /** One record of the result table, and the payload of each queue entry. */
  datatype Path = Path(node: int, prev: int, cost: int)

  /** An n-by-n cost matrix. */
  predicate IsMatrix(matrix: seq<seq<int>>, n: int) {
    |matrix| == n && forall i :: 0 <= i < n ==> |matrix[i]| == n
  }

  /** A positive entry is an edge from u to v. */
  predicate Edge(matrix: seq<seq<int>>, u: int, v: int) {
    0 <= u < |matrix| && 0 <= v < |matrix[u]| && matrix[u][v] > 0
  }

  function Unvisited(v: int): Path {
    Path(v, -1, INF)
  }

  /** The entry the queue is seeded with: the source, its own predecessor, at cost 0. */
  function Seed(src: int): Node<Path> {
    Node(0, Path(src, src, 0))
  }

  /** The queue entry pushed when a record is lowered: the record itself, keyed by its cost. */
  function Marker(p: Path): Node<Path> {
    Node(p.cost, p)
  }

  // ------------------------------------------------------ the specification

  /** p is a walk from src to v along edges of the matrix. */
  ghost predicate IsWalk(matrix: seq<seq<int>>, src: int, v: int, p: seq<int>) {
    |p| > 0 && p[0] == src && p[|p| - 1] == v &&
    forall i :: 0 <= i < |p| - 1 ==> Edge(matrix, p[i], p[i + 1])
  }

  function EdgeWeight(matrix: seq<seq<int>>, u: int, v: int): int {
    if Edge(matrix, u, v) then matrix[u][v] else 0
  }

  /** The sum of the edge weights along p. */
  function Weight(matrix: seq<seq<int>>, p: seq<int>): int
    decreases |p|
  {
    if |p| <= 1 then 0
    else Weight(matrix, p[..|p| - 1]) + EdgeWeight(matrix, p[|p| - 2], p[|p| - 1])
  }

  /**
   * c is the least weight of a walk from src to v, with weights of INF and
   * more (and no walk at all) all reading as INF.
   */
  ghost predicate IsDistance(matrix: seq<seq<int>>, src: int, v: int, c: int) {
    c <= INF &&
    (forall p :: IsWalk(matrix, src, v, p) ==> c <= Weight(matrix, p)) &&
    (c < INF ==> exists p :: IsWalk(matrix, src, v, p) && Weight(matrix, p) == c)
  }

  ghost predicate ShortestCosts(matrix: seq<seq<int>>, src: int, ps: seq<Path>) {
    forall v :: 0 <= v < |ps| ==> IsDistance(matrix, src, v, ps[v].cost)
  }

  // ------------------------------------------ invariants of the record table

  /** Record v names node v, has a cost in [0, INF], and prev -1 while its cost is INF. */
  ghost predicate RecordOK(ps: seq<Path>, v: int)
    requires 0 <= v < |ps|
  {
    ps[v].node == v && 0 <= ps[v].cost <= INF && (ps[v].cost == INF ==> ps[v].prev == -1)
  }

  /** The recorded predecessor of v is reached and its cost plus the edge weight is at most v's cost. */
  ghost predicate HopBelow(matrix: seq<seq<int>>, ps: seq<Path>, v: int)
    requires 0 <= v < |ps|
  {
    var u := ps[v].prev;
    0 <= u < |ps| && Edge(matrix, u, v) && ps[u].cost < INF && ps[u].cost + matrix[u][v] <= ps[v].cost
  }

  /** The recorded predecessor of v is reached and its cost plus the edge weight is exactly v's cost. */
  ghost predicate HopExact(matrix: seq<seq<int>>, ps: seq<Path>, v: int)
    requires 0 <= v < |ps|
  {
    var u := ps[v].prev;
    0 <= u < |ps| && Edge(matrix, u, v) && ps[u].cost + matrix[u][v] == ps[v].cost
  }

  /**
   * Every record is well formed and every reached node other than the
   * source has a predecessor through which a walk of no greater cost exists.
   */
  ghost predicate RecordsOK(matrix: seq<seq<int>>, src: int, ps: seq<Path>) {
    IsMatrix(matrix, |ps|) && 0 <= src < |ps| &&
    (forall v {:trigger RecordOK(ps, v)} :: 0 <= v < |ps| ==> RecordOK(ps, v)) &&
    (forall v {:trigger HopBelow(matrix, ps, v)} ::
      0 <= v < |ps| && v != src && ps[v].cost < INF ==> HopBelow(matrix, ps, v))
  }

  /**
   * A queued entry is keyed by its cost, names a node, costs less than INF
   * and no less than that node's record; the source's only entry is the seed.
   */
  ghost predicate EntryOK(src: int, ps: seq<Path>, e: Node<Path>) {
    e.priority == e.value.cost && 0 <= e.value.node < |ps| && 0 <= e.value.cost < INF &&
    (e.value.node == src ==> e == Seed(src)) &&
    (e.value.node != src ==> ps[e.value.node].cost <= e.value.cost)
  }

  ghost predicate EntriesOK(src: int, ps: seq<Path>, bag: multiset<Node<Path>>) {
    forall e {:trigger EntryOK(src, ps, e)} :: e in bag ==> EntryOK(src, ps, e)
  }

  /** The edge u -> v cannot lower v's record. */
  ghost predicate Relaxed(matrix: seq<seq<int>>, ps: seq<Path>, u: int, v: int)
    requires 0 <= u < |ps| && 0 <= v < |ps| && Edge(matrix, u, v)
  {
    ps[v].cost <= ps[u].cost + matrix[u][v]
  }

  /** The edge u -> v cannot lower v's record, or u's current record is still queued. */
  ghost predicate Settled(matrix: seq<seq<int>>, ps: seq<Path>, bag: multiset<Node<Path>>, u: int, v: int)
    requires 0 <= u < |ps| && 0 <= v < |ps| && Edge(matrix, u, v)
  {
    Relaxed(matrix, ps, u, v) || Marker(ps[u]) in bag
  }

  /** Every edge out of a reached node is settled. */
  ghost predicate AllSettled(matrix: seq<seq<int>>, ps: seq<Path>, bag: multiset<Node<Path>>) {
    forall u, v {:trigger Settled(matrix, ps, bag, u, v)} ::
      0 <= u < |ps| && 0 <= v < |ps| && ps[u].cost < INF && Edge(matrix, u, v) ==> Settled(matrix, ps, bag, u, v)
  }

  /** The invariant of the extract/finalize/relax loop. */
  ghost predicate Inv(matrix: seq<seq<int>>, src: int, ps: seq<Path>, bag: multiset<Node<Path>>) {
    RecordsOK(matrix, src, ps) &&
    (ps[src].cost == INF ==> bag == multiset{Seed(src)} && ps == InitialPaths(|ps|)) &&
    (ps[src].cost != INF ==> ps[src] == Path(src, src, 0)) &&
    EntriesOK(src, ps, bag) &&
    AllSettled(matrix, ps, bag) &&
    CostSum(ps) >= 0
  }

  /** The edge from curr's node to v, if any, cannot lower v's record below curr's cost plus its weight. */
  ghost predicate RelaxedFrom(matrix: seq<seq<int>>, ps: seq<Path>, curr: Path, v: int) {
    0 <= v < |ps| && Edge(matrix, curr.node, v) ==> ps[v].cost <= curr.cost + matrix[curr.node][v]
  }

  /**
   * Every edge out of a reached node is settled, except edges from curr's
   * node to nodes at or above j while that node's record is curr.
   */
  ghost predicate SettledExcept(matrix: seq<seq<int>>, ps: seq<Path>, bag: multiset<Node<Path>>, curr: Path, j: int) {
    forall u, v {:trigger Settled(matrix, ps, bag, u, v)} ::
      0 <= u < |ps| && 0 <= v < |ps| && ps[u].cost < INF && Edge(matrix, u, v) ==>
      Settled(matrix, ps, bag, u, v) || (u == curr.node && j <= v && ps[u].cost == curr.cost)
  }

  /**
   * The invariant of the neighbour loop, after curr was extracted and its
   * record finalized: edges out of curr's node to nodes below j have been
   * relaxed with curr's cost.
   */
  ghost predicate InnerInv(matrix: seq<seq<int>>, src: int, ps: seq<Path>, bag: multiset<Node<Path>>,
                           curr: Path, j: int) {
    RecordsOK(matrix, src, ps) && ps[src] == Path(src, src, 0) &&
    EntriesOK(src, ps, bag) &&
    0 <= curr.node < |ps| && 0 <= curr.cost < INF && ps[curr.node].cost <= curr.cost && 0 <= j <= |ps| &&
    SettledExcept(matrix, ps, bag, curr, j) &&
    (forall v {:trigger RelaxedFrom(matrix, ps, curr, v)} :: 0 <= v < j ==> RelaxedFrom(matrix, ps, curr, v))
  }

  /**
   * What the final table satisfies: records as in RecordsOK, the source at
   * cost 0 as its own predecessor, every reached node other than the source
   * reached through its recorded predecessor at exactly its cost, and no
   * edge out of a reached node able to lower a cost.
   */
  ghost predicate Certificate(matrix: seq<seq<int>>, src: int, ps: seq<Path>) {
    RecordsOK(matrix, src, ps) && ps[src] == Path(src, src, 0) &&
    (forall v {:trigger HopExact(matrix, ps, v)} ::
      0 <= v < |ps| && v != src && ps[v].cost < INF ==> HopExact(matrix, ps, v)) &&
    (forall u, v {:trigger Relaxed(matrix, ps, u, v)} ::
      0 <= u < |ps| && 0 <= v < |ps| && ps[u].cost < INF && Edge(matrix, u, v) ==> Relaxed(matrix, ps, u, v))
  }

  // ----------------------------------------------------- termination measure

  /** The sum of the recorded costs; every relaxation lowers it. */
  function CostSum(ps: seq<Path>): int
    decreases |ps|
  {
    if |ps| == 0 then 0 else CostSum(ps[..|ps| - 1]) + ps[|ps| - 1].cost
  }

  lemma {:induction false} CostSumUpdate(ps: seq<Path>, i: int, x: Path)
    requires 0 <= i < |ps|
    ensures CostSum(ps[i := x]) == CostSum(ps) - ps[i].cost + x.cost
    decreases |ps|
  {
    var n := |ps|;
    if i < n - 1 {
      CostSumUpdate(ps[..n - 1], i, x);
      assert ps[i := x][..n - 1] == ps[..n - 1][i := x];
    } else {
      assert ps[i := x][..n - 1] == ps[..n - 1];
    }
  }

  lemma {:induction false} CostSumNonNegative(ps: seq<Path>)
    requires forall v :: 0 <= v < |ps| ==> ps[v].cost >= 0
    ensures CostSum(ps) >= 0
    decreases |ps|
  {
    if |ps| > 0 {
      CostSumNonNegative(ps[..|ps| - 1]);
    }
  }

  lemma RecordsBoundCostSum(matrix: seq<seq<int>>, src: int, ps: seq<Path>)
    requires RecordsOK(matrix, src, ps)
    ensures CostSum(ps) >= 0
  {
    forall v | 0 <= v < |ps|
      ensures ps[v].cost >= 0
    {
      assert RecordOK(ps, v);
    }
    CostSumNonNegative(ps);
  }

  // ----------------------------------------------------------- loop steps

  /** No record of ps' costs more than the same record of ps. */
  ghost predicate NoCostRises(ps: seq<Path>, ps': seq<Path>) {
    |ps'| == |ps| && forall v :: 0 <= v < |ps| ==> ps'[v].cost <= ps[v].cost
  }

  /** The edge from curr's node to j exists and curr's cost plus its weight is below j's recorded cost. */
  predicate Improves(matrix: seq<seq<int>>, ps: seq<Path>, curr: Path, j: int) {
    0 <= j < |ps| && Edge(matrix, curr.node, j) && curr.cost + matrix[curr.node][j] < ps[j].cost
  }

  /**
   * The record node j holds once the edge from curr's node to j has been
   * considered: curr's cost plus the edge weight, with curr's node as
   * predecessor, when that improves j's record, and j's record otherwise.
   */
  function RelaxedRecord(matrix: seq<seq<int>>, ps: seq<Path>, curr: Path, j: int): Path
    requires 0 <= j < |ps|
  {
    if Improves(matrix, ps, curr, j) then ps[j].(cost := curr.cost + matrix[curr.node][j], prev := curr.node) else ps[j]
  }

  /** The entry the neighbour loop queues for node j: a new record with curr's cost plus the edge weight. */
  function NeighbourEntry(matrix: seq<seq<int>>, curr: Path, j: int): Node<Path>
    requires Edge(matrix, curr.node, j)
  {
    Marker(Path(j, curr.node, curr.cost + matrix[curr.node][j]))
  }

  /** The entries queued when node j is relaxed against ps: its new record when the edge improves it, none otherwise. */
  function NewEntry(matrix: seq<seq<int>>, ps: seq<Path>, curr: Path, j: int): multiset<Node<Path>> {
    if Improves(matrix, ps, curr, j) then multiset{NeighbourEntry(matrix, curr, j)} else multiset{}
  }

  /**
   * The neighbour loop's update of the table for node j: when the edge
   * improves j's record, j takes curr's cost plus the edge weight with
   * curr's node as predecessor; no other record changes and no cost rises.
   */
  function Relax(matrix: seq<seq<int>>, ps: seq<Path>, curr: Path, j: int): (r: seq<Path>)
    ensures |r| == |ps|
    ensures forall v :: 0 <= v < |ps| && v != j ==> r[v] == ps[v]
    ensures Improves(matrix, ps, curr, j) <==> r != ps
    ensures NoCostRises(ps, r)
  {
    if 0 <= j < |ps| then ps[j := RelaxedRecord(matrix, ps, curr, j)] else ps
  }

  /**
   * The table once the neighbour loop has handled nodes 0 .. j-1: each of
   * those records relaxed against the table the loop started from, every
   * other record as it was.
   */
  function RelaxedPrefix(matrix: seq<seq<int>>, ps: seq<Path>, curr: Path, j: nat): (r: seq<Path>)
    requires j <= |ps|
    ensures |r| == |ps|
    decreases j
  {
    if j == 0 then ps else RelaxedPrefix(matrix, ps, curr, j - 1)[j - 1 := RelaxedRecord(matrix, ps, curr, j - 1)]
  }

  /** The entries the neighbour loop has queued once it has handled nodes 0 .. j-1. */
  function Queued(matrix: seq<seq<int>>, ps: seq<Path>, curr: Path, j: nat): multiset<Node<Path>>
    requires j <= |ps|
    decreases j
  {
    if j == 0 then multiset{} else Queued(matrix, ps, curr, j - 1) + NewEntry(matrix, ps, curr, j - 1)
  }

  /**
   * How many copies of x the neighbour loop has queued once it has handled
   * nodes 0 .. j-1: one if x is the new record of such a node whose edge
   * from curr's node improves it, none otherwise.
   */
  function Gain(matrix: seq<seq<int>>, ps: seq<Path>, curr: Path, j: int, x: Node<Path>): nat {
    var v := x.value.node;
    if 0 <= v < j && Improves(matrix, ps, curr, v) && x == NeighbourEntry(matrix, curr, v) then 1 else 0
  }

  /**
   * Record v of the prefix table: relaxed when v is below j, as it was
   * otherwise; in particular a node with no edge from curr's node keeps its
   * record.
   */
  lemma {:induction false} RelaxedPrefixAt(matrix: seq<seq<int>>, ps: seq<Path>, curr: Path, j: nat, v: int)
    requires j <= |ps| && 0 <= v < |ps|
    ensures RelaxedPrefix(matrix, ps, curr, j)[v] == if v < j then RelaxedRecord(matrix, ps, curr, v) else ps[v]
    ensures !Edge(matrix, curr.node, v) ==> RelaxedPrefix(matrix, ps, curr, j)[v] == ps[v]
    decreases j
  {
    if j > 0 {
      RelaxedPrefixAt(matrix, ps, curr, j - 1, v);
    }
  }

  /**
   * One more pass of the neighbour loop is one application of Relax: node
   * j still holds its original record in the prefix table, so relaxing it
   * there gives the same record as relaxing it in the original table.
   */
  lemma RelaxedPrefixStep(matrix: seq<seq<int>>, ps: seq<Path>, curr: Path, j: nat)
    requires j < |ps|
    ensures RelaxedPrefix(matrix, ps, curr, j + 1) == Relax(matrix, RelaxedPrefix(matrix, ps, curr, j), curr, j)
    ensures Improves(matrix, RelaxedPrefix(matrix, ps, curr, j), curr, j) == Improves(matrix, ps, curr, j)
  {
    RelaxedPrefixAt(matrix, ps, curr, j, j);
  }

  /** Queued and Gain agree: Queued holds each entry as many times as Gain counts it. */
  lemma {:induction false} QueuedCount(matrix: seq<seq<int>>, ps: seq<Path>, curr: Path, j: nat, x: Node<Path>)
    requires j <= |ps|
    ensures Queued(matrix, ps, curr, j)[x] == Gain(matrix, ps, curr, j, x)
    decreases j
  {
    if j > 0 {
      QueuedCount(matrix, ps, curr, j - 1, x);
    }
  }

  /** The record table as initialised: every node unvisited. */
  function InitialPaths(n: nat): (ps: seq<Path>)
    ensures |ps| == n
    ensures forall v :: 0 <= v < n ==> ps[v] == Unvisited(v)
  {
    seq(n, v => Unvisited(v))
  }

  lemma InitEstablishesInv(matrix: seq<seq<int>>, src: int, ps: seq<Path>, bag: multiset<Node<Path>>)
    requires IsMatrix(matrix, |matrix|) && 0 <= src < |matrix|
    requires ps == InitialPaths(|matrix|) && bag == multiset{Seed(src)}
    ensures Inv(matrix, src, ps, bag)
  {
    assert ps[src] == Unvisited(src);
    forall v | 0 <= v < |ps|
      ensures RecordOK(ps, v)
    {
      assert ps[v] == Unvisited(v);
    }
    forall e | e in multiset{Seed(src)}
      ensures EntryOK(src, ps, e)
    {
      assert e == Seed(src);
    }
    RecordsBoundCostSum(matrix, src, ps);
  }

  /** The record update made when an entry is extracted: only a record still at INF takes the entry's cost and prev. */
  function Finalize(ps: seq<Path>, curr: Path): (r: seq<Path>)
    ensures |r| == |ps|
    ensures forall v :: 0 <= v < |ps| && r[v] != ps[v] ==>
              v == curr.node && ps[v].cost == INF && r[v] == ps[v].(cost := curr.cost, prev := curr.prev)
    ensures 0 <= curr.node < |ps| && ps[curr.node].cost == INF ==>
              r[curr.node] == ps[curr.node].(cost := curr.cost, prev := curr.prev)
  {
    if 0 <= curr.node < |ps| && ps[curr.node].cost == INF then
      ps[curr.node := ps[curr.node].(cost := curr.cost, prev := curr.prev)]
    else ps
  }

  /**
   * Under the loop invariant, only the seed can find its record still at
   * INF: every other node's record was lowered when its entry was pushed.
   */
  lemma FinalizeOnlyAtSource(matrix: seq<seq<int>>, src: int, ps: seq<Path>, bag: multiset<Node<Path>>,
                             e: Node<Path>)
    requires Inv(matrix, src, ps, bag) && e in bag
    ensures 0 <= e.value.node < |ps|
    ensures ps[e.value.node].cost == INF <==> e == Seed(src) && ps[src].cost == INF
  {
    assert EntryOK(src, ps, e);
  }

  /** Extracting any queued entry and finalizing its record leads into the neighbour loop. */
  lemma ExtractStep(matrix: seq<seq<int>>, src: int, ps: seq<Path>, bag: multiset<Node<Path>>, e: Node<Path>,
                    ps': seq<Path>, bag': multiset<Node<Path>>)
    requires Inv(matrix, src, ps, bag) && e in bag
    requires ps' == Finalize(ps, e.value) && bag' == bag - multiset{e}
    ensures InnerInv(matrix, src, ps', bag', e.value, 0)
    ensures CostSum(ps') <= CostSum(ps)
    ensures NoCostRises(ps, ps')
  {
    var curr := e.value;
    var u := curr.node;
    assert EntryOK(src, ps, e);
    if ps[src].cost == INF {
      assert e == Seed(src);
      assert ps' == ps[src := Path(src, src, 0)];
      CostSumUpdate(ps, src, Path(src, src, 0));
      assert bag' == multiset{};
      forall v | 0 <= v < |ps'|
        ensures RecordOK(ps', v)
      {
        assert ps[v] == Unvisited(v);
      }
      forall v | 0 <= v < |ps'| && v != src
        ensures ps'[v].cost == INF
      {
        assert ps'[v] == ps[v] == Unvisited(v);
      }
      forall x, v | 0 <= x < |ps'| && 0 <= v < |ps'| && ps'[x].cost < INF && Edge(matrix, x, v)
        ensures Settled(matrix, ps', bag', x, v) || (x == u && 0 <= v && ps'[x].cost == curr.cost)
      {
      }
    } else {
      assert ps' == ps;
      forall f | f in bag'
        ensures EntryOK(src, ps', f)
      {
        assert f in bag;
        assert EntryOK(src, ps, f);
      }
      forall x, v | 0 <= x < |ps'| && 0 <= v < |ps'| && ps'[x].cost < INF && Edge(matrix, x, v)
        ensures Settled(matrix, ps', bag', x, v) || (x == u && 0 <= v && ps'[x].cost == curr.cost)
      {
        assert Settled(matrix, ps, bag, x, v);
        assert RecordOK(ps, x);
        if Marker(ps[x]) in bag && Marker(ps[x]) !in bag' {
          assert Marker(ps[x]) == e;
        }
      }
    }
  }

  /** The neighbour loop step that leaves the table unchanged. */
  lemma RelaxSkipStep(matrix: seq<seq<int>>, src: int, ps: seq<Path>, bag: multiset<Node<Path>>,
                      curr: Path, j: int)
    requires InnerInv(matrix, src, ps, bag, curr, j) && j < |ps|
    requires !(Edge(matrix, curr.node, j) && curr.cost + matrix[curr.node][j] < ps[j].cost)
    ensures InnerInv(matrix, src, ps, bag, curr, j + 1)
  {
    var u := curr.node;
    forall x, v | 0 <= x < |ps| && 0 <= v < |ps| && ps[x].cost < INF && Edge(matrix, x, v)
      ensures Settled(matrix, ps, bag, x, v) || (x == u && j + 1 <= v && ps[x].cost == curr.cost)
    {
      assert Settled(matrix, ps, bag, x, v) || (x == u && j <= v && ps[x].cost == curr.cost);
    }
    forall v | 0 <= v < j + 1
      ensures RelaxedFrom(matrix, ps, curr, v)
    {
      if v < j {
        assert RelaxedFrom(matrix, ps, curr, v);
      }
    }
  }

  /**
   * The neighbour loop step that lowers j's record to curr's cost plus the
   * edge weight, with curr's node as predecessor, and queues the new record.
   */
  lemma RelaxUpdateStep(matrix: seq<seq<int>>, src: int, ps: seq<Path>, bag: multiset<Node<Path>>,
                        curr: Path, j: int, ps': seq<Path>, bag': multiset<Node<Path>>)
    requires InnerInv(matrix, src, ps, bag, curr, j) && j < |ps|
    requires Edge(matrix, curr.node, j) && curr.cost + matrix[curr.node][j] < ps[j].cost
    requires ps' == ps[j := Path(j, curr.node, curr.cost + matrix[curr.node][j])]
    requires bag' == bag + multiset{Marker(ps'[j])}
    ensures InnerInv(matrix, src, ps', bag', curr, j + 1)
    ensures CostSum(ps') < CostSum(ps)
  {
    var p := Path(j, curr.node, curr.cost + matrix[curr.node][j]);
    assert j != src && j != curr.node;
    CostSumUpdate(ps, j, p);
    RelaxKeepsRecords(matrix, src, ps, bag, curr, j);
    RelaxKeepsEntries(matrix, src, ps, bag, curr, j);
    RelaxKeepsSettled(matrix, src, ps, bag, curr, j);
    forall v | 0 <= v < j + 1
      ensures RelaxedFrom(matrix, ps', curr, v)
    {
      if v < j {
        assert RelaxedFrom(matrix, ps, curr, v);
      }
    }
  }

  lemma RelaxKeepsRecords(matrix: seq<seq<int>>, src: int, ps: seq<Path>, bag: multiset<Node<Path>>,
                          curr: Path, j: int)
    requires InnerInv(matrix, src, ps, bag, curr, j) && j < |ps|
    requires Edge(matrix, curr.node, j) && curr.cost + matrix[curr.node][j] < ps[j].cost
    ensures RecordsOK(matrix, src, ps[j := Path(j, curr.node, curr.cost + matrix[curr.node][j])])
  {
    var ps' := ps[j := Path(j, curr.node, curr.cost + matrix[curr.node][j])];
    assert j != curr.node;
    forall v | 0 <= v < |ps'|
      ensures RecordOK(ps', v)
    {
      assert RecordOK(ps, v);
    }
    forall v | 0 <= v < |ps'| && v != src && ps'[v].cost < INF
      ensures HopBelow(matrix, ps', v)
    {
      if v != j {
        assert HopBelow(matrix, ps, v);
      }
    }
  }

  lemma RelaxKeepsEntries(matrix: seq<seq<int>>, src: int, ps: seq<Path>, bag: multiset<Node<Path>>,
                          curr: Path, j: int)
    requires InnerInv(matrix, src, ps, bag, curr, j) && j < |ps|
    requires Edge(matrix, curr.node, j) && curr.cost + matrix[curr.node][j] < ps[j].cost
    ensures var p := Path(j, curr.node, curr.cost + matrix[curr.node][j]);
            EntriesOK(src, ps[j := p], bag + multiset{Marker(p)})
  {
    var p := Path(j, curr.node, curr.cost + matrix[curr.node][j]);
    assert j != src;
    assert RecordOK(ps, j);
    forall f | f in bag + multiset{Marker(p)}
      ensures EntryOK(src, ps[j := p], f)
    {
      if f != Marker(p) {
        assert EntryOK(src, ps, f);
      }
    }
  }

  lemma RelaxKeepsSettled(matrix: seq<seq<int>>, src: int, ps: seq<Path>, bag: multiset<Node<Path>>,
                          curr: Path, j: int)
    requires InnerInv(matrix, src, ps, bag, curr, j) && j < |ps|
    requires Edge(matrix, curr.node, j) && curr.cost + matrix[curr.node][j] < ps[j].cost
    ensures var p := Path(j, curr.node, curr.cost + matrix[curr.node][j]);
            SettledExcept(matrix, ps[j := p], bag + multiset{Marker(p)}, curr, j + 1)
  {
    var u := curr.node;
    var p := Path(j, u, curr.cost + matrix[u][j]);
    var ps' := ps[j := p];
    var bag' := bag + multiset{Marker(p)};
    forall x, v | 0 <= x < |ps'| && 0 <= v < |ps'| && ps'[x].cost < INF && Edge(matrix, x, v)
      ensures Settled(matrix, ps', bag', x, v) || (x == u && j + 1 <= v && ps'[x].cost == curr.cost)
    {
      if x == j {
        assert Marker(ps'[x]) in bag';
      } else {
        assert Settled(matrix, ps, bag, x, v) || (x == u && j <= v && ps[x].cost == curr.cost);
        if Marker(ps[x]) in bag {
          assert Marker(ps'[x]) in bag';
        }
      }
    }
  }

  /** At the end of the neighbour loop the outer invariant holds again. */
  lemma NeighboursDone(matrix: seq<seq<int>>, src: int, ps: seq<Path>, bag: multiset<Node<Path>>, curr: Path)
    requires InnerInv(matrix, src, ps, bag, curr, |ps|)
    ensures Inv(matrix, src, ps, bag)
  {
    forall x, v | 0 <= x < |ps| && 0 <= v < |ps| && ps[x].cost < INF && Edge(matrix, x, v)
      ensures Settled(matrix, ps, bag, x, v)
    {
    }
    RecordsBoundCostSum(matrix, src, ps);
  }

  /**
   * One pass of the neighbour loop keeps the loop invariant; it never
   * raises a cost and lowers the cost sum when it queues an entry.
   */
  lemma RelaxKeepsInnerInv(matrix: seq<seq<int>>, src: int, ps: seq<Path>, bag: multiset<Node<Path>>,
                           curr: Path, j: int)
    requires InnerInv(matrix, src, ps, bag, curr, j) && j < |ps|
    ensures InnerInv(matrix, src, Relax(matrix, ps, curr, j), bag + NewEntry(matrix, ps, curr, j), curr, j + 1)
    ensures CostSum(Relax(matrix, ps, curr, j)) <= CostSum(ps)
    ensures Improves(matrix, ps, curr, j) ==> CostSum(Relax(matrix, ps, curr, j)) < CostSum(ps)
  {
    var ps', bag' := Relax(matrix, ps, curr, j), bag + NewEntry(matrix, ps, curr, j);
    if Improves(matrix, ps, curr, j) {
      var p := Path(j, curr.node, curr.cost + matrix[curr.node][j]);
      assert RecordOK(ps, j);
      assert ps' == ps[j := p];
      assert bag' == bag + multiset{Marker(p)};
      RelaxUpdateStep(matrix, src, ps, bag, curr, j, ps', bag');
    } else {
      assert ps' == ps && bag' == bag;
      RelaxSkipStep(matrix, src, ps, bag, curr, j);
    }
  }

  /**
   * The neighbour loop up to node j keeps the loop invariant; it never
   * raises a cost and lowers the cost sum whenever it queues an entry.
   */
  lemma {:induction false} RelaxedPrefixKeepsInv(matrix: seq<seq<int>>, src: int, ps0: seq<Path>,
                                                 bag0: multiset<Node<Path>>, curr: Path, j: nat)
    requires InnerInv(matrix, src, ps0, bag0, curr, 0) && j <= |ps0|
    ensures InnerInv(matrix, src, RelaxedPrefix(matrix, ps0, curr, j), bag0 + Queued(matrix, ps0, curr, j), curr, j)
    ensures NoCostRises(ps0, RelaxedPrefix(matrix, ps0, curr, j))
    ensures CostSum(RelaxedPrefix(matrix, ps0, curr, j)) <= CostSum(ps0)
    ensures |Queued(matrix, ps0, curr, j)| > 0 ==> CostSum(RelaxedPrefix(matrix, ps0, curr, j)) < CostSum(ps0)
    decreases j
  {
    if j == 0 {
      assert bag0 + Queued(matrix, ps0, curr, 0) == bag0;
    } else {
      var i := j - 1;
      RelaxedPrefixKeepsInv(matrix, src, ps0, bag0, curr, i);
      var ps, bag := RelaxedPrefix(matrix, ps0, curr, i), bag0 + Queued(matrix, ps0, curr, i);
      var ps', bag' := RelaxedPrefix(matrix, ps0, curr, j), bag0 + Queued(matrix, ps0, curr, j);
      RelaxedPrefixStep(matrix, ps0, curr, i);
      RelaxKeepsInnerInv(matrix, src, ps, bag, curr, i);
      assert ps' == Relax(matrix, ps, curr, i);
      assert bag' == bag + NewEntry(matrix, ps, curr, i);
      NoCostRisesTransitive(ps0, ps, ps');
    }
  }

  /**
   * The neighbour loop has run to the end, leaving every record relaxed
   * against the table it started from and the entries Queued describes
   * added to the queue: the main loop's invariant holds again, every edge
   * out of curr's node is relaxed, no cost rose, and the cost sum fell if
   * the queue grew.
   */
  lemma NeighboursFinished(matrix: seq<seq<int>>, src: int, ps0: seq<Path>, bag0: multiset<Node<Path>>, curr: Path,
                           ps: seq<Path>, bag: multiset<Node<Path>>)
    requires InnerInv(matrix, src, ps0, bag0, curr, 0) && |ps| == |ps0|
    requires forall v :: 0 <= v < |ps| ==> ps[v] == RelaxedRecord(matrix, ps0, curr, v)
    requires forall x :: bag[x] == bag0[x] + Gain(matrix, ps0, curr, |ps0|, x)
    ensures Inv(matrix, src, ps, bag)
    ensures forall v :: 0 <= v < |ps| ==> RelaxedFrom(matrix, ps, curr, v)
    ensures NoCostRises(ps0, ps)
    ensures CostSum(ps) <= CostSum(ps0) && |bag| >= |bag0|
    ensures |bag| > |bag0| ==> CostSum(ps) < CostSum(ps0)
  {
    RelaxedPrefixKeepsInv(matrix, src, ps0, bag0, curr, |ps0|);
    forall v | 0 <= v < |ps|
      ensures ps[v] == RelaxedPrefix(matrix, ps0, curr, |ps0|)[v]
    {
      RelaxedPrefixAt(matrix, ps0, curr, |ps0|, v);
    }
    assert ps == RelaxedPrefix(matrix, ps0, curr, |ps0|);
    forall x
      ensures bag[x] == (bag0 + Queued(matrix, ps0, curr, |ps0|))[x]
    {
      QueuedCount(matrix, ps0, curr, |ps0|, x);
    }
    assert bag == bag0 + Queued(matrix, ps0, curr, |ps0|);
    NeighboursDone(matrix, src, ps, bag, curr);
  }

  lemma NoCostRisesTransitive(ps0: seq<Path>, ps1: seq<Path>, ps2: seq<Path>)
    requires NoCostRises(ps0, ps1) && NoCostRises(ps1, ps2)
    ensures NoCostRises(ps0, ps2)
  {
    forall v | 0 <= v < |ps0|
      ensures ps2[v].cost <= ps0[v].cost
    {
      assert ps2[v].cost <= ps1[v].cost <= ps0[v].cost;
    }
  }

  /** With the queue empty, the invariant gives the certificate. */
  lemma EmptyQueueGivesCertificate(matrix: seq<seq<int>>, src: int, ps: seq<Path>, bag: multiset<Node<Path>>)
    requires Inv(matrix, src, ps, bag) && |bag| == 0
    ensures Certificate(matrix, src, ps)
  {
    assert bag == multiset{};
    forall u, v | 0 <= u < |ps| && 0 <= v < |ps| && ps[u].cost < INF && Edge(matrix, u, v)
      ensures Relaxed(matrix, ps, u, v)
    {
      assert Settled(matrix, ps, bag, u, v);
    }
    forall v | 0 <= v < |ps| && v != src && ps[v].cost < INF
      ensures HopExact(matrix, ps, v)
    {
      assert HopBelow(matrix, ps, v);
      assert Relaxed(matrix, ps, ps[v].prev, v);
    }
  }

  // ------------------------------------------------ the certificate's meaning

  /** No walk from the source is cheaper than the recorded cost of its end. */
  lemma {:induction false} CertificateBelowEveryWalk(matrix: seq<seq<int>>, src: int, ps: seq<Path>,
                                                     v: int, p: seq<int>)
    requires Certificate(matrix, src, ps) && IsWalk(matrix, src, v, p)
    ensures 0 <= v < |ps| && ps[v].cost <= Weight(matrix, p)
    decreases |p|
  {
    if |p| > 1 {
      var q := p[..|p| - 1];
      var u := p[|p| - 2];
      assert Edge(matrix, u, v);
      assert IsWalk(matrix, src, u, q) by {
        forall i | 0 <= i < |q| - 1
          ensures Edge(matrix, q[i], q[i + 1])
        {
          assert q[i] == p[i] && q[i + 1] == p[i + 1];
        }
      }
      CertificateBelowEveryWalk(matrix, src, ps, u, q);
      assert Weight(matrix, p) == Weight(matrix, q) + matrix[u][v];
      assert RecordOK(ps, v);
      if ps[u].cost < INF {
        assert Relaxed(matrix, ps, u, v);
      }
    }
  }

  /** Following the recorded predecessors from a reached node gives a walk of exactly its cost. */
  lemma {:induction false} CertificateCostIsAttained(matrix: seq<seq<int>>, src: int, ps: seq<Path>, v: int)
    requires Certificate(matrix, src, ps) && 0 <= v < |ps| && ps[v].cost < INF
    ensures exists p :: IsWalk(matrix, src, v, p) && Weight(matrix, p) == ps[v].cost
    decreases ps[v].cost
  {
    if v == src {
      assert IsWalk(matrix, src, v, [src]) && Weight(matrix, [src]) == 0;
    } else {
      var u := ps[v].prev;
      assert HopExact(matrix, ps, v);
      assert RecordOK(ps, u) && RecordOK(ps, v);
      CertificateCostIsAttained(matrix, src, ps, u);
      var q :| IsWalk(matrix, src, u, q) && Weight(matrix, q) == ps[u].cost;
      var p := q + [v];
      assert p[..|p| - 1] == q;
      assert IsWalk(matrix, src, v, p) by {
        forall i | 0 <= i < |p| - 1
          ensures Edge(matrix, p[i], p[i + 1])
        {
          if i < |p| - 2 {
            assert p[i] == q[i] && p[i + 1] == q[i + 1];
          }
        }
      }
      assert Weight(matrix, p) == ps[v].cost;
    }
  }

  /** A table satisfying the certificate records the shortest-path cost of every node. */
  lemma CertificateGivesShortestCosts(matrix: seq<seq<int>>, src: int, ps: seq<Path>)
    requires Certificate(matrix, src, ps)
    ensures ShortestCosts(matrix, src, ps)
  {
    forall v | 0 <= v < |ps|
      ensures IsDistance(matrix, src, v, ps[v].cost)
    {
      assert RecordOK(ps, v);
      forall p | IsWalk(matrix, src, v, p)
        ensures ps[v].cost <= Weight(matrix, p)
      {
        CertificateBelowEveryWalk(matrix, src, ps, v, p);
      }
      if ps[v].cost < INF {
        CertificateCostIsAttained(matrix, src, ps, v);
      }
    }
  }

  /** A node keeps the INF sentinel and prev -1 exactly when no walk from the source weighs less than INF. */
  lemma UnreachedIffNoCheapWalk(matrix: seq<seq<int>>, src: int, ps: seq<Path>, v: int)
    requires Certificate(matrix, src, ps) && 0 <= v < |ps|
    ensures ps[v] == Unvisited(v) <==> forall p :: IsWalk(matrix, src, v, p) ==> Weight(matrix, p) >= INF
  {
    CertificateGivesShortestCosts(matrix, src, ps);
    assert IsDistance(matrix, src, v, ps[v].cost);
    assert RecordOK(ps, v);
  }

  /** Two tables satisfying the certificate for the same graph and source record the same costs. */
  lemma CostsAreDetermined(matrix: seq<seq<int>>, src: int, ps1: seq<Path>, ps2: seq<Path>)
    requires Certificate(matrix, src, ps1) && Certificate(matrix, src, ps2)
    ensures |ps1| == |ps2|
    ensures forall v :: 0 <= v < |ps1| ==> ps1[v].cost == ps2[v].cost
  {
    CertificateGivesShortestCosts(matrix, src, ps1);
    CertificateGivesShortestCosts(matrix, src, ps2);
    forall v | 0 <= v < |ps1|
      ensures ps1[v].cost == ps2[v].cost
    {
      assert IsDistance(matrix, src, v, ps1[v].cost) && IsDistance(matrix, src, v, ps2[v].cost);
    }
  }

  // ------------------------------------------------------- sample graphs

  /**
   * Four nodes with edges 0->1 (4), 0->2 (1), 2->1 (1), 1->3 (1) and
   * 2->3 (5).
   */
  const SampleGraph: seq<seq<int>> := [[0, 4, 1, 0], [0, 0, 0, 1], [0, 1, 0, 5], [0, 0, 0, 0]]

  /**
   * From node 0 the only table the certificate admits is: node 2 at cost 1
   * via 0, node 1 at cost 2 via 2, node 3 at cost 3 via 1.
   */
  lemma SampleGraphTable(ps: seq<Path>)
    requires Certificate(SampleGraph, 0, ps)
    ensures ps == [Path(0, 0, 0), Path(1, 2, 2), Path(2, 0, 1), Path(3, 1, 3)]
  {
    var m := SampleGraph;
    assert |ps| == 4;
    assert RecordOK(ps, 1) && RecordOK(ps, 2) && RecordOK(ps, 3);
    assert Relaxed(m, ps, 0, 2);
    assert HopExact(m, ps, 2);
    assert ps[2] == Path(2, 0, 1);
    assert Relaxed(m, ps, 2, 1);
    assert HopExact(m, ps, 1);
    assert ps[1] == Path(1, 2, 2);
    assert Relaxed(m, ps, 1, 3);
    assert HopExact(m, ps, 3);
    assert ps[3] == Path(3, 1, 3);
  }

  /** Three nodes with one edge 0->1 (2); the negative entry at 0->2 is not an edge. */
  const DisconnectedGraph: seq<seq<int>> := [[0, 2, -5], [0, 0, 0], [0, 0, 0]]

  /** Node 2 has no incoming edge, so it keeps cost INF and prev -1. */
  lemma DisconnectedGraphTable(ps: seq<Path>)
    requires Certificate(DisconnectedGraph, 0, ps)
    ensures ps == [Path(0, 0, 0), Path(1, 0, 2), Unvisited(2)]
  {
    var m := DisconnectedGraph;
    assert |ps| == 3;
    assert RecordOK(ps, 1) && RecordOK(ps, 2);
    assert !HopExact(m, ps, 2);
    assert Relaxed(m, ps, 0, 1);
    assert HopExact(m, ps, 1);
  }

  // ------------------------------------------------------------- the engine

  /**
   * Computes the record table for the graph with n nodes and the given cost
   * matrix, from the source src (the program itself always uses node 0).
   */
  method Dijkstra(n: int, matrix: seq<seq<int>>, src: int) returns (paths: array<Path>)
    requires IsMatrix(matrix, n) && 0 <= src < n
    ensures paths.Length == n
    ensures Certificate(matrix, src, paths[..])
    ensures ShortestCosts(matrix, src, paths[..])
  {
    paths := NewPaths(n);

    var pq := new PQ<Path>();
    var start := Path(src, src, 0);
    pq.Insert(start, 0);
    InitEstablishesInv(matrix, src, paths[..], multiset(pq.Heap()));

    DrainQueue(matrix, src, paths, pq);
    CertificateGivesShortestCosts(matrix, src, paths[..]);
  }

  /**
   * The main loop: visits queued entries until the queue is empty, then
   * the table satisfies the certificate.
   */
  method DrainQueue(matrix: seq<seq<int>>, src: int, paths: array<Path>, pq: PQ<Path>)
    requires pq.Valid() && paths !in pq.Repr
    requires Inv(matrix, src, paths[..], multiset(pq.Heap()))
    modifies paths, pq.Repr
    ensures pq.Valid() && paths !in pq.Repr && pq.Heap() == []
    ensures Certificate(matrix, src, paths[..])
  {
    var empty := pq.IsEmpty();
    while empty == 0
      invariant pq.Valid() && paths !in pq.Repr && fresh(pq.Repr - old(pq.Repr))
      invariant empty == 0 <==> |pq.Heap()| != 0
      invariant Inv(matrix, src, paths[..], multiset(pq.Heap()))
      decreases CostSum(paths[..]), |pq.Heap()|
    {
      VisitNext(matrix, src, paths, pq);
      empty := pq.IsEmpty();
    }
    assert pq.Heap() == [];
    EmptyQueueGivesCertificate(matrix, src, paths[..], multiset(pq.Heap()));
  }

  /** A fresh record table in which every node is unvisited: cost INF, prev -1. */
  method NewPaths(n: nat) returns (paths: array<Path>)
    ensures fresh(paths)
    ensures paths[..] == InitialPaths(n)
  {
    paths := new Path[n];
    for i := 0 to n
      invariant forall v :: 0 <= v < i ==> paths[v] == Unvisited(v)
    {
      paths[i] := Path(i, -1, INF);
    }
  }

  /**
   * One pass of the main loop: extracts the entry of least cost, finalizes
   * its node's record if that is still at INF, and relaxes the node's
   * outgoing edges, each against the finalized table. Either the sum of the
   * recorded costs drops, or it stays and the queue shrinks.
   */
  method VisitNext(matrix: seq<seq<int>>, src: int, paths: array<Path>, pq: PQ<Path>)
    requires pq.Valid() && paths !in pq.Repr && |pq.Heap()| > 0
    requires Inv(matrix, src, paths[..], multiset(pq.Heap()))
    modifies paths, pq.Repr
    ensures pq.Valid() && paths !in pq.Repr && fresh(pq.Repr - old(pq.Repr))
    ensures Inv(matrix, src, paths[..], multiset(pq.Heap()))
    ensures CostSum(paths[..]) < old(CostSum(paths[..])) ||
            (CostSum(paths[..]) == old(CostSum(paths[..])) && |pq.Heap()| < old(|pq.Heap()|))
    ensures NoCostRises(old(paths[..]), paths[..])
    ensures forall v :: 0 <= v < paths.Length ==>
              paths[v] == RelaxedRecord(matrix, Finalize(old(paths[..]), old(pq.Heap())[0].value), old(pq.Heap())[0].value, v)
    ensures forall x :: multiset(pq.Heap())[x] == (old(multiset(pq.Heap())) - multiset{old(pq.Heap())[0]})[x] +
              Gain(matrix, Finalize(old(paths[..]), old(pq.Heap())[0].value), old(pq.Heap())[0].value, paths.Length, x)
  {
    ghost var e := pq.Heap()[0];
    ghost var ps0, bag0 := paths[..], multiset(pq.Heap());
    FinalizeOnlyAtSource(matrix, src, ps0, bag0, e);
    var curr := ExtractNext(paths, pq);
    ghost var ps1 := paths[..];
    ExtractStep(matrix, src, ps0, bag0, e, ps1, multiset(pq.Heap()));
    RelaxNeighbours(matrix, src, paths, pq, curr);
    NoCostRisesTransitive(ps0, ps1, paths[..]);
  }

  /**
   * Removes the entry of least priority from the queue and returns its
   * record; the table entry for that record's node takes the record's cost
   * and predecessor when its cost is still INF, and is left alone otherwise.
   */
  method ExtractNext(paths: array<Path>, pq: PQ<Path>) returns (curr: Path)
    requires pq.Valid() && paths !in pq.Repr && |pq.Heap()| > 0
    requires 0 <= pq.Heap()[0].value.node < paths.Length
    modifies paths, pq.Repr
    ensures pq.Valid() && paths !in pq.Repr && pq.Repr == old(pq.Repr)
    ensures curr == old(pq.Heap())[0].value && IsMinAt(old(pq.Heap()), 0)
    ensures multiset(pq.Heap()) == old(multiset(pq.Heap())) - multiset{old(pq.Heap())[0]}
    ensures |pq.Heap()| == old(|pq.Heap()|) - 1
    ensures paths[..] == Finalize(old(paths[..]), curr)
  {
    curr := pq.RemoveFirst();
    var currNode := curr.node;
    if paths[currNode].cost == INF {
      paths[currNode] := paths[currNode].(cost := curr.cost, prev := curr.prev);
    }
  }

  /**
   * The neighbour loop: for every node j with an edge from curr's node,
   * when curr's cost plus the edge weight is below j's recorded cost, j's
   * record takes that cost with curr's node as predecessor and a copy of it
   * is queued. Afterwards the main loop's invariant holds again.
   */
  method RelaxNeighbours(matrix: seq<seq<int>>, src: int, paths: array<Path>, pq: PQ<Path>, curr: Path)
    requires pq.Valid() && paths !in pq.Repr
    requires InnerInv(matrix, src, paths[..], multiset(pq.Heap()), curr, 0)
    modifies paths, pq.Repr
    ensures pq.Valid() && paths !in pq.Repr && fresh(pq.Repr - old(pq.Repr))
    ensures Inv(matrix, src, paths[..], multiset(pq.Heap()))
    ensures CostSum(paths[..]) <= old(CostSum(paths[..])) && |pq.Heap()| >= old(|pq.Heap()|)
    ensures |pq.Heap()| > old(|pq.Heap()|) ==> CostSum(paths[..]) < old(CostSum(paths[..]))
    ensures NoCostRises(old(paths[..]), paths[..])
    ensures forall v :: 0 <= v < paths.Length ==> RelaxedFrom(matrix, paths[..], curr, v)
    ensures forall v :: 0 <= v < paths.Length ==> paths[v] == RelaxedRecord(matrix, old(paths[..]), curr, v)
    ensures forall x :: multiset(pq.Heap())[x] == old(multiset(pq.Heap()))[x] + Gain(matrix, old(paths[..]), curr, paths.Length, x)
  {
    RelaxEdges(matrix, paths, pq, curr);
    NeighboursFinished(matrix, src, old(paths[..]), old(multiset(pq.Heap())), curr, paths[..], multiset(pq.Heap()));
  }

  /**
   * The loop of the neighbour pass itself: relaxes the edge from curr's
   * node to every node j in turn. Every record ends up relaxed against the
   * table the loop started from, and the queue gains the new record of
   * every node whose edge improved it.
   */
  method RelaxEdges(matrix: seq<seq<int>>, paths: array<Path>, pq: PQ<Path>, curr: Path)
    requires pq.Valid() && paths !in pq.Repr
    requires IsMatrix(matrix, paths.Length) && 0 <= curr.node < paths.Length
    modifies paths, pq.Repr
    ensures pq.Valid() && paths !in pq.Repr && fresh(pq.Repr - old(pq.Repr))
    ensures forall v :: 0 <= v < paths.Length ==> paths[v] == RelaxedRecord(matrix, old(paths[..]), curr, v)
    ensures forall x :: multiset(pq.Heap())[x] == old(multiset(pq.Heap()))[x] + Gain(matrix, old(paths[..]), curr, paths.Length, x)
  {
    var n := paths.Length;
    ghost var ps0, bag0 := paths[..], multiset(pq.Heap());
    for j := 0 to n
      invariant pq.Valid() && paths !in pq.Repr && fresh(pq.Repr - old(pq.Repr))
      invariant forall v :: 0 <= v < j ==> paths[v] == RelaxedRecord(matrix, ps0, curr, v)
      invariant forall v :: j <= v < n ==> paths[v] == ps0[v]
      invariant forall x :: multiset(pq.Heap())[x] == bag0[x] + Gain(matrix, ps0, curr, j, x)
    {
      ghost var ps := paths[..];
      assert ps[j] == ps0[j];
      assert NewEntry(matrix, ps, curr, j) == NewEntry(matrix, ps0, curr, j);
      RelaxEdge(matrix, paths, pq, curr, j);
    }
  }

  /**
   * The body of the neighbour loop for node j: relaxes the edge from curr's
   * node to j, if there is one and it is an improvement. Either nothing
   * changes, or j's record takes the lower cost and a new entry for j is
   * queued.
   */
  method RelaxEdge(matrix: seq<seq<int>>, paths: array<Path>, pq: PQ<Path>, curr: Path, j: int)
    requires pq.Valid() && paths !in pq.Repr && 0 <= j < paths.Length
    requires 0 <= curr.node < |matrix| && j < |matrix[curr.node]|
    modifies paths, pq.Repr
    ensures pq.Valid() && paths !in pq.Repr && fresh(pq.Repr - old(pq.Repr))
    ensures paths[..] == Relax(matrix, old(paths[..]), curr, j)
    ensures multiset(pq.Heap()) == old(multiset(pq.Heap())) + NewEntry(matrix, old(paths[..]), curr, j)
    ensures NoCostRises(old(paths[..]), paths[..])
  {
    var currNode := curr.node;
    if matrix[currNode][j] > 0 {
      var edgeCost := matrix[currNode][j];
      var newCost := curr.cost + edgeCost;
      if newCost < paths[j].cost {
        ImproveEdge(paths, pq, curr, j, newCost);
      }
    }
  }

  /**
   * The improving case of the neighbour loop: j's record takes the cost
   * newCost, curr's cost plus the edge weight, with curr's node as
   * predecessor, and a copy of the new record is queued with newCost as
   * its priority.
   */
  method ImproveEdge(paths: array<Path>, pq: PQ<Path>, curr: Path, j: int, newCost: int)
    requires pq.Valid() && paths !in pq.Repr && 0 <= j < paths.Length
    modifies paths, pq.Repr
    ensures pq.Valid() && paths !in pq.Repr && fresh(pq.Repr - old(pq.Repr))
    ensures paths[..] == old(paths[..])[j := old(paths[j]).(cost := newCost, prev := curr.node)]
    ensures multiset(pq.Heap()) == old(multiset(pq.Heap())) + multiset{Marker(Path(j, curr.node, newCost))}
    ensures |pq.Heap()| == old(|pq.Heap()|) + 1
  {
    var currNode := curr.node;
    paths[j] := paths[j].(cost := newCost, prev := currNode);
    var neighborPath := Path(j, currNode, newCost);
    pq.Insert(neighborPath, newCost);
  }

  /** Runs the engine on the sample graph from node 0. */
  method SampleGraphRun() returns (paths: array<Path>)
    ensures paths[..] == [Path(0, 0, 0), Path(1, 2, 2), Path(2, 0, 1), Path(3, 1, 3)]
  {
    paths := Dijkstra(4, SampleGraph, 0);
    SampleGraphTable(paths[..]);
  }

  /** Runs the engine on the disconnected graph from node 0. */
  method DisconnectedGraphRun() returns (paths: array<Path>)
    ensures paths[..] == [Path(0, 0, 0), Path(1, 0, 2), Unvisited(2)]
  {
    paths := Dijkstra(3, DisconnectedGraph, 0);
    DisconnectedGraphTable(paths[..]);
  }
}
