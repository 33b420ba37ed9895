/** The facts behind detectDeadlock's three passes, stated on values: in-degree
    tables, the part of the graph a pass has already walked, the nodes a pass has
    dropped or queued, and the ranking Kahn's algorithm builds as it pops nodes. */
module KahnFacts {
  import opened TransactionIds
  import opened WaitForGraphs

  /** The in-degree table: a missing entry reads as 0. */
  type Degrees = map<TransactionId, int>

  function Get(m: Degrees, v: TransactionId): (d: int)
    ensures v !in m ==> d == 0
    ensures v in m ==> d == m[v]
  {
    if v in m then m[v] else 0
  }

  /** Every node's entry is its number of incoming edges in E. */
  ghost predicate CountsIncoming(m: Degrees, E: set<Edge>) {
    forall v :: Get(m, v) == |Incoming(E, v)|
  }

  /** indegrees.putIfAbsent(d, 0) followed by indegrees.put(d, indegrees.get(d) + 1). */
  function Bumped(m: Degrees, d: TransactionId): (r: Degrees)
    ensures r.Keys == m.Keys + {d}
  {
    var m1 := if d in m then m else m[d := 0];
    m1[d := m1[d] + 1]
  }

  /** Counting one more edge e raises the entry of e's target by one. */
  lemma CountOneMore(m: Degrees, E: set<Edge>, e: Edge)
    requires CountsIncoming(m, E) && e !in E
    ensures CountsIncoming(Bumped(m, e.wait.peer), E + {e})
  {
    forall v
      ensures Get(Bumped(m, e.wait.peer), v) == |Incoming(E + {e}, v)|
    {
      IncomingInsert(E, e, v);
    }
  }

  /** Uncounting an edge into d: the entry of d goes down by one, the others stay. */
  lemma CountOneLess(m: Degrees, m': Degrees, E: set<Edge>, e: Edge)
    requires CountsIncoming(m, E) && e in E
    requires e.wait.peer in m && m' == m[e.wait.peer := m[e.wait.peer] - 1]
    ensures CountsIncoming(m', E - {e})
  {
    forall v
      ensures Get(m', v) == |Incoming(E - {e}, v)|
    {
      IncomingRemove(E, e, v);
    }
  }

  /** The edges whose source is in S. */
  ghost function EdgesFrom(b: Adjacency, S: set<TransactionId>): set<Edge> {
    set e | e in Edges(b) && e.src in S
  }

  /** The edges walked by the in-degree pass part way through source s: every edge
      out of the finished sources S, and the edges out of s to the pairs no longer
      in `rest`. */
  ghost function Walked(b: Adjacency, S: set<TransactionId>, s: TransactionId, rest: set<Wait>): set<Edge>
    requires s in b
  {
    EdgesFrom(b, S) + set x | x in b[s] && x !in rest :: Edge(s, x)
  }

  lemma EdgesFromNone(b: Adjacency)
    ensures EdgesFrom(b, b.Keys - b.Keys) == {}
  {
  }

  lemma EdgesFromAll(b: Adjacency)
    ensures EdgesFrom(b, b.Keys - {}) == Edges(b)
  {
    forall e | e in Edges(b)
      ensures e.src in b
    {
      EdgesMembership(b, e);
    }
  }

  lemma WalkedStart(b: Adjacency, S: set<TransactionId>, s: TransactionId)
    requires s in b
    ensures Walked(b, S, s, b[s]) == EdgesFrom(b, S)
  {
  }

  /** Finishing source s: s moves from the sources still to visit to the finished ones. */
  lemma WalkedEnd(b: Adjacency, sources: set<TransactionId>, s: TransactionId)
    requires s in b && s in sources
    ensures Walked(b, b.Keys - sources, s, {}) == EdgesFrom(b, b.Keys - (sources - {s}))
  {
    forall e
      ensures e in Walked(b, b.Keys - sources, s, {}) <==> e in EdgesFrom(b, b.Keys - (sources - {s}))
    {
      EdgesMembership(b, e);
    }
  }

  /** Walking the pair x out of s adds exactly the edge s -> x, which was not walked. */
  lemma WalkedStep(b: Adjacency, S: set<TransactionId>, s: TransactionId, rest: set<Wait>, x: Wait)
    requires s in b && s !in S && x in rest && rest <= b[s]
    ensures Edge(s, x) !in Walked(b, S, s, rest)
    ensures Walked(b, S, s, rest - {x}) == Walked(b, S, s, rest) + {Edge(s, x)}
  {
  }

  /** blockingMe part way through the pruning pass: the nodes of S with in-degree 0
      and no pair of their own are gone. */
  ghost function PrunedAmong(b: Adjacency, d: Degrees, S: set<TransactionId>): Adjacency {
    map k | k in b && !(k in S && Get(d, k) == 0 && b[k] == {}) :: b[k]
  }

  /** The nodes of S the pruning pass queued as sources. */
  ghost function QueuedAmong(b: Adjacency, d: Degrees, S: set<TransactionId>): set<TransactionId> {
    set k | k in S && k in b && Get(d, k) == 0 && b[k] != {}
  }

  lemma PrunedAmongNone(b: Adjacency, d: Degrees)
    ensures PrunedAmong(b, d, b.Keys - b.Keys) == b
    ensures QueuedAmong(b, d, b.Keys - b.Keys) == {}
  {
  }

  /** Visiting node s, one of the nodes still to visit. */
  lemma PrunedAmongStep(b: Adjacency, d: Degrees, todo: set<TransactionId>, s: TransactionId)
    requires s in todo && todo <= b.Keys
    ensures s in PrunedAmong(b, d, b.Keys - todo) && PrunedAmong(b, d, b.Keys - todo)[s] == b[s]
    ensures PrunedAmong(b, d, b.Keys - (todo - {s})) ==
            if Get(d, s) == 0 && b[s] == {} then PrunedAmong(b, d, b.Keys - todo) - {s}
            else PrunedAmong(b, d, b.Keys - todo)
    ensures QueuedAmong(b, d, b.Keys - (todo - {s})) ==
            if Get(d, s) == 0 && b[s] != {} then QueuedAmong(b, d, b.Keys - todo) + {s}
            else QueuedAmong(b, d, b.Keys - todo)
  {
  }

  /** With true in-degrees and every node visited, the pass drops exactly the
      isolated nodes and queues exactly the remaining nodes of in-degree 0. */
  lemma PrunedAmongAll(b: Adjacency, d: Degrees)
    requires d.Keys == b.Keys && CountsIncoming(d, Edges(b))
    ensures PrunedAmong(b, d, b.Keys - {}) == Pruned(b)
    ensures forall v :: v in QueuedAmong(b, d, b.Keys - {}) <==> v in Pruned(b) && d[v] == 0
  {
    forall k | k in b
      ensures Isolated(b, k) <==> Get(d, k) == 0 && b[k] == {}
    {
      assert Get(d, k) == |Incoming(Edges(b), k)|;
    }
  }

  /** The edges not yet taken out by Kahn's loop: those whose source is unpopped. */
  ghost function Pending(E: set<Edge>, P: set<TransactionId>): set<Edge> {
    set e | e in E && e.src !in P
  }

  /** Pending edges while the children of the node c just popped are being visited:
      the edges out of c to pairs still in `rest` are still pending. */
  ghost function PendingDuring(E: set<Edge>, P: set<TransactionId>, c: TransactionId, rest: set<Wait>): set<Edge> {
    set e | e in E && (e.src !in P || (e.src == c && e.wait in rest))
  }

  lemma PendingNone(E: set<Edge>)
    ensures Pending(E, {}) == E
  {
  }

  lemma PendingDuringStart(b: Adjacency, P: set<TransactionId>, c: TransactionId)
    requires c in b && c !in P
    ensures PendingDuring(Edges(b), P + {c}, c, b[c]) == Pending(Edges(b), P)
  {
    forall e
      ensures e in PendingDuring(Edges(b), P + {c}, c, b[c]) <==> e in Pending(Edges(b), P)
    {
      EdgesMembership(b, e);
    }
  }

  lemma PendingDuringEnd(E: set<Edge>, P: set<TransactionId>, c: TransactionId)
    requires c in P
    ensures PendingDuring(E, P, c, {}) == Pending(E, P)
  {
  }

  /** Visiting the pair x out of c takes the edge c -> x out of the pending set. */
  lemma PendingDuringStep(b: Adjacency, P: set<TransactionId>, c: TransactionId, rest: set<Wait>, x: Wait)
    requires c in b && c in P && x in rest && rest <= b[c]
    ensures Edge(c, x) in PendingDuring(Edges(b), P, c, rest)
    ensures PendingDuring(Edges(b), P, c, rest - {x}) == PendingDuring(Edges(b), P, c, rest) - {Edge(c, x)}
  {
    EdgesMembership(b, Edge(c, x));
  }

  /** The target of a pending edge is a node whose count is at least 1. */
  lemma ChildIsCounted(b: Adjacency, d: Degrees, E: set<Edge>, c: TransactionId, x: Wait)
    requires Closed(b) && c in b && x in b[c]
    requires CountsIncoming(d, E) && Edge(c, x) in E
    ensures x.peer in b && Get(d, x.peer) >= 1
  {
    assert Edge(c, x) in Incoming(E, x.peer);
  }

  /** The queue of Kahn's loop: its nodes are distinct unpopped nodes of b, and a
      node's count is 0 exactly when it has been popped or is queued. */
  ghost predicate Frontier(b: Adjacency, d: Degrees, P: set<TransactionId>, queue: seq<TransactionId>) {
    (forall v :: v in b ==> (v in P || v in queue <==> Get(d, v) == 0)) &&
    (forall v :: v in queue ==> v in b && v !in P) &&
    NoDuplicates(queue)
  }

  /** The queue as the pruning pass leaves it. */
  lemma FrontierStart(b: Adjacency, d: Degrees, queue: seq<TransactionId>)
    requires forall v :: v in queue <==> v in b && Get(d, v) == 0
    requires NoDuplicates(queue)
    ensures Frontier(b, d, {}, queue)
  {
  }

  /** sources.poll(): the head is an unpopped node of count 0, and popping it keeps
      the frontier. */
  lemma FrontierPop(b: Adjacency, d: Degrees, P: set<TransactionId>, queue: seq<TransactionId>)
    requires Frontier(b, d, P, queue) && |queue| > 0
    ensures queue[0] in b && queue[0] !in P && Get(d, queue[0]) == 0
    ensures Frontier(b, d, P + {queue[0]}, queue[1..])
  {
    var c := queue[0];
    assert queue[0] in queue;
    forall v | v in queue[1..]
      ensures v != c
    {
      var i :| 0 <= i < |queue[1..]| && queue[1..][i] == v;
      assert queue[i + 1] == v;
    }
  }

  /** Decrementing a child's count, and queueing it when the count reaches 0. */
  lemma FrontierDecrement(b: Adjacency, d: Degrees, P: set<TransactionId>, queue: seq<TransactionId>, child: TransactionId)
    requires Frontier(b, d, P, queue)
    requires child in b && child in d && Get(d, child) >= 1
    ensures var d' := d[child := d[child] - 1];
            Frontier(b, d', P, if d'[child] == 0 then queue + [child] else queue)
  {
    var d' := d[child := d[child] - 1];
    if d'[child] == 0 {
      assert child !in queue && child !in P;
      var q' := queue + [child];
      forall i, j | 0 <= i < j < |q'|
        ensures q'[i] != q'[j]
      {
        if j == |queue| {
          assert q'[i] == queue[i];
          assert queue[i] in queue;
        }
      }
    }
  }

  /** rank numbers the popped nodes P in popping order, and every edge into a popped
      node starts at a node popped before it. */
  ghost predicate Ranked(E: set<Edge>, rank: map<TransactionId, int>, P: set<TransactionId>) {
    rank.Keys == P &&
    (forall v :: v in P ==> rank[v] < |P|) &&
    (forall e :: e in E && e.wait.peer in P ==> e.src in P && rank[e.src] < rank[e.wait.peer])
  }

  lemma RankedNone(E: set<Edge>)
    ensures Ranked(E, map[], {})
  {
  }

  /** Popping c, which has no pending incoming edge, gives it the next rank. */
  lemma RankedPop(E: set<Edge>, rank: map<TransactionId, int>, P: set<TransactionId>, c: TransactionId)
    requires Ranked(E, rank, P) && c !in P
    requires Incoming(Pending(E, P), c) == {}
    ensures Ranked(E, rank[c := |P|], P + {c})
  {
    forall e | e in E && e.wait.peer == c
      ensures e.src in P
    {
      assert e !in Incoming(Pending(E, P), c);
    }
  }

  /** Every node popped: the ranking orders every edge, so there is no cycle. */
  lemma KahnAcyclic(b: Adjacency, rank: map<TransactionId, int>)
    requires Closed(b) && Ranked(Edges(b), rank, b.Keys)
    ensures !HasCycle(Edges(b))
  {
    var E := Edges(b);
    forall e | e in E
      ensures e.src in rank && e.wait.peer in rank && rank[e.src] < rank[e.wait.peer]
    {
      EdgesMembership(b, e);
    }
    RankedIsAcyclic(E, rank);
  }

  /** Each unpopped node still has a pending incoming edge, and its source is
      unpopped too. */
  lemma UnpoppedHavePredecessors(b: Adjacency, d: Degrees, P: set<TransactionId>)
    requires CountsIncoming(d, Pending(Edges(b), P))
    requires forall v :: v in b && Get(d, v) == 0 ==> v in P
    ensures forall u {:trigger HasPredecessorIn(Edges(b), b.Keys - P, u)} ::
              u in b.Keys - P ==> HasPredecessorIn(Edges(b), b.Keys - P, u)
  {
    var E := Edges(b);
    forall u | u in b.Keys - P
      ensures HasPredecessorIn(E, b.Keys - P, u)
    {
      assert Get(d, u) != 0;
      var inc := Incoming(Pending(E, P), u);
      assert |inc| == Get(d, u);
      var e :| e in inc;
      EdgesMembership(b, e);
    }
  }

  /** Some node never popped: the unpopped nodes hold a cycle. */
  lemma KahnCyclic(b: Adjacency, d: Degrees, P: set<TransactionId>)
    requires P <= b.Keys && P != b.Keys
    requires CountsIncoming(d, Pending(Edges(b), P))
    requires forall v :: v in b && Get(d, v) == 0 ==> v in P
    ensures HasCycle(Edges(b))
  {
    var k :| k in b.Keys && k !in P;
    assert k in b.Keys - P;
    UnpoppedHavePredecessors(b, d, P);
    CyclicCore(Edges(b), b.Keys - P);
  }

  /** When Kahn's loop stops, the nodes whose count never reached 0 are exactly the
      unpopped ones; so every node was popped iff the graph has no cycle. */
  lemma KahnVerdict(b: Adjacency, d: Degrees, P: set<TransactionId>, rank: map<TransactionId, int>)
    requires Closed(b) && P <= b.Keys
    requires CountsIncoming(d, Pending(Edges(b), P))
    requires Frontier(b, d, P, [])
    requires Ranked(Edges(b), rank, P)
    ensures |P| <= |b.Keys|
    ensures |P| == |b.Keys| <==> !HasCycle(Edges(b))
  {
    if P == b.Keys {
      KahnAcyclic(b, rank);
    } else {
      KahnCyclic(b, d, P);
      assert |b.Keys - P| > 0;
    }
  }
}
