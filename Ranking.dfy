/** The rank pass of the renderer: a breadth-first walk over the tree's
    edges from the first node, giving every person it reaches a row number.
    Following an edge forwards adds one for a parent-child edge and nothing
    for a spouse edge; following any edge backwards subtracts one. */
module Ranking {
  import opened Records
  import opened Traversal

  /** The pass's state: the queue (taken from its front) and the ranks so far. */
  datatype Bfs = Bfs(queue: seq<Id>, ranks: map<Id, int>)

  /** Rank change along edge kind `k` followed forwards. */
  function ForwardDelta(k: EdgeKind): int {
    if k == Parentage then 1 else 0
  }

  ghost function EdgeIds(edges: seq<Edge>): set<Id> {
    (set e | e in edges :: e.from) + (set e | e in edges :: e.to)
  }

  predicate QueueRanked(b: Bfs) {
    forall x :: x in b.queue ==> x in b.ranks
  }

  /** Edge `e` followed forwards from the dequeued `id` at `level`: an
      unranked head is ranked and enqueued. */
  function ScanForward(e: Edge, id: Id, level: int, b: Bfs): Bfs {
    if e.from == id && e.to !in b.ranks then
      Bfs(b.queue + [e.to], b.ranks[e.to := level + ForwardDelta(e.kind)])
    else b
  }

  /** Edge `e` followed backwards to the dequeued `id`: an unranked tail is
      ranked one less and enqueued. */
  function ScanBackward(e: Edge, id: Id, level: int, b: Bfs): Bfs {
    if e.to == id && e.from !in b.ranks then
      Bfs(b.queue + [e.from], b.ranks[e.from := level - 1])
    else b
  }

  /** One edge examined for the dequeued `id`: forwards, then backwards. */
  function ScanEdge(e: Edge, id: Id, level: int, b: Bfs): Bfs {
    ScanBackward(e, id, level, ScanForward(e, id, level, b))
  }

  /** Rank `x` is explained by an edge to a ranked person. */
  ghost predicate Justified(x: Id, ranks: map<Id, int>, edges: seq<Edge>)
    requires x in ranks
  {
    exists e :: e in edges &&
      ((e.to == x && e.from in ranks && ranks[x] == ranks[e.from] + ForwardDelta(e.kind)) ||
       (e.from == x && e.to in ranks && ranks[x] == ranks[e.to] - 1))
  }

  /** Every edge at `x` has both ends ranked. */
  ghost predicate Processed(x: Id, ranks: map<Id, int>, edges: seq<Edge>) {
    forall e :: e in edges ==> (e.from == x ==> e.to in ranks) && (e.to == x ==> e.from in ranks)
  }

  /** Going from `b` to `r`, existing ranks stay as they are, every new
      rank belongs to an end of an edge, is explained by an edge and is
      enqueued, and the queue only grows at its back (and only when a
      rank was added). */
  ghost predicate Grows(b: Bfs, r: Bfs, edges: seq<Edge>) {
    && b.ranks.Keys <= r.ranks.Keys
    && (forall x :: x in b.ranks ==> r.ranks[x] == b.ranks[x])
    && r.ranks.Keys - b.ranks.Keys <= EdgeIds(edges)
    && (r.ranks.Keys == b.ranks.Keys ==> r.queue == b.queue)
    && |b.queue| <= |r.queue| && r.queue[..|b.queue|] == b.queue
    && (forall x :: x in r.queue[|b.queue|..] ==> x in r.ranks)
    && (forall x :: x in r.ranks && x !in b.ranks ==> x in r.queue[|b.queue|..] && Justified(x, r.ranks, edges))
  }

  lemma ScanEdgeGrows(e: Edge, id: Id, level: int, b: Bfs, edges: seq<Edge>)
    requires e in edges && id in b.ranks && b.ranks[id] == level
    ensures var r := ScanEdge(e, id, level, b);
      Grows(b, r, edges) &&
      (e.from == id ==> e.to in r.ranks) && (e.to == id ==> e.from in r.ranks)
  {
    var r := ScanEdge(e, id, level, b);
    forall x | x in r.ranks && x !in b.ranks
      ensures Justified(x, r.ranks, edges)
    {
      assert e in edges;
    }
  }

  lemma GrowsTrans(a: Bfs, b: Bfs, c: Bfs, edges: seq<Edge>)
    requires Grows(a, b, edges) && Grows(b, c, edges)
    ensures Grows(a, c, edges)
  {
    assert c.queue[..|a.queue|] == c.queue[..|b.queue|][..|a.queue|];
    GrowsTransQueued(a, b, c, edges);
    GrowsTransNew(a, b, c, edges);
  }

  /** Everything enqueued over two steps is ranked. */
  lemma GrowsTransQueued(a: Bfs, b: Bfs, c: Bfs, edges: seq<Edge>)
    requires Grows(a, b, edges) && Grows(b, c, edges)
    ensures forall x :: x in c.queue[|a.queue|..] ==> x in c.ranks
  {
    forall x | x in c.queue[|a.queue|..]
      ensures x in c.ranks
    {
      var k :| |a.queue| <= k < |c.queue| && c.queue[k] == x;
      if k < |b.queue| {
        assert c.queue[..|b.queue|] == b.queue;
        assert b.queue[k] == x;
        assert x in b.queue[|a.queue|..];
      } else {
        assert x in c.queue[|b.queue|..];
      }
    }
  }

  /** Everything ranked over two steps is enqueued and explained. */
  lemma GrowsTransNew(a: Bfs, b: Bfs, c: Bfs, edges: seq<Edge>)
    requires Grows(a, b, edges) && Grows(b, c, edges)
    ensures forall x :: x in c.ranks && x !in a.ranks ==> x in c.queue[|a.queue|..] && Justified(x, c.ranks, edges)
  {
    forall x | x in c.ranks && x !in a.ranks
      ensures x in c.queue[|a.queue|..] && Justified(x, c.ranks, edges)
    {
      if x in b.ranks {
        JustifiedGrows(x, b.ranks, c.ranks, edges);
        var k :| |a.queue| <= k < |b.queue| && b.queue[k] == x;
        assert c.queue[..|b.queue|] == b.queue;
        assert c.queue[k] == x;
      } else {
        var k :| |b.queue| <= k < |c.queue| && c.queue[k] == x;
      }
    }
  }

  lemma GrowsWiden(b: Bfs, r: Bfs, init: seq<Edge>, edges: seq<Edge>)
    requires Grows(b, r, init)
    requires forall e :: e in init ==> e in edges
    ensures Grows(b, r, edges)
  {
    forall x | x in r.ranks && x !in b.ranks
      ensures Justified(x, r.ranks, edges)
    {
      var e :| e in init &&
        ((e.to == x && e.from in r.ranks && r.ranks[x] == r.ranks[e.from] + ForwardDelta(e.kind)) ||
         (e.from == x && e.to in r.ranks && r.ranks[x] == r.ranks[e.to] - 1));
    }
  }

  /** All edges examined, in order, for the dequeued `id`: the state grows
      as `Grows` describes, and afterwards every edge at `id` has both ends
      ranked. */
  function ScanEdges(edges: seq<Edge>, id: Id, level: int, b: Bfs): (r: Bfs)
    requires id in b.ranks && b.ranks[id] == level
    ensures Grows(b, r, edges)
    ensures Processed(id, r.ranks, edges)
    decreases |edges|
  {
    if edges == [] then
      assert Grows(b, b, edges) by {
        assert b.queue[|b.queue|..] == [];
      }
      b
    else
      var init := edges[..|edges| - 1];
      var e := edges[|edges| - 1];
      assert edges == init + [e];
      var prev := ScanEdges(init, id, level, b);
      var r := ScanEdge(e, id, level, prev);
      GrowsWiden(b, prev, init, edges);
      ScanEdgeGrows(e, id, level, prev, edges);
      GrowsTrans(b, prev, r, edges);
      r
  }

  /** A dequeue either ranks somebody new or shortens the queue. */
  lemma ScanShrinks(edges: seq<Edge>, b: Bfs)
    requires QueueRanked(b) && b.queue != []
    ensures var id := b.queue[0];
      var r := ScanEdges(edges, id, b.ranks[id], Bfs(b.queue[1..], b.ranks));
      QueueRanked(r) &&
      (|EdgeIds(edges) - r.ranks.Keys| < |EdgeIds(edges) - b.ranks.Keys| ||
       (r.ranks.Keys == b.ranks.Keys && |r.queue| < |b.queue|))
  {
    var id := b.queue[0];
    var b' := Bfs(b.queue[1..], b.ranks);
    var r := ScanEdges(edges, id, b.ranks[id], b');
    GrowsShrinks(edges, b, b', r);
  }

  lemma GrowsShrinks(edges: seq<Edge>, b: Bfs, b': Bfs, r: Bfs)
    requires QueueRanked(b) && b.queue != []
    requires b' == Bfs(b.queue[1..], b.ranks)
    requires Grows(b', r, edges)
    ensures QueueRanked(r)
    ensures |EdgeIds(edges) - r.ranks.Keys| < |EdgeIds(edges) - b.ranks.Keys| ||
       (r.ranks.Keys == b.ranks.Keys && |r.queue| < |b.queue|)
  {
    forall x | x in r.queue
      ensures x in r.ranks
    {
      var k :| 0 <= k < |r.queue| && r.queue[k] == x;
      if k < |b'.queue| {
        assert b'.queue[k] == x;
        assert x in b.queue;
      } else {
        assert x in r.queue[|b'.queue|..];
      }
    }
    if r.ranks.Keys != b.ranks.Keys {
      var x :| x in r.ranks.Keys && x !in b.ranks.Keys;
      assert x in EdgeIds(edges) - b.ranks.Keys;
      assert EdgeIds(edges) - r.ranks.Keys < EdgeIds(edges) - b.ranks.Keys;
      SubsetCard(EdgeIds(edges) - r.ranks.Keys, EdgeIds(edges) - b.ranks.Keys);
    }
  }

  /** The pass's loop: dequeue, scan all edges, until the queue is empty. */
  function RankLoop(edges: seq<Edge>, b: Bfs): map<Id, int>
    requires QueueRanked(b)
    decreases |EdgeIds(edges) - b.ranks.Keys|, |b.queue|
  {
    if b.queue == [] then b.ranks
    else
      var id := b.queue[0];
      ScanShrinks(edges, b);
      RankLoop(edges, ScanEdges(edges, id, b.ranks[id], Bfs(b.queue[1..], b.ranks)))
  }

  function Start(root: Id): Bfs {
    Bfs([root], map[root := 0])
  }

  /** The ranks the renderer computes, starting from `root` at rank 0. */
  function Ranks(root: Id, edges: seq<Edge>): map<Id, int> {
    RankLoop(edges, Start(root))
  }

  // ---------------------------------------------------------------------
  // What the pass guarantees
  // ---------------------------------------------------------------------

  ghost predicate LoopInv(root: Id, edges: seq<Edge>, b: Bfs) {
    && QueueRanked(b)
    && root in b.ranks && b.ranks[root] == 0
    && (forall x :: x in b.ranks ==> x == root || Justified(x, b.ranks, edges))
    && (forall x :: x in b.ranks ==> x in b.queue || Processed(x, b.ranks, edges))
    && b.ranks.Keys <= {root} + EdgeIds(edges)
  }

  lemma JustifiedGrows(x: Id, ranks: map<Id, int>, ranks': map<Id, int>, edges: seq<Edge>)
    requires x in ranks && Justified(x, ranks, edges)
    requires ranks.Keys <= ranks'.Keys
    requires forall y :: y in ranks ==> ranks'[y] == ranks[y]
    ensures Justified(x, ranks', edges)
  {
    var e :| e in edges &&
      ((e.to == x && e.from in ranks && ranks[x] == ranks[e.from] + ForwardDelta(e.kind)) ||
       (e.from == x && e.to in ranks && ranks[x] == ranks[e.to] - 1));
  }

  lemma LoopStepInv(root: Id, edges: seq<Edge>, b: Bfs)
    requires LoopInv(root, edges, b) && b.queue != []
    ensures var id := b.queue[0];
      LoopInv(root, edges, ScanEdges(edges, id, b.ranks[id], Bfs(b.queue[1..], b.ranks)))
  {
    var id := b.queue[0];
    var r := ScanEdges(edges, id, b.ranks[id], Bfs(b.queue[1..], b.ranks));
    ScanShrinks(edges, b);
    assert r.queue == b.queue[1..] + r.queue[|b.queue| - 1..];
    forall x | x in r.ranks
      ensures x == root || Justified(x, r.ranks, edges)
    {
      if x in b.ranks && x != root {
        JustifiedGrows(x, b.ranks, r.ranks, edges);
      }
    }
    forall x | x in r.ranks
      ensures x in r.queue || Processed(x, r.ranks, edges)
    {
      if x in b.ranks && x != id && x !in r.queue {
        assert x in b.queue[1..] || Processed(x, b.ranks, edges);
        assert x !in b.queue[1..];
      }
    }
  }

  lemma {:induction false} LoopInvHolds(root: Id, edges: seq<Edge>, b: Bfs)
    requires LoopInv(root, edges, b)
    ensures var r := RankLoop(edges, b);
      && root in r && r[root] == 0
      && (forall x :: x in r ==> x == root || Justified(x, r, edges))
      && (forall x :: x in r ==> Processed(x, r, edges))
      && r.Keys <= {root} + EdgeIds(edges)
    decreases |EdgeIds(edges) - b.ranks.Keys|, |b.queue|
  {
    if b.queue != [] {
      var id := b.queue[0];
      var r := ScanEdges(edges, id, b.ranks[id], Bfs(b.queue[1..], b.ranks));
      LoopStepInv(root, edges, b);
      ScanShrinks(edges, b);
      LoopInvHolds(root, edges, r);
    }
  }

  /** The root has rank 0; every other rank is explained by an edge to a
      ranked person; an edge has a ranked end exactly when it has two; and
      only the root and ends of edges are ranked. */
  lemma RanksProperties(root: Id, edges: seq<Edge>)
    ensures var r := Ranks(root, edges);
      && root in r && r[root] == 0
      && (forall x :: x in r ==> x == root || Justified(x, r, edges))
      && (forall e :: e in edges ==> (e.from in r <==> e.to in r))
      && r.Keys <= {root} + EdgeIds(edges)
  {
    LoopInvHolds(root, edges, Start(root));
    var r := Ranks(root, edges);
    forall e | e in edges
      ensures e.from in r <==> e.to in r
    {
      if e.from in r {
        assert Processed(e.from, r, edges);
      }
      if e.to in r {
        assert Processed(e.to, r, edges);
      }
    }
  }

  /** Every node of a built tree gets a rank, so the renderer's fallback
      to row 0 for an unranked node is never taken. */
  lemma EveryNodeRanked(db: Db, opts: Options, start: Id)
    ensures var t := Traverse(db, opts, start);
      t.nodes != [] ==> forall n :: n in t.nodes ==> n.id in Ranks(t.nodes[0].id, t.edges)
  {
    var t := Traverse(db, opts, start);
    TraverseShape(db, opts, start);
    if t.nodes != [] {
      var r := Ranks(t.nodes[0].id, t.edges);
      RanksProperties(t.nodes[0].id, t.edges);
      PrefixRanked(t.nodes, t.edges, r, |t.nodes|);
    }
  }

  lemma {:induction false} PrefixRanked(nodes: seq<Node>, edges: seq<Edge>, r: map<Id, int>, n: nat)
    requires 0 < n <= |nodes| && nodes[0].id in r
    requires forall i :: 0 < i < |nodes| ==> Linked(nodes[i].id, nodes[..i], edges)
    requires forall e :: e in edges ==> (e.from in r <==> e.to in r)
    ensures forall i :: 0 <= i < n ==> nodes[i].id in r
    ensures forall x :: x in nodes[..n] ==> x.id in r
  {
    if n > 1 {
      PrefixRanked(nodes, edges, r, n - 1);
      var i := n - 1;
      var e :| e in edges && Touches(e, nodes[i].id, NodeIds(nodes[..i]));
      assert nodes[..n] == nodes[..i] + [nodes[i]];
    }
  }
}
