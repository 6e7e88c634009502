/** The SVG generator object: per-instance memo tables in front of the
    record store, the iterative tree builder, the renderer's loops and the
    cached entry point. Each method is proved to compute what the functions
    of Traversal, Ranking, Layout and Render describe. */
module SvgGenerator {
  import opened Wrappers
  import opened Php
  import opened Records
  import opened Traversal
  import opened Ranking
  import opened Layout
  import opened Render
  import opened TransientCache

  /** `f` with the edges and items of `g` appended, as the builder pushes them. */
  function Extended(f: Found, g: Found): Found {
    Found(f.edges + g.edges, f.items + g.items)
  }

  lemma ExtendedJoin(f: Found, a: Found, b: Found)
    ensures Extended(Extended(f, a), b) == Extended(f, Join(a, b))
  {
    assert f.edges + a.edges + b.edges == f.edges + (a.edges + b.edges);
    assert f.items + a.items + b.items == f.items + (a.items + b.items);
  }

  lemma FamilyLinksSnoc(families: seq<Family>, i: nat, id: Id, level: int, visited: set<Id>)
    requires i < |families|
    ensures FamilyLinks(families[..i + 1], id, level, visited) ==
      Join(FamilyLinks(families[..i], id, level, visited),
           Join(SpouseLinks(families[i], id, level, visited), ChildLinks(families[i].children, id, level, visited)))
  {
    assert families[..i + 1][..i] == families[..i];
  }

  lemma ChildLinksSnoc(children: seq<Id>, j: nat, id: Id, level: int, visited: set<Id>)
    requires j < |children|
    ensures ChildLinks(children[..j + 1], id, level, visited) ==
      Join(ChildLinks(children[..j], id, level, visited),
           if children[j] !in visited then Found([Edge(id, children[j], Parentage)], [Item(children[j], level + 1)])
           else NoLinks)
  {
    assert children[..j + 1][..j] == children[..j];
    var c := children[j];
    if c !in visited {
    } else {
      var prev := ChildLinks(children[..j], id, level, visited);
      assert Join(prev, NoLinks) == prev by {
        assert prev.edges + [] == prev.edges;
        assert prev.items + [] == prev.items;
      }
    }
  }

  lemma ParentLinksSnoc(db: Db, famc: seq<Id>, i: nat, id: Id, level: int, visited: set<Id>)
    requires i < |famc|
    ensures ParentLinks(db, famc[..i + 1], id, level, visited) ==
      if famc[i] in db.families then
        Join(ParentLinks(db, famc[..i], id, level, visited),
             Join(ParentLink(db.families[famc[i]].husb, id, level, visited),
                  ParentLink(db.families[famc[i]].wife, id, level, visited)))
      else ParentLinks(db, famc[..i], id, level, visited)
  {
    assert famc[..i + 1][..i] == famc[..i];
  }

  /** One turn of the builder's loop, case by case. */
  lemma StepCases(db: Db, opts: Options, w: Walk)
    requires w.stack != []
    ensures var item := w.stack[|w.stack| - 1];
      var rest := w.stack[..|w.stack| - 1];
      var visited := w.visited + {item.id};
      && (item.id in w.visited || item.level > opts.maxDepth ==> Step(db, opts, w) == w.(stack := rest))
      && (!(item.id in w.visited || item.level > opts.maxDepth) && item.id !in db.people ==>
            Step(db, opts, w) == Walk(rest, visited, w.nodes, w.edges))
      && (!(item.id in w.visited || item.level > opts.maxDepth) && item.id in db.people ==>
            var grown := Extended(Found(w.edges, rest), Discover(db, item, visited));
            Step(db, opts, w) ==
              Walk(grown.items, visited, w.nodes + [MakeNode(db, opts, item.id, db.people[item.id])], grown.edges))
  {
  }

  /** `fams` holds, position by position, the families `ids` names. */
  ghost predicate Listed(db: Db, ids: seq<Id>, fams: seq<Family>) {
    |fams| == |ids| && forall k :: 0 <= k < |ids| ==> ids[k] in db.families && fams[k] == db.families[ids[k]]
  }

  lemma ScanEdgesSnoc(edges: seq<Edge>, j: nat, id: Id, level: int, b: Bfs)
    requires j < |edges| && id in b.ranks && b.ranks[id] == level
    ensures ScanEdges(edges[..j + 1], id, level, b) == ScanEdge(edges[j], id, level, ScanEdges(edges[..j], id, level, b))
  {
    assert edges[..j + 1][..j] == edges[..j];
  }

  lemma RankLoopStep(edges: seq<Edge>, b: Bfs, r: Bfs)
    requires QueueRanked(b) && b.queue != [] && b.queue[0] in b.ranks
    requires r == ScanEdges(edges, b.queue[0], b.ranks[b.queue[0]], Bfs(b.queue[1..], b.ranks))
    requires QueueRanked(r)
    ensures RankLoop(edges, b) == RankLoop(edges, r)
  {
  }

  lemma RankLoopDone(edges: seq<Edge>, b: Bfs)
    requires b.queue == []
    ensures RankLoop(edges, b) == b.ranks
  {
  }

  /** Storing over a key whose stale entry was dropped on the way gives the
      same store as storing over the stale entry. */
  lemma StoreOverMiss<V>(e0: map<string, Transient<V>>, e1: map<string, Transient<V>>, key: string, v: V, now: int)
    requires e1 == e0 || e1 == e0 - {key}
    ensures Store(e1, key, v, now) == Store(e0, key, v, now)
  {
  }

  lemma GroupMapSnoc(nodes: seq<Node>, i: nat, ranks: map<Id, int>)
    requires i < |nodes|
    ensures var g := GroupMap(nodes[..i], ranks);
      var l := RankOf(ranks, nodes[i].id);
      GroupMap(nodes[..i + 1], ranks) == g[l := (if l in g then g[l] else []) + [nodes[i]]]
  {
    assert nodes[..i + 1][..i] == nodes[..i];
  }

  lemma MaxLenSnoc(rows: seq<seq<Node>>, i: nat)
    requires i < |rows|
    ensures MaxLen(rows[..i + 1]) == if |rows[i]| > MaxLen(rows[..i]) then |rows[i]| else MaxLen(rows[..i])
  {
    assert rows[..i + 1][..i] == rows[..i];
  }

  lemma LinesSnoc(edges: seq<Edge>, j: nat, pos: map<Id, (int, int)>)
    requires j < |edges|
    ensures Lines(edges[..j + 1], pos) ==
      if edges[j].from in pos && edges[j].to in pos then Lines(edges[..j], pos) + [LineFor(edges[j], pos)]
      else Lines(edges[..j], pos)
  {
    assert edges[..j + 1][..j] == edges[..j];
  }

  lemma PlacementsSnoc(rows: seq<seq<Node>>, r: nat, width: int)
    requires r < |rows|
    ensures Placements(rows[..r + 1], width) ==
      Placements(rows[..r], width) + PlaceRow(rows[r], width, StartY + r * VSpacing)
  {
    assert rows[..r + 1][..r] == rows[..r];
  }

  lemma CardsSnoc(slots: seq<Slot>, node: Node, x: int, y: int)
    ensures RenderSlots(slots + [Slot(node, x, y)]) == RenderSlots(slots) + [RenderNode(node, x, y)]
  {
    var s := Slot(node, x, y);
    var a := RenderSlots(slots + [s]);
    var b := RenderSlots(slots) + [RenderNode(node, x, y)];
    assert |a| == |b|;
    forall i | 0 <= i < |a| ensures a[i] == b[i] {
      if i < |slots| {
        assert (slots + [s])[i] == slots[i];
      }
    }
  }

  lemma PositionsSnoc(slots: seq<Slot>, node: Node, x: int, y: int)
    ensures Positions(slots + [Slot(node, x, y)]) == Positions(slots)[node.id := (x, y)]
  {
    assert (slots + [Slot(node, x, y)])[..|slots|] == slots;
  }

  lemma LineForIs(e: Edge, pos: map<Id, (int, int)>, from: (int, int), to: (int, int))
    requires e.from in pos && e.to in pos && from == pos[e.from] && to == pos[e.to]
    ensures LineFor(e, pos) == Line(from.0 + NodeWidth / 2, from.1 + NodeHeight, to.0 + NodeWidth / 2, to.1, EdgeClass(e.kind))
  {
  }

  lemma PlaceRowStep(slots0: seq<Slot>, row: seq<Node>, width: int, y: int, i: nat, x: int)
    requires i < |row| && x == XOffset(width, |row|) + 220 * i
    ensures (slots0 + PlaceRow(row, width, y)[..i]) + [Slot(row[i], x, y)] == slots0 + PlaceRow(row, width, y)[..i + 1]
  {
    var p := PlaceRow(row, width, y);
    assert p[..i + 1] == p[..i] + [Slot(row[i], x, y)];
  }

  /** The groups in the order of `keys`. */
  function GroupsInOrder(groups: map<int, seq<Node>>, keys: seq<int>): seq<seq<Node>>
    requires forall i :: 0 <= i < |keys| ==> keys[i] in groups
  {
    seq(|keys|, i requires 0 <= i < |keys| && keys[i] in groups => groups[keys[i]])
  }

  /** Sorting the grouping loop's keys gives the rows of the drawing. */
  lemma SortedGroups(nodes: seq<Node>, ranks: map<Id, int>, order: seq<int>, groups: map<int, seq<Node>>)
    requires groups == GroupMap(nodes, ranks)
    requires forall l :: l in order <==> l in groups
    ensures forall i :: 0 <= i < |SortDistinct(order)| ==> SortDistinct(order)[i] in groups
    ensures GroupsInOrder(groups, SortDistinct(order)) == Rows(nodes, ranks)
  {
    var keys := SortDistinct(order);
    IncreasingUnique(keys, RowRanks(nodes, ranks));
  }

  class Generator {
    /** The batch whose records are drawn. */
    const batchId: string
    /** The caller's options merged over the defaults. */
    const options: Options
    /** The record store and page/photo lookups the generator reads. */
    const db: Db

    /** Memo of person lookups; a lookup that found nothing is stored as None,
      which PHP's `isset` treats as absent. */
    var personsCache: map<Id, Option<Person>>
    /** Memo of family lookups, likewise. */
    var familiesCache: map<Id, Option<Family>>
    /** The ids handed to the record store, in order. */
    ghost var personFetches: seq<Id>
    ghost var familyFetches: seq<Id>

    /** The memo tables agree with the record store. */
    ghost predicate Valid()
      reads this
    {
      && (forall id :: id in personsCache ==> personsCache[id] == Lookup(db.people, id))
      && (forall id :: id in familiesCache ==> familiesCache[id] == Lookup(db.families, id))
    }

    constructor (batchId: string, args: OptionArgs, db: Db)
      ensures this.batchId == batchId && options == WithDefaults(args) && this.db == db
      ensures personsCache == map[] && familiesCache == map[]
      ensures personFetches == [] && familyFetches == []
      ensures Valid()
    {
      this.batchId := batchId;
      this.options := WithDefaults(args);
      this.db := db;
      personsCache := map[];
      familiesCache := map[];
      personFetches := [];
      familyFetches := [];
    }

    // -------------------------------------------------------------------
    // Memoised lookups
    // -------------------------------------------------------------------

    /** `get_person_cached`: a person found earlier is answered from the memo
      without asking the store again; anything else is fetched and memoised. */
    method GetPersonCached(id: Id) returns (p: Option<Person>)
      requires Valid()
      modifies this
      ensures Valid()
      ensures p == Lookup(db.people, id)
      ensures old(id in personsCache && personsCache[id].Some?) ==>
        personsCache == old(personsCache) && personFetches == old(personFetches)
      ensures !old(id in personsCache && personsCache[id].Some?) ==>
        personsCache == old(personsCache)[id := p] && personFetches == old(personFetches) + [id]
      ensures familiesCache == old(familiesCache) && familyFetches == old(familyFetches)
    {
      if id in personsCache && personsCache[id].Some? {
        return personsCache[id];
      }
      p := Lookup(db.people, id);
      personsCache := personsCache[id := p];
      personFetches := personFetches + [id];
    }

    /** `get_family_cached`, the same memo for families. */
    method GetFamilyCached(id: Id) returns (f: Option<Family>)
      requires Valid()
      modifies this
      ensures Valid()
      ensures f == Lookup(db.families, id)
      ensures old(id in familiesCache && familiesCache[id].Some?) ==>
        familiesCache == old(familiesCache) && familyFetches == old(familyFetches)
      ensures !old(id in familiesCache && familiesCache[id].Some?) ==>
        familiesCache == old(familiesCache)[id := f] && familyFetches == old(familyFetches) + [id]
      ensures personsCache == old(personsCache) && personFetches == old(personFetches)
    {
      if id in familiesCache && familiesCache[id].Some? {
        return familiesCache[id];
      }
      f := Lookup(db.families, id);
      familiesCache := familiesCache[id := f];
      familyFetches := familyFetches + [id];
    }

    /** `get_families_for_person_cached`: the existing families of the
      person's FAMS references and then its FAMC references, each once, in
      the order their ids were first seen (the source collects them as the
      values of an array keyed by family id). */
    method GetFamiliesForPersonCached(personId: Id) returns (fams: seq<Family>)
      requires Valid()
      modifies this
      ensures Valid()
      ensures fams == FamiliesFor(db, personId)
    {
      var person := GetPersonCached(personId);
      if person.None? {
        return [];
      }
      var refs := person.value.fams + person.value.famc;
      var ids: seq<Id> := [];
      fams := [];
      for i := 0 to |refs|
        invariant Valid()
        invariant ids == FamilyIds(db, refs[..i])
        invariant Listed(db, ids, fams)
      {
        assert refs[..i + 1] == refs[..i] + [refs[i]];
        ids, fams := CollectFamily(refs[i], ids, fams);
      }
      assert refs[..|refs|] == refs;
    }

    /** One pass of the loop in `get_families_for_person_cached`: the
      family `famId` is fetched and kept when it exists and is new. */
    method CollectFamily(famId: Id, ids0: seq<Id>, fams0: seq<Family>) returns (ids: seq<Id>, fams: seq<Family>)
      requires Valid() && Listed(db, ids0, fams0)
      modifies this
      ensures Valid() && Listed(db, ids, fams)
      ensures ids == if famId in db.families && famId !in ids0 then ids0 + [famId] else ids0
    {
      ids, fams := ids0, fams0;
      var fam := GetFamilyCached(famId);
      if fam.Some? && famId !in ids {
        ids := ids + [famId];
        fams := fams + [fam.value];
      }
    }

    // -------------------------------------------------------------------
    // The tree builder
    // -------------------------------------------------------------------

    /** The spouse and children of `id` in each of `families`, pushed and
      recorded family by family ("Add spouses", "Add children"). */
    method AddFamilyLinks(families: seq<Family>, id: Id, level: int, visited: set<Id>,
                          stack0: seq<Item>, edges0: seq<Edge>)
      returns (stack: seq<Item>, edges: seq<Edge>)
      ensures Found(edges, stack) == Extended(Found(edges0, stack0), FamilyLinks(families, id, level, visited))
    {
      stack, edges := stack0, edges0;
      for i := 0 to |families|
        invariant Found(edges, stack) == Extended(Found(edges0, stack0), FamilyLinks(families[..i], id, level, visited))
      {
        var fam := families[i];
        FamilyLinksSnoc(families, i, id, level, visited);
        ghost var before := Found(edges, stack);
        var spouse := SpouseId(fam, id);
        if spouse.Some? && Truthy(spouse.value) && spouse.value !in visited {
          edges := edges + [Edge(id, spouse.value, Marriage)];
          stack := stack + [Item(spouse.value, level)];
        }
        ghost var spouses := SpouseLinks(fam, id, level, visited);
        assert Found(edges, stack) == Extended(before, spouses);
        stack, edges := AddChildLinks(fam.children, id, level, visited, stack, edges);
        ExtendedJoin(before, spouses, ChildLinks(fam.children, id, level, visited));
        ExtendedJoin(Found(edges0, stack0), FamilyLinks(families[..i], id, level, visited),
          Join(spouses, ChildLinks(fam.children, id, level, visited)));
      }
      assert families[..|families|] == families;
    }

    /** Every unvisited child, pushed one level down ("Add children"). */
    method AddChildLinks(children: seq<Id>, id: Id, level: int, visited: set<Id>,
                         stack0: seq<Item>, edges0: seq<Edge>)
      returns (stack: seq<Item>, edges: seq<Edge>)
      ensures Found(edges, stack) == Extended(Found(edges0, stack0), ChildLinks(children, id, level, visited))
    {
      stack, edges := stack0, edges0;
      for j := 0 to |children|
        invariant Found(edges, stack) == Extended(Found(edges0, stack0), ChildLinks(children[..j], id, level, visited))
      {
        ChildLinksSnoc(children, j, id, level, visited);
        var child := children[j];
        if child !in visited {
          edges := edges + [Edge(id, child, Parentage)];
          stack := stack + [Item(child, level + 1)];
        }
        ExtendedJoin(Found(edges0, stack0), ChildLinks(children[..j], id, level, visited),
          if child !in visited then Found([Edge(id, child, Parentage)], [Item(child, level + 1)]) else NoLinks);
      }
      assert children[..|children|] == children;
    }

    /** The father and then the mother of every existing FAMC family of
      `id`, pushed one level up ("Add parents"). */
    method AddParentLinks(famc: seq<Id>, id: Id, level: int, visited: set<Id>,
                          stack0: seq<Item>, edges0: seq<Edge>)
      returns (stack: seq<Item>, edges: seq<Edge>)
      requires Valid()
      modifies this
      ensures Valid()
      ensures Found(edges, stack) == Extended(Found(edges0, stack0), ParentLinks(db, famc, id, level, visited))
    {
      stack, edges := stack0, edges0;
      for i := 0 to |famc|
        invariant Valid()
        invariant Found(edges, stack) == Extended(Found(edges0, stack0), ParentLinks(db, famc[..i], id, level, visited))
      {
        ParentLinksSnoc(db, famc, i, id, level, visited);
        ghost var before := Found(edges, stack);
        var family := GetFamilyCached(famc[i]);
        if family.Some? {
          var f := family.value;
          // the two-element loop over [HUSB, WIFE], unrolled
          if RefPresent(f.husb) && f.husb.value !in visited {
            edges := edges + [Edge(f.husb.value, id, Parentage)];
            stack := stack + [Item(f.husb.value, level - 1)];
          }
          ghost var father := ParentLink(f.husb, id, level, visited);
          assert Found(edges, stack) == Extended(before, father);
          ghost var mid := Found(edges, stack);
          if RefPresent(f.wife) && f.wife.value !in visited {
            edges := edges + [Edge(f.wife.value, id, Parentage)];
            stack := stack + [Item(f.wife.value, level - 1)];
          }
          ghost var mother := ParentLink(f.wife, id, level, visited);
          assert Found(edges, stack) == Extended(mid, mother);
          ExtendedJoin(before, father, mother);
          ExtendedJoin(Found(edges0, stack0), ParentLinks(db, famc[..i], id, level, visited), Join(father, mother));
        }
      }
      assert famc[..|famc|] == famc;
    }

    /** `build_tree_iteratively`: pop an item, skip it when already visited
      or deeper than `max_depth`, otherwise mark it visited and, when the
      person exists, admit it and push its relatives; stop when the stack
      is empty or the node budget is spent. */
    method BuildTreeIteratively(startId: Id) returns (t: Tree)
      requires Valid()
      modifies this
      ensures Valid()
      ensures t == Traverse(db, options, startId)
    {
      var stack := [Item(startId, 0)];
      var visited: set<Id> := {};
      var nodes: seq<Node> := [];
      var edges: seq<Edge> := [];
      while stack != [] && |nodes| < options.maxNodes
        invariant Valid()
        invariant Run(db, options, Walk(stack, visited, nodes, edges)) == Run(db, options, Initial(startId))
        decreases |Pending(db, Walk(stack, visited, nodes, edges))|, |stack|
      {
        ghost var w := Walk(stack, visited, nodes, edges);
        StepShrinks(db, options, w);
        RunStep(db, options, w);
        var item := stack[|stack| - 1];
        if item.id in visited || item.level > options.maxDepth {
          stack := stack[..|stack| - 1];
          StepCases(db, options, w);
          continue;
        }
        stack, visited, nodes, edges := VisitTop(stack, visited, nodes, edges);
      }
      RunDone(db, options, Walk(stack, visited, nodes, edges));
      t := Tree(nodes, edges);
    }

    /** One visit of the loop in `build_tree_iteratively`: the top item,
      neither visited nor too deep, is popped and visited. */
    method VisitTop(stack0: seq<Item>, visited0: set<Id>, nodes0: seq<Node>, edges0: seq<Edge>)
      returns (stack: seq<Item>, visited: set<Id>, nodes: seq<Node>, edges: seq<Edge>)
      requires Valid()
      requires stack0 != []
      requires stack0[|stack0| - 1].id !in visited0 && stack0[|stack0| - 1].level <= options.maxDepth
      modifies this
      ensures Valid()
      ensures Walk(stack, visited, nodes, edges) == Step(db, options, Walk(stack0, visited0, nodes0, edges0))
    {
      StepCases(db, options, Walk(stack0, visited0, nodes0, edges0));
      var item := stack0[|stack0| - 1];
      stack, nodes, edges := stack0[..|stack0| - 1], nodes0, edges0;
      visited := visited0 + {item.id};
      var person := GetPersonCached(item.id);
      if person.None? {
        return;
      }
      nodes := nodes + [MakeNode(db, options, item.id, person.value)];
      ghost var before := Found(edges, stack);
      var families := GetFamiliesForPersonCached(item.id);
      stack, edges := AddFamilyLinks(families, item.id, item.level, visited, stack, edges);
      stack, edges := AddParentLinks(person.value.famc, item.id, item.level, visited, stack, edges);
      ExtendedJoin(before, FamilyLinks(families, item.id, item.level, visited),
        ParentLinks(db, person.value.famc, item.id, item.level, visited));
    }

    // -------------------------------------------------------------------
    // The renderer
    // -------------------------------------------------------------------

    /** The rank pass: a queue taken from its front; for each dequeued id,
      every edge is examined, ranking an unranked head forwards and then an
      unranked tail backwards. */
    method AssignRanks(root: Id, edges: seq<Edge>) returns (ranks: map<Id, int>)
      ensures ranks == Ranks(root, edges)
    {
      var queue := [root];
      ranks := map[root := 0];
      while queue != []
        invariant QueueRanked(Bfs(queue, ranks))
        invariant RankLoop(edges, Bfs(queue, ranks)) == Ranks(root, edges)
        decreases |EdgeIds(edges) - ranks.Keys|, |queue|
      {
        ghost var b := Bfs(queue, ranks);
        assert queue[0] in queue;
        ScanShrinks(edges, b);
        var id := queue[0];
        var level := ranks[id];
        queue, ranks := ScanEdgesFrom(edges, id, level, queue[1..], ranks);
        RankLoopStep(edges, b, Bfs(queue, ranks));
      }
      RankLoopDone(edges, Bfs(queue, ranks));
    }

    /** The inner loop of the rank pass, for one dequeued `id` at `level`. */
    method ScanEdgesFrom(edges: seq<Edge>, id: Id, level: int, queue0: seq<Id>, ranks0: map<Id, int>)
      returns (queue: seq<Id>, ranks: map<Id, int>)
      requires id in ranks0 && ranks0[id] == level
      ensures Bfs(queue, ranks) == ScanEdges(edges, id, level, Bfs(queue0, ranks0))
    {
      queue, ranks := queue0, ranks0;
      for j := 0 to |edges|
        invariant Bfs(queue, ranks) == ScanEdges(edges[..j], id, level, Bfs(queue0, ranks0))
      {
        ScanEdgesSnoc(edges, j, id, level, Bfs(queue0, ranks0));
        queue, ranks := ScanEdgeAt(edges[j], id, level, queue, ranks);
      }
      assert edges[..|edges|] == edges;
    }

    /** The body of the inner loop: edge `e` followed forwards from the
      dequeued `id`, then backwards to it. */
    method ScanEdgeAt(e: Edge, id: Id, level: int, queue0: seq<Id>, ranks0: map<Id, int>)
      returns (queue: seq<Id>, ranks: map<Id, int>)
      ensures Bfs(queue, ranks) == ScanEdge(e, id, level, Bfs(queue0, ranks0))
    {
      queue, ranks := queue0, ranks0;
      if e.from == id && e.to !in ranks {
        ranks := ranks[e.to := level + ForwardDelta(e.kind)];
        queue := queue + [e.to];
      }
      if e.to == id && e.from !in ranks {
        ranks := ranks[e.from := level - 1];
        queue := queue + [e.from];
      }
    }

    /** Grouping by rank: each node joins the row of its rank (0 when
      unranked); `order` lists the ranks in first-seen order, as the keys
      of the PHP array do. */
    method GroupByRank(nodes: seq<Node>, ranks: map<Id, int>)
      returns (order: seq<int>, groups: map<int, seq<Node>>)
      ensures groups == GroupMap(nodes, ranks)
      ensures forall i, j :: 0 <= i < j < |order| ==> order[i] != order[j]
      ensures forall l :: l in order <==> l in groups
    {
      order, groups := [], map[];
      for i := 0 to |nodes|
        invariant groups == GroupMap(nodes[..i], ranks)
        invariant forall a, b :: 0 <= a < b < |order| ==> order[a] != order[b]
        invariant forall l :: l in order <==> l in groups
      {
        GroupMapSnoc(nodes, i, ranks);
        var l := RankOf(ranks, nodes[i].id);
        if l in groups {
          groups := groups[l := groups[l] + [nodes[i]]];
        } else {
          assert [] + [nodes[i]] == [nodes[i]];
          groups := groups[l := [nodes[i]]];
          order := order + [l];
        }
      }
      assert nodes[..|nodes|] == nodes;
    }

    /** The length of the longest row. */
    method MaxRowWidth(rows: seq<seq<Node>>) returns (m: nat)
      ensures m == MaxLen(rows)
    {
      m := 0;
      for i := 0 to |rows|
        invariant m == MaxLen(rows[..i])
      {
        MaxLenSnoc(rows, i);
        if |rows[i]| > m {
          m := |rows[i]|;
        }
      }
      assert rows[..|rows|] == rows;
    }

    /** Row by row from y = 100, each row centred at x = (width - (c-1)*220)/2
      and stepping 220 per card, a card per node and its position. */
    method PlaceCards(rows: seq<seq<Node>>, width: int)
      returns (cards: seq<Placed>, positions: map<Id, (int, int)>)
      ensures cards == RenderSlots(Placements(rows, width))
      ensures positions == Positions(Placements(rows, width))
    {
      cards, positions := [], map[];
      ghost var slots: seq<Slot> := [];
      var y := StartY;
      for r := 0 to |rows|
        invariant slots == Placements(rows[..r], width)
        invariant cards == RenderSlots(slots) && positions == Positions(slots)
        invariant y == StartY + r * VSpacing
      {
        PlacementsSnoc(rows, r, width);
        cards, positions := PlaceRowCards(rows[r], width, y, slots, cards, positions);
        slots := slots + PlaceRow(rows[r], width, y);
        y := y + VSpacing;
      }
      assert rows[..|rows|] == rows;
    }

    /** One row of cards, left to right, 220 apart. */
    method PlaceRowCards(row: seq<Node>, width: int, y: int, ghost slots0: seq<Slot>,
                         cards0: seq<Placed>, positions0: map<Id, (int, int)>)
      returns (cards: seq<Placed>, positions: map<Id, (int, int)>)
      requires cards0 == RenderSlots(slots0) && positions0 == Positions(slots0)
      ensures cards == RenderSlots(slots0 + PlaceRow(row, width, y))
      ensures positions == Positions(slots0 + PlaceRow(row, width, y))
    {
      cards, positions := cards0, positions0;
      ghost var slots := slots0;
      var x := XOffset(width, |row|);
      for i := 0 to |row|
        invariant slots == slots0 + PlaceRow(row, width, y)[..i]
        invariant cards == RenderSlots(slots) && positions == Positions(slots)
        invariant x == XOffset(width, |row|) + 220 * i
      {
        PlaceRowStep(slots0, row, width, y, i, x);
        cards, positions := PlaceCard(row[i], x, y, slots, cards, positions);
        slots := slots + [Slot(row[i], x, y)];
        x := x + HSpacing;
      }
      assert PlaceRow(row, width, y)[..|row|] == PlaceRow(row, width, y);
    }

    /** One card drawn at (`x`, `y`) and its corner recorded under the person's id. */
    method PlaceCard(n: Node, x: int, y: int, ghost slots: seq<Slot>,
                     cards0: seq<Placed>, positions0: map<Id, (int, int)>)
      returns (cards: seq<Placed>, positions: map<Id, (int, int)>)
      requires cards0 == RenderSlots(slots) && positions0 == Positions(slots)
      ensures cards == RenderSlots(slots + [Slot(n, x, y)])
      ensures positions == Positions(slots + [Slot(n, x, y)])
    {
      CardsSnoc(slots, n, x, y);
      PositionsSnoc(slots, n, x, y);
      cards := cards0 + [RenderNode(n, x, y)];
      positions := positions0[n.id := (x, y)];
    }

    /** A line for every edge whose two ends were placed, in edge order. */
    method DrawEdges(edges: seq<Edge>, positions: map<Id, (int, int)>) returns (lines: seq<Line>)
      ensures lines == Lines(edges, positions)
    {
      lines := [];
      for j := 0 to |edges|
        invariant lines == Lines(edges[..j], positions)
      {
        LinesSnoc(edges, j, positions);
        var e := edges[j];
        if e.from in positions && e.to in positions {
          var from := positions[e.from];
          var to := positions[e.to];
          var line := Line(from.0 + NodeWidth / 2, from.1 + NodeHeight, to.0 + NodeWidth / 2, to.1,
                           EdgeClass(e.kind));
          LineForIs(e, positions, from, to);
          lines := lines + [line];
        }
      }
      assert edges[..|edges|] == edges;
    }

    /** `render_svg`: the "No data" drawing for an empty tree; otherwise rank
      from the first node, group, sort the rows by rank, size the viewBox,
      place the cards and draw the edges. */
    method RenderSvg(t: Tree) returns (d: Document)
      ensures d == Render.Render(t)
    {
      if t.nodes == [] {
        return NoData;
      }
      var rows := RankRows(t);
      d := DrawRows(t.edges, rows);
    }

    /** The first half of `render_svg`: the nodes grouped by their rank
      from the first node, the groups in increasing rank (`ksort`). */
    method RankRows(t: Tree) returns (rows: seq<seq<Node>>)
      requires t.nodes != []
      ensures rows == Rows(t.nodes, Ranks(t.nodes[0].id, t.edges))
    {
      var ranks := AssignRanks(t.nodes[0].id, t.edges);
      var order, groups := GroupByRank(t.nodes, ranks);
      SortedGroups(t.nodes, ranks, order, groups);
      var keys := SortDistinct(order);
      rows := GroupsInOrder(groups, keys);
    }

    /** The second half of `render_svg`: size the viewBox from the widest
      row and the number of rows, place the cards and draw the edges. */
    method DrawRows(edges: seq<Edge>, rows: seq<seq<Node>>) returns (d: Document)
      ensures d == Drawing(edges, rows)
    {
      var maxWidth := MaxRowWidth(rows);
      var width := StartX * 2 + maxWidth * HSpacing;
      var height := StartY * 2 + |rows| * VSpacing;
      var cards, positions := PlaceCards(rows, width);
      var lines := DrawEdges(edges, positions);
      d := Svg(width, height, AvatarSymbols, cards, lines);
    }

    // -------------------------------------------------------------------
    // The entry point
    // -------------------------------------------------------------------

    /** `generate_svg`: a stored drawing that has not expired is returned as
      it is; otherwise the tree is built and drawn, and the drawing is stored
      for a day under the key of (batch, person, options). */
    method GenerateSvg(personId: Id, store: TransientStore<Document>, now: int) returns (svg: Document)
      requires Valid()
      modifies this, store
      ensures Valid()
      ensures var key := CacheKey(batchId, personId, options);
        var hit := Fetch(old(store.entries), key, now);
        && (hit.Some? ==> svg == hit.value && store.entries == old(store.entries))
        && (hit.None? ==> svg == Render.Render(Traverse(db, options, personId)) &&
                          store.entries == Store(old(store.entries), key, svg, now))
    {
      var key := CacheKey(batchId, personId, options);
      ghost var entries0 := store.entries;
      var cached := store.Get(key, now);
      if cached.Some? {
        return cached.value;
      }
      var tree := BuildTreeIteratively(personId);
      svg := RenderSvg(tree);
      ghost var entries1 := store.entries;
      store.Set(key, svg, now);
      StoreOverMiss(entries0, entries1, key, svg, now);
    }
  }
}
