/** The tree builder of the SVG generator, as a function of the record
    store: a depth-first walk from the start person over spouse, child and
    parent links, bounded by a node budget and a depth bound. The walk state
    is the explicit stack, the visited set and the node and edge lists the
    builder fills in. */
module Traversal {
  import opened Wrappers
  import opened Php
  import opened Records

  // ---------------------------------------------------------------------
  // Options, nodes, edges
  // ---------------------------------------------------------------------

  /** The generator's options after defaults are merged in. `orientation`
      is carried along but nothing reads it. */
  datatype Options = Options(includePhotos: bool, orientation: string, maxNodes: int, maxDepth: int)

  /** The options a caller passes; a missing entry takes its default. */
  datatype OptionArgs = OptionArgs(
    includePhotos: Option<bool>,
    orientation: Option<string>,
    maxNodes: Option<int>,
    maxDepth: Option<int>)

  /** The defaults are photos on, vertical, 500 nodes and depth 10; any
      entry the caller passes wins. */
  function WithDefaults(args: OptionArgs): (o: Options)
    ensures args.includePhotos.None? ==> o.includePhotos
    ensures args.orientation.None? ==> o.orientation == "vertical"
    ensures args.maxNodes.None? ==> o.maxNodes == 500
    ensures args.maxDepth.None? ==> o.maxDepth == 10
    ensures args.includePhotos.Some? ==> o.includePhotos == args.includePhotos.value
    ensures args.orientation.Some? ==> o.orientation == args.orientation.value
    ensures args.maxNodes.Some? ==> o.maxNodes == args.maxNodes.value
    ensures args.maxDepth.Some? ==> o.maxDepth == args.maxDepth.value
  {
    Options(
      args.includePhotos.GetOr(true),
      args.orientation.GetOr("vertical"),
      args.maxNodes.GetOr(500),
      args.maxDepth.GetOr(10))
  }

  /** 'spouse' and 'parent-child' edges. */
  datatype EdgeKind = Marriage | Parentage

  function KindName(k: EdgeKind): string {
    match k
    case Marriage => "spouse"
    case Parentage => "parent-child"
  }

  /** A parent-child edge always runs from the parent to the child. */
  datatype Edge = Edge(from: Id, to: Id, kind: EdgeKind)

  /** What the tree keeps about an admitted person. */
  datatype Node = Node(
    id: Id,
    name: string,
    birth: string,
    death: string,
    sex: string,
    permalink: Option<string>,
    photo: Option<string>)

  /** The picture of a person, looked up only when photos are enabled. */
  function PhotoUrl(db: Db, opts: Options, id: Id): (r: Option<string>)
    ensures !opts.includePhotos ==> r.None?
    ensures opts.includePhotos ==> r == Lookup(db.photos, id)
  {
    if opts.includePhotos then Lookup(db.photos, id) else None
  }

  function MakeNode(db: Db, opts: Options, id: Id, p: Person): (n: Node)
    ensures n.id == id
  {
    Node(id, FormatName(p), EventDate(p.birth), EventDate(p.death), p.sex.GetOr("U"),
         Lookup(db.permalinks, id), PhotoUrl(db, opts, id))
  }

  // ---------------------------------------------------------------------
  // Discovering the relatives of one person
  // ---------------------------------------------------------------------

  /** A pending visit: a person id and its level relative to the start. */
  datatype Item = Item(id: Id, level: int)

  /** The edges and stack items one visit adds, in the order it adds them;
      `edges[k]` is the edge that led to `items[k]`. */
  datatype Found = Found(edges: seq<Edge>, items: seq<Item>)

  const NoLinks := Found([], [])

  function Join(a: Found, b: Found): Found {
    Found(a.edges + b.edges, a.items + b.items)
  }

  /** How a found relative stands to the visited person. */
  datatype Relative = Spouse | Child | Parent

  /** Edge `e` joins `id`, visited at `level`, to the unvisited relative
      `it`: a spouse stays on the same level, a child goes one level down
      and a parent one level up; the parent-child edge runs parent to child. */
  predicate Link(rel: Relative, e: Edge, it: Item, id: Id, level: int, visited: set<Id>) {
    it.id !in visited &&
    match rel
    case Spouse => e == Edge(id, it.id, Marriage) && it.level == level
    case Child => e == Edge(id, it.id, Parentage) && it.level == level + 1
    case Parent => e == Edge(it.id, id, Parentage) && it.level == level - 1
  }

  /** A non-empty sequence is its front followed by its last element. */
  lemma SplitLast<T>(s: seq<T>)
    requires s != []
    ensures s == s[..|s| - 1] + [s[|s| - 1]]
  {
  }

  /** Every link of `f` is of kind `rel`. */
  predicate Links(f: Found, rel: Relative, id: Id, level: int, visited: set<Id>) {
    |f.edges| == |f.items| &&
    forall k :: 0 <= k < |f.items| ==> Link(rel, f.edges[k], f.items[k], id, level, visited)
  }

  /** Every link of `f` is a spouse, child or parent link. */
  predicate WellLinked(f: Found, id: Id, level: int, visited: set<Id>) {
    |f.edges| == |f.items| &&
    forall k :: 0 <= k < |f.items| ==>
      Link(Spouse, f.edges[k], f.items[k], id, level, visited) ||
      Link(Child, f.edges[k], f.items[k], id, level, visited) ||
      Link(Parent, f.edges[k], f.items[k], id, level, visited)
  }

  ghost function ItemIds(items: seq<Item>): set<Id> {
    set it | it in items :: it.id
  }

  /** The spouse of `id` in `family`, unless its id is falsy or already visited. */
  function SpouseLinks(family: Family, id: Id, level: int, visited: set<Id>): (r: Found)
    ensures Links(r, Spouse, id, level, visited)
    ensures ItemIds(r.items) <= Members(family)
    ensures r.items != [] <==>
      SpouseId(family, id).Some? && Truthy(SpouseId(family, id).value) && SpouseId(family, id).value !in visited
  {
    match SpouseId(family, id)
    case Some(s) => if Truthy(s) && s !in visited then Found([Edge(id, s, Marriage)], [Item(s, level)]) else NoLinks
    case None => NoLinks
  }

  /** A present but empty HUSB element hides the wife: `get_spouse_id`
      returns its text "", and the truthiness test then adds no spouse. */
  lemma SpouseLinksEmptyHusband(family: Family, id: Id, level: int, visited: set<Id>)
    requires family.husb == Some("") && id != ""
    ensures SpouseId(family, id) == Some("")
    ensures SpouseLinks(family, id, level, visited) == NoLinks
  {
  }

  /** Every unvisited child, in order, one level below `id`. */
  function ChildLinks(children: seq<Id>, id: Id, level: int, visited: set<Id>): (r: Found)
    ensures Links(r, Child, id, level, visited)
    ensures forall it :: it in r.items ==> it.id in children
    ensures forall c :: c in children && c !in visited ==> Item(c, level + 1) in r.items
    decreases |children|
  {
    if children == [] then NoLinks
    else
      var prev := ChildLinks(children[..|children| - 1], id, level, visited);
      var c := children[|children| - 1];
      assert children == children[..|children| - 1] + [c];
      if c !in visited then Join(prev, Found([Edge(id, c, Parentage)], [Item(c, level + 1)]))
      else prev
  }

  /** The spouse and then the children of `id` in each family, family by family. */
  function FamilyLinks(families: seq<Family>, id: Id, level: int, visited: set<Id>): (r: Found)
    ensures |r.edges| == |r.items|
    ensures forall k :: 0 <= k < |r.items| ==>
      Link(Spouse, r.edges[k], r.items[k], id, level, visited) ||
      Link(Child, r.edges[k], r.items[k], id, level, visited)
    ensures forall it :: it in r.items ==> exists f :: f in families && it.id in Members(f)
    decreases |families|
  {
    if families == [] then NoLinks
    else
      var prev := FamilyLinks(families[..|families| - 1], id, level, visited);
      var f := families[|families| - 1];
      var here := Join(SpouseLinks(f, id, level, visited), ChildLinks(f.children, id, level, visited));
      FamilyLinksStep(families, prev, SpouseLinks(f, id, level, visited),
        ChildLinks(f.children, id, level, visited), id, level, visited);
      Join(prev, here)
  }

  /** The facts `FamilyLinks` states, carried from the families before the
      last one to all of them. */
  lemma FamilyLinksStep(families: seq<Family>, prev: Found, spouse: Found, child: Found,
                        id: Id, level: int, visited: set<Id>)
    requires families != []
    requires |prev.edges| == |prev.items|
    requires forall k :: 0 <= k < |prev.items| ==>
      Link(Spouse, prev.edges[k], prev.items[k], id, level, visited) ||
      Link(Child, prev.edges[k], prev.items[k], id, level, visited)
    requires forall it :: it in prev.items ==>
      exists g :: g in families[..|families| - 1] && it.id in Members(g)
    requires Links(spouse, Spouse, id, level, visited)
    requires Links(child, Child, id, level, visited)
    requires forall it :: it in spouse.items + child.items ==> it.id in Members(families[|families| - 1])
    ensures var r := Join(prev, Join(spouse, child));
      && |r.edges| == |r.items|
      && (forall k :: 0 <= k < |r.items| ==>
        Link(Spouse, r.edges[k], r.items[k], id, level, visited) ||
        Link(Child, r.edges[k], r.items[k], id, level, visited))
      && (forall it :: it in r.items ==> exists g :: g in families && it.id in Members(g))
  {
    var f := families[|families| - 1];
    var here := Join(spouse, child);
    var r := Join(prev, here);
    forall k | 0 <= k < |r.items|
      ensures Link(Spouse, r.edges[k], r.items[k], id, level, visited) ||
        Link(Child, r.edges[k], r.items[k], id, level, visited)
    {
      if k >= |prev.items| {
        var j := k - |prev.items|;
        assert r.items[k] == here.items[j] && r.edges[k] == here.edges[j];
        if j >= |spouse.items| {
          assert here.items[j] == child.items[j - |spouse.items|];
          assert here.edges[j] == child.edges[j - |spouse.items|];
        }
      }
    }
    forall it | it in r.items ensures exists g :: g in families && it.id in Members(g) {
      if it in prev.items {
        var g :| g in families[..|families| - 1] && it.id in Members(g);
        assert g in families;
      } else {
        assert it in here.items;
        assert f in families;
      }
    }
  }

  /** One parent reference, if present and unvisited, one level above `id`;
      the reference is read as its text, as the children's are. */
  function ParentLink(parent: Option<Id>, id: Id, level: int, visited: set<Id>): (r: Found)
    ensures Links(r, Parent, id, level, visited)
    ensures r.items != [] <==> RefPresent(parent) && parent.value !in visited
    ensures r.items != [] ==> r.items == [Item(parent.value, level - 1)]
  {
    if RefPresent(parent) && parent.value !in visited then
      Found([Edge(parent.value, id, Parentage)], [Item(parent.value, level - 1)])
    else NoLinks
  }

  /** What `$family->HUSB ?? null` yields: null for a missing element,
      otherwise the element object itself rather than its text. */
  datatype PhpRef = NullRef | ElementRef(text: string)

  function ElementOf(r: Option<Id>): PhpRef {
    match r
    case None => NullRef
    case Some(t) => ElementRef(t)
  }

  /** The outcome of one parent step. */
  datatype ParentStep = Skipped | Pushed(parent: Id) | IllegalOffset

  /** The parent step as written: null is false and skipped; an element is a
      true object whatever its text, and `isset($visited[$parent_id])` then
      needs the element object as an array key, which an object is not (PHP 8
      throws a TypeError), so no parent is ever pushed. */
  function ParentStepAsWritten(ref: PhpRef): (s: ParentStep)
    ensures !s.Pushed?
    ensures s == Skipped <==> ref.NullRef?
    ensures s == IllegalOffset <==> ref.ElementRef?
  {
    match ref
    case NullRef => Skipped
    case ElementRef(_) => IllegalOffset
  }

  /** Every present parent element stops the walk as written, including
      every parent that the corrected step pushes. */
  lemma ParentStepAsWrittenFails(parent: Option<Id>, id: Id, level: int, visited: set<Id>)
    requires parent.Some?
    ensures ParentStepAsWritten(ElementOf(parent)) == IllegalOffset
    ensures RefPresent(parent) && parent.value !in visited ==>
      ParentLink(parent, id, level, visited).items == [Item(parent.value, level - 1)]
  {
  }

  /** The father and then the mother in each FAMC family that exists, for
      every FAMC reference in order. */
  function ParentLinks(db: Db, famc: seq<Id>, id: Id, level: int, visited: set<Id>): (r: Found)
    ensures Links(r, Parent, id, level, visited)
    ensures ItemIds(r.items) <= Mentioned(db)
    decreases |famc|
  {
    if famc == [] then NoLinks
    else
      var prev := ParentLinks(db, famc[..|famc| - 1], id, level, visited);
      var ref := famc[|famc| - 1];
      if ref in db.families then
        var f := db.families[ref];
        var here := Join(ParentLink(f.husb, id, level, visited), ParentLink(f.wife, id, level, visited));
        assert ItemIds(here.items) <= Members(f);
        Join(prev, here)
      else prev
  }

  /** Everything a visit of `item` adds: family links, then parent links. */
  function Discover(db: Db, item: Item, visited: set<Id>): (r: Found)
    requires item.id in db.people
    ensures WellLinked(r, item.id, item.level, visited)
    ensures ItemIds(r.items) <= Mentioned(db)
  {
    var families := FamiliesFor(db, item.id);
    var a := FamilyLinks(families, item.id, item.level, visited);
    var b := ParentLinks(db, db.people[item.id].famc, item.id, item.level, visited);
    assert ItemIds(a.items) <= Mentioned(db) by {
      forall x | x in ItemIds(a.items) ensures x in Mentioned(db) {
        var it :| it in a.items && it.id == x;
        var f :| f in families && it.id in Members(f);
      }
    }
    Join(a, b)
  }

  // ---------------------------------------------------------------------
  // The walk
  // ---------------------------------------------------------------------

  /** The builder's state: the stack (popped from its end), the visited
      ids, and the nodes and edges so far. */
  datatype Walk = Walk(stack: seq<Item>, visited: set<Id>, nodes: seq<Node>, edges: seq<Edge>)

  /** The result of the builder. */
  datatype Tree = Tree(nodes: seq<Node>, edges: seq<Edge>)

  function Initial(start: Id): Walk {
    Walk([Item(start, 0)], {}, [], [])
  }

  /** One iteration of the builder's loop: pop an item; skip it if visited
      or deeper than the bound; otherwise mark it visited, and if the
      person exists admit it as a node and push its relatives. */
  function Step(db: Db, opts: Options, w: Walk): Walk
    requires w.stack != []
  {
    var item := w.stack[|w.stack| - 1];
    var rest := w.stack[..|w.stack| - 1];
    if item.id in w.visited || item.level > opts.maxDepth then
      w.(stack := rest)
    else
      var visited := w.visited + {item.id};
      if item.id !in db.people then
        Walk(rest, visited, w.nodes, w.edges)
      else
        var found := Discover(db, item, visited);
        Walk(rest + found.items, visited,
             w.nodes + [MakeNode(db, opts, item.id, db.people[item.id])],
             w.edges + found.edges)
  }

  /** The ids the walk may still visit: a finite set that each visit shrinks. */
  ghost function Pending(db: Db, w: Walk): set<Id> {
    (Mentioned(db) + ItemIds(w.stack)) - w.visited
  }

  lemma {:induction false} SubsetCard<T>(a: set<T>, b: set<T>)
    requires a <= b
    ensures |a| <= |b|
    ensures a < b ==> |a| < |b|
    decreases a
  {
    if a != {} {
      var x :| x in a;
      SubsetCard(a - {x}, b - {x});
    }
  }

  /** A step either visits a pending id or pops without visiting. */
  lemma StepShrinks(db: Db, opts: Options, w: Walk)
    requires w.stack != []
    ensures var w' := Step(db, opts, w);
      |Pending(db, w')| < |Pending(db, w)| ||
      (|Pending(db, w')| == |Pending(db, w)| && |w'.stack| < |w.stack|)
  {
    var item := w.stack[|w.stack| - 1];
    var rest := w.stack[..|w.stack| - 1];
    var w' := Step(db, opts, w);
    if item.id in w.visited || item.level > opts.maxDepth {
      PendingSkip(db, w, w');
    } else if item.id !in db.people {
      assert w'.stack == rest + [];
      PendingVisit(db, w, w', []);
    } else {
      var found := Discover(db, item, w.visited + {item.id});
      assert w'.stack == rest + found.items && w'.visited == w.visited + {item.id};
      PendingVisit(db, w, w', found.items);
    }
  }

  /** Popping without visiting leaves the pending ids as they were or fewer. */
  lemma PendingSkip(db: Db, w: Walk, w': Walk)
    requires w.stack != []
    requires w'.stack == w.stack[..|w.stack| - 1] && w'.visited == w.visited
    ensures |Pending(db, w')| <= |Pending(db, w)| && |w'.stack| < |w.stack|
  {
    SplitLast(w.stack);
    assert ItemIds(w'.stack) <= ItemIds(w.stack);
    SubsetCard(Pending(db, w'), Pending(db, w));
  }

  /** Visiting the top item removes it from the pending ids, and what it
      pushes was already pending or visited. */
  lemma PendingVisit(db: Db, w: Walk, w': Walk, added: seq<Item>)
    requires w.stack != [] && w.stack[|w.stack| - 1].id !in w.visited
    requires w'.stack == w.stack[..|w.stack| - 1] + added
    requires w'.visited == w.visited + {w.stack[|w.stack| - 1].id}
    requires ItemIds(added) <= Mentioned(db)
    ensures |Pending(db, w')| < |Pending(db, w)|
  {
    var item := w.stack[|w.stack| - 1];
    var rest := w.stack[..|w.stack| - 1];
    SplitLast(w.stack);
    assert ItemIds(rest) <= ItemIds(w.stack);
    assert ItemIds(w'.stack) == ItemIds(rest) + ItemIds(added);
    assert item.id in Pending(db, w);
    assert Pending(db, w') < Pending(db, w);
    SubsetCard(Pending(db, w'), Pending(db, w));
  }

  /** The builder's loop: step while the stack is not empty and the node
      budget is not spent. */
  function Run(db: Db, opts: Options, w: Walk): (r: Walk)
    ensures r.stack == [] || |r.nodes| >= opts.maxNodes
    decreases |Pending(db, w)|, |w.stack|
  {
    if w.stack == [] || |w.nodes| >= opts.maxNodes then w
    else
      StepShrinks(db, opts, w);
      Run(db, opts, Step(db, opts, w))
  }

  /** One turn of the loop. */
  lemma RunStep(db: Db, opts: Options, w: Walk)
    requires w.stack != [] && |w.nodes| < opts.maxNodes
    ensures Run(db, opts, w) == Run(db, opts, Step(db, opts, w))
  {
  }

  /** The loop's exit. */
  lemma RunDone(db: Db, opts: Options, w: Walk)
    requires w.stack == [] || |w.nodes| >= opts.maxNodes
    ensures Run(db, opts, w) == w
  {
  }

  /** A step keeps the nodes so far and adds at most one. */
  lemma StepAppends(db: Db, opts: Options, w: Walk)
    requires w.stack != []
    ensures var w' := Step(db, opts, w);
      |w.nodes| <= |w'.nodes| <= |w.nodes| + 1 && w'.nodes[..|w.nodes|] == w.nodes
  {
  }

  /** The depth test cuts only descendants: every parent found from a node
      admitted within the bound lies one level higher, so strictly inside
      the bound, and is never skipped for depth when it is popped. */
  lemma DiscoverParentsWithinDepth(db: Db, item: Item, visited: set<Id>, maxDepth: int)
    requires item.id in db.people && item.level <= maxDepth
    ensures var r := Discover(db, item, visited);
      forall k :: 0 <= k < |r.items| && Link(Parent, r.edges[k], r.items[k], item.id, item.level, visited) ==>
        r.items[k].level <= maxDepth - 1
  {
  }

  /** Every item on the stack is at most one level past the depth bound. */
  ghost predicate DepthBounded(opts: Options, stack: seq<Item>) {
    forall it :: it in stack ==> it.level <= opts.maxDepth + 1
  }

  /** While the stack is depth-bounded, an item is skipped for depth only at
      exactly one level past the bound, a level only a child link reaches
      (a parent link from an admitted node lands two levels lower, by
      DiscoverParentsWithinDepth), and the step keeps the stack bounded. */
  lemma StepDepthCut(db: Db, opts: Options, w: Walk)
    requires w.stack != [] && DepthBounded(opts, w.stack)
    ensures w.stack[|w.stack| - 1].level > opts.maxDepth ==>
      w.stack[|w.stack| - 1].level == opts.maxDepth + 1
    ensures DepthBounded(opts, Step(db, opts, w).stack)
  {
    var item := w.stack[|w.stack| - 1];
    var rest := w.stack[..|w.stack| - 1];
    SplitLast(w.stack);
    assert DepthBounded(opts, rest);
    if !(item.id in w.visited || item.level > opts.maxDepth) && item.id in db.people {
      var found := Discover(db, item, w.visited + {item.id});
      assert Step(db, opts, w).stack == rest + found.items;
      forall it | it in found.items ensures it.level <= opts.maxDepth + 1 {
        var k :| 0 <= k < |found.items| && found.items[k] == it;
      }
    }
  }

  /** The whole loop keeps the stack depth-bounded, so every depth cut it
      makes is of a child one level past the bound. */
  lemma {:induction false} RunDepthBounded(db: Db, opts: Options, w: Walk)
    requires DepthBounded(opts, w.stack)
    ensures DepthBounded(opts, Run(db, opts, w).stack)
    decreases |Pending(db, w)|, |w.stack|
  {
    if w.stack != [] && |w.nodes| < opts.maxNodes {
      StepShrinks(db, opts, w);
      StepDepthCut(db, opts, w);
      RunDepthBounded(db, opts, Step(db, opts, w));
    }
  }

  /** A prefix of a prefix is a prefix. */
  lemma PrefixOfPrefix<T>(a: seq<T>, b: seq<T>, c: seq<T>)
    requires |a| <= |b| <= |c| && b[..|a|] == a && c[..|b|] == b
    ensures c[..|a|] == a
  {
    assert c[..|a|] == c[..|b|][..|a|];
  }

  /** `build_tree_iteratively(start)`. */
  function Traverse(db: Db, opts: Options, start: Id): Tree {
    var w := Run(db, opts, Initial(start));
    Tree(w.nodes, w.edges)
  }

  // ---------------------------------------------------------------------
  // What the walk keeps true
  // ---------------------------------------------------------------------

  ghost function NodeIds(nodes: seq<Node>): set<Id> {
    set n | n in nodes :: n.id
  }

  predicate DistinctIds(nodes: seq<Node>) {
    forall i, j :: 0 <= i < j < |nodes| ==> nodes[i].id != nodes[j].id
  }

  /** Edge `e` joins `x` to one of the ids in `ids`. */
  ghost predicate Touches(e: Edge, x: Id, ids: set<Id>) {
    (e.from == x && e.to in ids) || (e.to == x && e.from in ids)
  }

  /** Some edge joins `x` to one of `nodes`. */
  ghost predicate Linked(x: Id, nodes: seq<Node>, edges: seq<Edge>) {
    exists e :: e in edges && Touches(e, x, NodeIds(nodes))
  }

  /** Every node is a person of the store, built from its record. */
  ghost predicate NodesFromRecords(db: Db, opts: Options, nodes: seq<Node>) {
    forall i :: 0 <= i < |nodes| ==>
      nodes[i].id in db.people && nodes[i] == MakeNode(db, opts, nodes[i].id, db.people[nodes[i].id])
  }

  /** Every edge joins two different people, at least one of them a node,
      and a spouse edge starts at a node. */
  ghost predicate EdgesAnchored(nodes: seq<Node>, edges: seq<Edge>) {
    forall e :: e in edges ==>
      e.from != e.to &&
      (e.from in NodeIds(nodes) || e.to in NodeIds(nodes)) &&
      (e.kind == Marriage ==> e.from in NodeIds(nodes))
  }

  /** The first node is the start person and each later node is joined by
      an edge to a node admitted before it. */
  ghost predicate Connected(start: Id, nodes: seq<Node>, edges: seq<Edge>) {
    (nodes != [] ==> nodes[0].id == start) &&
    forall i :: 0 < i < |nodes| ==> Linked(nodes[i].id, nodes[..i], edges)
  }

  ghost predicate Inv(db: Db, opts: Options, start: Id, w: Walk) {
    && (w.nodes == [] || |w.nodes| <= opts.maxNodes)
    && (forall i :: 0 <= i < |w.nodes| ==> w.nodes[i].id in w.visited)
    && DistinctIds(w.nodes)
    && NodesFromRecords(db, opts, w.nodes)
    && (w.nodes == [] ==> w.edges == [] && (w.stack == [] || (w.stack == [Item(start, 0)] && w.visited == {})))
    && Connected(start, w.nodes, w.edges)
    && (w.nodes != [] ==> forall it :: it in w.stack ==> Linked(it.id, w.nodes, w.edges))
    && EdgesAnchored(w.nodes, w.edges)
  }

  lemma LinkedGrows(x: Id, nodes: seq<Node>, edges: seq<Edge>, nodes': seq<Node>, edges': seq<Edge>)
    requires Linked(x, nodes, edges)
    requires NodeIds(nodes) <= NodeIds(nodes')
    requires forall e :: e in edges ==> e in edges'
    ensures Linked(x, nodes', edges')
  {
    var e :| e in edges && Touches(e, x, NodeIds(nodes));
    assert Touches(e, x, NodeIds(nodes'));
  }

  lemma InitialInv(db: Db, opts: Options, start: Id)
    ensures Inv(db, opts, start, Initial(start))
  {
  }

  /** A step taken while the budget is not spent keeps the invariant. */
  lemma StepInv(db: Db, opts: Options, start: Id, w: Walk)
    requires Inv(db, opts, start, w)
    requires w.stack != [] && |w.nodes| < opts.maxNodes
    ensures Inv(db, opts, start, Step(db, opts, w))
  {
    var item := w.stack[|w.stack| - 1];
    var rest := w.stack[..|w.stack| - 1];
    SplitLast(w.stack);
    if item.id in w.visited || item.level > opts.maxDepth || item.id !in db.people {
      assert forall it :: it in rest ==> it in w.stack;
    } else {
      StepAdmits(db, opts, w);
      var found := Discover(db, item, w.visited + {item.id});
      AdmitRecords(db, opts, w.nodes, item.id);
      AdmitInv(db, opts, start, w, found, MakeNode(db, opts, item.id, db.people[item.id]), Step(db, opts, w));
    }
  }

  lemma AdmitInv(db: Db, opts: Options, start: Id, w: Walk, found: Found, n: Node, w': Walk)
    requires Inv(db, opts, start, w)
    requires w.stack != [] && |w.nodes| < opts.maxNodes
    requires var item := w.stack[|w.stack| - 1];
      && item.id !in w.visited && n.id == item.id
      && WellLinked(found, item.id, item.level, w.visited + {item.id})
      && w' == Walk(w.stack[..|w.stack| - 1] + found.items, w.visited + {item.id},
           w.nodes + [n], w.edges + found.edges)
    requires NodesFromRecords(db, opts, w'.nodes)
    ensures Inv(db, opts, start, w')
  {
    var item := w.stack[|w.stack| - 1];
    var rest := w.stack[..|w.stack| - 1];
    SplitLast(w.stack);
    var visited := w.visited + {item.id};
    assert w.nodes == [] ==> item == Item(start, 0);
    AdmitNodes(start, opts.maxNodes, w, item, n, w');
    assert Connected(start, w'.nodes, w'.edges) by {
      AdmitConnected(start, w, item, w');
    }
    assert forall it :: it in w'.stack ==> Linked(it.id, w'.nodes, w'.edges) by {
      AdmitStack(w, item, rest, found, visited, w');
    }
    assert EdgesAnchored(w'.nodes, w'.edges) by {
      AdmitEdges(w, item, found, visited, w');
    }
  }

  /** The step that admits the item on top of the stack. */
  lemma StepAdmits(db: Db, opts: Options, w: Walk)
    requires w.stack != []
    requires var item := w.stack[|w.stack| - 1];
      item.id !in w.visited && item.level <= opts.maxDepth && item.id in db.people
    ensures var item := w.stack[|w.stack| - 1];
      var visited := w.visited + {item.id};
      var found := Discover(db, item, visited);
      Step(db, opts, w) == Walk(w.stack[..|w.stack| - 1] + found.items, visited,
        w.nodes + [MakeNode(db, opts, item.id, db.people[item.id])], w.edges + found.edges)
  {
  }

  lemma AdmitNodes(start: Id, maxNodes: int, w: Walk, item: Item, n: Node, w': Walk)
    requires w.nodes == [] || |w.nodes| <= maxNodes
    requires forall i :: 0 <= i < |w.nodes| ==> w.nodes[i].id in w.visited
    requires DistinctIds(w.nodes)
    requires |w.nodes| < maxNodes
    requires item.id !in w.visited && n.id == item.id
    requires w.nodes == [] ==> item.id == start
    requires w.nodes != [] ==> w.nodes[0].id == start
    requires w'.nodes == w.nodes + [n] && w'.visited == w.visited + {item.id}
    ensures w'.nodes == [] || |w'.nodes| <= maxNodes
    ensures forall i :: 0 <= i < |w'.nodes| ==> w'.nodes[i].id in w'.visited
    ensures DistinctIds(w'.nodes)
    ensures w'.nodes != [] && w'.nodes[0].id == start
    ensures NodeIds(w'.nodes) == NodeIds(w.nodes) + {item.id}
  {
    assert forall i :: 0 <= i < |w.nodes| ==> w'.nodes[i] == w.nodes[i];
    assert w'.nodes[|w.nodes|] == n;
  }

  lemma AdmitRecords(db: Db, opts: Options, nodes: seq<Node>, id: Id)
    requires NodesFromRecords(db, opts, nodes)
    requires id in db.people
    ensures NodesFromRecords(db, opts, nodes + [MakeNode(db, opts, id, db.people[id])])
  {
    var nodes' := nodes + [MakeNode(db, opts, id, db.people[id])];
    assert forall i :: 0 <= i < |nodes| ==> nodes'[i] == nodes[i];
  }

  lemma AdmitConnected(start: Id, w: Walk, item: Item, w': Walk)
    requires Connected(start, w.nodes, w.edges)
    requires w.nodes != [] ==> forall it :: it in w.stack ==> Linked(it.id, w.nodes, w.edges)
    requires item in w.stack
    requires w.nodes == [] ==> item.id == start
    requires |w'.nodes| == |w.nodes| + 1 && w'.nodes[..|w.nodes|] == w.nodes
    requires w'.nodes[|w.nodes|].id == item.id
    requires forall e :: e in w.edges ==> e in w'.edges
    ensures Connected(start, w'.nodes, w'.edges)
  {
    forall i | 0 < i < |w'.nodes|
      ensures Linked(w'.nodes[i].id, w'.nodes[..i], w'.edges)
    {
      assert w'.nodes[..i] == w.nodes[..i];
      if i < |w.nodes| {
        assert w'.nodes[i] == w.nodes[i];
        LinkedGrows(w'.nodes[i].id, w.nodes[..i], w.edges, w'.nodes[..i], w'.edges);
      } else {
        assert w.nodes[..i] == w.nodes;
        LinkedGrows(item.id, w.nodes, w.edges, w'.nodes[..i], w'.edges);
      }
    }
    if w.nodes != [] {
      assert w'.nodes[0] == w.nodes[0];
    }
  }

  lemma AdmitStack(w: Walk, item: Item, rest: seq<Item>, found: Found, visited: set<Id>, w': Walk)
    requires w.nodes != [] ==> forall it :: it in w.stack ==> Linked(it.id, w.nodes, w.edges)
    requires forall it :: it in rest ==> it in w.stack
    requires w.nodes == [] ==> rest == []
    requires WellLinked(found, item.id, item.level, visited)
    requires w'.stack == rest + found.items && w'.edges == w.edges + found.edges
    requires NodeIds(w'.nodes) == NodeIds(w.nodes) + {item.id}
    ensures forall it :: it in w'.stack ==> Linked(it.id, w'.nodes, w'.edges)
  {
    forall it | it in w'.stack
      ensures Linked(it.id, w'.nodes, w'.edges)
    {
      if it in rest {
        LinkedGrows(it.id, w.nodes, w.edges, w'.nodes, w'.edges);
      } else {
        var k :| 0 <= k < |found.items| && found.items[k] == it;
        var e := found.edges[k];
        assert e == w'.edges[|w.edges| + k];
        assert Touches(e, it.id, NodeIds(w'.nodes));
      }
    }
  }

  lemma AdmitEdges(w: Walk, item: Item, found: Found, visited: set<Id>, w': Walk)
    requires EdgesAnchored(w.nodes, w.edges)
    requires item.id in visited
    requires WellLinked(found, item.id, item.level, visited)
    requires w'.edges == w.edges + found.edges
    requires NodeIds(w'.nodes) == NodeIds(w.nodes) + {item.id}
    ensures EdgesAnchored(w'.nodes, w'.edges)
  {
    forall e | e in w'.edges
      ensures e.from != e.to
      ensures e.from in NodeIds(w'.nodes) || e.to in NodeIds(w'.nodes)
      ensures e.kind == Marriage ==> e.from in NodeIds(w'.nodes)
    {
      if e !in w.edges {
        var k :| 0 <= k < |found.edges| && found.edges[k] == e;
        assert found.items[k].id !in visited;
      }
    }
  }

  lemma {:induction false} RunInv(db: Db, opts: Options, start: Id, w: Walk)
    requires Inv(db, opts, start, w)
    ensures Inv(db, opts, start, Run(db, opts, w))
    decreases |Pending(db, w)|, |w.stack|
  {
    if w.stack != [] && |w.nodes| < opts.maxNodes {
      StepInv(db, opts, start, w);
      StepShrinks(db, opts, w);
      RunInv(db, opts, start, Step(db, opts, w));
    }
  }

  /** The tree the builder returns: at most `maxNodes` nodes, each a
      distinct person of the store built from its record; the start person
      first and every other node joined by an edge to an earlier one; every
      edge joins two different people, at least one of them in the tree,
      and a spouse edge starts in the tree. */
  lemma TraverseShape(db: Db, opts: Options, start: Id)
    ensures var t := Traverse(db, opts, start);
      && |t.nodes| <= (if opts.maxNodes < 0 then 0 else opts.maxNodes)
      && DistinctIds(t.nodes)
      && NodesFromRecords(db, opts, t.nodes)
      && Connected(start, t.nodes, t.edges)
      && EdgesAnchored(t.nodes, t.edges)
  {
    InitialInv(db, opts, start);
    RunInv(db, opts, start, Initial(start));
  }

  /** With photos switched off no node carries a picture. */
  lemma NoPhotosWhenDisabled(db: Db, opts: Options, start: Id)
    requires !opts.includePhotos
    ensures forall n :: n in Traverse(db, opts, start).nodes ==> n.photo.None?
  {
    TraverseShape(db, opts, start);
  }

  /** Once a node is admitted the walk only appends. */
  lemma {:induction false} RunExtends(db: Db, opts: Options, w: Walk)
    ensures var r := Run(db, opts, w);
      |w.nodes| <= |r.nodes| && r.nodes[..|w.nodes|] == w.nodes
    decreases |Pending(db, w)|, |w.stack|
  {
    if w.stack != [] && |w.nodes| < opts.maxNodes {
      StepShrinks(db, opts, w);
      var w' := Step(db, opts, w);
      RunStep(db, opts, w);
      RunExtends(db, opts, w');
      StepAppends(db, opts, w);
      PrefixOfPrefix(w.nodes, w'.nodes, Run(db, opts, w').nodes);
    } else {
      RunDone(db, opts, w);
    }
  }

  /** The tree is empty exactly when the start person is not in the store,
      the node budget is below one, or the depth bound is negative. */
  lemma TraverseEmpty(db: Db, opts: Options, start: Id)
    ensures Traverse(db, opts, start).nodes == [] <==>
      start !in db.people || opts.maxNodes < 1 || opts.maxDepth < 0
  {
    var w := Initial(start);
    if opts.maxNodes < 1 {
      RunDone(db, opts, w);
    } else {
      var w' := Step(db, opts, w);
      RunStep(db, opts, w);
      if start in db.people && opts.maxDepth >= 0 {
        assert |w'.nodes| == 1;
        RunExtends(db, opts, w');
      } else {
        assert w'.stack == [] && w'.nodes == [];
        RunDone(db, opts, w');
      }
    }
  }
}
