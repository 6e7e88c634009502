/** The drawing the renderer produces, as a tree of SVG elements rather than
    text: the avatar symbols, one card per node and one line per drawable
    edge, or the fixed "No data" drawing for an empty tree. */
module Render {
  import opened Wrappers
  import opened Php
  import opened Records
  import opened Traversal
  import opened Ranking
  import opened Layout

  // ---------------------------------------------------------------------
  // Avatar symbols
  // ---------------------------------------------------------------------

  /** A shape inside an avatar symbol (viewBox 0 0 100 100). */
  datatype SymbolShape =
    | Circle(cx: int, cy: int, r: int, fill: string)
    | Path(d: string, fill: string)
    | Glyph(x: int, y: int, text: string)

  datatype Symbol = Symbol(id: string, shapes: seq<SymbolShape>)

  /** The three symbols in `<defs>`: male, female and unknown. */
  const AvatarSymbols: seq<Symbol> := [
    Symbol("rp-avatar-m", [Circle(50, 40, 20, "#e0e0e0"), Path("M30,70 L70,70 L60,100 L40,100 Z", "#e0e0e0")]),
    Symbol("rp-avatar-f", [Circle(50, 45, 20, "#e0e0e0"), Path("M30,70 Q50,85 70,70 L65,100 L35,100 Z", "#e0e0e0")]),
    Symbol("rp-avatar-u", [Circle(50, 50, 30, "#ddd"), Glyph(50, 58, "?")])
  ]

  /** The avatar of a sex code: "m" or "f" after lower-casing, else "u". */
  function AvatarCode(sex: string): (code: string)
    ensures code == "m" || code == "f" || code == "u"
  {
    var s := Lower(sex);
    if s == "m" || s == "f" then s else "u"
  }

  /** Only the one-letter codes M, m, F and f select a sexed avatar. */
  lemma AvatarCodeCases(sex: string)
    ensures AvatarCode(sex) == "m" <==> sex == "m" || sex == "M"
    ensures AvatarCode(sex) == "f" <==> sex == "f" || sex == "F"
  {
    var s := Lower(sex);
    if |sex| == 1 {
      assert s == [LowerChar(sex[0])];
      assert sex == [sex[0]];
    } else {
      assert |s| != 1;
      assert s != "m" && s != "f";
    }
  }

  // ---------------------------------------------------------------------
  // Cards
  // ---------------------------------------------------------------------

  /** What a card group holds, in paint order. */
  datatype Shape =
    | Image(url: string)          // 60 by 60 at (10, 10)
    | Use(href: string)           // 40 by 40 at (20, 15)
    | Frame                       // 180 by 100, rounded, white fill
    | NameText(text: string)      // at (80, 30)
    | DateText(text: string)      // at (80, 50)

  /** A `<g class="rp-tree-node">` translated to (x, y). */
  datatype Card = Card(dataId: string, x: int, y: int, shapes: seq<Shape>)

  /** A card inside an `<a target="_blank">` link, or on its own. */
  datatype Placed = Linked(href: string, card: Card) | Unlinked(card: Card)

  function CardOf(p: Placed): Card {
    match p
    case Linked(_, c) => c
    case Unlinked(c) => c
  }

  /** The date line: birth, then " – " and death when the death date is
      set, trimmed; an empty or "0" result becomes an em dash. */
  function Dates(birth: string, death: string): string {
    var d := Trim(birth + (if Truthy(death) then " – " + death else ""));
    if Truthy(d) then d else "—"
  }

  lemma TrimDropsOneSpace(t: string)
    requires Trimmed(t) && t != []
    ensures Trim(" " + t) == t
  {
    assert (" " + t)[1..] == t;
    TrimOfTrimmed(t);
  }

  /** For trimmed dates the line reads "b – d", "– d", "b" or "—". */
  lemma DatesCases(birth: string, death: string)
    requires Trimmed(birth) && Trimmed(death)
    ensures !Truthy(death) ==> Dates(birth, death) == (if Truthy(birth) then birth else "—")
    ensures Truthy(death) && birth == "" ==> Dates(birth, death) == "– " + death
    ensures Truthy(death) && birth != "" ==> Dates(birth, death) == birth + " – " + death
  {
    if !Truthy(death) {
      assert birth + "" == birth;
      TrimOfTrimmed(birth);
    } else if birth == "" {
      DatesDeathOnly(death);
    } else {
      DatesBoth(birth, death);
    }
  }

  lemma DatesDeathOnly(death: string)
    requires Trimmed(death) && Truthy(death)
    ensures Trim("" + (" – " + death)) == "– " + death
  {
    var t := "– " + death;
    assert "" + (" – " + death) == " " + t;
    assert t[0] == '–' && t[|t| - 1] == death[|death| - 1];
    TrimDropsOneSpace(t);
  }

  lemma DatesBoth(birth: string, death: string)
    requires Trimmed(birth) && Trimmed(death) && Truthy(death) && birth != ""
    ensures Trim(birth + (" – " + death)) == birth + " – " + death
  {
    var s := birth + (" – " + death);
    assert s[0] == birth[0] && s[|s| - 1] == death[|death| - 1];
    TrimOfTrimmed(s);
  }

  /** The card of node `n` with its top-left corner at (x, y). */
  function RenderNode(n: Node, x: int, y: int): Placed {
    var picture :=
      if n.photo.Some? && Truthy(n.photo.value) then Image(n.photo.value)
      else Use("#rp-avatar-" + AvatarCode(n.sex));
    var card := Card(EscAttr(n.id), x, y, [picture, Frame, NameText(n.name), DateText(Dates(n.birth, n.death))]);
    if n.permalink.Some? && Truthy(n.permalink.value) then Linked(n.permalink.value, card)
    else Unlinked(card)
  }

  /** Every avatar reference names one of the symbols in `<defs>`. */
  lemma AvatarResolves(sex: string)
    ensures exists s :: s in AvatarSymbols && "#rp-avatar-" + AvatarCode(sex) == "#" + s.id
  {
    var code := AvatarCode(sex);
    var i := if code == "m" then 0 else if code == "f" then 1 else 2;
    assert AvatarSymbols[i].id == "rp-avatar-" + code;
    assert "#rp-avatar-" + code == "#" + AvatarSymbols[i].id;
  }

  /** A card carries the escaped person id and the given corner; it shows
      the photo when there is one and otherwise the avatar symbol of the
      person's sex, always painted before the opaque frame, then the name
      and the dates; it links to the person's page exactly when there is
      one; its data-id is free of quotes. */
  lemma RenderNodeShape(n: Node, x: int, y: int)
    ensures var p := RenderNode(n, x, y);
      var c := CardOf(p);
      && c.dataId == EscAttr(n.id) && c.x == x && c.y == y
      && |c.shapes| == 4 && c.shapes[1] == Frame
      && c.shapes[2] == NameText(n.name) && c.shapes[3] == DateText(Dates(n.birth, n.death))
      && (c.shapes[0].Image? <==> n.photo.Some? && Truthy(n.photo.value))
      && (c.shapes[0].Image? ==> c.shapes[0] == Image(n.photo.value))
      && (c.shapes[0].Use? ==> c.shapes[0].href == "#rp-avatar-" + AvatarCode(n.sex))
      && (c.shapes[0].Use? ==> exists s :: s in AvatarSymbols && c.shapes[0].href == "#" + s.id)
      && (p.Linked? <==> n.permalink.Some? && Truthy(n.permalink.value))
      && (p.Linked? ==> p.href == n.permalink.value)
      && (forall k :: 0 <= k < |c.dataId| ==> c.dataId[k] != '"' && c.dataId[k] != '\'')
  {
    AvatarResolves(n.sex);
  }

  // ---------------------------------------------------------------------
  // The drawing
  // ---------------------------------------------------------------------

  /** The "No data" drawing (viewBox 0 0 400 100), or the tree drawing with
      its viewBox size, symbols, cards in row order and lines in edge order. */
  datatype Document =
    | NoData
    | Svg(width: int, height: int, defs: seq<Symbol>, cards: seq<Placed>, lines: seq<Line>)

  function RenderSlots(slots: seq<Slot>): (cards: seq<Placed>)
    ensures |cards| == |slots|
    ensures forall i :: 0 <= i < |slots| ==> cards[i] == RenderNode(slots[i].node, slots[i].x, slots[i].y)
  {
    seq(|slots|, i requires 0 <= i < |slots| => RenderNode(slots[i].node, slots[i].x, slots[i].y))
  }

  /** The cards of a non-empty tree, placed row by row. */
  function TreeSlots(t: Tree): (slots: seq<Slot>)
    requires t.nodes != []
  {
    var ranks := Ranks(t.nodes[0].id, t.edges);
    var rows := Rows(t.nodes, ranks);
    Placements(rows, Width(MaxLen(rows)))
  }

  /** The drawing of the rows `rows`: the viewBox sized from the widest row
      and the number of rows, the cards placed row by row and the edges
      drawn between them. */
  function Drawing(edges: seq<Edge>, rows: seq<seq<Node>>): Document {
    var slots := Placements(rows, Width(MaxLen(rows)));
    Svg(Width(MaxLen(rows)), Height(|rows|), AvatarSymbols, RenderSlots(slots), Lines(edges, Positions(slots)))
  }

  /** `render_svg`: rank from the first node, group and order the rows,
      size the viewBox, place the cards, then draw the edges. */
  function Render(t: Tree): Document {
    if t.nodes == [] then NoData
    else Drawing(t.edges, Rows(t.nodes, Ranks(t.nodes[0].id, t.edges)))
  }

  /** The "No data" drawing is produced exactly for an empty tree. */
  lemma RenderNoData(t: Tree)
    ensures Render(t) == NoData <==> t.nodes == []
  {
  }

  function NodesOf(slots: seq<Slot>): seq<Node> {
    seq(|slots|, i requires 0 <= i < |slots| => slots[i].node)
  }

  lemma {:induction false} PlacementNodes(rows: seq<seq<Node>>, width: int)
    ensures NodesOf(Placements(rows, width)) == Flatten(rows)
    decreases |rows|
  {
    if rows != [] {
      var k := |rows| - 1;
      PlacementNodes(rows[..k], width);
      var a := Placements(rows[..k], width);
      var b := PlaceRow(rows[k], width, StartY + k * VSpacing);
      assert NodesOf(a + b) == NodesOf(a) + NodesOf(b);
      assert NodesOf(b) == rows[k];
    }
  }

  /** The placed nodes are the tree's nodes, each exactly as often as it
      occurs there. */
  lemma TreeSlotsPermutation(t: Tree)
    requires t.nodes != []
    ensures multiset(NodesOf(TreeSlots(t))) == multiset(t.nodes)
  {
    var ranks := Ranks(t.nodes[0].id, t.edges);
    var rows := Rows(t.nodes, ranks);
    PlacementNodes(rows, Width(MaxLen(rows)));
    RowsArePermutation(t.nodes, ranks);
  }

  /** One card per node: the cards are drawn from the placed nodes, which are
      the tree's nodes. */
  lemma RenderCardsPerNode(t: Tree)
    requires t.nodes != []
    ensures Render(t).cards == RenderSlots(TreeSlots(t))
    ensures multiset(NodesOf(TreeSlots(t))) == multiset(t.nodes)
  {
    TreeSlotsPermutation(t);
  }

  lemma TreeRowsNonEmpty(t: Tree)
    requires t.nodes != []
    ensures var rows := Rows(t.nodes, Ranks(t.nodes[0].id, t.edges));
      forall r :: r in rows ==> r != []
  {
    var ranks := Ranks(t.nodes[0].id, t.edges);
    var rows := Rows(t.nodes, ranks);
    RowsByRank(t.nodes, ranks);
    forall r | r in rows ensures r != [] {
      var i :| 0 <= i < |rows| && rows[i] == r;
    }
  }

  /** Card `c` lies inside a `width` by `height` viewBox, clear of its
      margins. */
  predicate CardWithin(c: Card, width: int, height: int) {
    StartX < c.x && c.x + NodeWidth <= width && StartY <= c.y && c.y + NodeHeight + StartY <= height
  }

  /** Every card lies inside the viewBox, clear of its margins. */
  lemma RenderCardsInside(t: Tree)
    requires t.nodes != []
    ensures var d := Render(t);
      forall p :: p in d.cards ==> CardWithin(CardOf(p), d.width, d.height)
  {
    TreeRowsNonEmpty(t);
    SlotCardsInside(Rows(t.nodes, Ranks(t.nodes[0].id, t.edges)));
  }

  /** The cards rendered at the placements of `rows` lie inside the viewBox. */
  lemma SlotCardsInside(rows: seq<seq<Node>>)
    requires forall r :: r in rows ==> r != []
    ensures var w := Width(MaxLen(rows));
      forall p :: p in RenderSlots(Placements(rows, w)) ==> CardWithin(CardOf(p), w, Height(|rows|))
  {
    var w := Width(MaxLen(rows));
    var slots := Placements(rows, w);
    var cards := RenderSlots(slots);
    CardsInsideViewBox(rows);
    forall p | p in cards
      ensures CardWithin(CardOf(p), w, Height(|rows|))
    {
      var i :| 0 <= i < |cards| && cards[i] == p;
      assert slots[i] in slots;
      CardAt(slots[i], w, Height(|rows|));
    }
  }

  /** A card is drawn where its slot is. */
  lemma CardAt(s: Slot, width: int, height: int)
    requires StartX < s.x && s.x + NodeWidth <= width && StartY <= s.y && s.y + NodeHeight + StartY <= height
    ensures CardWithin(CardOf(RenderNode(s.node, s.x, s.y)), width, height)
  {
    RenderNodeShape(s.node, s.x, s.y);
  }

  /** The line runs from the bottom centre of one slot's card to the top
      centre of another's. */
  ghost predicate Anchored(l: Line, slots: seq<Slot>) {
    exists s, s' :: s in slots && s' in slots && Joins(l, s, s')
  }

  /** `l` leaves the bottom centre of card `s` and enters the top centre of card `s'`. */
  predicate Joins(l: Line, s: Slot, s': Slot) {
    && l.x1 == s.x + NodeWidth / 2 && l.y1 == s.y + NodeHeight
    && l.x2 == s'.x + NodeWidth / 2 && l.y2 == s'.y
  }

  lemma LineAnchored(e: Edge, slots: seq<Slot>, pos: map<Id, (int, int)>)
    requires pos == Positions(slots)
    requires e.from in pos && e.to in pos
    ensures Anchored(LineFor(e, pos), slots)
  {
    var s :| s in slots && s.node.id == e.from && pos[e.from] == (s.x, s.y);
    var s' :| s' in slots && s'.node.id == e.to && pos[e.to] == (s'.x, s'.y);
    assert Joins(LineFor(e, pos), s, s');
  }

  /** Every line drawn for a set of slots joins two of their cards. */
  lemma LinesAnchored(edges: seq<Edge>, slots: seq<Slot>)
    ensures forall l :: l in Lines(edges, Positions(slots)) ==> Anchored(l, slots)
  {
    forall l | l in Lines(edges, Positions(slots))
      ensures Anchored(l, slots)
    {
      DrawnLineAnchored(edges, slots, l);
    }
  }

  lemma DrawnLineAnchored(edges: seq<Edge>, slots: seq<Slot>, l: Line)
    requires l in Lines(edges, Positions(slots))
    ensures Anchored(l, slots)
  {
    var pos := Positions(slots);
    var e :| e in edges && e.from in pos && e.to in pos && l == LineFor(e, pos);
    LineAnchored(e, slots, pos);
  }

  /** Every node placed somewhere has a position. */
  lemma PlacedHavePositions(nodes: seq<Node>, slots: seq<Slot>)
    requires multiset(NodesOf(slots)) == multiset(nodes)
    ensures forall x :: x in NodeIds(nodes) ==> x in Positions(slots)
  {
    var pos := Positions(slots);
    forall x | x in NodeIds(nodes)
      ensures x in pos
    {
      var n :| n in nodes && n.id == x;
      assert n in multiset(NodesOf(slots));
      var i :| 0 <= i < |slots| && NodesOf(slots)[i] == n;
      assert slots[i] in slots;
    }
  }

  /** Lines join card anchors, and every edge between two tree nodes is drawn. */
  lemma RenderLines(t: Tree)
    requires t.nodes != []
    ensures var d := Render(t);
      var slots := TreeSlots(t);
      && (forall l :: l in d.lines ==> Anchored(l, slots))
      && (forall e :: e in t.edges && e.from in NodeIds(t.nodes) && e.to in NodeIds(t.nodes) ==>
            e.from in Positions(slots) && e.to in Positions(slots) &&
            LineFor(e, Positions(slots)) in d.lines)
  {
    var slots := TreeSlots(t);
    assert Render(t).lines == Lines(t.edges, Positions(slots));
    TreeSlotsPermutation(t);
    LinesAnchored(t.edges, slots);
    PlacedHavePositions(t.nodes, slots);
  }
}
