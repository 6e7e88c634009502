/** The geometry of the renderer: nodes grouped into rows by rank, rows in
    ascending rank order, cards of 180 by 100 placed 220 apart within a row
    and 160 apart between rows, and one line per edge whose two ends both
    have a card. */
module Layout {
  import opened Records
  import opened Traversal

  const NodeWidth := 180
  const NodeHeight := 100
  const HSpacing := 220
  const VSpacing := 160
  const StartX := 200
  const StartY := 100

  /** The row of a node: its rank, or 0 when the rank pass did not reach it. */
  function RankOf(ranks: map<Id, int>, id: Id): int {
    if id in ranks then ranks[id] else 0
  }

  ghost function RankSet(nodes: seq<Node>, ranks: map<Id, int>): set<int> {
    set n | n in nodes :: RankOf(ranks, n.id)
  }

  /** The nodes of rank `l`, in node order. */
  function RowOf(nodes: seq<Node>, ranks: map<Id, int>, l: int): (row: seq<Node>)
    ensures forall n :: n in row <==> n in nodes && RankOf(ranks, n.id) == l
    ensures |row| <= |nodes|
    decreases |nodes|
  {
    if nodes == [] then []
    else
      var n := nodes[|nodes| - 1];
      var prev := RowOf(nodes[..|nodes| - 1], ranks, l);
      assert nodes == nodes[..|nodes| - 1] + [n];
      if RankOf(ranks, n.id) == l then prev + [n] else prev
  }

  /** The grouping loop's result: each rank that occurs, mapped to its nodes
      in node order. */
  function GroupMap(nodes: seq<Node>, ranks: map<Id, int>): (g: map<int, seq<Node>>)
    ensures g.Keys == RankSet(nodes, ranks)
    ensures forall l :: l in g ==> g[l] == RowOf(nodes, ranks, l)
    decreases |nodes|
  {
    if nodes == [] then map[]
    else
      var init := nodes[..|nodes| - 1];
      var n := nodes[|nodes| - 1];
      var g := GroupMap(init, ranks);
      var l := RankOf(ranks, n.id);
      GroupStep(nodes, ranks);
      g[l := (if l in g then g[l] else []) + [n]]
  }

  /** Adding the last node to the rows of the others. */
  lemma GroupStep(nodes: seq<Node>, ranks: map<Id, int>)
    requires nodes != []
    ensures var init := nodes[..|nodes| - 1];
      var n := nodes[|nodes| - 1];
      var l := RankOf(ranks, n.id);
      && RankSet(nodes, ranks) == RankSet(init, ranks) + {l}
      && RowOf(nodes, ranks, l) == RowOf(init, ranks, l) + [n]
      && (l !in RankSet(init, ranks) ==> RowOf(init, ranks, l) == [])
      && (forall l' :: l' != l ==> RowOf(nodes, ranks, l') == RowOf(init, ranks, l'))
  {
    var init := nodes[..|nodes| - 1];
    var n := nodes[|nodes| - 1];
    var l := RankOf(ranks, n.id);
    assert nodes == init + [n];
    if l !in RankSet(init, ranks) {
      RowOfAbsent(init, ranks, l);
    }
  }

  lemma {:induction false} RowOfAbsent(nodes: seq<Node>, ranks: map<Id, int>, l: int)
    requires l !in RankSet(nodes, ranks)
    ensures RowOf(nodes, ranks, l) == []
    decreases |nodes|
  {
    if nodes != [] {
      var init := nodes[..|nodes| - 1];
      assert forall n :: n in init ==> n in nodes;
      RowOfAbsent(init, ranks, l);
      assert nodes[|nodes| - 1] in nodes;
    }
  }

  predicate Increasing(s: seq<int>) {
    forall i, j :: 0 <= i < j < |s| ==> s[i] < s[j]
  }

  /** `x` inserted into an increasing sequence, unless already there. */
  function InsertSorted(x: int, s: seq<int>): (r: seq<int>)
    requires Increasing(s)
    ensures Increasing(r)
    ensures forall y :: y in r <==> y == x || y in s
    decreases |s|
  {
    if s == [] then [x]
    else if x < s[0] then [x] + s
    else if x == s[0] then s
    else
      var rest := InsertSorted(x, s[1..]);
      TailAbove(s);
      ConsIncreasing(s[0], rest);
      [s[0]] + rest
  }

  /** The head of an increasing sequence lies below the rest of it. */
  lemma TailAbove(s: seq<int>)
    requires Increasing(s) && s != []
    ensures forall y :: y in s[1..] ==> s[0] < y
  {
    forall y | y in s[1..] ensures s[0] < y {
      var k :| 0 <= k < |s[1..]| && s[1..][k] == y;
      assert s[k + 1] == y;
    }
  }

  /** A value below every element of an increasing sequence extends it at the front. */
  lemma ConsIncreasing(a: int, rest: seq<int>)
    requires Increasing(rest) && forall y :: y in rest ==> a < y
    ensures Increasing([a] + rest)
    ensures forall y :: y in [a] + rest <==> y == a || y in rest
  {
    var r := [a] + rest;
    forall i, j | 0 <= i < j < |r| ensures r[i] < r[j] {
      assert r[j] == rest[j - 1] && rest[j - 1] in rest;
      if 0 < i {
        assert r[i] == rest[i - 1];
      }
    }
  }

  /** The distinct values of `xs`, in increasing order. */
  function SortDistinct(xs: seq<int>): (r: seq<int>)
    ensures Increasing(r)
    ensures forall y :: y in r <==> y in xs
    decreases |xs|
  {
    if xs == [] then []
    else
      var init, x := xs[..|xs| - 1], xs[|xs| - 1];
      var r := InsertSorted(x, SortDistinct(init));
      assert forall y :: y in r <==> y in xs by {
        LastSplit(xs);
      }
      r
  }

  lemma LastSplit(xs: seq<int>)
    requires xs != []
    ensures forall y :: y in xs <==> y in xs[..|xs| - 1] || y == xs[|xs| - 1]
  {
    assert xs == xs[..|xs| - 1] + [xs[|xs| - 1]];
  }

  /** Two increasing sequences with the same elements are equal. */
  lemma {:induction false} IncreasingUnique(a: seq<int>, b: seq<int>)
    requires Increasing(a) && Increasing(b)
    requires forall y :: y in a <==> y in b
    ensures a == b
    decreases |a|
  {
    if a != [] {
      assert a[0] in a;
    }
    if b != [] {
      assert b[0] in b;
    }
    if a != [] {
      assert a[0] == b[0] by {
        var i :| 0 <= i < |b| && b[i] == a[0];
        var j :| 0 <= j < |a| && a[j] == b[0];
        assert b[0] <= b[i] && a[0] <= a[j];
      }
      forall y
        ensures y in a[1..] <==> y in b[1..]
      {
        if y in a[1..] {
          var k :| 1 <= k < |a| && a[k] == y;
          assert a[0] < y;
          assert y in a && y in b;
          var k' :| 0 <= k' < |b| && b[k'] == y;
          assert y == b[1..][k' - 1];
        }
        if y in b[1..] {
          var k :| 1 <= k < |b| && b[k] == y;
          assert b[0] < y;
          assert y in b && y in a;
          var k' :| 0 <= k' < |a| && a[k'] == y;
          assert y == a[1..][k' - 1];
        }
      }
      IncreasingUnique(a[1..], b[1..]);
      assert a == [a[0]] + a[1..] && b == [b[0]] + b[1..];
    }
  }

  /** The ranks of the nodes, in increasing order: the row order after `ksort`. */
  function RowRanks(nodes: seq<Node>, ranks: map<Id, int>): (ks: seq<int>)
    ensures Increasing(ks)
    ensures forall l :: l in ks <==> l in RankSet(nodes, ranks)
  {
    var xs := seq(|nodes|, i requires 0 <= i < |nodes| => RankOf(ranks, nodes[i].id));
    assert forall l :: l in xs <==> l in RankSet(nodes, ranks) by {
      forall l ensures l in xs <==> l in RankSet(nodes, ranks) {
        if l in RankSet(nodes, ranks) {
          var n :| n in nodes && RankOf(ranks, n.id) == l;
          var i :| 0 <= i < |nodes| && nodes[i] == n;
          assert xs[i] == l;
        }
        if l in xs {
          var i :| 0 <= i < |xs| && xs[i] == l;
          assert nodes[i] in nodes;
        }
      }
    }
    SortDistinct(xs)
  }

  /** The rows, top to bottom. */
  function Rows(nodes: seq<Node>, ranks: map<Id, int>): seq<seq<Node>> {
    RowsFor(nodes, ranks, RowRanks(nodes, ranks))
  }

  function Flatten<T>(rows: seq<seq<T>>): seq<T>
    decreases |rows|
  {
    if rows == [] then [] else Flatten(rows[..|rows| - 1]) + rows[|rows| - 1]
  }

  /** The nodes whose rank is in `ls`, in node order. */
  function RowsIn(nodes: seq<Node>, ranks: map<Id, int>, ls: set<int>): seq<Node>
    decreases |nodes|
  {
    if nodes == [] then []
    else
      var n := nodes[|nodes| - 1];
      var prev := RowsIn(nodes[..|nodes| - 1], ranks, ls);
      if RankOf(ranks, n.id) in ls then prev + [n] else prev
  }

  lemma {:induction false} RowsInSplit(nodes: seq<Node>, ranks: map<Id, int>, ls: set<int>, l: int)
    requires l !in ls
    ensures multiset(RowsIn(nodes, ranks, ls + {l}))
         == multiset(RowsIn(nodes, ranks, ls)) + multiset(RowOf(nodes, ranks, l))
    decreases |nodes|
  {
    if nodes != [] {
      RowsInSplit(nodes[..|nodes| - 1], ranks, ls, l);
    }
  }

  lemma {:induction false} RowsInAll(nodes: seq<Node>, ranks: map<Id, int>, ls: set<int>)
    requires RankSet(nodes, ranks) <= ls
    ensures RowsIn(nodes, ranks, ls) == nodes
    decreases |nodes|
  {
    if nodes != [] {
      var init := nodes[..|nodes| - 1];
      assert RankSet(init, ranks) <= RankSet(nodes, ranks) by {
        forall l | l in RankSet(init, ranks) ensures l in RankSet(nodes, ranks) {
          var n :| n in init && RankOf(ranks, n.id) == l;
          assert n in nodes;
        }
      }
      RowsInAll(init, ranks, ls);
      assert nodes[|nodes| - 1] in nodes;
      assert nodes == init + [nodes[|nodes| - 1]];
    }
  }

  function RowsFor(nodes: seq<Node>, ranks: map<Id, int>, ks: seq<int>): seq<seq<Node>> {
    seq(|ks|, i requires 0 <= i < |ks| => RowOf(nodes, ranks, ks[i]))
  }

  lemma {:induction false} FlattenRows(nodes: seq<Node>, ranks: map<Id, int>, ks: seq<int>)
    requires forall i, j :: 0 <= i < j < |ks| ==> ks[i] != ks[j]
    ensures multiset(Flatten(RowsFor(nodes, ranks, ks))) == multiset(RowsIn(nodes, ranks, set l | l in ks))
    decreases |ks|
  {
    if ks == [] {
      assert (set l | l in ks) == {};
      RowsInNone(nodes, ranks);
    } else {
      var init := ks[..|ks| - 1];
      var l := ks[|ks| - 1];
      FlattenRows(nodes, ranks, init);
      RowsForSnoc(nodes, ranks, ks);
      KeySetSnoc(ks);
      RowsInSplit(nodes, ranks, (set x | x in init), l);
    }
  }

  lemma RowsForSnoc(nodes: seq<Node>, ranks: map<Id, int>, ks: seq<int>)
    requires ks != []
    ensures Flatten(RowsFor(nodes, ranks, ks))
         == Flatten(RowsFor(nodes, ranks, ks[..|ks| - 1])) + RowOf(nodes, ranks, ks[|ks| - 1])
  {
    var rows := RowsFor(nodes, ranks, ks);
    assert rows[..|rows| - 1] == RowsFor(nodes, ranks, ks[..|ks| - 1]);
  }

  lemma KeySetSnoc(ks: seq<int>)
    requires ks != []
    requires forall i, j :: 0 <= i < j < |ks| ==> ks[i] != ks[j]
    ensures var init := ks[..|ks| - 1];
      (set x | x in ks) == (set x | x in init) + {ks[|ks| - 1]} &&
      ks[|ks| - 1] !in (set x | x in init)
  {
    assert ks == ks[..|ks| - 1] + [ks[|ks| - 1]];
  }

  lemma {:induction false} RowsInNone(nodes: seq<Node>, ranks: map<Id, int>)
    ensures RowsIn(nodes, ranks, {}) == []
    decreases |nodes|
  {
    if nodes != [] {
      RowsInNone(nodes[..|nodes| - 1], ranks);
    }
  }

  /** The rows hold every node exactly once: read row by row, they are a
      permutation of the nodes. */
  lemma RowsArePermutation(nodes: seq<Node>, ranks: map<Id, int>)
    ensures multiset(Flatten(Rows(nodes, ranks))) == multiset(nodes)
  {
    var ks := RowRanks(nodes, ranks);
    FlattenRows(nodes, ranks, ks);
    assert (set l | l in ks) == RankSet(nodes, ranks);
    RowsInAll(nodes, ranks, RankSet(nodes, ranks));
  }

  /** Every row is non-empty and holds the nodes of one rank; ranks increase
      from row to row. */
  lemma RowsByRank(nodes: seq<Node>, ranks: map<Id, int>)
    ensures var rows := Rows(nodes, ranks);
      var ks := RowRanks(nodes, ranks);
      |rows| == |ks| &&
      forall r :: 0 <= r < |rows| ==>
        rows[r] != [] && forall n :: n in rows[r] <==> n in nodes && RankOf(ranks, n.id) == ks[r]
  {
    var ks := RowRanks(nodes, ranks);
    forall r | 0 <= r < |ks|
      ensures RowOf(nodes, ranks, ks[r]) != []
    {
      assert ks[r] in RankSet(nodes, ranks);
      var n :| n in nodes && RankOf(ranks, n.id) == ks[r];
      assert n in RowOf(nodes, ranks, ks[r]);
    }
  }

  /** The length of the longest row. */
  function MaxLen<T>(rows: seq<seq<T>>): (m: nat)
    ensures forall r :: r in rows ==> |r| <= m
    ensures rows != [] ==> exists r :: r in rows && |r| == m
    ensures rows == [] ==> m == 0
    decreases |rows|
  {
    if rows == [] then 0
    else
      var init := rows[..|rows| - 1];
      var last := rows[|rows| - 1];
      assert rows == init + [last];
      var m := MaxLen(init);
      if |last| > m then |last| else if init == [] then |last| else m
  }

  function Width(maxLen: int): int {
    StartX * 2 + maxLen * HSpacing
  }

  function Height(rowCount: int): int {
    StartY * 2 + rowCount * VSpacing
  }

  /** Left edge of the first card of a row of `count` cards. */
  function XOffset(width: int, count: int): int {
    (width - (count - 1) * HSpacing) / 2
  }

  /** A node with the top-left corner of its card. */
  datatype Slot = Slot(node: Node, x: int, y: int)

  function PlaceRow(row: seq<Node>, width: int, y: int): (slots: seq<Slot>)
    ensures |slots| == |row|
    ensures forall i :: 0 <= i < |row| ==>
      slots[i] == Slot(row[i], XOffset(width, |row|) + i * HSpacing, y)
  {
    seq(|row|, i requires 0 <= i < |row| => Slot(row[i], XOffset(width, |row|) + i * HSpacing, y))
  }

  /** The cards of all rows, row by row; row `r` is at height 100 + 160 r. */
  function Placements(rows: seq<seq<Node>>, width: int): (slots: seq<Slot>)
    decreases |rows|
  {
    if rows == [] then []
    else
      var k := |rows| - 1;
      Placements(rows[..k], width) + PlaceRow(rows[k], width, StartY + k * VSpacing)
  }

  /** Slot `s` belongs to row `r` of `rows`, at position `i` in it. */
  ghost predicate SlotAt(rows: seq<seq<Node>>, width: int, s: Slot, r: int, i: int) {
    0 <= r < |rows| && 0 <= i < |rows[r]| &&
    s == Slot(rows[r][i], XOffset(width, |rows[r]|) + i * HSpacing, StartY + r * VSpacing)
  }

  lemma {:induction false} PlacementsSlots(rows: seq<seq<Node>>, width: int)
    ensures forall s :: s in Placements(rows, width) ==> exists r, i :: SlotAt(rows, width, s, r, i)
    ensures |Placements(rows, width)| == |Flatten(rows)|
    ensures forall s :: s in Placements(rows, width) ==> s.node in Flatten(rows)
    decreases |rows|
  {
    if rows != [] {
      var k := |rows| - 1;
      PlacementsSlots(rows[..k], width);
      forall s | s in Placements(rows, width)
        ensures exists r, i :: SlotAt(rows, width, s, r, i)
      {
        if s in Placements(rows[..k], width) {
          var r, i :| SlotAt(rows[..k], width, s, r, i);
          assert SlotAt(rows, width, s, r, i);
        } else {
          var i :| 0 <= i < |rows[k]| && PlaceRow(rows[k], width, StartY + k * VSpacing)[i] == s;
          assert SlotAt(rows, width, s, k, i);
        }
      }
    }
  }

  /** The viewBox of the drawing: room for the widest row and every row,
      with a margin of 200 left and right and 100 above and below. */
  lemma CardsInsideViewBox(rows: seq<seq<Node>>)
    requires forall r :: r in rows ==> r != []
    ensures var w := Width(MaxLen(rows));
      var h := Height(|rows|);
      forall s :: s in Placements(rows, w) ==>
        StartX < s.x && s.x + NodeWidth <= w && StartY <= s.y && s.y + NodeHeight + StartY <= h
  {
    var m := MaxLen(rows);
    var w := Width(m);
    PlacementsSlots(rows, w);
    forall s | s in Placements(rows, w)
      ensures StartX < s.x && s.x + NodeWidth <= w && StartY <= s.y && s.y + NodeHeight + StartY <= Height(|rows|)
    {
      var r, i :| SlotAt(rows, w, s, r, i);
      var c := |rows[r]|;
      assert rows[r] in rows;
      assert 1 <= c <= m;
      assert XOffset(w, c) == 200 + 110 * (m - c + 1) by {
        assert w - (c - 1) * HSpacing == 2 * (200 + 110 * (m - c + 1));
      }
    }
  }

  /** Every row is centred on the same vertical line, half a card right of
      the middle of the drawing: the anchors, not the cards, are centred. */
  lemma RowsShareCentre(rows: seq<seq<Node>>, width: int, r: int)
    requires 0 <= r < |rows| && rows[r] != []
    requires width % 2 == 0 && (|rows[r]| - 1) * HSpacing <= width
    ensures var row := PlaceRow(rows[r], width, StartY + r * VSpacing);
      row[0].x + row[|row| - 1].x + NodeWidth == width + NodeWidth
  {
    var c := |rows[r]|;
    var d := width - (c - 1) * HSpacing;
    assert d % 2 == 0;
    assert XOffset(width, c) * 2 == d;
  }

  /** Two different cards never overlap: they are a column apart in the same
      row or a row apart. */
  lemma CardsDisjoint(rows: seq<seq<Node>>, width: int, s: Slot, t: Slot, r: int, i: int, q: int, j: int)
    requires SlotAt(rows, width, s, r, i) && SlotAt(rows, width, t, q, j)
    requires (r, i) != (q, j)
    ensures s.x + NodeWidth <= t.x || t.x + NodeWidth <= s.x ||
            s.y + NodeHeight <= t.y || t.y + NodeHeight <= s.y
  {
    if r == q {
      assert i != j;
    }
  }

  // ---------------------------------------------------------------------
  // Edges
  // ---------------------------------------------------------------------

  /** Card corners by person id. */
  function Positions(slots: seq<Slot>): (pos: map<Id, (int, int)>)
    ensures forall s :: s in slots ==> s.node.id in pos
    ensures forall id :: id in pos ==> exists s :: s in slots && s.node.id == id && pos[id] == (s.x, s.y)
    decreases |slots|
  {
    if slots == [] then map[]
    else
      var s := slots[|slots| - 1];
      assert slots == slots[..|slots| - 1] + [s];
      Positions(slots[..|slots| - 1])[s.node.id := (s.x, s.y)]
  }

  /** A drawn edge, with its CSS classes. */
  datatype Line = Line(x1: int, y1: int, x2: int, y2: int, classes: string)

  /** The CSS classes of a line: the common one and one per edge kind. */
  function EdgeClass(k: EdgeKind): string {
    "rp-tree-edge rp-tree-edge-" + KindName(k)
  }

  /** From the bottom centre of the `from` card to the top centre of the `to` card. */
  function LineFor(e: Edge, pos: map<Id, (int, int)>): Line
    requires e.from in pos && e.to in pos
  {
    Line(pos[e.from].0 + NodeWidth / 2, pos[e.from].1 + NodeHeight,
         pos[e.to].0 + NodeWidth / 2, pos[e.to].1,
         EdgeClass(e.kind))
  }

  /** One line per edge whose ends both have a card, in edge order. */
  function Lines(edges: seq<Edge>, pos: map<Id, (int, int)>): (lines: seq<Line>)
    ensures |lines| <= |edges|
    ensures forall l :: l in lines ==> exists e :: e in edges && e.from in pos && e.to in pos && l == LineFor(e, pos)
    ensures forall e :: e in edges && e.from in pos && e.to in pos ==> LineFor(e, pos) in lines
    decreases |edges|
  {
    if edges == [] then []
    else
      var e := edges[|edges| - 1];
      var prev := Lines(edges[..|edges| - 1], pos);
      assert edges == edges[..|edges| - 1] + [e];
      if e.from in pos && e.to in pos then prev + [LineFor(e, pos)] else prev
  }
}
