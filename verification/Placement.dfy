/**
 What one placement of third-party/imgui/imstb_rectpack.h does to a skyline, which
 positions the search may choose, and the safety of the boxes placed so far.
 */
module Placement {
  import opened Skyline

  datatype Box = Box(x: int, y: int, w: int, h: int)

  // --- Splicing a new node into the skyline (stbrp__skyline_pack_rectangle) -----------

  // The node the freeing loop stops at.
  function SkipTo(s: seq<Point>, i: nat, e: int): (j: nat)
    requires i < |s|
    ensures i <= j < |s|
    ensures j + 1 < |s| ==> e < s[j + 1].x
    ensures i < j ==> s[j].x <= e
    decreases |s| - i
  {
    if i + 1 < |s| && s[i + 1].x <= e then SkipTo(s, i + 1, e) else i
  }

  lemma {:induction false} SkipToIs(s: seq<Point>, i: nat, j: nat, e: int)
    requires i <= j < |s| && (forall n :: i < n <= j ==> s[n].x <= e) && (j + 1 < |s| ==> e < s[j + 1].x)
    ensures SkipTo(s, i, e) == j
    decreases j - i
  {
    if i < j {
      SkipToIs(s, i + 1, j, e);
    }
  }

  // The first node that may be freed: the one holding x, unless it starts left of x.
  function FirstLoose(s: seq<Point>, k: nat, x: int): nat
    requires k < |s|
  {
    if s[k].x < x then k + 1 else k
  }

  // A node (x, top) of width w is put into segment k.
  function Insert(s: seq<Point>, k: nat, x: int, w: int, top: int): seq<Point>
    requires k + 1 < |s|
  {
    var i := FirstLoose(s, k, x);
    var j := SkipTo(s, i, x + w);
    seq(|s| - j + i + 1, n requires 0 <= n < |s| - j + i + 1 =>
      if n < i then s[n]
      else if n == i then Point(x, top)
      else if n == i + 1 then Point(Max(s[j].x, x + w), s[j].y)
      else s[n + j - i - 1])
  }

  // Where the raised columns end: past x + w only when the next node lies beyond x + w.
  function RaisedEnd(s: seq<Point>, k: nat, x: int, w: int): int
    requires k + 1 < |s|
  {
    if s[k].x < x then Max(x + w, s[k + 1].x) else x + w
  }

  ghost predicate Insertable(s: seq<Point>, W: int, H: int, k: nat, x: int, w: int, top: int) {
    && Valid(s, W, H) && k + 1 < |s| && s[k].x <= x < s[k + 1].x
    && 1 <= w && x + w <= W && 0 <= top <= H
  }

  // r is s with the nodes [i, j] replaced by (x, top) and (e, s[j].y).
  ghost predicate Spliced(r: seq<Point>, s: seq<Point>, i: nat, j: nat, x: int, top: int, e: int) {
    && i <= j < |s| && |r| == |s| - j + i + 1
    && (forall n :: 0 <= n < i ==> r[n] == s[n])
    && r[i] == Point(x, top) && r[i + 1] == Point(e, s[j].y)
    && (forall n :: i + 2 <= n < |r| ==> r[n] == s[n + (j - i - 1)])
  }

  lemma InsertSpliced(s: seq<Point>, W: int, H: int, k: nat, x: int, w: int, top: int)
    requires Insertable(s, W, H, k, x, w, top)
    ensures
      var i := FirstLoose(s, k, x);
      var j := SkipTo(s, i, x + w);
      var e := RaisedEnd(s, k, x, w);
      && Spliced(Insert(s, k, x, w, top), s, i, j, x, top, e)
      && s[j].x <= e && x < e <= W && (j + 1 < |s| ==> e < s[j + 1].x)
      && (i == 0 ==> x == 0) && (0 < i ==> s[i - 1].x < x) && (i == k || (i == k + 1 && s[k].x < x))
  {
    hide Spliced, Insert;
    SpliceEnds(s, W, H, k, x, w, top);
    InsertSplices(s, k, x, w, top);
  }

  // Where the part replaced begins and ends.
  lemma SpliceEnds(s: seq<Point>, W: int, H: int, k: nat, x: int, w: int, top: int)
    requires Insertable(s, W, H, k, x, w, top)
    ensures
      var i := FirstLoose(s, k, x);
      var j := SkipTo(s, i, x + w);
      var e := RaisedEnd(s, k, x, w);
      && e == Max(s[j].x, x + w)
      && s[j].x <= e && x < e <= W && (j + 1 < |s| ==> e < s[j + 1].x)
      && (i == 0 ==> x == 0) && (0 < i ==> s[i - 1].x < x) && (i == k || (i == k + 1 && s[k].x < x))
  {
    var i := FirstLoose(s, k, x);
    var j := SkipTo(s, i, x + w);
    assert i == j || s[i].x <= s[j].x;
    assert j < |s| - 1 ==> s[j].x < s[|s| - 1].x;
  }

  lemma InsertSplices(s: seq<Point>, k: nat, x: int, w: int, top: int)
    requires k + 1 < |s|
    ensures
      var i := FirstLoose(s, k, x);
      var j := SkipTo(s, i, x + w);
      Spliced(Insert(s, k, x, w, top), s, i, j, x, top, Max(s[j].x, x + w))
  {
    hide SkipTo, FirstLoose, Max;
  }

  lemma InsertLength(s: seq<Point>, k: nat, x: int, w: int, top: int)
    requires k + 1 < |s|
    ensures 2 <= |Insert(s, k, x, w, top)| <= |s| + 1
  {
  }

  lemma SplicedValid(r: seq<Point>, s: seq<Point>, W: int, H: int, i: nat, j: nat, x: int, top: int, e: int)
    requires Valid(s, W, H) && Spliced(r, s, i, j, x, top, e) && 0 <= top <= H
    requires x < e <= W && (j + 1 < |s| ==> e < s[j + 1].x) && s[j].x <= e
    requires (i == 0 ==> x == 0) && (0 < i ==> s[i - 1].x < x)
    ensures Valid(r, W, H)
  {
    forall m, n | 0 <= m < n < |r|
      ensures r[m].x < r[n].x
    {
      SplicedOrder(r, s, i, j, x, top, e, m, n);
    }
  }

  lemma SplicedOrder(r: seq<Point>, s: seq<Point>, i: nat, j: nat, x: int, top: int, e: int, m: nat, n: nat)
    requires Sorted(s) && Spliced(r, s, i, j, x, top, e) && m < n < |r|
    requires x < e && (j + 1 < |s| ==> e < s[j + 1].x) && s[j].x <= e && (0 < i ==> s[i - 1].x < x)
    ensures r[m].x < r[n].x
  {
    assert m < i ==> s[m].x <= s[i - 1].x;
    assert i + 2 <= n ==> s[j + 1].x <= s[n + (j - i - 1)].x;
  }

  lemma InsertValid(s: seq<Point>, W: int, H: int, k: nat, x: int, w: int, top: int)
    requires Insertable(s, W, H, k, x, w, top)
    ensures Valid(Insert(s, k, x, w, top), W, H)
  {
    InsertSpliced(s, W, H, k, x, w, top);
    var i := FirstLoose(s, k, x);
    SplicedValid(Insert(s, k, x, w, top), s, W, H, i, SkipTo(s, i, x + w), x, top, RaisedEnd(s, k, x, w));
  }

  lemma SplicedColumn(r: seq<Point>, s: seq<Point>, i: nat, j: nat, x: int, top: int, e: int, m: nat, c: int)
    requires Sorted(r) && Sorted(s) && Spliced(r, s, i, j, x, top, e) && s[j].x <= e
    requires (0 < i ==> s[i - 1].x < x) && x < e
    requires m + 1 < |s| && s[m].x <= c < s[m + 1].x
    requires c < x ==> m < i && (m + 1 == i || m + 1 < i)
    ensures Column(r, c) == if x <= c < e then top else Column(s, c)
  {
    ColumnAt(s, m, c);
    assert m + 1 < j ==> s[m + 1].x < s[j].x;
    if c < x {
      ColumnAt(r, m, c);
    } else if c < e {
      ColumnAt(r, i, c);
    } else if m == j {
      assert i + 2 < |r| ==> r[i + 2] == s[j + 1];
      ColumnAt(r, i + 1, c);
    } else {
      var n := m - (j - i - 1);
      assert r[n] == s[m] && r[n + 1] == s[m + 1];
      ColumnAt(r, n, c);
    }
  }

  /** A placement raises exactly the columns from x to RaisedEnd to the new top. */
  lemma InsertColumns(s: seq<Point>, W: int, H: int, k: nat, x: int, w: int, top: int, c: int)
    requires Insertable(s, W, H, k, x, w, top) && 0 <= c < W
    ensures Column(Insert(s, k, x, w, top), c) ==
            if x <= c < RaisedEnd(s, k, x, w) then top else Column(s, c)
  {
    hide Insert, Spliced, SkipTo, RaisedEnd, Column, Segment;
    InsertValid(s, W, H, k, x, w, top);
    InsertSpliced(s, W, H, k, x, w, top);
    var i := FirstLoose(s, k, x);
    SegmentHolds(s, c);
    var m := Segment(s, c);
    assert i <= m ==> s[k].x <= s[m].x;
    SplicedColumn(Insert(s, k, x, w, top), s, i, SkipTo(s, i, x + w), x, top, RaisedEnd(s, k, x, w), m, c);
  }

  /** Area conservation: the skyline grows by the raised width times the new top, less the
      area that was already there. */
  lemma InsertArea(s: seq<Point>, W: int, H: int, k: nat, x: int, w: int, top: int)
    requires Insertable(s, W, H, k, x, w, top)
    ensures
      var e := RaisedEnd(s, k, x, w);
      Area(Insert(s, k, x, w, top), 0, W) == Area(s, 0, W) + Gap(s, x, e, top)
  {
    var e := RaisedEnd(s, k, x, w);
    var r := Insert(s, k, x, w, top);
    forall c | 0 <= c < W
      ensures Column(r, c) == if x <= c < e then top else Column(s, c)
    {
      InsertColumns(s, W, H, k, x, w, top, c);
    }
    AreaSplit(s, 0, x, W);
    AreaSplit(s, x, e, W);
    AreaSplit(r, 0, x, W);
    AreaSplit(r, x, e, W);
    AreaSame(s, r, 0, x);
    AreaSame(s, r, e, W);
    GapFlat(r, x, e, top, top);
    GapIsArea(r, x, e, top);
    GapIsArea(s, x, e, top);
  }

  // --- Boxes -------------------------------------------------------------------------

  predicate Disjoint(a: Box, b: Box) {
    || a.x + a.w <= b.x || b.x + b.w <= a.x
    || a.y + a.h <= b.y || b.y + b.h <= a.y
  }

  predicate Inside(b: Box, W: int, H: int) {
    1 <= b.w && 1 <= b.h && 0 <= b.x && b.x + b.w <= W && 0 <= b.y && b.y + b.h <= H
  }

  ghost predicate Under(b: Box, s: seq<Point>) {
    forall c :: b.x <= c < b.x + b.w ==> b.y + b.h <= Column(s, c)
  }

  function BoxArea(boxes: seq<Box>): int {
    if boxes == [] then 0 else BoxArea(boxes[..|boxes| - 1]) + boxes[|boxes| - 1].w * boxes[|boxes| - 1].h
  }

  ghost predicate AllDisjoint(boxes: seq<Box>) {
    forall i, j :: 0 <= i < j < |boxes| ==> Disjoint(boxes[i], boxes[j])
  }

  // The invariant of a whole run: the skyline is well formed and covers every box placed.
  ghost predicate Safe(s: seq<Point>, W: int, H: int, boxes: seq<Box>) {
    && Sealed(s, W, H)
    && (forall i :: 0 <= i < |boxes| ==> Inside(boxes[i], W, H) && Under(boxes[i], s))
    && AllDisjoint(boxes)
    && BoxArea(boxes) <= Area(s, 0, W)
  }

  // A box under the old skyline is clear of the new box and stays under the new skyline.
  lemma BoxStaysClear(s: seq<Point>, W: int, H: int, a: Box, k: nat, b: Box)
    requires Valid(s, W, H) && k + 1 < |s| && s[k].x <= b.x < s[k + 1].x && Inside(b, W, H)
    requires Highest(s, b.x, RaisedEnd(s, k, b.x, b.w)) <= b.y
    requires Inside(a, W, H) && Under(a, s)
    ensures Disjoint(a, b) && Under(a, Insert(s, k, b.x, b.w, b.y + b.h))
  {
    var r := Insert(s, k, b.x, b.w, b.y + b.h);
    HighestBounds(s, b.x, RaisedEnd(s, k, b.x, b.w));
    if !(a.x + a.w <= b.x || b.x + b.w <= a.x) {
      var c := Max(a.x, b.x);
      assert a.y + a.h <= Column(s, c) <= b.y;
    }
    forall c | a.x <= c < a.x + a.w
      ensures a.y + a.h <= Column(r, c)
    {
      assert a.y + a.h <= Column(s, c);
      InsertColumns(s, W, H, k, b.x, b.w, b.y + b.h, c);
    }
  }

  lemma NewBoxUnder(s: seq<Point>, W: int, H: int, k: nat, b: Box)
    requires Valid(s, W, H) && k + 1 < |s| && s[k].x <= b.x < s[k + 1].x && Inside(b, W, H)
    ensures Under(b, Insert(s, k, b.x, b.w, b.y + b.h))
  {
    var r := Insert(s, k, b.x, b.w, b.y + b.h);
    forall c | b.x <= c < b.x + b.w
      ensures b.y + b.h <= Column(r, c)
    {
      InsertColumns(s, W, H, k, b.x, b.w, b.y + b.h, c);
    }
  }

  lemma AddBox(boxes: seq<Box>, b: Box, r: seq<Point>, W: int, H: int)
    requires forall i :: 0 <= i < |boxes| ==> Inside(boxes[i], W, H) && Under(boxes[i], r) && Disjoint(boxes[i], b)
    requires AllDisjoint(boxes) && Inside(b, W, H) && Under(b, r)
    ensures
      var all := boxes + [b];
      && AllDisjoint(all) && BoxArea(all) == BoxArea(boxes) + b.w * b.h
      && forall i :: 0 <= i < |all| ==> Inside(all[i], W, H) && Under(all[i], r)
  {
    var all := boxes + [b];
    assert all[..|all| - 1] == boxes;
  }

  /** One placement keeps the invariant, whichever heuristic chose the position, as long as
      the box rests on or above every column that gets raised. */
  lemma InsertSafe(s: seq<Point>, W: int, H: int, boxes: seq<Box>, k: nat, b: Box)
    requires Safe(s, W, H, boxes) && k + 1 < |s| && s[k].x <= b.x < s[k + 1].x && Inside(b, W, H)
    requires Highest(s, b.x, RaisedEnd(s, k, b.x, b.w)) <= b.y
    ensures Safe(Insert(s, k, b.x, b.w, b.y + b.h), W, H, boxes + [b])
  {
    hide Insert, Highest, Column, Area, Gap, BoxArea, Sealed;
    var e, top := RaisedEnd(s, k, b.x, b.w), b.y + b.h;
    var r := Insert(s, k, b.x, b.w, top);
    SealedIsValid(s, W, H);
    InsertValid(s, W, H, k, b.x, b.w, top);
    SealedIsValid(r, W, H);
    forall i | 0 <= i < |boxes|
      ensures Under(boxes[i], r) && Disjoint(boxes[i], b)
    {
      BoxStaysClear(s, W, H, boxes[i], k, b);
    }
    NewBoxUnder(s, W, H, k, b);
    AddBox(boxes, b, r, W, H);
    InsertArea(s, W, H, k, b.x, b.w, top);
    InsertGapAtLeast(s, W, H, b.x, e, b.w, b.h, b.y);
  }

  lemma {:induction false} GapAtLeast(s: seq<Point>, a: int, b: int, y: int, h: int)
    requires a <= b && forall c :: a <= c < b ==> Column(s, c) + h <= y
    ensures h * (b - a) <= Gap(s, a, b, y)
    decreases b - a
  {
    if a < b {
      GapAtLeast(s, a, b - 1, y, h);
      assert h * (b - a) == h * (b - 1 - a) + h;
    }
  }

  lemma InsertGapAtLeast(s: seq<Point>, W: int, H: int, x: int, e: int, w: int, h: int, y: int)
    requires Valid(s, W, H) && 1 <= w && 1 <= h && x + w <= e && Highest(s, x, e) <= y
    ensures w * h <= Gap(s, x, e, y + h)
  {
    HighestBounds(s, x, e);
    GapAtLeast(s, x, e, y + h, h);
    assert h * w <= h * (e - x);
  }

  /** Packed area never exceeds the target. */
  lemma PackedAreaBounded(s: seq<Point>, W: int, H: int, boxes: seq<Box>)
    requires Safe(s, W, H, boxes)
    ensures BoxArea(boxes) <= W * H
  {
    SealedIsValid(s, W, H);
    AreaBounded(s, W, H, W);
  }

  /** A placement that raises no more than its own columns raises the skyline's area by the
      rectangle and the gap below it, which is the reported waste unless the position lies
      strictly inside a node of height 0. */
  lemma PlacementArea(s: seq<Point>, W: int, H: int, k: nat, x: int, w: int, h: int)
    requires Valid(s, W, H) && k + 1 < |s| && s[k].x <= x < s[k + 1].x && 1 <= w && 1 <= h && x + w <= W
    requires RaisedEnd(s, k, x, w) == x + w && Highest(s, x, x + w) + h <= H
    ensures
      var y := Highest(s, x, x + w);
      && Area(Insert(s, k, x, w, y + h), 0, W) == Area(s, 0, W) + w * h + Gap(s, x, x + w, y)
      && (x == s[k].x || 0 < s[k].y ==> Gap(s, x, x + w, y) == Waste(s, x, w))
  {
    var y := Highest(s, x, x + w);
    HighestBounds(s, x, x + w);
    InsertArea(s, W, H, k, x, w, y + h);
    SegmentUnique(s, k, x);
    GapRaise(s, x, x + w, y, y + h);
    assert (x + w - x) * (y + h - y) == w * h;
    if x == s[k].x || 0 < s[k].y {
      WasteIsGap(s, W, H, k, x, w);
    }
  }

  lemma HighestBelow(s: seq<Point>, W: int, H: int, a: int, b: int)
    requires Valid(s, W, H) && 0 <= a && b <= W && 0 <= H
    ensures 0 <= Highest(s, a, b) <= H
  {
    HighestBounds(s, a, b);
    forall c | a <= c < b
      ensures Column(s, c) <= H
    {
      ColumnRange(s, W, H, c);
    }
    HighestLeast(s, a, b, H);
  }

  // What find_min_y hands back for a probe that starts in node k.
  lemma ProbeExact(s: seq<Point>, W: int, H: int, k: nat, x0: int, w: int)
    requires Sealed(s, W, H) && k + 1 < |s| && s[k].x <= x0 < s[k + 1].x && H < UNREACHABLE && 0 <= H
    requires 1 <= w && x0 + w <= W
    ensures Scan(s, k, x0, w, 0, 0, 0) == (Highest(s, x0, x0 + w), Waste(s, x0, w))
    ensures Highest(s, x0, x0 + w) < UNREACHABLE && Segment(s, x0) == k
  {
    SealedIsValid(s, W, H);
    MinYIsHighest(s, W, H, k, x0, w);
    HighestBelow(s, W, H, x0, x0 + w);
    SegmentUnique(s, k, x0);
  }

  // --- The search (stbrp__skyline_find_best_pos) ------------------------------------------

  lemma AlignedDown(n: int, align: int)
    requires 1 <= align
    ensures (n - n % align) % align == 0
  {
    var q := n / align;
    assert n == q * align + n % align;
    AlignedMultiple(q, align);
    assert n - n % align == q * align;
  }

  lemma AlignedMultiple(q: int, align: int)
    requires 1 <= align
    ensures (q * align) % align == 0
  {
    var t, r := (q * align) / align, (q * align) % align;
    assert (q - t) * align == r;
    assert 1 <= q - t ==> align <= (q - t) * align;
    assert q - t <= -1 ==> (q - t) * align <= -align;
  }

  // A width rounded up to a multiple of align.
  function Aligned(w: int, align: int): (r: int)
    requires 1 <= w && 1 <= align
    ensures w <= r < w + align && r % align == 0
  {
    var up := w + align - 1;
    AlignedDown(up, align);
    up - up % align
  }

  // Some integer position leaves room for w columns of height h above the skyline.
  ghost predicate RoomAt(s: seq<Point>, W: int, H: int, w: int, h: int, x: int) {
    0 <= x && x + w <= W && Highest(s, x, x + w) + h <= H
  }

  ghost predicate Room(s: seq<Point>, W: int, H: int, w: int, h: int) {
    exists x :: RoomAt(s, W, H, w, h, x)
  }

  ghost predicate LowerLeft(s: seq<Point>, w: int, x: int, x': int) {
    var y, y' := Highest(s, x, x + w), Highest(s, x', x' + w);
    y < y' || (y == y' && x <= x')
  }

  // x is the lowest, then leftmost, of ALL integer positions.
  ghost predicate BottomLeft(s: seq<Point>, W: int, w: int, x: int) {
    && 0 <= x && x + w <= W
    && forall x' :: 0 <= x' && x' + w <= W ==> LowerLeft(s, w, x, x')
  }

  /** Sliding a rectangle left to the start of the node it is in never raises it. */
  lemma SlideLeft(s: seq<Point>, W: int, H: int, w: int, x: int)
    requires Valid(s, W, H) && 1 <= w && 0 <= x && x + w <= W
    ensures
      var k := Segment(s, x);
      k + 1 < |s| && 0 <= s[k].x <= x < s[k + 1].x && LowerLeft(s, w, s[k].x, x)
  {
    SegmentHolds(s, x);
    var k := Segment(s, x);
    var x0 := s[k].x;
    HighestBounds(s, x, x + w);
    ColumnAt(s, k, x);
    assert Column(s, x) <= Highest(s, x, x + w);
    forall c | x0 <= c < x0 + w
      ensures Column(s, c) <= Highest(s, x, x + w)
    {
      if c < x {
        ColumnAt(s, k, c);
      }
    }
    HighestLeast(s, x0, x0 + w, Highest(s, x, x + w));
  }

  // The height of a probe of width w at every node's own position.
  ghost function NodeHeights(s: seq<Point>, w: int): (hs: seq<int>)
    ensures |hs| == |s|
  {
    seq(|s|, i requires 0 <= i < |s| => Highest(s, s[i].x, s[i].x + w))
  }

  lemma NodeHeightAt(s: seq<Point>, W: int, H: int, w: int, i: nat)
    requires Sealed(s, W, H) && i < |s| && s[i].x + w <= W && 0 <= H
    ensures NodeHeights(s, w)[i] == Highest(s, s[i].x, s[i].x + w)
    ensures 0 <= NodeHeights(s, w)[i] <= H
  {
    SealedIsValid(s, W, H);
    HighestBelow(s, W, H, s[i].x, s[i].x + w);
  }

  // k is the first of the least values in front of i.
  ghost predicate FirstLeast(hs: seq<int>, k: nat, i: nat) {
    k < i <= |hs| && forall j :: 0 <= j < i ==> if j < k then hs[k] < hs[j] else hs[k] <= hs[j]
  }

  lemma FirstLeastNext(hs: seq<int>, k: nat, i: nat)
    requires i < |hs| && (0 < i ==> FirstLeast(hs, k, i))
    ensures FirstLeast(hs, if i == 0 || hs[i] < hs[k] then i else k, i + 1)
  {
  }

  /** Comparing the nodes' own positions suffices to be bottom-left among all integers. */
  lemma NodePositionsSuffice(s: seq<Point>, W: int, H: int, w: int, k: nat, i: nat)
    requires Valid(s, W, H) && 1 <= w && i < |s| && W < s[i].x + w
    requires FirstLeast(NodeHeights(s, w), k, i) && s[k].x + w <= W
    ensures BottomLeft(s, W, w, s[k].x)
    ensures Segment(s, s[k].x) == k && NodeHeights(s, w)[k] == Highest(s, s[k].x, s[k].x + w)
  {
    var hs := NodeHeights(s, w);
    SegmentUnique(s, k, s[k].x);
    assert forall j :: i < j < |s| ==> s[i].x < s[j].x;
    forall x' | 0 <= x' && x' + w <= W
      ensures LowerLeft(s, w, s[k].x, x')
    {
      SlideLeft(s, W, H, w, x');
      var j := Segment(s, x');
      assert hs[k] <= hs[j];
    }
  }

  lemma LowestNodeSuffices(s: seq<Point>, W: int, H: int, w: int, k: nat, i: nat)
    requires Sealed(s, W, H) && 1 <= w && i < |s| && W < s[i].x + w
    requires FirstLeast(NodeHeights(s, w), k, i) && s[k].x + w <= W
    ensures BottomLeft(s, W, w, s[k].x)
    ensures Segment(s, s[k].x) == k && NodeHeights(s, w)[k] == Highest(s, s[k].x, s[k].x + w)
  {
    SealedIsValid(s, W, H);
    NodePositionsSuffice(s, W, H, w, k, i);
  }

  /** A bottom-left position exists whenever the width does, and it alone decides room. */
  lemma BottomLeftDecides(s: seq<Point>, W: int, H: int, w: int, h: int, x: int)
    requires BottomLeft(s, W, w, x)
    ensures Room(s, W, H, w, h) <==> RoomAt(s, W, H, w, h, x)
  {
    if Room(s, W, H, w, h) {
      var x' :| RoomAt(s, W, H, w, h, x');
      assert LowerLeft(s, w, x, x');
    }
  }

  lemma BottomLeftUnique(s: seq<Point>, W: int, w: int, x: int, x': int)
    requires BottomLeft(s, W, w, x) && BottomLeft(s, W, w, x')
    ensures x == x'
  {
    assert LowerLeft(s, w, x, x') && LowerLeft(s, w, x', x);
  }

  // The positions best-fit tries: left edge on a node, or right edge on a node.
  ghost predicate Candidate(s: seq<Point>, W: int, w: int, x: int) {
    && 0 <= x && x + w <= W
    && exists i :: 0 <= i < |s| && (s[i].x == x || s[i].x == x + w)
  }

  // Order of best-fit: height, then reported waste, then x.
  ghost predicate FitsBetter(s: seq<Point>, w: int, x: int, x': int) {
    var y, y' := Highest(s, x, x + w), Highest(s, x', x' + w);
    var v, v' := Waste(s, x, w), Waste(s, x', w);
    y < y' || (y == y' && (v < v' || (v == v' && x <= x')))
  }

  // What a probe finds: the height it comes to rest on and the reported waste.
  datatype Probe = Probe(y: int, waste: int)

  // The probes of width w at the positions [0, n).
  ghost function Profile(s: seq<Point>, w: int, n: nat): (ps: seq<Probe>)
    ensures |ps| == n
  {
    if n == 0 then [] else Profile(s, w, n - 1) + [Probe(Highest(s, n - 1, n - 1 + w), Waste(s, n - 1, w))]
  }

  lemma {:induction false} ProfileAt(s: seq<Point>, w: int, n: nat, x: int)
    requires 0 <= x < n
    ensures Profile(s, w, n)[x] == Probe(Highest(s, x, x + w), Waste(s, x, w))
  {
    if x < n - 1 {
      ProfileAt(s, w, n - 1, x);
    }
  }

  // The probe at x has room, below a ceiling.
  ghost predicate Fits(ps: seq<Probe>, ceiling: int, x: int) {
    0 <= x < |ps| && ps[x].y <= ceiling
  }

  // The probe at x is at least as good as the one at x'.
  ghost predicate AtLeastAsGood(ps: seq<Probe>, x: int, x': int)
    requires 0 <= x < |ps| && 0 <= x' < |ps|
  {
    var p, p' := ps[x], ps[x'];
    p.y < p'.y || (p.y == p'.y && (p.waste < p'.waste || (p.waste == p'.waste && x <= x')))
  }

  datatype Pick = Nothing | At(x: int)

  // A later probe replaces the pick only if it has room and the pick is not as good.
  ghost function PickNext(ps: seq<Probe>, ceiling: int, r: Pick, x: int): Pick {
    if Fits(ps, ceiling, x) && (r.At? && 0 <= r.x < |ps| ==> !AtLeastAsGood(ps, r.x, x)) then At(x) else r
  }

  // The pick after the probes with the left edge on one of the first i nodes.
  ghost function PickLeft(ps: seq<Probe>, ceiling: int, s: seq<Point>, i: nat): (r: Pick)
    requires i <= |s|
    ensures r.At? ==> Fits(ps, ceiling, r.x)
  {
    if i == 0 then Nothing else PickNext(ps, ceiling, PickLeft(ps, ceiling, s, i - 1), s[i - 1].x)
  }

  // After those, the probes with the right edge on one of the first i nodes.
  ghost function PickRight(ps: seq<Probe>, ceiling: int, s: seq<Point>, w: int, left: nat, i: nat): (r: Pick)
    requires left <= |s| && i <= |s|
    ensures r.At? ==> Fits(ps, ceiling, r.x)
  {
    if i == 0 then PickLeft(ps, ceiling, s, left)
    else
      var r := PickRight(ps, ceiling, s, w, left, i - 1);
      if s[i - 1].x < w then r else PickNext(ps, ceiling, r, s[i - 1].x - w)
  }

  lemma {:induction false} PickRightSkips(ps: seq<Probe>, ceiling: int, s: seq<Point>, w: int, left: nat, i: nat)
    requires left <= |s| && i <= |s| && forall j :: 0 <= j < i ==> s[j].x < w
    ensures PickRight(ps, ceiling, s, w, left, i) == PickLeft(ps, ceiling, s, left)
  {
    if 0 < i {
      PickRightSkips(ps, ceiling, s, w, left, i - 1);
    }
  }

  // The pick is at least as good as the probe at x.
  ghost predicate Covers(ps: seq<Probe>, ceiling: int, r: Pick, x: int)
    requires r.At? ==> Fits(ps, ceiling, r.x)
  {
    Fits(ps, ceiling, x) ==> r.At? && AtLeastAsGood(ps, r.x, x)
  }

  lemma {:induction false} PickLeftCovers(ps: seq<Probe>, ceiling: int, s: seq<Point>, i: nat, j: nat)
    requires j < i <= |s|
    ensures Covers(ps, ceiling, PickLeft(ps, ceiling, s, i), s[j].x)
  {
    if j < i - 1 {
      PickLeftCovers(ps, ceiling, s, i - 1, j);
    }
  }

  lemma {:induction false} PickRightCovers(ps: seq<Probe>, ceiling: int, s: seq<Point>, w: int,
                                           left: nat, i: nat, x: int)
    requires left <= |s| && i <= |s|
    requires
      || Covers(ps, ceiling, PickLeft(ps, ceiling, s, left), x)
      || (0 <= x && exists j :: 0 <= j < i && s[j].x == x + w)
    ensures Covers(ps, ceiling, PickRight(ps, ceiling, s, w, left, i), x)
  {
    if 0 < i && (s[i - 1].x != x + w || Covers(ps, ceiling, PickLeft(ps, ceiling, s, left), x)) {
      PickRightCovers(ps, ceiling, s, w, left, i - 1, x);
    }
  }

  lemma {:induction false} PickLeftAligned(ps: seq<Probe>, ceiling: int, s: seq<Point>, i: nat)
    requires i <= |s|
    ensures
      var r := PickLeft(ps, ceiling, s, i);
      r.At? ==> exists j :: 0 <= j < i && s[j].x == r.x
  {
    if 0 < i {
      PickLeftAligned(ps, ceiling, s, i - 1);
    }
  }

  lemma PickLeftBefore(ps: seq<Probe>, ceiling: int, s: seq<Point>, W: int, H: int, i: nat)
    requires Sealed(s, W, H) && i < |s|
    ensures var r := PickLeft(ps, ceiling, s, i); r.At? ==> 0 <= r.x < |ps| && r.x < s[i].x
  {
    PickLeftAligned(ps, ceiling, s, i);
    var r := PickLeft(ps, ceiling, s, i);
    if r.At? {
      var j :| 0 <= j < i && s[j].x == r.x;
      ChainSorted(s, W, H, j, i);
    }
  }

  lemma {:induction false} PickRightAligned(ps: seq<Probe>, ceiling: int, s: seq<Point>, w: int, left: nat, i: nat)
    requires left <= |s| && i <= |s|
    ensures
      var r := PickRight(ps, ceiling, s, w, left, i);
      r.At? ==> exists j :: 0 <= j < |s| && (s[j].x == r.x || s[j].x == r.x + w)
  {
    if 0 < i {
      PickRightAligned(ps, ceiling, s, w, left, i - 1);
      assert s[i - 1].x == s[i - 1].x - w + w;
    } else {
      PickLeftAligned(ps, ceiling, s, left);
    }
  }

  /** Best-fit over the left- and right-aligned probes: nothing found means no integer
      position has room. */
  lemma ProbesSuffice(s: seq<Point>, W: int, H: int, w: int, h: int, i: nat)
    requires Sealed(s, W, H) && 1 <= w <= W && i < |s| && W < s[i].x + w
    ensures
      match PickRight(Profile(s, w, W - w + 1), H - h, s, w, i, |s|)
      case Nothing => !Room(s, W, H, w, h)
      case At(x) => BestFit(s, W, H, w, h, x)
  {
    hide PickRight, Profile;
    var n, c := W - w + 1, H - h;
    var ps := Profile(s, w, n);
    var r := PickRight(ps, c, s, w, i, |s|);
    if r.At? {
      ProfileAt(s, w, n, r.x);
      PickRightAligned(ps, c, s, w, i, |s|);
      forall x | Candidate(s, W, w, x) && RoomAt(s, W, H, w, h, x)
        ensures FitsBetter(s, w, r.x, x)
      {
        PickBeats(s, W, H, w, h, i, x);
      }
    } else if Room(s, W, H, w, h) {
      NoPickNoRoom(s, W, H, w, h, i);
    }
  }

  lemma NoPickNoRoom(s: seq<Point>, W: int, H: int, w: int, h: int, i: nat)
    requires Sealed(s, W, H) && 1 <= w <= W && i < |s| && W < s[i].x + w
    requires PickRight(Profile(s, w, W - w + 1), H - h, s, w, i, |s|) == Nothing
    ensures !Room(s, W, H, w, h)
  {
    if Room(s, W, H, w, h) {
      SealedIsValid(s, W, H);
      RoomMeansCandidate(s, W, H, w, h);
      var j :| 0 <= j < |s| && RoomAt(s, W, H, w, h, s[j].x);
      PickBeats(s, W, H, w, h, i, s[j].x);
    }
  }

  lemma GoodMeansFit(s: seq<Point>, w: int, n: nat, x: int, x': int)
    requires 0 <= x < n && 0 <= x' < n && AtLeastAsGood(Profile(s, w, n), x, x')
    ensures FitsBetter(s, w, x, x')
  {
    ProfileAt(s, w, n, x);
    ProfileAt(s, w, n, x');
  }

  lemma PickBeats(s: seq<Point>, W: int, H: int, w: int, h: int, i: nat, x: int)
    requires Sealed(s, W, H) && 1 <= w <= W && i < |s| && W < s[i].x + w && Candidate(s, W, w, x)
    requires RoomAt(s, W, H, w, h, x)
    ensures
      var r := PickRight(Profile(s, w, W - w + 1), H - h, s, w, i, |s|);
      r.At? && FitsBetter(s, w, r.x, x)
  {
    hide PickRight, Profile, Covers, Candidate;
    var n, c := W - w + 1, H - h;
    var ps := Profile(s, w, n);
    var r := PickRight(ps, c, s, w, i, |s|);
    ProfileAt(s, w, n, x);
    assert Fits(ps, c, x);
    CandidateCovered(s, W, H, w, c, ps, i, x);
    GoodMeansFit(s, w, n, r.x, x);
  }

  lemma CandidateCovered(s: seq<Point>, W: int, H: int, w: int, c: int, ps: seq<Probe>, i: nat, x: int)
    requires Sealed(s, W, H) && i < |s| && W < s[i].x + w && Candidate(s, W, w, x)
    ensures Covers(ps, c, PickRight(ps, c, s, w, i, |s|), x)
  {
    var j :| 0 <= j < |s| && (s[j].x == x || s[j].x == x + w);
    if s[j].x == x {
      if i < j {
        ChainSorted(s, W, H, i, j);
      } else if j < i {
        PickLeftCovers(ps, c, s, i, j);
      }
    }
    PickRightCovers(ps, c, s, w, i, |s|, x);
  }

  // x is the best of the candidates with room.
  ghost predicate BestFit(s: seq<Point>, W: int, H: int, w: int, h: int, x: int) {
    && Candidate(s, W, w, x) && RoomAt(s, W, H, w, h, x)
    && forall x' :: Candidate(s, W, w, x') && RoomAt(s, W, H, w, h, x') ==> FitsBetter(s, w, x, x')
  }

  /** Best-fit finds a position whenever any integer position has room, and none is lower. */
  lemma BestFitLowest(s: seq<Point>, W: int, H: int, w: int, h: int, x: int, x': int)
    requires Valid(s, W, H) && 1 <= w
    requires BestFit(s, W, H, w, h, x) && 0 <= x' && x' + w <= W
    ensures Highest(s, x, x + w) <= Highest(s, x', x' + w)
  {
    SlideLeft(s, W, H, w, x');
    var x0 := s[Segment(s, x')].x;
    if RoomAt(s, W, H, w, h, x0) {
      assert Candidate(s, W, w, x0);
      assert FitsBetter(s, w, x, x0);
    }
  }

  lemma RoomMeansCandidate(s: seq<Point>, W: int, H: int, w: int, h: int)
    requires Valid(s, W, H) && 1 <= w && Room(s, W, H, w, h)
    ensures exists i :: 0 <= i < |s| && RoomAt(s, W, H, w, h, s[i].x)
  {
    var x :| RoomAt(s, W, H, w, h, x);
    SlideLeft(s, W, H, w, x);
    assert RoomAt(s, W, H, w, h, s[Segment(s, x)].x);
  }
}
