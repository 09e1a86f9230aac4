/**
 The skyline of third-party/imgui/imstb_rectpack.h as a value: the sequence of the
 active nodes' (x, y) pairs, closed by the sentinel. A node's height holds for every
 column from its x up to the next node's x. Everything the packer promises is stated
 here column by column.
 */
module Skyline {

  // STBRP__MAXVAL, the coordinate given to rectangles that were not placed.
  const MAXVAL := 0x7fff_ffff
  // 1 << 30: the sentinel's height and the initial "best" height of the search.
  const UNREACHABLE := 0x4000_0000

  datatype Point = Point(x: int, y: int)

  ghost predicate Sorted(s: seq<Point>) {
    forall i, j :: 0 <= i < j < |s| ==> s[i].x < s[j].x
  }

  ghost predicate Valid(s: seq<Point>, width: int, height: int) {
    && |s| >= 2
    && s[0].x == 0
    && Sorted(s)
    && s[|s| - 1] == Point(width, UNREACHABLE)
    && forall i :: 0 <= i < |s| - 1 ==> 0 <= s[i].y <= height
  }

  // The same, node by node, as a walk along the list meets it.
  ghost predicate Chain(s: seq<Point>, width: int, height: int) {
    && s != []
    && if |s| == 1 then s[0] == Point(width, UNREACHABLE)
       else 0 <= s[0].y <= height && s[0].x < s[1].x && Chain(s[1..], width, height)
  }

  ghost predicate Sealed(s: seq<Point>, width: int, height: int) {
    |s| >= 2 && s[0].x == 0 && Chain(s, width, height)
  }

  lemma {:induction false} ChainAt(s: seq<Point>, width: int, height: int, i: nat)
    requires Chain(s, width, height) && i < |s|
    ensures i + 1 == |s| ==> s[i] == Point(width, UNREACHABLE)
    ensures i + 1 < |s| ==> 0 <= s[i].y <= height && s[i].x < s[i + 1].x
    ensures s[0].x <= s[i].x <= width
  {
    if 0 < i {
      ChainAt(s[1..], width, height, i - 1);
    } else if |s| > 1 {
      ChainAt(s[1..], width, height, 0);
    }
  }

  lemma {:induction false} ChainSorted(s: seq<Point>, width: int, height: int, i: nat, j: nat)
    requires Chain(s, width, height) && i < j < |s|
    ensures s[i].x < s[j].x
  {
    ChainAt(s, width, height, j - 1);
    if i < j - 1 {
      ChainSorted(s, width, height, i, j - 1);
    }
  }

  lemma {:induction false} SortedChain(s: seq<Point>, width: int, height: int)
    requires s != [] && Sorted(s) && s[|s| - 1] == Point(width, UNREACHABLE)
    requires forall i :: 0 <= i < |s| - 1 ==> 0 <= s[i].y <= height
    ensures Chain(s, width, height)
  {
    if |s| > 1 {
      SortedChain(s[1..], width, height);
    }
  }

  lemma SealedIsValid(s: seq<Point>, width: int, height: int)
    ensures Sealed(s, width, height) <==> Valid(s, width, height)
  {
    if Sealed(s, width, height) {
      forall i, j | 0 <= i < j < |s|
        ensures s[i].x < s[j].x
      {
        ChainSorted(s, width, height, i, j);
      }
      forall i | 0 <= i < |s|
        ensures i < |s| - 1 ==> 0 <= s[i].y <= height
      {
        ChainAt(s, width, height, i);
      }
      ChainAt(s, width, height, |s| - 1);
    } else if Valid(s, width, height) {
      SortedChain(s, width, height);
    }
  }

  function Max(a: int, b: int): int {
    if a < b then b else a
  }

  // --- Heights, column by column -------------------------------------------------

  // The height of column c.
  function Column(s: seq<Point>, c: int): int {
    if |s| < 2 then 0 else if c < s[1].x then s[0].y else Column(s[1..], c)
  }

  // The highest column of [a, b).
  ghost function Highest(s: seq<Point>, a: int, b: int): int
    decreases b - a
  {
    if b <= a then 0 else Max(Highest(s, a, b - 1), Column(s, b - 1))
  }

  // The area under the skyline over [a, b).
  ghost function Area(s: seq<Point>, a: int, b: int): int
    decreases b - a
  {
    if b <= a then 0 else Area(s, a, b - 1) + Column(s, b - 1)
  }

  // The area between the skyline and a ceiling y over [a, b).
  ghost function Gap(s: seq<Point>, a: int, b: int, y: int): int
    decreases b - a
  {
    if b <= a then 0 else Gap(s, a, b - 1, y) + (y - Column(s, b - 1))
  }

  lemma {:induction false} ColumnAt(s: seq<Point>, i: nat, c: int)
    requires Sorted(s) && i + 1 < |s|
    requires s[i].x <= c < s[i + 1].x
    ensures Column(s, c) == s[i].y
  {
    if i > 0 {
      ColumnAt(s[1..], i - 1, c);
    }
  }

  // The index of the node whose columns contain c.
  ghost function Segment(s: seq<Point>, c: int): nat {
    if |s| < 2 || c < s[1].x then 0 else 1 + Segment(s[1..], c)
  }

  lemma {:induction false} SegmentHolds(s: seq<Point>, c: int)
    requires Sorted(s) && |s| >= 2 && s[0].x <= c < s[|s| - 1].x
    ensures var i := Segment(s, c); i + 1 < |s| && s[i].x <= c < s[i + 1].x
  {
    if s[1].x <= c {
      SegmentHolds(s[1..], c);
    }
  }

  lemma {:induction false} SegmentUnique(s: seq<Point>, i: nat, c: int)
    requires Sorted(s) && i + 1 < |s| && s[i].x <= c < s[i + 1].x
    ensures Segment(s, c) == i
  {
    if 0 < i {
      SegmentUnique(s[1..], i - 1, c);
    }
  }

  lemma ColumnRange(s: seq<Point>, width: int, height: int, c: int)
    requires Valid(s, width, height) && 0 <= c < width
    ensures 0 <= Column(s, c) <= height
  {
    SegmentHolds(s, c);
    ColumnAt(s, Segment(s, c), c);
  }

  lemma {:induction false} HighestBounds(s: seq<Point>, a: int, b: int)
    ensures 0 <= Highest(s, a, b)
    ensures forall c :: a <= c < b ==> Column(s, c) <= Highest(s, a, b)
    decreases b - a
  {
    if a < b {
      HighestBounds(s, a, b - 1);
    }
  }

  // Highest is the least upper bound that is not negative.
  lemma {:induction false} HighestLeast(s: seq<Point>, a: int, b: int, top: int)
    requires 0 <= top
    requires forall c :: a <= c < b ==> Column(s, c) <= top
    ensures Highest(s, a, b) <= top
    decreases b - a
  {
    if a < b {
      HighestLeast(s, a, b - 1, top);
    }
  }

  lemma {:induction false} HighestSplit(s: seq<Point>, a: int, m: int, b: int)
    requires a <= m <= b
    ensures Highest(s, a, b) == Max(Highest(s, a, m), Highest(s, m, b))
    decreases b - m
  {
    HighestBounds(s, a, m);
    if m < b {
      HighestSplit(s, a, m, b - 1);
    }
  }

  lemma {:induction false} HighestFlat(s: seq<Point>, a: int, b: int, y: int)
    requires a < b && 0 <= y
    requires forall c :: a <= c < b ==> Column(s, c) == y
    ensures Highest(s, a, b) == y
    decreases b - a
  {
    if a + 1 < b {
      HighestFlat(s, a, b - 1, y);
    }
  }

  lemma {:induction false} GapSplit(s: seq<Point>, a: int, m: int, b: int, y: int)
    requires a <= m <= b
    ensures Gap(s, a, b, y) == Gap(s, a, m, y) + Gap(s, m, b, y)
    decreases b - m
  {
    if m < b {
      GapSplit(s, a, m, b - 1, y);
    }
  }

  lemma {:induction false} GapFlat(s: seq<Point>, a: int, b: int, y: int, v: int)
    requires a <= b
    requires forall c :: a <= c < b ==> Column(s, c) == v
    ensures Gap(s, a, b, y) == (b - a) * (y - v)
    decreases b - a
  {
    if a < b {
      GapFlat(s, a, b - 1, y, v);
      assert (b - a) * (y - v) == (b - 1 - a) * (y - v) + (y - v);
    }
  }

  lemma {:induction false} GapRaise(s: seq<Point>, a: int, b: int, y: int, y': int)
    requires a <= b
    ensures Gap(s, a, b, y') == Gap(s, a, b, y) + (b - a) * (y' - y)
    decreases b - a
  {
    if a < b {
      GapRaise(s, a, b - 1, y, y');
      assert (b - a) * (y' - y) == (b - 1 - a) * (y' - y) + (y' - y);
    }
  }

  lemma {:induction false} GapIsArea(s: seq<Point>, a: int, b: int, y: int)
    requires a <= b
    ensures Gap(s, a, b, y) == (b - a) * y - Area(s, a, b)
    decreases b - a
  {
    if a < b {
      GapIsArea(s, a, b - 1, y);
      assert (b - a) * y == (b - 1 - a) * y + y;
    }
  }

  lemma {:induction false} AreaSplit(s: seq<Point>, a: int, m: int, b: int)
    requires a <= m <= b
    ensures Area(s, a, b) == Area(s, a, m) + Area(s, m, b)
    decreases b - m
  {
    if m < b {
      AreaSplit(s, a, m, b - 1);
    }
  }

  lemma {:induction false} AreaSame(s: seq<Point>, t: seq<Point>, a: int, b: int)
    requires forall c :: a <= c < b ==> Column(s, c) == Column(t, c)
    ensures Area(s, a, b) == Area(t, a, b)
    decreases b - a
  {
    if a < b {
      AreaSame(s, t, a, b - 1);
    }
  }

  lemma {:induction false} AreaBounded(s: seq<Point>, width: int, height: int, b: int)
    requires Valid(s, width, height) && 0 <= b <= width
    ensures 0 <= Area(s, 0, b) <= b * height
    decreases b
  {
    if 0 < b {
      AreaBounded(s, width, height, b - 1);
      ColumnRange(s, width, height, b - 1);
      assert b * height == (b - 1) * height + height;
    }
  }

  // --- stbrp__skyline_find_min_y ---------------------------------------------------

  // The loop of find_min_y from node i on, with its three accumulators.
  ghost function Scan(s: seq<Point>, i: nat, x0: int, w: int, minY: int, visited: int, waste: int): (int, int)
    decreases |s| - i
  {
    if |s| <= i + 1 || x0 + w <= s[i].x then (minY, waste)
    else if minY < s[i].y then
      Scan(s, i + 1, x0, w, s[i].y,
           visited + s[i + 1].x - Max(s[i].x, x0),
           waste + visited * (s[i].y - minY))
    else
      var wide := s[i + 1].x - s[i].x;
      var under := if wide + visited > w then w - visited else wide;
      Scan(s, i + 1, x0, w, minY, visited + under, waste + under * (minY - s[i].y))
  }

  // One turn of the loop.
  lemma ScanTurn(s: seq<Point>, i: nat, x0: int, w: int, minY: int, visited: int, waste: int)
    requires i + 1 < |s| && s[i].x < x0 + w
    ensures
      var wide := s[i + 1].x - s[i].x;
      var under := if wide + visited > w then w - visited else wide;
      Scan(s, i, x0, w, minY, visited, waste) ==
      if minY < s[i].y then
        Scan(s, i + 1, x0, w, s[i].y, visited + s[i + 1].x - Max(s[i].x, x0), waste + visited * (s[i].y - minY))
      else Scan(s, i + 1, x0, w, minY, visited + under, waste + under * (minY - s[i].y))
  {
  }

  // Its end.
  lemma ScanEnd(s: seq<Point>, i: nat, x0: int, w: int, minY: int, visited: int, waste: int)
    requires i < |s| && x0 + w <= s[i].x
    ensures Scan(s, i, x0, w, minY, visited, waste) == (minY, waste)
  {
  }

  // What find_min_y returns through pwaste for a probe at x0.
  ghost function Waste(s: seq<Point>, x0: int, w: int): int
  {
    Scan(s, Segment(s, x0), x0, w, 0, 0, 0).1
  }

  // Columns [a, b) inside segment i are flat.
  lemma SegmentFlat(s: seq<Point>, i: nat, a: int, b: int)
    requires Sorted(s) && i + 1 < |s| && s[i].x <= a <= b <= s[i + 1].x && 0 <= s[i].y
    ensures forall c :: a <= c < b ==> Column(s, c) == s[i].y
    ensures a < b ==> Highest(s, a, b) == s[i].y
    ensures forall y :: Gap(s, a, b, y) == (b - a) * (y - s[i].y)
  {
    forall c | a <= c < b
      ensures Column(s, c) == s[i].y
    {
      ColumnAt(s, i, c);
    }
    if a < b {
      HighestFlat(s, a, b, s[i].y);
    }
    forall y
      ensures Gap(s, a, b, y) == (b - a) * (y - s[i].y)
    {
      GapFlat(s, a, b, y, s[i].y);
    }
  }

  // The height is exact whatever the waste accumulators hold.
  lemma {:induction false} ScanHeight(s: seq<Point>, W: int, H: int, i: nat, x0: int, w: int, visited: int, waste: int)
    requires Valid(s, W, H) && i < |s| && 0 <= x0 <= s[i].x && 0 <= w && x0 + w <= W
    ensures s[i].x < x0 + w ==>
              Scan(s, i, x0, w, Highest(s, x0, s[i].x), visited, waste).0 == Highest(s, x0, x0 + w)
    decreases |s| - i
  {
    hide Highest, Gap, Segment, Scan;
    if s[i].x < x0 + w {
      var minY := Highest(s, x0, s[i].x);
      var nx := s[i + 1].x;
      var e := if nx < x0 + w then nx else x0 + w;
      HighestSplit(s, x0, s[i].x, e);
      SegmentFlat(s, i, s[i].x, e);
      ScanTurn(s, i, x0, w, minY, visited, waste);
      var under := if nx - s[i].x + visited > w then w - visited else nx - s[i].x;
      var visited' := visited + if minY < s[i].y then nx - s[i].x else under;
      var waste' := waste + if minY < s[i].y then visited * (s[i].y - minY) else under * (minY - s[i].y);
      if nx < x0 + w {
        ScanHeight(s, W, H, i + 1, x0, w, visited', waste');
      } else {
        ScanEnd(s, i + 1, x0, w, Max(minY, s[i].y), visited', waste');
      }
    }
  }

  /** find_min_y returns the highest column of [x0, x0 + w), wherever x0 lies in its node. */
  lemma MinYIsHighest(s: seq<Point>, W: int, H: int, k: nat, x0: int, w: int)
    requires Valid(s, W, H) && k + 1 < |s| && s[k].x <= x0 < s[k + 1].x
    requires 1 <= w && x0 + w <= W
    ensures Scan(s, k, x0, w, 0, 0, 0).0 == Highest(s, x0, x0 + w)
  {
    var nx := s[k + 1].x;
    var e := if nx < x0 + w then nx else x0 + w;
    SegmentFlat(s, k, x0, e);
    if nx < x0 + w {
      if 0 < s[k].y {
        ScanHeight(s, W, H, k + 1, x0, w, nx - x0, 0);
      } else {
        var under := if nx - s[k].x > w then w else nx - s[k].x;
        ScanHeight(s, W, H, k + 1, x0, w, under, 0);
      }
    }
  }

  // What one node of the scan adds to the height and to the gap.
  lemma GapStep(s: seq<Point>, x0: int, i: nat, e: int)
    requires Sorted(s) && i + 1 < |s| && x0 <= s[i].x < e <= s[i + 1].x && 0 <= s[i].y
    ensures
      var y := Highest(s, x0, s[i].x);
      var y' := Highest(s, x0, e);
      && y' == Max(y, s[i].y)
      && Gap(s, x0, e, y') ==
         Gap(s, x0, s[i].x, y) + (s[i].x - x0) * (y' - y) + (e - s[i].x) * (y' - s[i].y)
  {
    var y, y' := Highest(s, x0, s[i].x), Highest(s, x0, e);
    HighestSplit(s, x0, s[i].x, e);
    SegmentFlat(s, i, s[i].x, e);
    GapSplit(s, x0, s[i].x, e, y');
    GapRaise(s, x0, s[i].x, y, y');
  }

  // The same node as the loop of find_min_y accounts for it.
  lemma ScanStep(s: seq<Point>, i: nat, x0: int, w: int, y: int, visited: int, waste: int)
    requires Sorted(s) && i + 1 < |s| && x0 <= s[i].x < x0 + w <= s[|s| - 1].x && visited == s[i].x - x0
    ensures
      var nx := s[i + 1].x;
      var e := if nx < x0 + w then nx else x0 + w;
      var y' := Max(y, s[i].y);
      var waste' := waste + visited * (y' - y) + (e - s[i].x) * (y' - s[i].y);
      Scan(s, i, x0, w, y, visited, waste) ==
      if nx < x0 + w then Scan(s, i + 1, x0, w, y', nx - x0, waste') else (y', waste')
  {
    var nx := s[i + 1].x;
    var e := if nx < x0 + w then nx else x0 + w;
    if y < s[i].y {
      assert (e - s[i].x) * (s[i].y - s[i].y) == 0;
    } else {
      assert visited * (y - y) == 0;
    }
  }

  lemma {:induction false} ScanWaste(
    s: seq<Point>, W: int, H: int, i: nat, x0: int, w: int, y: int, visited: int, waste: int)
    requires Valid(s, W, H) && i < |s| && 0 <= x0 <= s[i].x && 0 <= w && x0 + w <= W
    requires s[i].x < x0 + w
    requires y == Highest(s, x0, s[i].x) && visited == s[i].x - x0 && waste == Gap(s, x0, s[i].x, y)
    ensures Scan(s, i, x0, w, y, visited, waste).1 == Gap(s, x0, x0 + w, Highest(s, x0, x0 + w))
    decreases |s| - i
  {
    var nx := s[i + 1].x;
    var e := if nx < x0 + w then nx else x0 + w;
    GapStep(s, x0, i, e);
    ScanStep(s, i, x0, w, y, visited, waste);
    if nx < x0 + w {
      var y' := Highest(s, x0, e);
      ScanWaste(s, W, H, i + 1, x0, w, y', nx - x0, Gap(s, x0, e, y'));
    }
  }

  /** The reported waste is the gap below the returned height, column by column, when the
      probe starts at a node's left end or inside a node of positive height. */
  lemma WasteIsGap(s: seq<Point>, W: int, H: int, k: nat, x0: int, w: int)
    requires Valid(s, W, H) && k + 1 < |s| && s[k].x <= x0 < s[k + 1].x
    requires 1 <= w && x0 + w <= W
    requires x0 == s[k].x || 0 < s[k].y
    ensures Scan(s, k, x0, w, 0, 0, 0).1 == Gap(s, x0, x0 + w, Highest(s, x0, x0 + w))
  {
    if x0 == s[k].x {
      ScanWaste(s, W, H, k, x0, w, 0, 0, 0);
    } else {
      var nx := s[k + 1].x;
      var e := if nx < x0 + w then nx else x0 + w;
      SegmentFlat(s, k, x0, e);
      if nx < x0 + w {
        ScanWaste(s, W, H, k + 1, x0, w, s[k].y, nx - x0, 0);
      }
    }
  }

  // A probe of width w at x0 that starts in node k reports the gap below its height.
  ghost predicate ExactProbe(s: seq<Point>, W: int, H: int, k: nat, x0: int, w: int) {
    Valid(s, W, H) && k + 1 < |s| && s[k].x <= x0 < s[k + 1].x && 1 <= w && x0 + w <= W ==>
      Scan(s, k, x0, w, 0, 0, 0).1 == Gap(s, x0, x0 + w, Highest(s, x0, x0 + w))
  }

  // The waste reported for a probe at x0 is right whatever skyline follows the nodes pre,
  // the last of which, node k, contains x0.
  ghost predicate WasteAlwaysExact(pre: seq<Point>, k: nat, x0: int)
    requires |pre| == k + 1
  {
    forall s: seq<Point>, W, H, w :: k < |s| && s[..k + 1] == pre ==> ExactProbe(s, W, H, k, x0, w)
  }

  // One column of height 1, directly after a node of height zero, is charged for a column
  // that a probe starting inside the node does not cover.
  lemma Overcharged(pre: seq<Point>, k: nat, H: int, x0: int) returns (s: seq<Point>)
    requires |pre| == k + 1 && Sorted(pre) && pre[0].x == 0 && 1 <= H
    requires forall i :: 0 <= i < |pre| ==> 0 <= pre[i].y <= H
    requires pre[k].x < x0 && pre[k].y == 0
    ensures k < |s| && s[..k + 1] == pre && !ExactProbe(s, x0 + 2, H, k, x0, 2)
  {
    var b := x0 + 1;
    s := pre + [Point(b, 1), Point(b + 1, UNREACHABLE)];
    assert s[..k + 1] == pre && s[k] == pre[k] && s[k + 1] == Point(b, 1) && s[k + 2] == Point(b + 1, UNREACHABLE);
    assert Valid(s, b + 1, H);
    assert Gap(s, x0, b + 1, Highest(s, x0, b + 1)) == 1 by {
      SegmentFlat(s, k, x0, b);
      SegmentFlat(s, k + 1, b, b + 1);
      HighestSplit(s, x0, b, b + 1);
      GapSplit(s, x0, b, b + 1, 1);
    }
    assert Scan(s, k, x0, 2, 0, 0, 0) == Scan(s, k + 1, x0, 2, 0, 2, 0);
    assert Scan(s, k + 1, x0, 2, 0, 2, 0) == Scan(s, k + 2, x0, 2, 1, 3, 2);
  }

  /** find_min_y can be trusted for its waste exactly when the probe does not start strictly
      inside a node of height zero. */
  lemma WasteExactIff(pre: seq<Point>, k: nat, H: int, x0: int)
    requires |pre| == k + 1 && Sorted(pre) && pre[0].x == 0 && 1 <= H
    requires forall i :: 0 <= i < |pre| ==> 0 <= pre[i].y <= H
    requires pre[k].x <= x0
    ensures WasteAlwaysExact(pre, k, x0) <==> x0 == pre[k].x || 0 < pre[k].y
  {
    if x0 == pre[k].x || 0 < pre[k].y {
      forall s: seq<Point>, W, H, w | k < |s| && s[..k + 1] == pre
        ensures ExactProbe(s, W, H, k, x0, w)
      {
        assert s[k] == s[..k + 1][k];
        if Valid(s, W, H) && k + 1 < |s| && s[k].x <= x0 < s[k + 1].x && 1 <= w && x0 + w <= W {
          WasteIsGap(s, W, H, k, x0, w);
        }
      }
    } else {
      var s := Overcharged(pre, k, H, x0);
    }
  }
}
