/**
 Whole runs of the rectangle packer as a transition system: one step per non-empty
 rectangle handed to stbrp__skyline_pack_rectangle.
 */
module PackingRuns {
  import opened Skyline
  import opened Placement

  // What stbrp_init_target and the two setup functions fix.
  datatype Target = Target(width: int, height: int, align: int, nodes: int, bestFit: bool)

  predicate Proper(t: Target) {
    1 <= t.width && 1 <= t.height < UNREACHABLE && 1 <= t.align && 1 <= t.nodes
  }

  // The state between two rectangles: the skyline, the number of free nodes, the boxes.
  datatype Packing = Packing(sky: seq<Point>, free: int, boxes: seq<Box>)

  function Fresh(t: Target): Packing {
    Packing([Point(0, 0), Point(t.width, UNREACHABLE)], t.nodes, [])
  }

  lemma FreshIs(t: Target)
    ensures Fresh(t) == Packing([Point(0, 0), Point(t.width, 0x4000_0000)], t.nodes, [])
  {
  }

  // The invariant of a whole run: every box placed lies inside the target and under the
  // skyline, no two overlap, their area is covered by the skyline's, no node is lost.
  ghost predicate Sound(t: Target, p: Packing) {
    && Proper(t)
    && Sealed(p.sky, t.width, t.height)
    && (forall i :: 0 <= i < |p.boxes| ==> Inside(p.boxes[i], t.width, t.height) && Under(p.boxes[i], p.sky))
    && AllDisjoint(p.boxes)
    && BoxArea(p.boxes) <= Area(p.sky, 0, t.width)
    && 0 <= p.free && |p.sky| + p.free == t.nodes + 2
  }

  ghost function SoundStates(t: Target): iset<Packing> {
    iset p | Sound(t, p)
  }

  lemma SoundRealigned(t: Target, p: Packing, align: int)
    requires Sound(t, p) && 1 <= align
    ensures Sound(t.(align := align), p)
  {
  }

  // Some position leaves room for the rectangle, its width rounded up to the alignment.
  ghost predicate HasRoom(t: Target, p: Packing, w: int, h: int)
    requires 1 <= w && 1 <= t.align
  {
    Room(p.sky, t.width, t.height, Aligned(w, t.align), h)
  }

  // The position the target's heuristic picks.
  ghost predicate Chosen(t: Target, p: Packing, w: int, h: int, x: int)
    requires Sound(t, p) && 1 <= w
  {
    var wide := Aligned(w, t.align);
    if t.bestFit then BestFit(p.sky, t.width, t.height, wide, h, x)
    else BottomLeft(p.sky, t.width, wide, x) && RoomAt(p.sky, t.width, t.height, wide, h, x)
  }

  ghost function Choices(t: Target, p: Packing, w: int, h: int): iset<int>
    requires Sound(t, p) && 1 <= w
  {
    iset x | Chosen(t, p, w, h, x)
  }

  lemma RoomThere(t: Target, p: Packing, w: int, h: int, x: int)
    requires Sound(t, p) && 1 <= w && Chosen(t, p, w, h, x)
    ensures HasRoom(t, p, w, h)
  {
    assert RoomAt(p.sky, t.width, t.height, Aligned(w, t.align), h, x);
  }

  // The state after the rectangle is put at column x, which lies in a proper node.
  ghost function PutAt(t: Target, p: Packing, w: int, h: int, x: int): Packing
    requires 1 <= w && 1 <= t.align
  {
    var k, y := Segment(p.sky, x), Highest(p.sky, x, x + Aligned(w, t.align));
    if |p.sky| <= k + 1 then p
    else
      var sky := Insert(p.sky, k, x, w, y + h);
      Packing(sky, p.free + |p.sky| - |sky|, p.boxes + [Box(x, y, w, h)])
  }

  // A rectangle is refused exactly when no node is free or no position has room.
  ghost predicate Step(t: Target, p: Packing, w: int, h: int, p': Packing) {
    && p in SoundStates(t) && 1 <= w && 1 <= h
    && if 0 < p.free && HasRoom(t, p, w, h)
       then exists x :: Chosen(t, p, w, h, x) && p' == PutAt(t, p, w, h, x)
       else p' == p
  }

  lemma RefusedStep(t: Target, p: Packing, w: int, h: int)
    requires p in SoundStates(t) && 1 <= w && 1 <= h && (p.free == 0 || !HasRoom(t, p, w, h))
    ensures Step(t, p, w, h, p)
  {
  }

  // A chosen box rests on every column that is going to be raised, whatever the alignment.
  lemma ChosenRests(t: Target, p: Packing, w: int, h: int, x: int)
    requires Sound(t, p) && 1 <= w && 1 <= h && Chosen(t, p, w, h, x)
    ensures
      var wide := Aligned(w, t.align);
      var k := Segment(p.sky, x);
      && 0 <= x && x + wide <= t.width
      && k + 1 < |p.sky| && p.sky[k].x <= x < p.sky[k + 1].x
      && RaisedEnd(p.sky, k, x, w) <= x + wide
      && Highest(p.sky, x, RaisedEnd(p.sky, k, x, w)) <= Highest(p.sky, x, x + wide) <= t.height - h
  {
    hide Column, Gap, Area, Waste, AllDisjoint, BoxArea, Under, BottomLeft, BestFit, Chain;
    SealedIsValid(p.sky, t.width, t.height);
    RoomOfChosen(t, p, w, h, x);
    SegmentHolds(p.sky, x);
    var s, wide := p.sky, Aligned(w, t.align);
    var k := Segment(s, x);
    if !t.bestFit {
      BottomLeftAtNode(s, t.width, t.height, wide, x);
    } else {
      CandidateEnds(s, t.width, t.height, wide, x);
    }
    var e := RaisedEnd(s, k, x, w);
    HighestBounds(s, x, e);
    HighestSplit(s, x, e, x + wide);
  }

  lemma RoomOfChosen(t: Target, p: Packing, w: int, h: int, x: int)
    requires Sound(t, p) && 1 <= w && Chosen(t, p, w, h, x)
    ensures RoomAt(p.sky, t.width, t.height, Aligned(w, t.align), h, x)
    ensures t.bestFit ==> Candidate(p.sky, t.width, Aligned(w, t.align), x)
  {
  }

  lemma BottomLeftAtNode(s: seq<Point>, W: int, H: int, w: int, x: int)
    requires Valid(s, W, H) && 1 <= w && BottomLeft(s, W, w, x)
    ensures Segment(s, x) < |s| && s[Segment(s, x)].x == x
  {
    SlideLeft(s, W, H, w, x);
    assert LowerLeft(s, w, x, s[Segment(s, x)].x);
  }

  // A candidate inside a node ends at a later one.
  lemma CandidateEnds(s: seq<Point>, W: int, H: int, w: int, x: int)
    requires Valid(s, W, H) && 1 <= w && Candidate(s, W, w, x)
    ensures var k := Segment(s, x); k + 1 < |s| && (s[k].x < x ==> s[k + 1].x <= x + w)
  {
    SegmentHolds(s, x);
    var k := Segment(s, x);
    var i :| 0 <= i < |s| && (s[i].x == x || s[i].x == x + w);
    assert i <= k ==> s[i].x <= s[k].x;
    assert k + 1 <= i ==> s[k + 1].x <= s[i].x;
  }

  lemma PutSound(t: Target, p: Packing, w: int, h: int, x: int)
    requires Sound(t, p) && 1 <= w && 1 <= h && 0 < p.free && Chosen(t, p, w, h, x)
    ensures 0 <= x && x + Aligned(w, t.align) <= t.width
    ensures
      var p' := PutAt(t, p, w, h, x);
      && Sound(t, p')
      && exists b :: p'.boxes == p.boxes + [b] && Inside(b, t.width, t.height)
  {
    hide Insert, Highest, Column, Area, BoxArea, Chosen;
    ChosenRests(t, p, w, h, x);
    var k := Segment(p.sky, x);
    var b := Box(x, Highest(p.sky, x, x + Aligned(w, t.align)), w, h);
    HighestBounds(p.sky, x, x + Aligned(w, t.align));
    InsertSafe(p.sky, t.width, t.height, p.boxes, k, b);
    InsertLength(p.sky, k, x, w, b.y + h);
    assert PutAt(t, p, w, h, x).boxes == p.boxes + [b];
  }

  /** Every step keeps every box inside the target, the boxes pairwise disjoint and under the
      skyline, the packed area within the skyline's, and no node is lost or duplicated. */
  lemma StepSound(t: Target, p: Packing, w: int, h: int, p': Packing)
    requires Step(t, p, w, h, p')
    ensures Sound(t, p')
    ensures p'.boxes == p.boxes || exists b :: p'.boxes == p.boxes + [b] && Inside(b, t.width, t.height)
  {
    if 0 < p.free && HasRoom(t, p, w, h) {
      var x :| Chosen(t, p, w, h, x) && p' == PutAt(t, p, w, h, x);
      PutSound(t, p, w, h, x);
    }
  }

  // The height a box of width w comes to rest on at x.
  ghost function Floor(s: seq<Point>, w: int, x: int): int {
    Highest(s, x, x + w)
  }

  // Some node lies under an edge of a box of width w at x.
  ghost predicate AtNode(s: seq<Point>, w: int, x: int) {
    exists i :: 0 <= i < |s| && (s[i].x == x || s[i].x == x + w)
  }

  /** What a step does. A rectangle is refused, and nothing changes, exactly when no node is free or it
      would reach above the target wherever it stood. Otherwise one box of its size is added; no
      position is lower, and among the equally low ones it is the leftmost for bottom-left and the
      one with the least waste, then the leftmost, of those with an edge on a node for best-fit. */
  lemma StepMeans(t: Target, p: Packing, w: int, h: int, p': Packing) returns (b: Box)
    requires Step(t, p, w, h, p')
    ensures Proper(t)
    ensures
      var s, wide := p.sky, Aligned(w, t.align);
      if p.free == 0 || forall x :: 0 <= x <= t.width - wide ==> t.height < Floor(s, wide, x) + h then p' == p
      else
        && p'.boxes == p.boxes + [b] && b.w == w && b.h == h
        && 0 <= b.x <= t.width - wide && b.y == Floor(s, wide, b.x) <= t.height - h
        && (forall x :: 0 <= x <= t.width - wide ==> b.y <= Floor(s, wide, x))
        && (!t.bestFit ==> forall x :: 0 <= x <= t.width - wide && Floor(s, wide, x) == b.y ==> b.x <= x)
        && (t.bestFit ==>
              && AtNode(s, wide, b.x)
              && forall x :: 0 <= x <= t.width - wide && Floor(s, wide, x) == b.y && AtNode(s, wide, x) ==>
                   || Waste(s, b.x, wide) < Waste(s, x, wide)
                   || (Waste(s, b.x, wide) == Waste(s, x, wide) && b.x <= x))
  {
    hide Sealed, AllDisjoint, BoxArea, Area, Under, Highest, Waste, Insert, Segment;
    var s, wide := p.sky, Aligned(w, t.align);
    b := Box(0, 0, w, h);
    if 0 < p.free && HasRoom(t, p, w, h) {
      var x :| Chosen(t, p, w, h, x) && p' == PutAt(t, p, w, h, x);
      b := Box(x, Floor(s, wide, x), w, h);
      ChosenMeans(t, p, w, h, x);
      assert !(forall x :: 0 <= x <= t.width - wide ==> t.height < Floor(s, wide, x) + h) by {
        assert t.height >= Floor(s, wide, x) + h;
      }
    } else if 0 < p.free {
      forall x | 0 <= x <= t.width - wide
        ensures t.height < Floor(s, wide, x) + h
      {
        assert !RoomAt(s, t.width, t.height, wide, h, x);
      }
    }
  }

  lemma ChosenMeans(t: Target, p: Packing, w: int, h: int, x: int)
    requires Sound(t, p) && 1 <= w && 1 <= h && Chosen(t, p, w, h, x)
    ensures
      var s, wide := p.sky, Aligned(w, t.align);
      && 0 <= x <= t.width - wide && Floor(s, wide, x) <= t.height - h
      && (exists b :: PutAt(t, p, w, h, x).boxes == p.boxes + [b] && b == Box(x, Floor(s, wide, x), w, h))
      && (forall x' :: 0 <= x' <= t.width - wide ==> Floor(s, wide, x) <= Floor(s, wide, x'))
      && (!t.bestFit ==>
            forall x' :: 0 <= x' <= t.width - wide && Floor(s, wide, x') == Floor(s, wide, x) ==> x <= x')
      && (t.bestFit ==>
            && AtNode(s, wide, x)
            && forall x' ::
                 0 <= x' <= t.width - wide && Floor(s, wide, x') == Floor(s, wide, x) && AtNode(s, wide, x') ==>
                   || Waste(s, x, wide) < Waste(s, x', wide)
                   || (Waste(s, x, wide) == Waste(s, x', wide) && x <= x'))
  {
    hide AllDisjoint, BoxArea, Area, Under, Highest, Waste, Insert, Segment, Chain;
    var s, wide := p.sky, Aligned(w, t.align);
    ChosenRests(t, p, w, h, x);
    RoomOfChosen(t, p, w, h, x);
    assert PutAt(t, p, w, h, x).boxes == p.boxes + [Box(x, Floor(s, wide, x), w, h)];
    SealedIsValid(s, t.width, t.height);
    forall x' | 0 <= x' <= t.width - wide
      ensures Floor(s, wide, x) <= Floor(s, wide, x')
      ensures !t.bestFit && Floor(s, wide, x') == Floor(s, wide, x) ==> x <= x'
      ensures t.bestFit && Floor(s, wide, x') == Floor(s, wide, x) && AtNode(s, wide, x') ==>
                || Waste(s, x, wide) < Waste(s, x', wide)
                || (Waste(s, x, wide) == Waste(s, x', wide) && x <= x')
    {
      if t.bestFit {
        BestFitLowest(s, t.width, t.height, wide, h, x, x');
        if Floor(s, wide, x') == Floor(s, wide, x) && AtNode(s, wide, x') {
          assert Candidate(s, t.width, wide, x') && RoomAt(s, t.width, t.height, wide, h, x');
          assert FitsBetter(s, wide, x, x');
        }
      } else {
        assert LowerLeft(s, wide, x, x');
      }
    }
  }

  // Putting the rectangle where the heuristic chose is a step.
  lemma ChosenStep(t: Target, p: Packing, w: int, h: int, x: int)
    requires Sound(t, p) && 1 <= w && 1 <= h && 0 < p.free && Chosen(t, p, w, h, x)
    ensures 0 <= x && x + Aligned(w, t.align) <= t.width
    ensures Step(t, p, w, h, PutAt(t, p, w, h, x)) && Sound(t, PutAt(t, p, w, h, x)) && HasRoom(t, p, w, h)
  {
    RoomThere(t, p, w, h, x);
    PutSound(t, p, w, h, x);
  }

  lemma PutShape(t: Target, p: Packing, w: int, h: int, x: int, y: int)
    requires 1 <= w && 1 <= t.align
    requires y == Highest(p.sky, x, x + Aligned(w, t.align)) && Segment(p.sky, x) + 1 < |p.sky|
    ensures
      var sky := Insert(p.sky, Segment(p.sky, x), x, w, y + h);
      PutAt(t, p, w, h, x) == Packing(sky, p.free + |p.sky| - |sky|, p.boxes + [Box(x, y, w, h)])
  {
  }

  // The state a splice at the chosen position leads to, seen before the splice is made.
  lemma NextState(t: Target, p: Packing, w: int, h: int, x: int, y: int) returns (k: nat, p': Packing)
    requires p in SoundStates(t) && 1 <= w && 1 <= h && 0 < p.free && x in Choices(t, p, w, h)
    requires y == Highest(p.sky, x, x + Aligned(w, t.align))
    ensures k == Segment(p.sky, x) && k + 1 < |p.sky| && p.sky[k].x <= x
    ensures
      var sky := Insert(p.sky, k, x, w, y + h);
      p' == Packing(sky, p.free + |p.sky| - |sky|, p.boxes + [Box(x, y, w, h)])
    ensures p' in SoundStates(t) && Step(t, p, w, h, p') && HasRoom(t, p, w, h)
  {
    ChosenRests(t, p, w, h, x);
    PutShape(t, p, w, h, x, y);
    ChosenStep(t, p, w, h, x);
    k, p' := Segment(p.sky, x), PutAt(t, p, w, h, x);
  }

  lemma {:induction false} NodesSpread(s: seq<Point>, W: int, H: int, i: nat)
    requires Valid(s, W, H) && i < |s|
    ensures i <= s[i].x
  {
    if 0 < i {
      NodesSpread(s, W, H, i - 1);
    }
  }

  /** With at least one node per column a node is always free. */
  lemma NodesSuffice(t: Target, p: Packing)
    requires Sound(t, p) && t.width <= t.nodes
    ensures 0 < p.free
  {
    SealedIsValid(p.sky, t.width, t.height);
    NodesSpread(p.sky, t.width, t.height, |p.sky| - 1);
  }

  // A run: the states met while the rectangles of sizes are handed over one by one.
  ghost predicate Run(t: Target, sizes: seq<(int, int)>, states: seq<Packing>) {
    && Proper(t) && |states| == |sizes| + 1 && states[0] == Fresh(t)
    && forall i :: 0 <= i < |sizes| ==> Step(t, states[i], sizes[i].0, sizes[i].1, states[i + 1])
  }

  lemma FreshSound(t: Target)
    requires Proper(t)
    ensures Sound(t, Fresh(t)) && Fresh(t) in SoundStates(t)
  {
    var s := Fresh(t).sky;
    SealedIsValid(s, t.width, t.height);
    forall c | 0 <= c < t.width
      ensures Column(s, c) == 0
    {
      ColumnAt(s, 0, c);
    }
    GapFlat(s, 0, t.width, 0, 0);
    GapIsArea(s, 0, t.width, 0);
  }

  /** Safety of whole runs, for both heuristics and every alignment. */
  lemma {:induction false} RunSound(t: Target, sizes: seq<(int, int)>, states: seq<Packing>, i: nat)
    requires Run(t, sizes, states) && i <= |sizes|
    ensures Sound(t, states[i])
    ensures BoxArea(states[i].boxes) <= t.width * t.height
  {
    if i == 0 {
      FreshSound(t);
    } else {
      RunSound(t, sizes, states, i - 1);
      StepSound(t, states[i - 1], sizes[i - 1].0, sizes[i - 1].1, states[i]);
    }
    PackedAreaBounded(states[i].sky, t.width, t.height, states[i].boxes);
  }

  // --- Where the area goes ----------------------------------------------------------------------

  // The area between the box put down last and the skyline before.
  ghost function Lost(sky: seq<Point>, b: Box): int {
    Gap(sky, b.x, b.x + b.w, b.y)
  }

  // What a run has lost up to its state i.
  ghost function LostSoFar(states: seq<Packing>, i: nat): int
    requires i < |states|
  {
    if i == 0 then 0
    else
      var n := |states[i].boxes|;
      LostSoFar(states, i - 1) +
      if n == 0 || states[i].boxes == states[i - 1].boxes then 0 else Lost(states[i - 1].sky, states[i].boxes[n - 1])
  }

  /** With widths not quantised a placement raises the skyline's area by the rectangle and the gap
      below it. The gap is the waste reported for the position unless that lies strictly inside a
      node of height 0, which it never does under the default heuristic. */
  lemma ChosenArea(t: Target, p: Packing, w: int, h: int, x: int)
    requires Sound(t, p) && 1 <= w && 1 <= h && 0 < p.free && Chosen(t, p, w, h, x) && t.align == 1
    ensures
      var y, k := Highest(p.sky, x, x + w), Segment(p.sky, x);
      && PutAt(t, p, w, h, x).boxes == p.boxes + [Box(x, y, w, h)]
      && Area(PutAt(t, p, w, h, x).sky, 0, t.width) ==
         Area(p.sky, 0, t.width) + w * h + Lost(p.sky, Box(x, y, w, h))
      && k < |p.sky| && (!t.bestFit ==> x == p.sky[k].x)
      && (x == p.sky[k].x || 0 < p.sky[k].y ==> Lost(p.sky, Box(x, y, w, h)) == Waste(p.sky, x, w))
  {
    hide Area, Column, Insert, Highest, Chosen, BottomLeft, BestFit, Gap, Waste, Aligned, PutAt, Segment, Chain,
      AllDisjoint, BoxArea, Under, Inside, RaisedEnd;
    SealedIsValid(p.sky, t.width, t.height);
    ChosenRests(t, p, w, h, x);
    UnalignedWidth(w);
    var s, y, k := p.sky, Highest(p.sky, x, x + w), Segment(p.sky, x);
    RaisedAtLeast(s, k, x, w);
    PutShape(t, p, w, h, x, y);
    PlacementArea(s, t.width, t.height, k, x, w, h);
    if !t.bestFit {
      ChosenAtNode(t, p, w, h, x);
    }
  }

  lemma RaisedAtLeast(s: seq<Point>, k: nat, x: int, w: int)
    requires k + 1 < |s|
    ensures x + w <= RaisedEnd(s, k, x, w)
  {
  }

  lemma UnalignedWidth(w: int)
    requires 1 <= w
    ensures Aligned(w, 1) == w
  {
  }

  lemma ChosenAtNode(t: Target, p: Packing, w: int, h: int, x: int)
    requires Sound(t, p) && 1 <= w && Chosen(t, p, w, h, x) && !t.bestFit
    ensures Segment(p.sky, x) < |p.sky| && x == p.sky[Segment(p.sky, x)].x
  {
    SealedIsValid(p.sky, t.width, t.height);
    SegmentHolds(p.sky, x);
    BottomLeftAtNode(p.sky, t.width, t.height, Aligned(w, t.align), x);
  }

  lemma BoxAreaSnoc(boxes: seq<Box>, b: Box)
    ensures BoxArea(boxes + [b]) == BoxArea(boxes) + b.w * b.h
  {
    assert (boxes + [b])[..|boxes|] == boxes;
  }

  /** With widths not quantised every state's skyline has exactly the area of the boxes packed
      and of the gaps lost below them. */
  lemma {:induction false} RunArea(t: Target, sizes: seq<(int, int)>, states: seq<Packing>, i: nat)
    requires Run(t, sizes, states) && i <= |sizes| && t.align == 1
    ensures Area(states[i].sky, 0, t.width) == BoxArea(states[i].boxes) + LostSoFar(states, i)
  {
    hide Area, Lost, BoxArea;
    RunBegins(t);
    if 0 < i {
      RunArea(t, sizes, states, i - 1);
      StepArea(t, states, sizes[i - 1].0, sizes[i - 1].1, i);
    }
  }

  lemma RunBegins(t: Target)
    requires Proper(t)
    ensures Area(Fresh(t).sky, 0, t.width) == 0 && BoxArea(Fresh(t).boxes) == 0
  {
    FreshArea(t, t.width);
  }

  lemma {:induction false} FreshArea(t: Target, b: nat)
    requires Proper(t) && b <= t.width
    ensures Area(Fresh(t).sky, 0, b) == 0
  {
    if 0 < b {
      FreshArea(t, b - 1);
      ColumnAt(Fresh(t).sky, 0, b - 1);
    }
  }

  lemma StepArea(t: Target, states: seq<Packing>, w: int, h: int, i: nat)
    requires 0 < i < |states| && Step(t, states[i - 1], w, h, states[i]) && t.align == 1
    ensures
      Area(states[i].sky, 0, t.width) - BoxArea(states[i].boxes) - LostSoFar(states, i) ==
      Area(states[i - 1].sky, 0, t.width) - BoxArea(states[i - 1].boxes) - LostSoFar(states, i - 1)
  {
    hide Area, Lost, BoxArea, Chosen, PutAt;
    var p, p' := states[i - 1], states[i];
    if 0 < p.free && HasRoom(t, p, w, h) {
      var x :| Chosen(t, p, w, h, x) && p' == PutAt(t, p, w, h, x);
      ChosenArea(t, p, w, h, x);
      var b := Box(x, Highest(p.sky, x, x + w), w, h);
      BoxAreaSnoc(p.boxes, b);
      assert p'.boxes[|p'.boxes| - 1] == b && |p'.boxes| != |p.boxes|;
    }
  }

  // --- When temporary storage can run out --------------------------------------------------

  // In no run is a rectangle refused although some position has room for it.
  ghost predicate NeverOutOfNodes(t: Target) {
    forall sizes, states: seq<Packing>, w, h ::
      Run(t, sizes, states) && 1 <= w && 1 <= h && HasRoom(t, states[|sizes|], w, h) ==> 0 < states[|sizes|].free
  }

  // The align computed by stbrp_setup_allow_out_of_mem(context, 0).
  function QuantisedAlign(width: int, nodes: int): int
    requires 1 <= width && 1 <= nodes
  {
    (width + nodes - 1) / nodes
  }

  lemma QuantisedAlignPositive(width: int, nodes: int)
    requires 1 <= width && 1 <= nodes
    ensures 1 <= QuantisedAlign(width, nodes)
  {
  }

  /** The align without out-of-memory is the least with which the nodes, each as wide as it at least,
      cannot be used up by one row. */
  lemma QuantisedAlignLeast(width: int, nodes: int, align: int)
    requires 1 <= width && 1 <= nodes
    ensures width <= nodes * align <==> QuantisedAlign(width, nodes) <= align
  {
    var a, r := QuantisedAlign(width, nodes), (width + nodes - 1) % nodes;
    assert a * nodes == width + nodes - 1 - r;
    if a <= align {
      assert a * nodes <= align * nodes;
    } else {
      assert align * nodes <= (a - 1) * nodes == a * nodes - nodes;
    }
  }

  // k columns of height 1, then level ground.
  function Stairs(W: int, k: nat): seq<Point> {
    seq(k, i => Point(i, 1)) + [Point(k, 0), Point(W, UNREACHABLE)]
  }

  lemma StairsColumns(W: int, k: nat)
    requires k < W
    ensures Valid(Stairs(W, k), W, 1)
    ensures forall c :: 0 <= c < W ==> Column(Stairs(W, k), c) == if c < k then 1 else 0
  {
    var s := Stairs(W, k);
    forall c | 0 <= c < W
      ensures Column(s, c) == if c < k then 1 else 0
    {
      ColumnAt(s, if c < k then c else k, c);
    }
  }

  // Level ground at the right end, and nowhere else.
  ghost predicate Ledge(s: seq<Point>) {
    |s| >= 2 && s[|s| - 2].y == 0 && forall i :: 0 <= i < |s| - 2 ==> 1 <= s[i].y
  }

  // Where the ground is level nothing is wasted.
  lemma LevelGround(s: seq<Point>, W: int, H: int, x: int, w: int)
    requires Valid(s, W, H) && s[|s| - 2].y == 0 && s[|s| - 2].x <= x && 1 <= w && x + w <= W
    ensures Highest(s, x, x + w) == 0 && Waste(s, x, w) == 0 && Segment(s, x) == |s| - 2
  {
    var m := |s| - 2;
    forall c | x <= c < x + w
      ensures Column(s, c) == 0
    {
      ColumnAt(s, m, c);
    }
    HighestFlat(s, x, x + w, 0);
    SegmentUnique(s, m, x);
    assert Scan(s, m + 1, x, w, 0, w, 0) == (0, 0);
  }

  lemma BeforeLedge(s: seq<Point>, W: int, H: int, x: int, w: int)
    requires Valid(s, W, H) && (forall i :: 0 <= i < |s| - 2 ==> 1 <= s[i].y) && 0 <= x < s[|s| - 2].x && 1 <= w
    ensures 1 <= Highest(s, x, x + w)
  {
    SegmentHolds(s, x);
    var i := Segment(s, x);
    ColumnAt(s, i, x);
    HighestBounds(s, x, x + w);
  }

  /** Whatever the heuristic, a rectangle that has room there goes to the start of the ledge, and
      to no other place. */
  lemma LedgeChosen(t: Target, p: Packing, w: int, h: int)
    requires Sound(t, p) && Ledge(p.sky) && 1 <= w && 1 <= h <= t.height
    requires p.sky[|p.sky| - 2].x + Aligned(w, t.align) <= t.width
    ensures forall x :: Chosen(t, p, w, h, x) <==> x == p.sky[|p.sky| - 2].x
  {
    hide Highest, Waste, Column, Segment, Aligned, Chain, Area, AllDisjoint, BoxArea, Under;
    SealedIsValid(p.sky, t.width, t.height);
    var s, wide, foot := p.sky, Aligned(w, t.align), p.sky[|p.sky| - 2].x;
    assert 0 <= foot;
    LevelGround(s, t.width, t.height, foot, wide);
    forall x | 0 <= x && x + wide <= t.width
      ensures LowerLeft(s, wide, foot, x) && FitsBetter(s, wide, foot, x)
      ensures LowerLeft(s, wide, x, foot) || FitsBetter(s, wide, x, foot) ==> x == foot
    {
      if x < foot {
        BeforeLedge(s, t.width, t.height, x, wide);
      } else {
        LevelGround(s, t.width, t.height, x, wide);
      }
    }
    assert RoomAt(s, t.width, t.height, wide, h, foot) && Candidate(s, t.width, wide, foot);
    assert BestFit(s, t.width, t.height, wide, h, foot) && BottomLeft(s, t.width, wide, foot);
    forall x | Chosen(t, p, w, h, x)
      ensures x == foot
    {
      RoomOfChosen(t, p, w, h, x);
      assert if t.bestFit then FitsBetter(s, wide, x, foot) else LowerLeft(s, wide, x, foot);
    }
  }

  lemma AlignedOne(a: int)
    requires 1 <= a
    ensures Aligned(1, a) == a
  {
    assert a % a == 0;
  }

  // One more unit square extends the stairs by one column.
  lemma StairsInsert(W: int, k: nat)
    requires k + 1 < W
    ensures Valid(Stairs(W, k), W, 1) && Segment(Stairs(W, k), k) == k
    ensures Insert(Stairs(W, k), k, k, 1, 1) == Stairs(W, k + 1)
  {
    StairsColumns(W, k);
    var s := Stairs(W, k);
    SegmentUnique(s, k, k);
    StairsSkip(W, k);
    InsertSpliced(s, W, 1, k, k, 1, 1);
  }

  lemma StairsSkip(W: int, k: nat)
    requires k + 1 < W
    ensures SkipTo(Stairs(W, k), k, k + 1) == k
  {
  }

  lemma StairsStep(t: Target, p: Packing, k: nat)
    requires Sound(t, p) && 0 < p.free
    requires p.sky == Stairs(t.width, k) && k + 1 < t.width && k + t.align <= t.width
    ensures
      exists p' :: Step(t, p, 1, 1, p') && p'.sky == Stairs(t.width, k + 1) && p'.free == p.free - 1
  {
    hide Stairs, Insert, Chosen, Sound, PutAt, Room, Segment, Highest, Aligned, Valid, Ledge, Waste;
    SoundHeight(t, p);
    AlignedOne(t.align);
    StairsLedge(t.width, k);
    StairsColumns(t.width, k);
    LedgeChosen(t, p, 1, 1);
    LevelGround(p.sky, t.width, 1, k, t.align);
    RoomThere(t, p, 1, 1, k);
    PutOnStairs(t, p, k);
    assert Step(t, p, 1, 1, PutAt(t, p, 1, 1, k));
  }

  lemma StairsLedge(W: int, k: nat)
    ensures |Stairs(W, k)| == k + 2 && Stairs(W, k)[k].x == k && Ledge(Stairs(W, k))
  {
  }

  lemma SoundHeight(t: Target, p: Packing)
    requires Sound(t, p)
    ensures Proper(t) && p in SoundStates(t)
  {
  }

  lemma PutOnStairs(t: Target, p: Packing, k: nat)
    requires p.sky == Stairs(t.width, k) && k + 1 < t.width && 1 <= t.align
    requires Segment(p.sky, k) == k && Highest(p.sky, k, k + t.align) == 0
    ensures PutAt(t, p, 1, 1, k).sky == Stairs(t.width, k + 1) && PutAt(t, p, 1, 1, k).free == p.free - 1
  {
    hide Stairs, Insert, Segment, Highest;
    StairsLedge(t.width, k);
    StairsLedge(t.width, k + 1);
    AlignedOne(t.align);
    StairsInsert(t.width, k);
  }

  lemma RunExtended(t: Target, sizes: seq<(int, int)>, states: seq<Packing>, w: int, h: int, p': Packing)
    requires Run(t, sizes, states) && Step(t, states[|sizes|], w, h, p')
    ensures Run(t, sizes + [(w, h)], states + [p'])
  {
  }

  lemma {:induction false} StairsRun(t: Target, k: nat) returns (sizes: seq<(int, int)>, states: seq<Packing>)
    requires Proper(t) && k <= t.nodes < t.width && t.nodes - 1 + t.align <= t.width
    ensures Run(t, sizes, states) && |sizes| == k
    ensures states[k].sky == Stairs(t.width, k) && states[k].free == t.nodes - k
  {
    if k == 0 {
      sizes, states := [], [Fresh(t)];
    } else {
      sizes, states := StairsRun(t, k - 1);
      var p := states[k - 1];
      RunSound(t, sizes, states, k - 1);
      StairsStep(t, p, k - 1);
      var p' :| Step(t, p, 1, 1, p') && p'.sky == Stairs(t.width, k) && p'.free == p.free - 1;
      RunExtended(t, sizes, states, 1, 1, p');
      sizes, states := sizes + [(1, 1)], states + [p'];
    }
  }

  lemma QuantisedAlignSmall(width: int, nodes: int)
    requires 1 <= nodes < width
    ensures 1 <= QuantisedAlign(width, nodes) && nodes - 1 + QuantisedAlign(width, nodes) <= width
  {
    var a, d := QuantisedAlign(width, nodes), width - nodes + 2;
    assert a * nodes <= width + nodes - 1;
    assert d * nodes == width + nodes + (nodes - 1) * (width - nodes);
    assert 0 <= (nodes - 1) * (width - nodes);
    assert d <= a ==> d * nodes <= a * nodes;
  }

  lemma StairsEnd(W: int, k: nat)
    requires k < W
    ensures var s := Stairs(W, k); 2 <= |s| && s[|s| - 2] == Point(k, 0)
  {
  }

  lemma StairsHaveRoom(t: Target, p: Packing, k: nat)
    requires Proper(t) && p.sky == Stairs(t.width, k) && k < t.width && t.align <= t.width
    requires t.height == 1 ==> k + t.align <= t.width
    ensures HasRoom(t, p, 1, 1)
  {
    hide Stairs, Valid, Column, Highest, Waste, Segment, Aligned;
    StairsColumns(t.width, k);
    AlignedOne(t.align);
    if t.height == 1 {
      StairsEnd(t.width, k);
      LevelGround(p.sky, t.width, 1, k, t.align);
      assert RoomAt(p.sky, t.width, t.height, t.align, 1, k);
    } else {
      HighestLeast(p.sky, 0, t.align, 1);
      assert RoomAt(p.sky, t.width, t.height, t.align, 1, 0);
    }
  }

  /** Unit squares use up all nodes while there is still room. */
  lemma OutOfNodes(t: Target)
    requires Proper(t) && t.nodes < t.width
    requires t.align == 1 || t.align == QuantisedAlign(t.width, t.nodes)
    requires t.height == 1 ==> t.nodes + t.align <= t.width
    ensures !NeverOutOfNodes(t)
  {
    QuantisedAlignSmall(t.width, t.nodes);
    var sizes, states := StairsRun(t, t.nodes);
    StairsHaveRoom(t, states[|sizes|], t.nodes);
  }

  // In a target of height 1 everything stands in one row, and every node but the last is full.
  ghost predicate Row(s: seq<Point>) {
    forall i :: 0 <= i < |s| - 2 ==> 1 <= s[i].y
  }

  lemma RowRoom(t: Target, p: Packing, w: int, h: int, x: int)
    requires Sound(t, p) && t.height == 1 && Row(p.sky) && 1 <= w && 1 <= h
    requires RoomAt(p.sky, t.width, 1, w, h, x)
    ensures h == 1 && Ledge(p.sky) && p.sky[|p.sky| - 2].x <= x
  {
    hide Highest;
    SealedIsValid(p.sky, t.width, 1);
    var s := p.sky;
    var m := |s| - 2;
    HighestBounds(s, x, x + w);
    if x < s[m].x {
      BeforeLedge(s, t.width, 1, x, w);
    } else {
      ColumnAt(s, m, x);
    }
  }

  lemma RowInsert(s: seq<Point>, W: int, w: int)
    requires Valid(s, W, 1) && Ledge(s) && 1 <= w && s[|s| - 2].x + w <= W
    ensures Row(Insert(s, |s| - 2, s[|s| - 2].x, w, 1))
  {
    var m := |s| - 2;
    var j := SkipTo(s, m, s[m].x + w);
    assert j == m || j == m + 1;
  }

  lemma RowStep(t: Target, p: Packing, w: int, h: int, p': Packing)
    requires Step(t, p, w, h, p') && t.height == 1 && Row(p.sky)
    ensures Row(p'.sky)
  {
    hide Insert, Highest, BottomLeft, BestFit;
    if 0 < p.free && HasRoom(t, p, w, h) {
      var x :| Chosen(t, p, w, h, x) && p' == PutAt(t, p, w, h, x);
      RoomOfChosen(t, p, w, h, x);
      RowRoom(t, p, Aligned(w, t.align), h, x);
      LedgeChosen(t, p, w, h);
      SealedIsValid(p.sky, t.width, 1);
      LevelGround(p.sky, t.width, 1, x, Aligned(w, t.align));
      RowInsert(p.sky, t.width, w);
    }
  }

  lemma {:induction false} RowRun(t: Target, sizes: seq<(int, int)>, states: seq<Packing>, i: nat)
    requires Run(t, sizes, states) && t.height == 1 && i <= |sizes|
    ensures Row(states[i].sky)
  {
    if 0 < i {
      RowRun(t, sizes, states, i - 1);
      RowStep(t, states[i - 1], sizes[i - 1].0, sizes[i - 1].1, states[i]);
    }
  }

  // In one row the room ends before the nodes do, unless one more aligned width fits.
  lemma RowSuffices(t: Target, p: Packing, w: int, h: int)
    requires Sound(t, p) && t.height == 1 && Row(p.sky) && t.width < t.nodes + t.align
    requires 1 <= w && 1 <= h && HasRoom(t, p, w, h)
    ensures 0 < p.free
  {
    var wide := Aligned(w, t.align);
    var x :| RoomAt(p.sky, t.width, t.height, wide, h, x);
    RowRoom(t, p, wide, h, x);
    SealedIsValid(p.sky, t.width, 1);
    NodesSpread(p.sky, t.width, 1, |p.sky| - 2);
    AlignedAtLeast(w, t.align);
  }

  lemma AlignedAtLeast(w: int, align: int)
    requires 1 <= w && 1 <= align
    ensures align <= Aligned(w, align)
  {
  }

  /** The documentation promises that quantised widths make the nodes suffice
      (lines 145-150, 253-261). Whatever the heuristic, they do exactly when there is a node per
      column; the alignment, quantised or 1, makes no difference. Only where a single row leaves
      no room for one more aligned width beside as many unit squares as there are nodes do fewer
      nodes suffice. */
  lemma NeverOutOfNodesIff(t: Target)
    requires Proper(t) && (t.align == 1 || t.align == QuantisedAlign(t.width, t.nodes))
    ensures NeverOutOfNodes(t) <==> t.width <= t.nodes || (t.height == 1 && t.width < t.nodes + t.align)
  {
    if t.width <= t.nodes || (t.height == 1 && t.width < t.nodes + t.align) {
      forall sizes, states: seq<Packing>, w, h |
        Run(t, sizes, states) && 1 <= w && 1 <= h && HasRoom(t, states[|sizes|], w, h)
        ensures 0 < states[|sizes|].free
      {
        RunSound(t, sizes, states, |sizes|);
        if t.width <= t.nodes {
          NodesSuffice(t, states[|sizes|]);
        } else {
          RowRun(t, sizes, states, |sizes|);
          RowSuffices(t, states[|sizes|], w, h);
        }
      }
    } else {
      OutOfNodes(t);
    }
  }
}
