/**
 The sort/unsort step of stbrp_pack_rects (third-party/imgui/imstb_rectpack.h): was_packed
 carries each rectangle's original index through two in-place sorts.
 */
module RectOrder {
  import opened Skyline
  import opened Placement
  import opened PackingRuns

  // stbrp_rect
  datatype Rect = Rect(id: int, w: int, h: int, x: int, y: int, wasPacked: int) {
    predicate Empty() {
      w == 0 || h == 0
    }

    // The mark of a rectangle that found no place.
    predicate Refused() {
      x == MAXVAL && y == MAXVAL
    }

    function Area(): Box {
      Box(x, y, w, h)
    }
  }

  function HeightCompare(p: Rect, q: Rect): int {
    if p.h > q.h then -1 else if p.h < q.h then 1
    else if p.w > q.w then -1 else if p.w < q.w then 1 else 0
  }

  function OriginalOrder(p: Rect, q: Rect): int {
    if p.wasPacked < q.wasPacked then -1 else if p.wasPacked > q.wasPacked then 1 else 0
  }

  ghost predicate SortedBy(s: seq<Rect>, cmp: (Rect, Rect) -> int) {
    forall i, j :: 0 <= i < j < |s| ==> cmp(s[i], s[j]) <= 0
  }

  ghost predicate Comparator(cmp: (Rect, Rect) -> int) {
    && (forall p, q :: cmp(p, q) <= 0 || cmp(q, p) <= 0)
    && (forall p, q, r :: cmp(p, q) <= 0 && cmp(q, r) <= 0 ==> cmp(p, r) <= 0)
  }

  function InsertBy(s: seq<Rect>, r: Rect, cmp: (Rect, Rect) -> int): (t: seq<Rect>)
    ensures multiset(t) == multiset(s) + multiset{r} && |t| == |s| + 1
  {
    if s == [] then [r]
    else if cmp(r, s[0]) <= 0 then
      var t := [r] + s;
      t
    else
      assert s == [s[0]] + s[1..];
      [s[0]] + InsertBy(s[1..], r, cmp)
  }

  function SortBy(s: seq<Rect>, cmp: (Rect, Rect) -> int): (t: seq<Rect>)
    ensures multiset(t) == multiset(s) && |t| == |s|
  {
    if s == [] then []
    else
      assert s == [s[0]] + s[1..];
      InsertBy(SortBy(s[1..], cmp), s[0], cmp)
  }

  lemma ConsSorted(r: Rect, s: seq<Rect>, cmp: (Rect, Rect) -> int)
    requires SortedBy(s, cmp) && forall i :: 0 <= i < |s| ==> cmp(r, s[i]) <= 0
    ensures SortedBy([r] + s, cmp)
  {
  }

  lemma TailSorted(s: seq<Rect>, cmp: (Rect, Rect) -> int)
    requires SortedBy(s, cmp) && s != []
    ensures SortedBy(s[1..], cmp) && forall i :: 0 <= i < |s[1..]| ==> cmp(s[0], s[1..][i]) <= 0
  {
    forall i | 0 <= i < |s[1..]|
      ensures cmp(s[0], s[1..][i]) <= 0
    {
      assert cmp(s[0], s[i + 1]) <= 0;
    }
  }

  lemma {:induction false} InsertBySorted(s: seq<Rect>, r: Rect, cmp: (Rect, Rect) -> int)
    requires Comparator(cmp) && SortedBy(s, cmp)
    ensures SortedBy(InsertBy(s, r, cmp), cmp)
  {
    if s != [] {
      TailSorted(s, cmp);
      if cmp(r, s[0]) <= 0 {
        forall i | 0 <= i < |s|
          ensures cmp(r, s[i]) <= 0
        {
          assert i > 0 ==> s[1..][i - 1] == s[i];
        }
        ConsSorted(r, s, cmp);
      } else {
        InsertBySorted(s[1..], r, cmp);
        var t := InsertBy(s[1..], r, cmp);
        forall i | 0 <= i < |t|
          ensures cmp(s[0], t[i]) <= 0
        {
          assert t[i] in multiset(t);
          assert t[i] == r || t[i] in s[1..];
        }
        ConsSorted(s[0], t, cmp);
      }
    }
  }

  lemma {:induction false} SortBySorted(s: seq<Rect>, cmp: (Rect, Rect) -> int)
    requires Comparator(cmp)
    ensures SortedBy(SortBy(s, cmp), cmp)
  {
    if s != [] {
      SortBySorted(s[1..], cmp);
      InsertBySorted(SortBy(s[1..], cmp), s[0], cmp);
    }
  }

  // STBRP_SORT: callers may rely on a sorted permutation and on nothing else.
  method QSort(a: array<Rect>, cmp: (Rect, Rect) -> int)
    requires Comparator(cmp)
    modifies a
    ensures multiset(a[..]) == multiset(old(a[..])) && SortedBy(a[..], cmp)
  {
    var t := SortBy(a[..], cmp);
    SortBySorted(a[..], cmp);
    var i := 0;
    while i < a.Length
      invariant 0 <= i <= a.Length && a[..i] == t[..i]
    {
      a[i] := t[i];
      i := i + 1;
    }
    assert a[..] == t;
  }

  // --- The original index as sort key ------------------------------------------------------

  // The keys of s are 0 .. |s| - 1 in some order, and every element is still, up to its
  // output fields, the rectangle of orig its key names.
  ghost predicate Keyed(s: seq<Rect>, orig: seq<Rect>) {
    && |s| == |orig|
    && (forall i :: 0 <= i < |s| ==> Names(s[i], orig))
    && (forall i, j :: 0 <= i < j < |s| ==> s[i].wasPacked != s[j].wasPacked)
  }

  ghost predicate Names(r: Rect, orig: seq<Rect>) {
    0 <= r.wasPacked < |orig| && SameInput(r, orig[r.wasPacked])
  }

  ghost predicate SameInput(r: Rect, q: Rect) {
    r.id == q.id && r.w == q.w && r.h == q.h
  }

  lemma {:induction false} Twice(s: seq<Rect>, r: Rect)
    requires multiset(s)[r] >= 2
    ensures exists i, j :: 0 <= i < j < |s| && s[i] == r && s[j] == r
  {
    assert s == [s[0]] + s[1..];
    if s[0] == r {
      assert r in s[1..];
      var j :| 0 <= j < |s[1..]| && s[1..][j] == r;
      assert s[j + 1] == r;
    } else {
      Twice(s[1..], r);
      var i, j :| 0 <= i < j < |s[1..]| && s[1..][i] == r && s[1..][j] == r;
      assert s[i + 1] == r && s[j + 1] == r;
    }
  }

  lemma Occurs(s: seq<Rect>, t: seq<Rect>, i: nat)
    requires multiset(s) == multiset(t) && i < |t|
    ensures t[i] in s
  {
    assert t[i] in multiset(t);
  }

  /** Any permutation, in particular any sort, keeps the keys intact. */
  lemma KeyedPermutation(s: seq<Rect>, t: seq<Rect>, orig: seq<Rect>)
    requires Keyed(s, orig) && multiset(s) == multiset(t)
    ensures Keyed(t, orig)
  {
    assert |multiset(s)| == |s| && |multiset(t)| == |t|;
    forall i | 0 <= i < |t|
      ensures Names(t[i], orig)
    {
      Occurs(s, t, i);
    }
    forall i, j | 0 <= i < j < |t|
      ensures t[i].wasPacked != t[j].wasPacked
    {
      Occurs(s, t, i);
      Occurs(s, t, j);
      if t[i] == t[j] {
        assert t == t[..j] + [t[j]] + t[j + 1..];
        assert t[i] in t[..j];
        Twice(s, t[i]);
      }
    }
  }

  lemma {:induction false} KeyAtLeast(t: seq<Rect>, i: nat)
    requires i < |t| && (forall j :: 0 <= j < |t| ==> 0 <= t[j].wasPacked)
    requires forall j, k :: 0 <= j < k < |t| ==> t[j].wasPacked < t[k].wasPacked
    ensures i <= t[i].wasPacked
  {
    if 0 < i {
      KeyAtLeast(t, i - 1);
    }
  }

  lemma {:induction false} KeyAtMost(t: seq<Rect>, i: nat)
    requires i < |t| && (forall j :: 0 <= j < |t| ==> t[j].wasPacked < |t|)
    requires forall j, k :: 0 <= j < k < |t| ==> t[j].wasPacked < t[k].wasPacked
    ensures t[i].wasPacked <= i
    decreases |t| - i
  {
    if i + 1 < |t| {
      KeyAtMost(t, i + 1);
    }
  }

  /** Sorting by the key puts every rectangle back where it came from. */
  lemma Unsorted(t: seq<Rect>, orig: seq<Rect>)
    requires Keyed(t, orig) && SortedBy(t, OriginalOrder)
    ensures forall i :: 0 <= i < |t| ==> t[i].wasPacked == i && SameInput(t[i], orig[i])
  {
    assert forall j, k :: 0 <= j < k < |t| ==> OriginalOrder(t[j], t[k]) <= 0;
    forall i | 0 <= i < |t|
      ensures t[i].wasPacked == i && SameInput(t[i], orig[i])
    {
      KeyAtLeast(t, i);
      KeyAtMost(t, i);
      assert Names(t[i], orig);
    }
  }

  // --- Where the rectangles lie ---------------------------------------------------------------

  // The rectangle is empty and at the origin, refused, or one of the boxes placed.
  ghost predicate Settled(r: Rect, placed: seq<Box>) {
    if r.Empty() then r.x == 0 && r.y == 0 else r.Refused() || r.Area() in placed
  }

  ghost predicate Clear(r: Rect, q: Rect) {
    r.Empty() || q.Empty() || r.Refused() || q.Refused() || Disjoint(r.Area(), q.Area())
  }

  ghost predicate AllSettled(s: seq<Rect>, placed: seq<Box>) {
    && (forall i :: 0 <= i < |s| ==> Settled(s[i], placed))
    && (forall i, j :: 0 <= i < j < |s| ==> Clear(s[i], s[j]))
  }

  lemma SettledPermutation(s: seq<Rect>, t: seq<Rect>, orig: seq<Rect>, placed: seq<Box>)
    requires Keyed(s, orig) && Keyed(t, orig) && multiset(s) == multiset(t) && AllSettled(s, placed)
    ensures AllSettled(t, placed)
  {
    forall i | 0 <= i < |t|
      ensures Settled(t[i], placed)
    {
      Occurs(s, t, i);
    }
    forall i, j | 0 <= i < j < |t|
      ensures Clear(t[i], t[j])
    {
      Occurs(s, t, i);
      Occurs(s, t, j);
      var m :| 0 <= m < |s| && s[m] == t[i];
      var n :| 0 <= n < |s| && s[n] == t[j];
      assert m != n;
    }
  }

  // --- One call as a run -----------------------------------------------------------------------

  // What becomes of one rectangle when the packing goes from p to p'.
  ghost predicate Outcome(t: Target, p: Packing, r: Rect, p': Packing) {
    if r.Empty() then r.x == 0 && r.y == 0 && p' == p
    else
      && Step(t, p, r.w, r.h, p')
      && if p' == p then r.Refused() else p'.boxes == p.boxes + [r.Area()]
  }

  // The rectangles were handled one by one, in this order.
  ghost predicate Outcomes(t: Target, order: seq<Rect>, states: seq<Packing>) {
    && |states| == |order| + 1 && Sound(t, states[0])
    && forall i :: 0 <= i < |order| ==> Outcome(t, states[i], order[i], states[i + 1])
  }

  lemma OutcomesNone(t: Target, p: Packing)
    requires p in SoundStates(t)
    ensures Outcomes(t, [], [p])
  {
  }

  lemma OutcomesSnoc(t: Target, order: seq<Rect>, states: seq<Packing>, r: Rect, p: Packing)
    requires |states| == |order| + 1 && Outcomes(t, order, states) && Outcome(t, states[|order|], r, p)
    ensures Outcomes(t, order + [r], states + [p])
  {
  }

  lemma OutcomesMean(t: Target, order: seq<Rect>, states: seq<Packing>)
    requires Outcomes(t, order, states)
    ensures |states| == |order| + 1
    ensures forall i :: 0 <= i < |order| ==>
              var r, p, p' := order[i], states[i], states[i + 1];
              if r.w == 0 || r.h == 0 then r.x == 0 && r.y == 0 && p' == p
              else
                && Step(t, p, r.w, r.h, p')
                && if p' == p then r.x == MAXVAL && r.y == MAXVAL
                   else p'.boxes == p.boxes + [Box(r.x, r.y, r.w, r.h)]
  {
    hide Step, Sound;
    forall i | 0 <= i < |order|
      ensures
        var r, p, p' := order[i], states[i], states[i + 1];
        if r.w == 0 || r.h == 0 then r.x == 0 && r.y == 0 && p' == p
        else
          && Step(t, p, r.w, r.h, p')
          && if p' == p then r.x == MAXVAL && r.y == MAXVAL
             else p'.boxes == p.boxes + [Box(r.x, r.y, r.w, r.h)]
    {
      assert Outcome(t, states[i], order[i], states[i + 1]);
    }
  }

  lemma {:induction false} OutcomesSound(t: Target, order: seq<Rect>, states: seq<Packing>, i: nat)
    requires Outcomes(t, order, states) && i <= |order|
    ensures Sound(t, states[i]) && states[0].boxes <= states[i].boxes
  {
    if 0 < i {
      OutcomesSound(t, order, states, i - 1);
      assert Outcome(t, states[i - 1], order[i - 1], states[i]);
      if !order[i - 1].Empty() {
        StepSound(t, states[i - 1], order[i - 1].w, order[i - 1].h, states[i]);
      }
    }
  }

  // A box once placed stays.
  lemma {:induction false} BoxesGrow(t: Target, order: seq<Rect>, states: seq<Packing>, i: nat, j: nat)
    requires Outcomes(t, order, states) && i <= j <= |order|
    ensures states[i].boxes <= states[j].boxes
    decreases j - i
  {
    if i < j {
      BoxesGrow(t, order, states, i, j - 1);
      assert Outcome(t, states[j - 1], order[j - 1], states[j]);
    }
  }

  lemma PlacedBox(t: Target, order: seq<Rect>, states: seq<Packing>, i: nat)
    requires Outcomes(t, order, states) && i < |order| && !order[i].Empty() && !order[i].Refused()
    ensures
      var n := |states[i].boxes|;
      |states[0].boxes| <= n < |states[|order|].boxes| && states[|order|].boxes[n] == order[i].Area() &&
      |states[i + 1].boxes| == n + 1
  {
    BoxesGrow(t, order, states, 0, i);
    BoxesGrow(t, order, states, i + 1, |order|);
    assert Outcome(t, states[i], order[i], states[i + 1]);
  }

  /** After a call every rectangle is settled and no two of them overlap. */
  lemma OutcomesSettled(t: Target, order: seq<Rect>, states: seq<Packing>)
    requires Outcomes(t, order, states)
    ensures states[0].boxes <= states[|order|].boxes
    ensures AllSettled(order, states[|order|].boxes[|states[0].boxes|..])
  {
    var last := states[|order|].boxes;
    OutcomesSound(t, order, states, |order|);
    forall i | 0 <= i < |order|
      ensures Settled(order[i], last[|states[0].boxes|..])
    {
      assert Outcome(t, states[i], order[i], states[i + 1]);
      if !order[i].Empty() && !order[i].Refused() {
        PlacedBox(t, order, states, i);
        assert last[|states[0].boxes|..][|states[i].boxes| - |states[0].boxes|] == order[i].Area();
      }
    }
    forall i, j | 0 <= i < j < |order|
      ensures Clear(order[i], order[j])
    {
      if !(order[i].Empty() || order[j].Empty() || order[i].Refused() || order[j].Refused()) {
        PlacedBox(t, order, states, i);
        PlacedBox(t, order, states, j);
        BoxesGrow(t, order, states, i + 1, j);
      }
    }
  }

  // --- The loops of stbrp_pack_rects ---------------------------------------------------------

  function Numbered(s: seq<Rect>): (t: seq<Rect>)
    ensures |t| == |s| && forall i :: 0 <= i < |s| ==> t[i] == s[i].(wasPacked := i)
  {
    seq(|s|, i requires 0 <= i < |s| => s[i].(wasPacked := i))
  }

  method NumberRects(a: array<Rect>)
    modifies a
    ensures a[..] == Numbered(old(a[..]))
  {
    var i := 0;
    while i < a.Length
      invariant 0 <= i <= a.Length
      invariant forall j :: 0 <= j < i ==> a[j] == old(a[j]).(wasPacked := j)
      invariant forall j :: i <= j < a.Length ==> a[j] == old(a[j])
    {
      a[i] := a[i].(wasPacked := i);
      i := i + 1;
    }
  }

  function Flagged(r: Rect): Rect {
    r.(wasPacked := if r.Refused() then 0 else 1)
  }

  method SetFlags(a: array<Rect>) returns (all: int)
    modifies a
    ensures forall i :: 0 <= i < a.Length ==> a[i] == Flagged(old(a[i]))
    ensures all == if exists i :: 0 <= i < a.Length && a[i].wasPacked == 0 then 0 else 1
  {
    all := 1;
    var i := 0;
    while i < a.Length
      invariant 0 <= i <= a.Length
      invariant forall j :: 0 <= j < i ==> a[j] == Flagged(old(a[j]))
      invariant forall j :: i <= j < a.Length ==> a[j] == old(a[j])
      invariant all == if exists j :: 0 <= j < i && a[j].wasPacked == 0 then 0 else 1
    {
      a[i] := Flagged(a[i]);
      if a[i].wasPacked == 0 {
        all := 0;
      }
      i := i + 1;
    }
  }

  lemma Comparators()
    ensures Comparator(HeightCompare) && Comparator(OriginalOrder)
  {
  }

  lemma NumberedKeyed(s: seq<Rect>)
    ensures Keyed(Numbered(s), s)
  {
  }

  lemma SidesKept(s: seq<Rect>, orig: seq<Rect>)
    requires Keyed(s, orig) && forall i :: 0 <= i < |orig| ==> 0 <= orig[i].w && 0 <= orig[i].h
    ensures forall i :: 0 <= i < |s| ==> 0 <= s[i].w && 0 <= s[i].h
  {
    forall i | 0 <= i < |s|
      ensures 0 <= s[i].w && 0 <= s[i].h
    {
      assert Names(s[i], orig);
    }
  }

  // Writing positions changes no key and no input field, so neither order nor naming.
  lemma PlacedKeyed(s: seq<Rect>, t: seq<Rect>, orig: seq<Rect>)
    requires Keyed(s, orig) && SortedBy(s, HeightCompare) && |t| == |s|
    requires forall i :: 0 <= i < |s| ==> t[i] == s[i].(x := t[i].x, y := t[i].y)
    ensures Keyed(t, orig) && SortedBy(t, HeightCompare)
  {
    forall i, j | 0 <= i < j < |t|
      ensures HeightCompare(t[i], t[j]) <= 0 && t[i].wasPacked != t[j].wasPacked
    {
      assert HeightCompare(s[i], s[j]) <= 0;
    }
    forall i | 0 <= i < |t|
      ensures Names(t[i], orig)
    {
      assert Names(s[i], orig);
    }
  }

  // The array as stbrp_pack_rects hands it back: every rectangle in its old slot with its
  // input fields, its flag telling whether it is empty or placed, and none overlapping.
  ghost predicate Packed(orig: seq<Rect>, now: seq<Rect>, placed: seq<Box>) {
    && |now| == |orig|
    && (forall i :: 0 <= i < |now| ==> SameInput(now[i], orig[i]))
    && (forall i :: 0 <= i < |now| ==> now[i].wasPacked == if now[i].Refused() then 0 else 1)
    && AllSettled(now, placed)
  }

  lemma PackedMeans(orig: seq<Rect>, order: seq<Rect>, now: seq<Rect>, placed: seq<Box>)
    requires Packed(orig, now, placed) && Keyed(order, orig)
    ensures |order| == |orig| == |now|
    ensures forall i :: 0 <= i < |now| ==>
              now[i] == orig[i].(x := now[i].x, y := now[i].y, wasPacked := now[i].wasPacked)
  {
  }

  lemma UnsortedPacked(order: seq<Rect>, back: seq<Rect>, now: seq<Rect>, orig: seq<Rect>, placed: seq<Box>)
    requires Keyed(order, orig) && AllSettled(order, placed)
    requires multiset(back) == multiset(order) && SortedBy(back, OriginalOrder)
    requires |now| == |back| && forall i :: 0 <= i < |now| ==> now[i] == Flagged(back[i])
    ensures Packed(orig, now, placed)
    ensures forall i :: 0 <= i < |now| ==> now[i].(wasPacked := i) in order
  {
    KeyedPermutation(order, back, orig);
    Unsorted(back, orig);
    SettledPermutation(order, back, orig, placed);
    forall i | 0 <= i < |now|
      ensures now[i].(wasPacked := i) in order && Settled(now[i], placed)
    {
      Occurs(order, back, i);
      assert now[i].(wasPacked := i) == back[i];
      assert Settled(back[i], placed);
    }
    forall i, j | 0 <= i < j < |now|
      ensures Clear(now[i], now[j])
    {
      assert Clear(back[i], back[j]);
    }
  }

  /** A flag is non-zero exactly for the empty and the placed rectangles. */
  lemma FlagMeans(orig: seq<Rect>, now: seq<Rect>, placed: seq<Box>, i: nat)
    requires Packed(orig, now, placed) && i < |now|
    requires forall b :: b in placed ==> b.y < MAXVAL
    ensures now[i].wasPacked != 0 <==> now[i].Empty() || now[i].Area() in placed
  {
    assert Settled(now[i], placed);
  }

  /** Sorted for packing means the highest first, and among equally high ones the widest. */
  lemma LargestFirst(order: seq<Rect>)
    requires SortedBy(order, HeightCompare)
    ensures forall i, j :: 0 <= i < j < |order| ==>
              order[i].h > order[j].h || (order[i].h == order[j].h && order[i].w >= order[j].w)
  {
  }

  // The steps of stbrp_pack_rects before the placing loop.
  method SortForPacking(rects: array<Rect>)
    modifies rects
    ensures Keyed(rects[..], old(rects[..])) && SortedBy(rects[..], HeightCompare)
  {
    ghost var orig := rects[..];
    Comparators();
    NumberedKeyed(orig);
    NumberRects(rects);
    ghost var numbered := rects[..];
    QSort(rects, HeightCompare);
    KeyedPermutation(numbered, rects[..], orig);
  }

  // The steps after it.
  method UnsortAndFlag(rects: array<Rect>, ghost orig: seq<Rect>, ghost placed: seq<Box>) returns (all: int)
    requires Keyed(rects[..], orig) && AllSettled(rects[..], placed)
    modifies rects
    ensures Packed(orig, rects[..], placed)
    ensures forall i :: 0 <= i < rects.Length ==> rects[i].(wasPacked := i) in old(rects[..])
    ensures all == if exists i :: 0 <= i < rects.Length && rects[i].wasPacked == 0 then 0 else 1
  {
    ghost var order := rects[..];
    Comparators();
    QSort(rects, OriginalOrder);
    ghost var back := rects[..];
    all := SetFlags(rects);
    UnsortedPacked(order, back, rects[..], orig, placed);
    assert forall i :: 0 <= i < rects.Length ==> rects[..][i] == rects[i];
  }
}
