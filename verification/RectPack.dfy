/**
 third-party/imgui/imstb_rectpack.h in its own form: nodes relinked in place between an
 active list (the skyline) and a free list. Every method is proved against the value-level
 skyline, placement and run definitions.
 */
module RectPack {
  import opened Skyline
  import opened Placement
  import opened PackingRuns
  import opened RectOrder

  class Node {
    var x: int
    var y: int
    var next: Node?
    ghost var rank: int

    constructor (x: int, y: int, next: Node?)
      ensures this.x == x && this.y == y && this.next == next
    {
      this.x, this.y, this.next := x, y, next;
    }
  }

  ghost predicate Distinct(ns: seq<Node>) {
    ns != [] ==> ns[0] !in ns[1..] && Distinct(ns[1..])
  }

  lemma {:induction false} DistinctAt(ns: seq<Node>, k: nat)
    requires Distinct(ns) && k < |ns|
    ensures forall i :: 0 <= i < |ns| && i != k ==> ns[i] != ns[k]
  {
    forall i | 0 <= i < |ns| && i != k
      ensures ns[i] != ns[k]
    {
      if i == 0 {
        assert ns[k] == ns[1..][k - 1];
      } else if k == 0 {
        assert ns[i] == ns[1..][i - 1];
      } else {
        DistinctAt(ns[1..], k - 1);
        assert ns[1..][i - 1] == ns[i];
      }
    }
  }

  // Ranks tell all nodes apart: 0, 1, ... in the active list, -1, -2, ... in the free list.
  ghost predicate RankedUp(ns: seq<Node>)
    reads ns`rank
  {
    forall i :: 0 <= i < |ns| ==> ns[i].rank == i
  }

  ghost predicate RankedDown(ns: seq<Node>)
    reads ns`rank
  {
    forall i :: 0 <= i < |ns| ==> ns[i].rank == -1 - i
  }

  ghost predicate Within(ns: seq<Node>, repr: set<Node>) {
    forall i :: 0 <= i < |ns| ==> ns[i] in repr
  }

  // ns are the nodes met by following next from head.
  ghost predicate Linked(ns: seq<Node>, head: Node?)
    reads ns`next
  {
    && head == (if ns == [] then null else ns[0])
    && (ns != [] ==> ns[|ns| - 1].next == null)
    && forall i {:trigger ns[i].next} :: 0 <= i < |ns| - 1 ==> ns[i].next == ns[i + 1]
  }


  // All ranks differ, and those of the active nodes are not negative.
  ghost predicate Apart(up: seq<Node>, down: seq<Node>)
    reads up`rank, down`rank
  {
    && (forall m, n :: 0 <= m < n < |up| ==> up[m].rank != up[n].rank)
    && (forall m, n :: 0 <= m < n < |down| ==> down[m].rank != down[n].rank)
    && (forall n, m :: 0 <= n < |up| && 0 <= m < |down| ==> up[n].rank != down[m].rank)
    && (forall n :: 0 <= n < |up| ==> 0 <= up[n].rank)
  }

  lemma ApartAfter(ns: seq<Node>, rest: seq<Node>, node: Node, i: nat, j: nat)
    requires i <= j < |ns| && RankedUp(ns) && node.rank == |ns|
    requires forall m :: 0 <= m < |rest| ==> rest[m].rank == -2 - m
    ensures Apart(ns[..i] + [node] + ns[j..], Freed(ns, i, j) + rest)
  {
    var up, down := ns[..i] + [node] + ns[j..], Freed(ns, i, j) + rest;
    assert forall n :: 0 <= n < |up| ==>
              up[n].rank == if n < i then n else if n == i then |ns| else j + n - i - 1;
    assert forall m :: 0 <= m < |down| ==>
              down[m].rank == if m < j - i then j - 1 - m else -2 - (m - (j - i));
  }

  lemma ListsWithin(ns: seq<Node>, rest: seq<Node>, node: Node, i: nat, j: nat, repr: set<Node>)
    requires i <= j < |ns| && Within(ns, repr) && Within(rest, repr) && node in repr
    ensures Within(ns[..i] + [node] + ns[j..], repr) && Within(Freed(ns, i, j) + rest, repr)
  {
  }

  // Ghost bookkeeping: numbers the two lists anew.
  ghost method NumberDown(up: seq<Node>, down: seq<Node>, head: Node?, head': Node?, repr: set<Node>)
    requires Within(down, repr)
    requires Linked(up, head) && Linked(down, head') && Apart(up, down)
    modifies repr`rank
    ensures Linked(up, head) && Linked(down, head')
    ensures RankedDown(down) && forall n :: 0 <= n < |up| ==> up[n].rank == old(up[n].rank)
  {
    forall m | 0 <= m < |down| {
      down[m].rank := -1 - m;
    }
  }

  ghost method NumberUp(up: seq<Node>, down: seq<Node>, head: Node?, head': Node?, repr: set<Node>)
    requires Within(up, repr)
    requires Linked(up, head) && Linked(down, head')
    requires forall m, n :: 0 <= m < n < |up| ==> up[m].rank != up[n].rank
    requires RankedDown(down) && forall n :: 0 <= n < |up| ==> 0 <= up[n].rank
    modifies repr`rank
    ensures Linked(up, head) && Linked(down, head')
    ensures RankedUp(up) && RankedDown(down)
  {
    forall n | 0 <= n < |up| {
      up[n].rank := n;
    }
  }

  ghost method Renumber(up: seq<Node>, down: seq<Node>, head: Node?, head': Node?, repr: set<Node>)
    requires Within(up, repr) && Within(down, repr)
    requires Linked(up, head) && Linked(down, head') && Apart(up, down)
    modifies repr`rank
    ensures Linked(up, head) && Linked(down, head')
    ensures RankedUp(up) && RankedDown(down)
  {
    NumberDown(up, down, head, head', repr);
    NumberUp(up, down, head, head', repr);
  }

  ghost function Points(ns: seq<Node>): (s: seq<Point>)
    reads ns
    ensures |s| == |ns|
    ensures forall i :: 0 <= i < |ns| ==> s[i] == Point(ns[i].x, ns[i].y)
  {
    seq(|ns|, i requires 0 <= i < |ns| reads ns => Point(ns[i].x, ns[i].y))
  }

  lemma FreshPoints(n0: Node, n1: Node, t: Target)
    requires n0.x == n0.y == 0 && n1.x == t.width && n1.y == UNREACHABLE
    ensures Packing(Points([n0, n1]), t.nodes, []) == Fresh(t)
  {
  }

  // The nodes ns[i..j] in the order in which freeing them one by one leaves them.
  ghost function Freed(ns: seq<Node>, i: nat, j: nat): (f: seq<Node>)
    requires i <= j <= |ns|
    ensures |f| == j - i && forall m :: 0 <= m < |f| ==> f[m] == ns[j - 1 - m]
  {
    seq(j - i, m requires 0 <= m < j - i => ns[j - 1 - m])
  }

  // prev_link: null, the address of active_head, or the address of a node's next field.
  datatype Link = NoLink | AtHead | After(node: Node)
  datatype FindResult = FindResult(x: int, y: int, link: Link)

  // best, best_x, best_y and best_waste of the search, or a probe compared with them.
  datatype Best = Best(link: Link, x: int, y: int, waste: int) {
    predicate Lowers(best: Best) {
      y < best.y || (y == best.y && waste < best.waste)
    }

    predicate Improves(best: Best) {
      y <= best.y && (y < best.y || waste < best.waste || (waste == best.waste && x < best.x))
    }
  }

  // The link that leads to ns[k].
  ghost function LinkInto(ns: seq<Node>, k: nat): Link {
    if k == 0 then AtHead else if k <= |ns| then After(ns[k - 1]) else NoLink
  }

  // The active nodes, their skyline and the target's size, as the search finds them.
  datatype View = View(ns: seq<Node>, s: seq<Point>, W: int, H: int) {
    // prev_link designates the link that leads to node k.
    ghost predicate LeadsTo(link: Link, k: nat) {
      k < |ns| && link == LinkTo(k)
    }

    ghost function LinkTo(k: nat): Link {
      LinkInto(ns, k)
    }

    // The variables of the search once it has settled on r.
    ghost function Remembered(ps: seq<Probe>, r: Pick): Best {
      if r.At? && 0 <= r.x < |ps|
      then Best(LinkTo(Segment(s, r.x)), r.x, ps[r.x].y, ps[r.x].waste)
      else Best(NoLink, 0, UNREACHABLE, UNREACHABLE)
    }
  }

  // A probe that found what it says, with the link to its node.
  ghost predicate Found(v: View, ps: seq<Probe>, probe: Best) {
    && 0 <= probe.x < |ps| && ps[probe.x] == Probe(probe.y, probe.waste) && probe.y < UNREACHABLE
    && probe.link == v.LinkTo(Segment(v.s, probe.x))
  }

  // The comparison of the second loop, with its tie-break on x, decides PickNext.
  lemma ImprovesDecides(v: View, ps: seq<Probe>, ceiling: int, r: Pick, probe: Best)
    requires Found(v, ps, probe) && (r.At? ==> 0 <= r.x < |ps|)
    ensures
      var best := v.Remembered(ps, r);
      v.Remembered(ps, PickNext(ps, ceiling, r, probe.x)) ==
      if probe.y <= ceiling && probe.Improves(best) then probe else best
  {
  }

  // The comparison of the first loop does so for a probe right of the pick.
  lemma LowersDecides(v: View, ps: seq<Probe>, ceiling: int, r: Pick, probe: Best)
    requires Found(v, ps, probe) && (r.At? ==> 0 <= r.x < |ps| && r.x < probe.x)
    ensures
      var best := v.Remembered(ps, r);
      v.Remembered(ps, PickNext(ps, ceiling, r, probe.x)) ==
      if probe.y <= ceiling && probe.Lowers(best) then probe else best
  {
  }

  lemma LeftDecides(v: View, ps: seq<Probe>, wide: int, ceiling: int, i: nat, probe: Best)
    requires Sealed(v.s, v.W, v.H) && ps == Profile(v.s, wide, |ps|) && i < |v.s|
    requires 0 <= probe.x < |ps| && probe.x == v.s[i].x && probe.link == v.LinkTo(Segment(v.s, probe.x))
    requires probe.y == Highest(v.s, probe.x, probe.x + wide) < UNREACHABLE && probe.waste == Waste(v.s, probe.x, wide)
    ensures
      var best := v.Remembered(ps, PickLeft(ps, ceiling, v.s, i));
      v.Remembered(ps, PickLeft(ps, ceiling, v.s, i + 1)) ==
      if probe.y <= ceiling && probe.Lowers(best) then probe else best
  {
    ProfileAt(v.s, wide, |ps|, probe.x);
    PickLeftBefore(ps, ceiling, v.s, v.W, v.H, i);
    LowersDecides(v, ps, ceiling, PickLeft(ps, ceiling, v.s, i), probe);
  }

  lemma RightDecides(v: View, ps: seq<Probe>, wide: int, h: int, left: nat, i: nat, k: nat, probe: Best, best: Best)
    requires 1 <= wide <= v.W && ps == Profile(v.s, wide, v.W - wide + 1) && left <= |v.s| && i < |v.s|
    requires 0 <= probe.x && probe.x + wide <= v.W && probe.x == v.s[i].x - wide
    requires v.LeadsTo(probe.link, k) && Segment(v.s, probe.x) == k
    requires probe.y == Highest(v.s, probe.x, probe.x + wide) < UNREACHABLE && probe.waste == Waste(v.s, probe.x, wide)
    requires best == v.Remembered(ps, PickRight(ps, v.H - h, v.s, wide, left, i))
    ensures v.Remembered(ps, PickRight(ps, v.H - h, v.s, wide, left, i + 1)) ==
            if probe.y + h <= v.H && probe.Improves(best) then probe else best
  {
    ProfileAt(v.s, wide, v.W - wide + 1, probe.x);
    ImprovesDecides(v, ps, v.H - h, PickRight(ps, v.H - h, v.s, wide, left, i), probe);
  }

  // The loop of stbrp_init_target that chains the caller's nodes.
  method LinkInOrder(nodes: seq<Node>)
    requires 1 <= |nodes| && Distinct(nodes)
    modifies nodes
    ensures Linked(nodes, nodes[0]) && RankedDown(nodes)
  {
    var i := 0;
    while i < |nodes| - 1
      invariant 0 <= i <= |nodes| - 1
      invariant forall j {:trigger nodes[j]} :: 0 <= j < i ==> nodes[j].next == nodes[j + 1]
      invariant forall j :: 0 <= j < i ==> nodes[j].rank == -1 - j
    {
      DistinctAt(nodes, i);
      nodes[i].next := nodes[i + 1];
      nodes[i].rank := -1 - i;
      i := i + 1;
    }
    DistinctAt(nodes, i);
    nodes[i].next := null;
    nodes[i].rank := -1 - i;
  }

  // The two extra nodes: one over the full width, and the sentinel.
  method ExtraNodes(width: int) returns (n0: Node, n1: Node)
    ensures fresh(n0) && fresh(n1) && n0 != n1
    ensures n0.x == n0.y == 0 && n1.x == width && n1.y == UNREACHABLE
    ensures n0.next == n1 && n1.next == null && n0.rank == 0 && n1.rank == 1
  {
    n1 := new Node(width, UNREACHABLE, null);
    n0 := new Node(0, 0, n1);
    n0.rank, n1.rank := 0, 1;
  }

  class Context {
    var width: int
    var height: int
    var align: int
    var bestFit: bool
    var numNodes: int
    var activeHead: Node?
    var freeHead: Node?
    ghost var active: seq<Node>
    ghost var free: seq<Node>
    ghost var boxes: seq<Box>
    // The caller's nodes and the two extra ones.
    ghost const repr: set<Node>

    // Both lists are acyclic and they share no node: ranks tell all nodes apart.
    ghost predicate Shape()
      reads this, active, free
    {
      && Linked(active, activeHead) && Linked(free, freeHead)
      && RankedUp(active) && RankedDown(free)
      && Within(active, repr) && Within(free, repr)
    }

    ghost function Goal(): Target
      reads this
    {
      Target(width, height, align, numNodes, bestFit)
    }

    ghost function State(): Packing
      reads this, active
    {
      Packing(Points(active), |free|, boxes)
    }

    ghost predicate Valid()
      reads this, active, free
    {
      Shape() && State() in SoundStates(Goal())
    }

    // v is what the lists hold now, and the skyline in it is well formed.
    ghost predicate Shows(v: View)
      reads this, active
    {
      && Linked(active, activeHead)
      && v == View(active, Points(active), width, height)
      && Sealed(v.s, v.W, v.H) && 0 <= v.H < UNREACHABLE
    }

    lemma NextOf(v: View, i: nat)
      requires Shows(v) && i < |v.ns|
      ensures v.ns[i].x == v.s[i].x && v.ns[i].y == v.s[i].y && 0 <= v.s[i].x <= v.W
      ensures i + 1 == |v.s| ==> v.ns[i].next == null && v.s[i].x == v.W
      ensures i + 1 < |v.s| ==> v.ns[i].next == v.ns[i + 1] && v.s[i].x < v.s[i + 1].x
    {
      ChainAt(v.s, v.W, v.H, i);
    }

    // stbrp_init_target
    constructor InitTarget(width: int, height: int, nodes: seq<Node>)
      requires 1 <= width && 1 <= height < UNREACHABLE
      requires 1 <= |nodes| && Distinct(nodes)
      modifies nodes
      ensures Valid()
      ensures Goal() == Target(width, height, QuantisedAlign(width, |nodes|), |nodes|, false)
      ensures State() == Fresh(Goal())
      ensures State() == Packing([Point(0, 0), Point(width, 0x4000_0000)], |nodes|, [])
      ensures free == nodes
    {
      hide Sound, SoundStates, Fresh, Points, QuantisedAlign;
      ghost var t := Target(width, height, QuantisedAlign(width, |nodes|), |nodes|, false);
      QuantisedAlignPositive(width, |nodes|);
      FreshSound(t);
      LinkInOrder(nodes);
      var n0, n1 := ExtraNodes(width);
      FreshPoints(n0, n1, t);
      FreshIs(t);
      this.width, this.height, this.numNodes := width, height, |nodes|;
      this.bestFit := false;
      this.align := QuantisedAlign(width, |nodes|);
      this.freeHead := nodes[0];
      this.activeHead := n0;
      this.active, this.free, this.boxes := [n0, n1], nodes, [];
      this.repr := {n0, n1} + set n | n in nodes;
    }

    // stbrp_setup_heuristic
    method SetupHeuristic(bestFit: bool)
      requires Valid()
      modifies this`bestFit
      ensures Valid() && State() == old(State()) && Goal() == old(Goal()).(bestFit := bestFit)
    {
      this.bestFit := bestFit;
    }

    // stbrp_setup_allow_out_of_mem
    method SetupAllowOutOfMem(allow: bool)
      requires Valid()
      modifies this`align
      ensures Valid() && State() == old(State())
      ensures Goal() == old(Goal()).(align := if allow then 1 else QuantisedAlign(width, numNodes))
    {
      hide QuantisedAlign, Sound, Linked, RankedUp, RankedDown, Within;
      ValidProper();
      QuantisedAlignPositive(width, numNodes);
      Realigned(Goal(), State(), if allow then 1 else QuantisedAlign(width, numNodes));
      if allow {
        align := 1;
      } else {
        align := QuantisedAlign(width, numNodes);
      }
    }

    lemma ValidProper()
      requires Valid()
      ensures 1 <= width && 1 <= numNodes
    {
    }

    lemma Realigned(t: Target, p: Packing, align: int)
      requires p in SoundStates(t) && 1 <= align
      ensures p in SoundStates(t.(align := align))
    {
      SoundRealigned(t, p, align);
    }

    // The body of the loop of find_min_y.
    method ScanNode(node: Node, x0: int, w: int, minY: int, visited: int, waste: int, ghost v: View, ghost i: nat)
      returns (minY': int, visited': int, waste': int)
      requires Shows(v) && i < |v.s| && node == v.ns[i] && v.s[i].x < x0 + w <= v.W
      ensures i + 1 < |v.s| && node.next == v.ns[i + 1]
      ensures Scan(v.s, i + 1, x0, w, minY', visited', waste') == Scan(v.s, i, x0, w, minY, visited, waste)
    {
      hide Scan;
      NextOf(v, i);
      ScanTurn(v.s, i, x0, w, minY, visited, waste);
      minY', visited', waste' := minY, visited, waste;
      if node.y > minY {
        waste' := waste + visited * (node.y - minY);
        minY' := node.y;
        if node.x < x0 {
          visited' := visited + node.next.x - x0;
        } else {
          visited' := visited + node.next.x - node.x;
        }
      } else {
        var under := node.next.x - node.x;
        if under + visited > w {
          under := w - visited;
        }
        waste' := waste + under * (minY - node.y);
        visited' := visited + under;
      }
      NextOf(v, i + 1);
    }

    // stbrp__skyline_find_min_y
    method FindMinY(first: Node, x0: int, w: int, ghost v: View, ghost k: nat) returns (minY: int, waste: int)
      requires Shows(v) && k + 1 < |v.ns| && first == v.ns[k]
      requires v.s[k].x <= x0 < v.s[k + 1].x && 1 <= w && x0 + w <= v.W
      ensures Segment(v.s, x0) == k
      ensures minY == Highest(v.s, x0, x0 + w) < UNREACHABLE
      ensures waste == Waste(v.s, x0, w)
    {
      var node, x1 := first, x0 + w;
      ghost var i, s := k, v.s;
      var visited := 0;
      minY, waste := 0, 0;
      while node.x < x1
        invariant k <= i < |s| && node == v.ns[i]
        invariant Scan(s, i, x0, w, minY, visited, waste) == Scan(s, k, x0, w, 0, 0, 0)
        decreases |s| - i
      {
        minY, visited, waste := ScanNode(node, x0, w, minY, visited, waste, v, i);
        node := node.next;
        i := i + 1;
      }
      ProbeExact(s, v.W, v.H, k, x0, w);
    }

    // The probe of a node's own position, made by both heuristics.
    method ProbeNode(node: Node, wide: int, ghost v: View, ghost i: nat) returns (y: int, waste: int)
      requires Shows(v) && 1 <= wide && i < |v.ns| && node == v.ns[i] && v.s[i].x + wide <= v.W
      ensures i + 1 < |v.ns| && node.next == v.ns[i + 1] && node.x == v.s[i].x
      ensures y == NodeHeights(v.s, wide)[i] == Highest(v.s, v.s[i].x, v.s[i].x + wide) < UNREACHABLE
      ensures waste == Waste(v.s, v.s[i].x, wide) && Segment(v.s, v.s[i].x) == i && 0 <= v.s[i].x
    {
      NextOf(v, i);
      y, waste := FindMinY(node, node.x, wide, v, i);
      NodeHeightAt(v.s, v.W, v.H, wide, i);
    }

    // stbrp__skyline_find_best_pos, first loop, bottom-left branch
    method LowestLeft(wide: int, ghost v: View) returns (best: Best, ghost k: nat, ghost i: nat)
      requires Shows(v) && 1 <= wide <= v.W
      ensures i < |v.s| && v.W < v.s[i].x + wide && FirstLeast(NodeHeights(v.s, wide), k, i)
      ensures v.s[k].x + wide <= v.W && v.LeadsTo(best.link, k) && best.y == NodeHeights(v.s, wide)[k]
    {
      var node, prev := activeHead, AtHead;
      best, k, i := Best(NoLink, 0, UNREACHABLE, UNREACHABLE), 0, 0;
      ghost var hs := NodeHeights(v.s, wide);
      while node.x + wide <= width
        invariant i < |v.s| && node == v.ns[i] && v.LeadsTo(prev, i)
        invariant if i == 0 then best.link == NoLink && best.y == UNREACHABLE
                  else FirstLeast(hs, k, i) && v.LeadsTo(best.link, k) && v.s[k].x + wide <= v.W && best.y == hs[k]
        decreases |v.s| - i
      {
        var y, waste := ProbeNode(node, wide, v, i);
        FirstLeastNext(hs, k, i);
        k := if i == 0 || hs[i] < hs[k] then i else k;
        if y < best.y {
          best := best.(y := y, link := prev);
        }
        prev := After(node);
        node := node.next;
        i := i + 1;
      }
    }

    // The body of the first loop, best-fit branch.
    method TryLeftAligned(best: Best, node: Node, prev: Link, wide: int, h: int,
                          ghost v: View, ghost ps: seq<Probe>, ghost i: nat) returns (best': Best)
      requires Shows(v) && 1 <= wide <= v.W && ps == Profile(v.s, wide, v.W - wide + 1)
      requires i < |v.ns| && node == v.ns[i] && v.LeadsTo(prev, i) && v.s[i].x + wide <= v.W
      requires best == v.Remembered(ps, PickLeft(ps, v.H - h, v.s, i))
      ensures i + 1 < |v.ns| && node.next == v.ns[i + 1]
      ensures best' == v.Remembered(ps, PickLeft(ps, v.H - h, v.s, i + 1))
    {
      hide PickLeft, Profile, Sealed, Highest, Waste, View.Remembered, Segment;
      NextOf(v, i);
      var y, waste := FindMinY(node, node.x, wide, v, i);
      var probe := Best(prev, node.x, y, waste);
      var take := y + h <= height && probe.Lowers(best);
      LeftDecides(v, ps, wide, v.H - h, i, probe);
      best' := if take then probe else best;
    }

    // stbrp__skyline_find_best_pos, first loop, best-fit branch
    method BestLeftAligned(wide: int, h: int, ghost v: View, ghost ps: seq<Probe>) returns (best: Best, ghost i: nat)
      requires Shows(v) && 1 <= wide <= v.W && ps == Profile(v.s, wide, v.W - wide + 1)
      ensures i < |v.s| && v.W < v.s[i].x + wide
      ensures best == v.Remembered(ps, PickLeft(ps, v.H - h, v.s, i))
    {
      var node, prev := activeHead, AtHead;
      best, i := Best(NoLink, 0, UNREACHABLE, UNREACHABLE), 0;
      while node.x + wide <= width
        invariant i < |v.s| && node == v.ns[i] && v.LeadsTo(prev, i)
        invariant best == v.Remembered(ps, PickLeft(ps, v.H - h, v.s, i))
        decreases |v.s| - i
      {
        best := TryLeftAligned(best, node, prev, wide, h, v, ps, i);
        prev := After(node);
        node := node.next;
        i := i + 1;
      }
    }

    // Finds the node that contains x, from node k on.
    method Advance(node: Node, prev: Link, x: int, ghost v: View, ghost k: nat)
      returns (node': Node, prev': Link, ghost k': nat)
      requires Shows(v) && 0 <= x < v.W
      requires k < |v.s| && node == v.ns[k] && v.LeadsTo(prev, k) && v.s[k].x <= x
      ensures k' + 1 < |v.s| && node' == v.ns[k'] && v.LeadsTo(prev', k') && v.s[k'].x <= x < v.s[k' + 1].x
    {
      node', prev', k' := node, prev, k;
      NextOf(v, k');
      while node'.next.x <= x
        invariant k' + 1 < |v.s| && node' == v.ns[k'] && node'.next == v.ns[k' + 1]
        invariant v.LeadsTo(prev', k') && v.s[k'].x <= x
        decreases |v.s| - k'
      {
        NextOf(v, k' + 1);
        prev' := After(node');
        node' := node'.next;
        k' := k' + 1;
      }
      NextOf(v, k' + 1);
    }

    // A probe at x inside node k, with the link to that node.
    method ProbeAt(x: int, node: Node, prev: Link, wide: int, ghost v: View, ghost k: nat) returns (probe: Best)
      requires Shows(v) && 1 <= wide && 0 <= x && x + wide <= v.W
      requires k + 1 < |v.s| && node == v.ns[k] && v.LeadsTo(prev, k) && v.s[k].x <= x < v.s[k + 1].x
      ensures probe.x == x && probe.link == prev && Segment(v.s, x) == k
      ensures probe.y == Highest(v.s, x, x + wide) < UNREACHABLE && probe.waste == Waste(v.s, x, wide)
    {
      var y, waste := FindMinY(node, x, wide, v, k);
      probe := Best(prev, x, y, waste);
    }

    // One probe of the second loop: right-aligned to node i, at x inside node k.
    method TryRightAligned(best: Best, x: int, node: Node, prev: Link, wide: int, h: int,
                           ghost v: View, ghost ps: seq<Probe>, ghost left: nat, ghost i: nat, ghost k: nat)
      returns (best': Best)
      requires Shows(v) && 1 <= wide <= v.W && ps == Profile(v.s, wide, v.W - wide + 1)
      requires left <= |v.s| && i < |v.s| && x == v.s[i].x - wide && 0 <= x && x + wide <= v.W
      requires k + 1 < |v.s| && node == v.ns[k] && v.LeadsTo(prev, k) && v.s[k].x <= x < v.s[k + 1].x
      requires best == v.Remembered(ps, PickRight(ps, v.H - h, v.s, wide, left, i))
      ensures best' == v.Remembered(ps, PickRight(ps, v.H - h, v.s, wide, left, i + 1))
    {
      var probe := ProbeAt(x, node, prev, wide, v, k);
      RightDecides(v, ps, wide, h, left, i, k, probe, best);
      best' := if probe.y + h <= height && probe.Improves(best) then probe else best;
    }

    // Finds the first node a rectangle of that width can be right-aligned to.
    method FirstAdmissible(wide: int, ghost v: View) returns (tail: Node, ghost i: nat)
      requires Shows(v) && 1 <= wide <= v.W
      ensures i < |v.s| && tail == v.ns[i] && wide <= v.s[i].x
      ensures forall j :: 0 <= j < i ==> v.s[j].x < wide
    {
      tail, i := activeHead, 0;
      while tail.x < wide
        invariant i < |v.s| && tail == v.ns[i] && forall j :: 0 <= j < i ==> v.s[j].x < wide
        decreases |v.s| - i
      {
        NextOf(v, i);
        tail := tail.next;
        i := i + 1;
      }
    }

    // The body of the second loop: the rectangle's right edge goes to the node tail.
    method TryTail(best: Best, tail: Node, node: Node, prev: Link, wide: int, h: int,
                   ghost v: View, ghost ps: seq<Probe>, ghost left: nat, ghost i: nat, ghost k: nat)
      returns (best': Best, node': Node, prev': Link, ghost k': nat)
      requires Shows(v) && 1 <= wide <= v.W && left <= |v.s| && ps == Profile(v.s, wide, v.W - wide + 1)
      requires i < |v.s| && tail == v.ns[i] && wide <= v.s[i].x
      requires k < |v.s| && node == v.ns[k] && v.LeadsTo(prev, k) && v.s[k].x <= v.s[i].x - wide
      requires best == v.Remembered(ps, PickRight(ps, v.H - h, v.s, wide, left, i))
      ensures k' < |v.s| && node' == v.ns[k'] && v.LeadsTo(prev', k')
      ensures i + 1 < |v.s| ==> v.s[k'].x <= v.s[i + 1].x - wide && wide <= v.s[i + 1].x
      ensures tail.next == if i + 1 < |v.s| then v.ns[i + 1] else null
      ensures best' == v.Remembered(ps, PickRight(ps, v.H - h, v.s, wide, left, i + 1))
    {
      hide PickRight, PickLeft, Profile;
      NextOf(v, i);
      node', prev', k' := Advance(node, prev, tail.x - wide, v, k);
      best' := TryRightAligned(best, tail.x - wide, node', prev', wide, h, v, ps, left, i, k');
    }

    // stbrp__skyline_find_best_pos, second loop
    method BestRightAligned(start: Best, wide: int, h: int, ghost v: View, ghost ps: seq<Probe>, ghost left: nat)
      returns (best: Best)
      requires Shows(v) && 1 <= wide <= v.W && left <= |v.s| && ps == Profile(v.s, wide, v.W - wide + 1)
      requires start == v.Remembered(ps, PickLeft(ps, v.H - h, v.s, left))
      ensures best == v.Remembered(ps, PickRight(ps, v.H - h, v.s, wide, left, |v.s|))
    {
      hide PickLeft, PickRight, Profile;
      var node: Node, prev := activeHead, AtHead;
      var first, i := FirstAdmissible(wide, v);
      PickRightSkips(ps, v.H - h, v.s, wide, left, i);
      var tail: Node? := first;
      ghost var k: nat := 0;
      best := start;
      while tail != null
        invariant i <= |v.s| && tail == if i < |v.s| then v.ns[i] else null
        invariant k < |v.s| && node == v.ns[k] && v.LeadsTo(prev, k)
        invariant i < |v.s| ==> v.s[k].x <= v.s[i].x - wide && wide <= v.s[i].x
        invariant best == v.Remembered(ps, PickRight(ps, v.H - h, v.s, wide, left, i))
        decreases |v.s| - i
      {
        best, node, prev, k := TryTail(best, tail, node, prev, wide, h, v, ps, left, i, k);
        tail := tail.next;
        i := i + 1;
      }
      assert i == |v.s|;
    }

    // *prev_link
    function Followed(link: Link): Node?
      reads this, if link.After? then {link.node} else {}
    {
      match link
      case NoLink => null
      case AtHead => activeHead
      case After(node) => node.next
    }

    lemma FollowedAt(v: View, link: Link, k: nat)
      requires Shows(v) && v.LeadsTo(link, k)
      ensures link != NoLink && Followed(link) == v.ns[k] && v.ns[k].x == v.s[k].x
    {
      NextOf(v, k);
      if 0 < k {
        NextOf(v, k - 1);
      }
    }

    // The bottom-left search: the lowest, then leftmost, of all integer positions.
    method FindBottomLeft(wide: int, ghost v: View) returns (res: FindResult)
      requires Shows(v) && 1 <= wide <= v.W
      ensures BottomLeft(v.s, v.W, wide, res.x)
      ensures res.y == Highest(v.s, res.x, res.x + wide)
      ensures res.link == v.LinkTo(Segment(v.s, res.x)) && res.link != NoLink
    {
      hide Highest, BottomLeft, Segment, Sealed;
      ghost var k, i;
      var best;
      best, k, i := LowestLeft(wide, v);
      LowestNodeSuffices(v.s, v.W, v.H, wide, k, i);
      FollowedAt(v, best.link, k);
      res := FindResult(Followed(best.link).x, best.y, best.link);
    }

    // The best-fit search: the best of all left- and right-aligned positions with room.
    method FindBestFit(wide: int, h: int, ghost v: View) returns (res: FindResult)
      requires Shows(v) && 1 <= wide <= v.W
      ensures res.link == NoLink ==> !Room(v.s, v.W, v.H, wide, h)
      ensures res.link != NoLink ==>
                && BestFit(v.s, v.W, v.H, wide, h, res.x)
                && res.y == Highest(v.s, res.x, res.x + wide)
                && res.link == v.LinkTo(Segment(v.s, res.x))
    {
      hide PickRight, PickLeft, Profile, BestFit, Room, Segment;
      ghost var ps := Profile(v.s, wide, v.W - wide + 1);
      var best, i := BestLeftAligned(wide, h, v, ps);
      best := BestRightAligned(best, wide, h, v, ps, i);
      BestFitFound(v, ps, wide, h, i);
      res := FindResult(best.x, best.y, best.link);
    }

    // stbrp__skyline_find_best_pos
    method FindBestPos(w: int, h: int, ghost t: Target, ghost p: Packing, ghost ns: seq<Node>) returns (res: FindResult)
      requires Valid() && t == Goal() && p == State() && ns == active && 1 <= w && 1 <= h
      ensures res.link != NoLink && res.y + h <= t.height ==>
                && res.x in Choices(t, p, w, h)
                && res.y == Highest(p.sky, res.x, res.x + Aligned(w, t.align))
                && res.link == LinkInto(ns, Segment(p.sky, res.x))
      ensures res.link == NoLink || t.height < res.y + h ==> !HasRoom(t, p, w, h)
    {
      hide Sealed, Room, Highest, Segment;
      var wide := w + align - 1;
      wide := wide - wide % align;
      assert wide == Aligned(w, align);
      ghost var v := Here();
      if wide > width || h > height {
        NoRoom(v, wide, h);
        return FindResult(0, 0, NoLink);
      }
      if bestFit {
        res := FindBestFit(wide, h, v);
      } else {
        res := FindBottomLeft(wide, v);
        BottomLeftDecides(v.s, v.W, v.H, wide, h, res.x);
      }
    }

    // The freeing loop of stbrp__skyline_pack_rectangle: the nodes of ns from i on whose
    // successor starts at or before e go, one by one, to the front of the free list.
    method FreeCovered(start: Node, e: int, ghost ns: seq<Node>, ghost others: seq<Node>, ghost i: nat)
      returns (cur: Node, ghost j: nat)
      requires i < |ns| && start == ns[i] && ns[|ns| - 1].next == null && RankedUp(ns)
      requires forall n {:trigger ns[n].next} :: i <= n < |ns| - 1 ==> ns[n].next == ns[n + 1]
      requires forall m :: 0 <= m < |others| ==> others[m].rank < 0
      requires Within(ns, repr)
      modifies this`freeHead, repr`next
      ensures forall m {:trigger others[m].next} :: 0 <= m < |others| ==> others[m].next == old(others[m].next)
      ensures i <= j < |ns| && cur == ns[j]
      ensures Points(ns) == old(Points(ns)) && j == SkipTo(Points(ns), i, e)
      ensures freeHead == if j == i then old(freeHead) else ns[j - 1]
      ensures forall n {:trigger ns[n].next} :: 0 <= n < i || j <= n < |ns| ==> ns[n].next == old(ns[n].next)
      ensures forall n {:trigger ns[n].next} :: i < n < j ==> ns[n].next == ns[n - 1]
      ensures i < j ==> ns[i].next == old(freeHead)
    {
      hide SkipTo, Points;
      cur, j := start, i;
      while cur.next != null && cur.next.x <= e
        invariant i <= j < |ns| && cur == ns[j]
        invariant forall m {:trigger others[m].next} :: 0 <= m < |others| ==> others[m].next == old(others[m].next)
        invariant forall n :: i < n <= j ==> ns[n].x <= e
        invariant freeHead == if j == i then old(freeHead) else ns[j - 1]
        invariant forall n {:trigger ns[n].next} :: 0 <= n < i || j <= n < |ns| ==> ns[n].next == old(ns[n].next)
        invariant forall n {:trigger ns[n].next} :: i < n < j ==> ns[n].next == ns[n - 1]
        invariant i < j ==> ns[i].next == old(freeHead)
        decreases |ns| - j
      {
        assert j < |ns| - 1 && cur.next == ns[j + 1];
        var next := cur.next;
        cur.next := freeHead;
        freeHead := cur;
        cur := next;
        j := j + 1;
      }
      SkipToNode(ns, i, j, e);
      SamePoints(ns);
    }

    lemma SkipToNode(ns: seq<Node>, i: nat, j: nat, e: int)
      requires i <= j < |ns| && (forall n :: i < n <= j ==> ns[n].x <= e) && (j + 1 < |ns| ==> e < ns[j + 1].x)
      ensures SkipTo(Points(ns), i, e) == j
    {
      SkipToIs(Points(ns), i, j, e);
    }

    twostate lemma SamePoints(ns: seq<Node>)
      requires forall n :: 0 <= n < |ns| ==> ns[n].x == old(ns[n].x) && ns[n].y == old(ns[n].y)
      ensures Points(ns) == old(Points(ns))
    {
    }

    // The links as they stand once node has been put in front of ns[j] and the nodes
    // ns[i..j] have been freed onto rest.
    ghost predicate Relinked(ns: seq<Node>, rest: seq<Node>, node: Node, i: nat, j: nat)
      requires i <= j < |ns|
      reads this`activeHead, this`freeHead, ns`next, rest`next, node`next
    {
      && activeHead == (if i == 0 then node else ns[0])
      && (forall n {:trigger ns[n].next} :: 0 <= n < i - 1 || j <= n < |ns| - 1 ==> ns[n].next == ns[n + 1])
      && (0 < i ==> ns[i - 1].next == node)
      && node.next == ns[j] && ns[|ns| - 1].next == null
      && freeHead == (if i < j then ns[j - 1] else if rest == [] then null else rest[0])
      && (forall n {:trigger ns[n].next} :: i < n < j ==> ns[n].next == ns[n - 1])
      && (i < j ==> ns[i].next == if rest == [] then null else rest[0])
      && (forall m {:trigger rest[m].next} :: 0 <= m < |rest| - 1 ==> rest[m].next == rest[m + 1])
      && (rest != [] ==> rest[|rest| - 1].next == null)
    }

    lemma ActiveLinked(ns: seq<Node>, rest: seq<Node>, node: Node, i: nat, j: nat)
      requires i <= j < |ns| && Relinked(ns, rest, node, i, j)
      ensures Linked(ns[..i] + [node] + ns[j..], activeHead)
    {
    }

    lemma FreeLinked(ns: seq<Node>, rest: seq<Node>, node: Node, i: nat, j: nat)
      requires i <= j < |ns| && Relinked(ns, rest, node, i, j)
      ensures Linked(Freed(ns, i, j) + rest, freeHead)
    {
    }

    // The two lists after a splice.
    lemma NewLists(ns: seq<Node>, rest: seq<Node>, node: Node, i: nat, j: nat) returns (up: seq<Node>, down: seq<Node>)
      requires i <= j < |ns| && Relinked(ns, rest, node, i, j)
      requires RankedUp(ns) && node.rank == |ns| && forall m :: 0 <= m < |rest| ==> rest[m].rank == -2 - m
      requires Within(ns, repr) && Within(rest, repr) && node in repr
      ensures up == ns[..i] + [node] + ns[j..] && |up| + |down| == |ns| + 1 + |rest|
      ensures Linked(up, activeHead) && Linked(down, freeHead) && Apart(up, down)
      ensures Within(up, repr) && Within(down, repr)
    {
      ActiveLinked(ns, rest, node, i, j);
      FreeLinked(ns, rest, node, i, j);
      ListsWithin(ns, rest, node, i, j, repr);
      ApartAfter(ns, rest, node, i, j);
      up, down := ns[..i] + [node] + ns[j..], Freed(ns, i, j) + rest;
    }

    ghost method Adopt(up: seq<Node>, down: seq<Node>, box: Box)
      requires Linked(up, activeHead) && Linked(down, freeHead) && Apart(up, down)
      requires Within(up, repr) && Within(down, repr)
      modifies this`active, this`free, this`boxes, repr`rank
      ensures active == up && free == down && Shape() && boxes == old(boxes) + [box]
      ensures Points(active) == old(Points(up))
    {
      hide Linked, RankedUp, RankedDown, Within, Apart;
      Renumber(up, down, activeHead, freeHead, repr);
      active, free, boxes := up, down, boxes + [box];
    }

    // A node is taken from the free list.
    method TakeFree(x: int, top: int, ghost s: seq<Point>) returns (node: Node)
      requires Shape() && free != [] && s == Points(active)
      modifies this`freeHead, repr`x, repr`y, repr`rank
      ensures node == free[0] && node.x == x && node.y == top
      ensures RankedUp(active) && node.rank == |active|
      ensures forall m :: 0 < m < |free| ==> free[m].rank == -1 - m
      ensures freeHead == if |free| == 1 then null else free[1]
      ensures Points(active) == s
    {
      node := freeHead;
      assert forall n :: 0 <= n < |active| ==> active[n].rank != node.rank;
      node.x := x;
      node.y := top;
      node.rank := |active|;
      freeHead := node.next;
    }

    // It is put into the link the search returned, or behind the node found there.
    method LinkIn(link: Link, node: Node, x: int, ghost s: seq<Point>, ghost others: seq<Node>, ghost k: nat)
      returns (cur: Node, ghost i: nat)
      requires Linked(active, activeHead) && RankedUp(active) && node.rank == |active|
      requires forall m :: 0 <= m < |others| ==> others[m].rank < 0
      requires k + 1 < |active| && link == LinkInto(active, k) && Within(active, repr) && s == Points(active)
      modifies this`activeHead, repr`next
      ensures forall m {:trigger others[m].next} :: 0 <= m < |others| ==> others[m].next == old(others[m].next)
      ensures Points(active) == s
      ensures i == FirstLoose(s, k, x) && cur == active[i]
      ensures activeHead == if i == 0 then node else active[0]
      ensures 0 < i ==> active[i - 1].next == node
      ensures forall n {:trigger active[n].next} :: 0 <= n < |active| - 1 && n != i - 1 ==>
                                                      active[n].next == active[n + 1]
      ensures active[|active| - 1].next == null
    {
      hide Points;
      i := k;
      assert 0 < k ==> active[k - 1].next == active[k];
      cur := Followed(link);
      assert cur == active[k] && cur.next == active[k + 1];
      if cur.x < x {
        var next := cur.next;
        cur.next := node;
        cur := next;
        i := k + 1;
      } else {
        match link
        case AtHead => activeHead := node;
        case After(prev) => prev.next := node;
      }
      SamePoints(active);
    }

    // The end of the splice: the list goes on after the new node at cur.
    method Stitch(node: Node, cur: Node, e: int, ghost s: seq<Point>, ghost ns: seq<Node>, ghost rest: seq<Node>,
                  ghost i: nat, ghost j: nat)
      requires s == Points(ns) && i <= j < |ns| && cur == ns[j] && RankedUp(ns) && node.rank == |ns|
      requires forall m :: 0 <= m < |rest| ==> rest[m].rank == -2 - m
      requires activeHead == if i == 0 then node else ns[0]
      requires forall n {:trigger ns[n].next} :: 0 <= n < i - 1 || j <= n < |ns| - 1 ==> ns[n].next == ns[n + 1]
      requires 0 < i ==> ns[i - 1].next == node
      requires ns[|ns| - 1].next == null
      requires freeHead == if i < j then ns[j - 1] else if rest == [] then null else rest[0]
      requires forall n {:trigger ns[n].next} :: i < n < j ==> ns[n].next == ns[n - 1]
      requires i < j ==> ns[i].next == if rest == [] then null else rest[0]
      requires forall m {:trigger rest[m].next} :: 0 <= m < |rest| - 1 ==> rest[m].next == rest[m + 1]
      requires rest != [] ==> rest[|rest| - 1].next == null
      modifies node`next, cur`x
      ensures Relinked(ns, rest, node, i, j)
      ensures node.x == old(node.x) && Points(ns) == s[j := Point(Max(s[j].x, e), s[j].y)]
    {
      node.next := cur;
      Widen(cur, e, s, ns, j);
    }

    method Widen(cur: Node, e: int, ghost s: seq<Point>, ghost ns: seq<Node>, ghost j: nat)
      requires s == Points(ns) && j < |ns| && cur == ns[j] && RankedUp(ns)
      modifies cur`x
      ensures Points(ns) == s[j := Point(Max(s[j].x, e), s[j].y)]
    {
      if cur.x < e {
        cur.x := e;
      }
    }

    // The second half of the splice: free what the new node covers, stitch the list back in.
    method Close(node: Node, start: Node, e: int, ghost s: seq<Point>,
                 ghost ns: seq<Node>, ghost rest: seq<Node>, ghost i: nat) returns (ghost j: nat)
      requires s == Points(ns) && i < |ns| && start == ns[i] && ns[|ns| - 1].next == null
      requires RankedUp(ns) && node.rank == |ns|
      requires forall m :: 0 <= m < |rest| ==> rest[m].rank == -2 - m
      requires activeHead == if i == 0 then node else ns[0]
      requires 0 < i ==> ns[i - 1].next == node
      requires forall n {:trigger ns[n].next} :: 0 <= n < |ns| - 1 && n != i - 1 ==> ns[n].next == ns[n + 1]
      requires freeHead == if rest == [] then null else rest[0]
      requires forall m {:trigger rest[m].next} :: 0 <= m < |rest| - 1 ==> rest[m].next == rest[m + 1]
      requires rest != [] ==> rest[|rest| - 1].next == null
      requires Within(ns, repr) && node in repr
      modifies this`freeHead, repr`next, repr`x
      ensures j == SkipTo(s, i, e) && i <= j < |ns|
      ensures Relinked(ns, rest, node, i, j)
      ensures node.x == old(node.x) && Points(ns) == s[j := Point(Max(s[j].x, e), s[j].y)]
    {
      var cur;
      cur, j := FreeCovered(start, e, ns, rest, i);
      Stitch(node, cur, e, s, ns, rest, i, j);
    }

    method LinkAndClose(link: Link, node: Node, x: int, w: int, ghost k: nat,
                        ghost s: seq<Point>, ghost ns: seq<Node>, ghost rest: seq<Node>)
      returns (ghost i: nat, ghost j: nat)
      requires ns == active && s == Points(ns) && k + 1 < |ns| && link == LinkInto(active, k)
      requires Linked(ns, activeHead) && RankedUp(ns) && Within(ns, repr)
      requires node in repr && node.rank == |ns|
      requires forall m :: 0 <= m < |rest| ==> rest[m].rank == -2 - m
      requires freeHead == if rest == [] then null else rest[0]
      requires forall m {:trigger rest[m].next} :: 0 <= m < |rest| - 1 ==> rest[m].next == rest[m + 1]
      requires rest != [] ==> rest[|rest| - 1].next == null
      modifies this`activeHead, this`freeHead, repr`next, repr`x
      ensures i == FirstLoose(s, k, x) && j == SkipTo(s, i, x + w)
      ensures Points(ns) == s[j := Point(Max(s[j].x, x + w), s[j].y)] && node.x == old(node.x)
      ensures i <= j < |ns| && Relinked(ns, rest, node, i, j)
    {
      hide SkipTo, Max, Relinked, Points, Within;
      var cur;
      cur, i := LinkIn(link, node, x, s, rest, k);
      j := Close(node, cur, x + w, s, ns, rest, i);
    }

    // The steps of the splice that touch the links.
    method SpliceLinks(link: Link, x: int, w: int, top: int, ghost k: nat,
                       ghost s: seq<Point>, ghost ns: seq<Node>, ghost rest: seq<Node>)
      returns (node: Node, ghost i: nat, ghost j: nat)
      requires Shape() && k + 1 < |ns| && link == LinkInto(active, k)
      requires s == Points(ns) && free != [] && ns == active && rest == free[1..]
      modifies this`activeHead, this`freeHead, repr`next, repr`x, repr`y, repr`rank
      ensures node == free[0] && node.x == x && node.y == top
      ensures RankedUp(ns) && node.rank == |ns| && forall m :: 0 <= m < |rest| ==> rest[m].rank == -2 - m
      ensures i == FirstLoose(s, k, x) && j == SkipTo(s, i, x + w)
      ensures Points(ns) == s[j := Point(Max(s[j].x, x + w), s[j].y)]
      ensures i <= j < |ns| && Relinked(ns, rest, node, i, j)
    {
      node := TakeFree(x, top, s);
      assert forall m {:trigger rest[m].next} :: 0 <= m < |rest| - 1 ==> rest[m].next == rest[m + 1];
      i, j := LinkAndClose(link, node, x, w, k, s, ns, rest);
    }

    // The relinking of stbrp__skyline_pack_rectangle once a position is found.
    method Splice(link: Link, x: int, w: int, top: int, ghost k: nat, ghost s: seq<Point>, ghost box: Box)
      requires Shape() && s == Points(active) && free != [] && k + 1 < |active| && link == LinkInto(active, k)
      modifies this`activeHead, this`freeHead, this`active, this`free, this`boxes, repr
      ensures Shape() && boxes == old(boxes) + [box]
      ensures Points(active) == Insert(s, k, x, w, top)
      ensures |active| + |free| == old(|active| + |free|)
    {
      hide Insert, Relinked, SkipTo, FirstLoose, Apart, RankedUp, RankedDown;
      ghost var ns, rest := active, free[1..];
      ghost var i, j;
      var node;
      node, i, j := SpliceLinks(link, x, w, top, k, s, ns, rest);
      ghost var up, down := NewLists(ns, rest, node, i, j);
      SplicedPoints(s, ns, node, up, k, x, w, top, i, j);
      Adopt(up, down, box);
    }

    lemma SplicedPoints(s: seq<Point>, ns: seq<Node>, node: Node, up: seq<Node>,
                        k: nat, x: int, w: int, top: int, i: nat, j: nat)
      requires k + 1 < |s| && i == FirstLoose(s, k, x) && j == SkipTo(s, i, x + w)
      requires Points(ns) == s[j := Point(Max(s[j].x, x + w), s[j].y)] && node.x == x && node.y == top
      requires i <= |ns| && up == ns[..i] + [node] + ns[j..]
      ensures Points(up) == Insert(s, k, x, w, top)
    {
      assert forall n :: 0 <= n < |ns| ==> Points(ns)[n] == Point(ns[n].x, ns[n].y);
    }

    // The success branch of stbrp__skyline_pack_rectangle.
    method Place(res: FindResult, w: int, h: int, ghost p: Packing, ghost k: nat, ghost p': Packing)
      requires Shape() && p == State() && free != []
      requires k + 1 < |p.sky| && p.sky[k].x <= res.x && res.link == LinkInto(active, k)
      requires
        var sky := Insert(p.sky, k, res.x, w, res.y + h);
        p' == Packing(sky, p.free + |p.sky| - |sky|, p.boxes + [Box(res.x, res.y, w, h)])
      modifies this`activeHead, this`freeHead, this`active, this`free, this`boxes, repr
      ensures Shape() && State() == p'
    {
      Splice(res.link, res.x, w, res.y + h, k, p.sky, Box(res.x, res.y, w, h));
    }

    // The success branch when the position is the one the heuristic chooses.
    method PlaceChosen(res: FindResult, w: int, h: int, ghost t: Target, ghost p: Packing)
      requires Shape() && t == Goal() && p == State() && p in SoundStates(t) && 1 <= w && 1 <= h && free != []
      requires res.x in Choices(t, p, w, h) && res.y == Highest(p.sky, res.x, res.x + Aligned(w, t.align))
      requires res.link == LinkInto(active, Segment(p.sky, res.x))
      modifies this`activeHead, this`freeHead, this`active, this`free, this`boxes, repr
      ensures Shape() && State() in SoundStates(t) && Step(t, p, w, h, State()) && HasRoom(t, p, w, h)
      ensures boxes == old(boxes) + [Box(res.x, res.y, w, h)]
    {
      ghost var k, p' := NextState(t, p, w, h, res.x, res.y);
      Place(res, w, h, p, k, p');
    }

    lemma FreeHead()
      requires Shape()
      ensures freeHead == null <==> free == []
    {
    }

    /** stbrp__skyline_pack_rectangle: one step of a run. A rectangle is refused exactly when
        no node is free or no integer position has room; otherwise it goes where the
        heuristic's definition says, and the box put there is recorded. */
    method PackRectangle(w: int, h: int) returns (res: FindResult)
      requires Valid() && 1 <= w && 1 <= h
      modifies this`activeHead, this`freeHead, this`active, this`free, this`boxes, repr
      ensures Valid() && Step(Goal(), old(State()), w, h, State())
      ensures res.link == NoLink <==> old(State()).free == 0 || !HasRoom(Goal(), old(State()), w, h)
      ensures boxes == if res.link == NoLink then old(boxes) else old(boxes) + [Box(res.x, res.y, w, h)]
    {
      hide Sound, SoundStates, Choices, Chosen, HasRoom, Highest, Segment, Step, Context.Shape;
      ghost var t, p := Goal(), State();
      FreeHead();
      res := FindBestPos(w, h, t, p, active);
      if res.link == NoLink || height < res.y + h || freeHead == null {
        RefusedStep(t, p, w, h);
        res := res.(link := NoLink);
      } else {
        PlaceChosen(res, w, h, t, p);
      }
    }

    // The body of the placing loop of stbrp_pack_rects.
    method PlaceOne(r: Rect, ghost t: Target, ghost p: Packing) returns (r': Rect, ghost p': Packing)
      requires Valid() && t == Goal() && p == State() && 0 <= r.w && 0 <= r.h
      modifies this`activeHead, this`freeHead, this`active, this`free, this`boxes, repr
      ensures Valid() && p' == State() && Outcome(t, p, r', p') && r' == r.(x := r'.x, y := r'.y)
    {
      if r.w == 0 || r.h == 0 {
        r' := r.(x := 0, y := 0);
      } else {
        var res := PackRectangle(r.w, r.h);
        if res.link != NoLink {
          r' := r.(x := res.x, y := res.y);
        } else {
          r' := r.(x := MAXVAL, y := MAXVAL);
        }
      }
      p' := State();
    }

    method PlaceAt(rects: array<Rect>, i: nat, ghost t: Target, ghost p: Packing) returns (ghost p': Packing)
      requires Valid() && t == Goal() && p == State() && i < rects.Length && 0 <= rects[i].w && 0 <= rects[i].h
      modifies this`activeHead, this`freeHead, this`active, this`free, this`boxes, repr, rects
      ensures Valid() && p' == State() && Outcome(t, p, rects[i], p')
      ensures rects[i] == old(rects[i]).(x := rects[i].x, y := rects[i].y)
      ensures forall j :: 0 <= j < rects.Length && j != i ==> rects[j] == old(rects[j])
    {
      hide Context.Valid, Outcome, Sound, SoundStates;
      var r';
      r', p' := PlaceOne(rects[i], t, p);
      rects[i] := r';
    }

    // The placing loop of stbrp_pack_rects.
    method PlaceAll(rects: array<Rect>, ghost t: Target, ghost p: Packing) returns (ghost states: seq<Packing>)
      requires Valid() && t == Goal() && p == State()
      requires forall i :: 0 <= i < rects.Length ==> 0 <= rects[i].w && 0 <= rects[i].h
      modifies this`activeHead, this`freeHead, this`active, this`free, this`boxes, repr, rects
      ensures Valid() && Outcomes(t, rects[..], states)
      ensures states[0] == p && states[rects.Length] == State()
      ensures forall i :: 0 <= i < rects.Length ==> rects[i] == old(rects[i]).(x := rects[i].x, y := rects[i].y)
    {
      hide Context.Valid, Outcome, Outcomes, Sound, SoundStates;
      ValidSound();
      OutcomesNone(t, p);
      ghost var done, q := [], p;
      states := [p];
      var i := 0;
      while i < rects.Length
        invariant 0 <= i <= rects.Length && |done| == i && forall j :: 0 <= j < i ==> rects[j] == done[j]
        invariant Valid() && q == State()
        invariant |states| == i + 1 && Outcomes(t, done, states) && states[0] == p && states[i] == q
        invariant forall j :: 0 <= j < i ==> done[j] == old(rects[j]).(x := done[j].x, y := done[j].y)
        invariant forall j :: i <= j < rects.Length ==> rects[j] == old(rects[j])
      {
        ghost var q' := PlaceAt(rects, i, t, q);
        OutcomesSnoc(t, done, states, rects[i], q');
        done, states, q := done + [rects[i]], states + [q'], q';
        i := i + 1;
      }
      assert rects[..] == done;
    }

    // The placing loop on the sorted array, and what it means for the array.
    method PackSorted(rects: array<Rect>, ghost orig: seq<Rect>, ghost t: Target, ghost p: Packing)
      returns (ghost states: seq<Packing>, ghost placed: seq<Box>)
      requires Valid() && t == Goal() && p == State()
      requires Keyed(rects[..], orig) && SortedBy(rects[..], HeightCompare)
      requires forall i :: 0 <= i < |orig| ==> 0 <= orig[i].w && 0 <= orig[i].h
      modifies this`activeHead, this`freeHead, this`active, this`free, this`boxes, repr, rects
      ensures Valid() && boxes == p.boxes + placed
      ensures Outcomes(t, rects[..], states) && states[0] == p && states[rects.Length] == State()
      ensures Keyed(rects[..], orig) && SortedBy(rects[..], HeightCompare) && AllSettled(rects[..], placed)
    {
      ghost var sorted := rects[..];
      SidesKept(sorted, orig);
      assert forall i :: 0 <= i < rects.Length ==> rects[i] == sorted[i];
      states := PlaceAll(rects, t, p);
      ghost var order := rects[..];
      PlacedKeyed(sorted, order, orig);
      OutcomesSettled(t, order, states);
      placed := boxes[|p.boxes|..];
    }

    lemma ValidSound()
      requires Valid()
      ensures State() in SoundStates(Goal())
    {
    }

    // No placed rectangle lies as high as the coordinates that mark a refused one.
    lemma FlagsMean(t: Target, p: Packing, orig: seq<Rect>, now: seq<Rect>, placed: seq<Box>)
      requires p in SoundStates(t) && Packed(orig, now, placed) && forall b :: b in placed ==> b in p.boxes
      ensures forall i :: 0 <= i < |now| ==>
                (now[i].wasPacked != 0 <==> now[i].Empty() || now[i].Area() in placed)
    {
      hide Sealed, AllDisjoint, BoxArea, Area, Under, Packed;
      forall b | b in placed
        ensures b.y < MAXVAL
      {
        var j :| 0 <= j < |p.boxes| && p.boxes[j] == b;
        assert Inside(p.boxes[j], t.width, t.height);
      }
      forall i | 0 <= i < |now|
        ensures now[i].wasPacked != 0 <==> now[i].Empty() || now[i].Area() in placed
      {
        FlagMeans(orig, now, placed, i);
      }
    }

    // The steps of stbrp_pack_rects.
    method SortPackUnsort(rects: array<Rect>)
      returns (all: int, ghost order: seq<Rect>, ghost states: seq<Packing>, ghost placed: seq<Box>)
      requires Valid() && forall i :: 0 <= i < rects.Length ==> 0 <= rects[i].w && 0 <= rects[i].h
      modifies this`activeHead, this`freeHead, this`active, this`free, this`boxes, repr, rects
      ensures Valid() && boxes == old(boxes) + placed
      ensures Packed(old(rects[..]), rects[..], placed)
      ensures all == if exists i :: 0 <= i < rects.Length && rects[i].wasPacked == 0 then 0 else 1
      ensures Outcomes(Goal(), order, states) && Keyed(order, old(rects[..])) && SortedBy(order, HeightCompare)
      ensures states[0] == old(State()) && states[|order|] == State()
      ensures forall i :: 0 <= i < rects.Length ==> rects[i].(wasPacked := i) in order
    {
      hide Outcomes, Outcome, Step, Packed, Keyed, SortedBy, Sound, SoundStates, AllSettled, Context.Valid;
      ghost var orig, t, p := rects[..], Goal(), State();
      SortForPacking(rects);
      states, placed := PackSorted(rects, orig, t, p);
      order := rects[..];
      all := UnsortAndFlag(rects, orig, placed);
    }

    /** stbrp_pack_rects. The array comes back in its original order with inputs unchanged,
        every rectangle flagged, settled and clear of all others; the result is 1 exactly when
        no flag is 0. The placing itself is one run over the rectangles, the highest first and the
        widest first among equally high ones, whose outcomes (order, states) are what the array shows. */
    method PackRects(rects: array<Rect>)
      returns (all: int, ghost order: seq<Rect>, ghost states: seq<Packing>, ghost placed: seq<Box>)
      requires Valid() && forall i :: 0 <= i < rects.Length ==> 0 <= rects[i].w && 0 <= rects[i].h
      modifies this`activeHead, this`freeHead, this`active, this`free, this`boxes, repr, rects
      ensures Valid() && boxes == old(boxes) + placed
      ensures Packed(old(rects[..]), rects[..], placed)
      ensures forall i :: 0 <= i < rects.Length ==>
                (rects[i].wasPacked != 0 <==> rects[i].Empty() || rects[i].Area() in placed)
      ensures all == if exists i :: 0 <= i < rects.Length && rects[i].wasPacked == 0 then 0 else 1
      ensures Outcomes(Goal(), order, states) && Keyed(order, old(rects[..]))
      ensures |order| == rects.Length && |states| == rects.Length + 1
      ensures forall i :: 0 <= i < |order| ==>
                var r, p, p' := order[i], states[i], states[i + 1];
                if r.w == 0 || r.h == 0 then r.x == 0 && r.y == 0 && p' == p
                else
                  && Step(Goal(), p, r.w, r.h, p')
                  && if p' == p then r.x == MAXVAL && r.y == MAXVAL
                     else p'.boxes == p.boxes + [Box(r.x, r.y, r.w, r.h)]
      ensures forall i, j :: 0 <= i < j < |order| ==>
                order[i].h > order[j].h || (order[i].h == order[j].h && order[i].w >= order[j].w)
      ensures states[0] == old(State()) && states[|order|] == State()
      ensures forall i :: 0 <= i < rects.Length ==>
                && rects[i].(wasPacked := i) in order
                && rects[i] == old(rects[i]).(x := rects[i].x, y := rects[i].y, wasPacked := rects[i].wasPacked)
    {
      hide Outcomes, Outcome, Step, Packed, Keyed, SortedBy, Sound, SoundStates, AllSettled, Context.Valid,
        HeightCompare;
      ghost var orig, t := rects[..], Goal();
      all, order, states, placed := SortPackUnsort(rects);
      LargestFirst(order);
      OutcomesMean(t, order, states);
      PackedMeans(orig, order, rects[..], placed);
      ValidSound();
      FlagsMean(t, State(), orig, rects[..], placed);
      assert forall i :: 0 <= i < rects.Length ==> rects[..][i] == rects[i];
    }

    ghost function Here(): View
      reads this, active
    {
      View(active, Points(active), width, height)
    }
  }

  lemma BestFitFound(v: View, ps: seq<Probe>, wide: int, h: int, i: nat)
    requires Sealed(v.s, v.W, v.H) && |v.ns| == |v.s| && 1 <= wide <= v.W
    requires i < |v.s| && v.W < v.s[i].x + wide && ps == Profile(v.s, wide, v.W - wide + 1)
    ensures
      var best := v.Remembered(ps, PickRight(ps, v.H - h, v.s, wide, i, |v.s|));
      if best.link == NoLink then !Room(v.s, v.W, v.H, wide, h)
      else
        && BestFit(v.s, v.W, v.H, wide, h, best.x)
        && best.y == Highest(v.s, best.x, best.x + wide)
        && best.link == v.LinkTo(Segment(v.s, best.x))
  {
    hide PickRight, PickLeft, Profile, BestFit, Room;
    ProbesSuffice(v.s, v.W, v.H, wide, h, i);
    var r := PickRight(ps, v.H - h, v.s, wide, i, |v.s|);
    if r.At? {
      ProfileAt(v.s, wide, v.W - wide + 1, r.x);
      SealedIsValid(v.s, v.W, v.H);
      SegmentHolds(v.s, r.x);
    }
  }

  lemma NoRoom(v: View, wide: int, h: int)
    requires v.W < wide || v.H < h
    ensures !Room(v.s, v.W, v.H, wide, h)
  {
    forall x
      ensures !RoomAt(v.s, v.W, v.H, wide, h, x)
    {
      HighestBounds(v.s, x, x + wide);
    }
  }
}
