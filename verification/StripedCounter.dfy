/**
 MultiLaneAtomic of third-party/argh/doctest.h: a counter spread over several atomics.
 */
module StripedCounter {

  function Sum(s: seq<int>): int {
    if s == [] then 0 else Sum(s[..|s| - 1]) + s[|s| - 1]
  }

  lemma {:induction false} SumUpdate(s: seq<int>, i: nat, v: int)
    requires i < |s|
    ensures Sum(s[i := v]) == Sum(s) - s[i] + v
  {
    var n := |s| - 1;
    if i < n {
      SumUpdate(s[..n], i, v);
      assert s[i := v][..n] == s[..n][i := v];
    } else {
      assert s[i := v][..n] == s[..n];
    }
  }

  // No lane is higher in s than in t.
  ghost predicate Below(s: seq<int>, t: seq<int>) {
    |s| == |t| && forall i :: 0 <= i < |s| ==> s[i] <= t[i]
  }

  lemma {:induction false} SumBelow(s: seq<int>, t: seq<int>)
    requires Below(s, t)
    ensures Sum(s) <= Sum(t)
    decreases s
  {
    if s != [] {
      SumBelow(s[..|s| - 1], t[..|t| - 1]);
    }
  }

  lemma SumTake(s: seq<int>, n: nat)
    requires n < |s|
    ensures Sum(s[..n + 1]) == Sum(s[..n]) + s[n]
  {
    assert s[..n + 1][..n] == s[..n];
  }

  // --- One thread at a time -------------------------------------------------------------------------

  class MultiLaneAtomic {
    // m_atomics
    const lanes: array<int>

    constructor (n: nat)
      ensures lanes.Length == n && fresh(lanes) && Sum(lanes[..]) == 0
    {
      lanes := new int[n](_ => 0);
      new;
      AllZero(lanes[..]);
    }

    // fetch_add on the lane of the calling thread: the old value of that lane alone
    method FetchAdd(lane: nat, arg: int) returns (was: int)
      requires lane < lanes.Length
      modifies lanes
      ensures was == old(lanes[lane]) && lanes[..] == old(lanes[..])[lane := was + arg]
      ensures Sum(lanes[..]) == old(Sum(lanes[..])) + arg
    {
      SumUpdate(lanes[..], lane, lanes[lane] + arg);
      was := lanes[lane];
      lanes[lane] := was + arg;
    }

    // load, undisturbed
    method Load() returns (result: int)
      ensures result == Sum(lanes[..])
    {
      result := 0;
      var k := 0;
      while k < lanes.Length
        invariant 0 <= k <= lanes.Length && result == Sum(lanes[..k])
      {
        SumTake(lanes[..], k);
        assert lanes[..][..k] == lanes[..k] && lanes[..][..k + 1] == lanes[..k + 1];
        result := result + lanes[k];
        k := k + 1;
      }
      assert lanes[..k] == lanes[..];
    }

    // store
    method Store(desired: int)
      requires 1 <= lanes.Length
      modifies lanes
      ensures Sum(lanes[..]) == desired
      ensures lanes[0] == desired && forall i :: 0 < i < lanes.Length ==> lanes[i] == 0
    {
      var rest, k := desired, 0;
      while k < lanes.Length
        invariant 0 <= k <= lanes.Length && Sum(lanes[..k]) + rest == desired && (0 < k ==> rest == 0)
        invariant forall i :: 0 <= i < k ==> lanes[i] == if i == 0 then desired else 0
      {
        lanes[k] := rest;
        SumTake(lanes[..], k);
        assert lanes[..][..k] == lanes[..k] && lanes[..][..k + 1] == lanes[..k + 1];
        rest := 0;
        k := k + 1;
      }
      assert lanes[..k] == lanes[..];
    }
  }

  lemma {:induction false} AllZero(s: seq<int>)
    requires forall i :: 0 <= i < |s| ==> s[i] == 0
    ensures Sum(s) == 0
  {
    if s != [] {
      AllZero(s[..|s| - 1]);
    }
  }

  // --- Any number of threads ----------------------------------------------------------------------------

  // A load under way: the lanes read so far, their sum, and the lanes as they were when it began.
  datatype Reading = Reading(next: nat, sum: int, start: seq<int>)

  // laneOf holds each thread's tlsLaneIdx once it has one.
  datatype State = State(lanes: seq<int>, laneCounter: nat, laneOf: map<nat, nat>, loads: map<nat, Reading>)

  datatype Step = Add(thread: nat, arg: nat) | BeginLoad(thread: nat) | ReadLane(thread: nat) | EndLoad(thread: nat)

  // myAtomic: a thread's first use takes the next lane in turn.
  function WithLane(s: State, thread: nat): State
    requires s.lanes != []
  {
    if thread in s.laneOf then s
    else s.(laneCounter := s.laneCounter + 1, laneOf := s.laneOf[thread := s.laneCounter % |s.lanes|])
  }

  function Next(s: State, step: Step): State {
    if s.lanes == [] then s
    else match step
      case Add(t, n) =>
        var s' := WithLane(s, t);
        var lane := s'.laneOf[t];
        if lane < |s'.lanes| then s'.(lanes := s'.lanes[lane := s'.lanes[lane] + n]) else s'
      case BeginLoad(t) => s.(loads := s.loads[t := Reading(0, 0, s.lanes)])
      case ReadLane(t) =>
        if t in s.loads && s.loads[t].next < |s.lanes| then
          var r := s.loads[t];
          s.(loads := s.loads[t := Reading(r.next + 1, r.sum + s.lanes[r.next], r.start)])
        else s
      case EndLoad(t) => s.(loads := s.loads - {t})
  }

  // What has been read lies between the lanes then and the lanes now.
  ghost predicate Bracketed(r: Reading, lanes: seq<int>) {
    && Below(r.start, lanes) && r.next <= |lanes|
    && Sum(r.start[..r.next]) <= r.sum <= Sum(lanes[..r.next])
  }

  ghost predicate Inv(s: State) {
    && (forall t :: t in s.laneOf ==> s.laneOf[t] < |s.lanes|)
    && (forall t :: t in s.loads ==> Bracketed(s.loads[t], s.lanes))
  }

  lemma BracketedAfterAdd(r: Reading, lanes: seq<int>, lane: nat, n: nat)
    requires Bracketed(r, lanes) && lane < |lanes|
    ensures Bracketed(r, lanes[lane := lanes[lane] + n])
  {
    var lanes' := lanes[lane := lanes[lane] + n];
    assert Below(lanes[..r.next], lanes'[..r.next]);
    SumBelow(lanes[..r.next], lanes'[..r.next]);
  }

  lemma BracketedAfterRead(r: Reading, lanes: seq<int>)
    requires Bracketed(r, lanes) && r.next < |lanes|
    ensures Bracketed(Reading(r.next + 1, r.sum + lanes[r.next], r.start), lanes)
  {
    SumTake(r.start, r.next);
    SumTake(lanes, r.next);
  }

  /** Every step keeps every load under way bracketed. */
  lemma StepKeeps(s: State, step: Step)
    requires Inv(s)
    ensures Inv(Next(s, step)) && Below(s.lanes, Next(s, step).lanes)
  {
    hide Bracketed;
    if s.lanes != [] {
      match step
      case Add(t, n) =>
        var s' := WithLane(s, t);
        var lane := s'.laneOf[t];
        forall u | u in s.loads
          ensures Bracketed(s.loads[u], Next(s, step).lanes)
        {
          BracketedAfterAdd(s.loads[u], s.lanes, lane, n);
        }
      case BeginLoad(t) => FreshLoad(s.lanes);
      case ReadLane(t) =>
        if t in s.loads && s.loads[t].next < |s.lanes| {
          BracketedAfterRead(s.loads[t], s.lanes);
        }
      case EndLoad(t) =>
    }
  }

  lemma FreshLoad(lanes: seq<int>)
    ensures Bracketed(Reading(0, 0, lanes), lanes)
  {
    assert lanes[..0] == [];
  }

  ghost predicate Run(steps: seq<Step>, states: seq<State>) {
    && |states| == |steps| + 1 && states[0].laneOf == map[] && states[0].loads == map[]
    && forall i :: 0 <= i < |steps| ==> states[i + 1] == Next(states[i], steps[i])
  }

  lemma {:induction false} RunInv(steps: seq<Step>, states: seq<State>, i: nat, j: nat)
    requires Run(steps, states) && i <= j < |states|
    ensures Inv(states[j]) && Below(states[i].lanes, states[j].lanes)
    decreases j
  {
    if 0 < j {
      RunInv(steps, states, if i < j then i else j - 1, j - 1);
      StepKeeps(states[j - 1], steps[j - 1]);
      assert states[j - 1 + 1] == Next(states[j - 1], steps[j - 1]);
    }
  }

  /** A thread keeps the lane it once got, and what it adds goes there and nowhere else. */
  lemma OwnLane(s: State, step: Step)
    requires Inv(s) && s.lanes != []
    ensures forall t :: t in s.laneOf ==> t in Next(s, step).laneOf && Next(s, step).laneOf[t] == s.laneOf[t]
    ensures
      var s' := Next(s, step);
      if step.Add? then
        && step.thread in s'.laneOf && s'.laneOf[step.thread] < |s.lanes| == |s'.lanes|
        && s'.lanes[s'.laneOf[step.thread]] == s.lanes[s'.laneOf[step.thread]] + step.arg
        && forall i :: 0 <= i < |s.lanes| && i != s'.laneOf[step.thread] ==> s'.lanes[i] == s.lanes[i]
      else s'.lanes == s.lanes
  {
    hide Bracketed;
  }

  // All that the steps have added.
  function AddedBy(steps: seq<Step>): nat {
    if steps == [] then 0 else
      var last := steps[|steps| - 1];
      AddedBy(steps[..|steps| - 1]) + if last.Add? then last.arg else 0
  }

  lemma StepAdds(s: State, step: Step)
    requires Inv(s) && s.lanes != []
    ensures Sum(Next(s, step).lanes) == Sum(s.lanes) + (if step.Add? then step.arg else 0)
    ensures |Next(s, step).lanes| == |s.lanes|
  {
    hide Bracketed, Sum;
    if step.Add? {
      var s' := WithLane(s, step.thread);
      var lane := s'.laneOf[step.thread];
      SumUpdate(s.lanes, lane, s.lanes[lane] + step.arg);
    }
  }

  /** No addition is lost or made twice, whatever the interleaving: the total is that of the beginning
      and all that was added. */
  lemma {:induction false} NoAddLost(steps: seq<Step>, states: seq<State>, i: nat)
    requires Run(steps, states) && i < |states| && states[0].lanes != []
    ensures Sum(states[i].lanes) == Sum(states[0].lanes) + AddedBy(steps[..i]) && states[i].lanes != []
  {
    hide Next, Sum, Inv;
    if i == 0 {
      assert steps[..0] == [];
    } else {
      NoAddLost(steps, states, i - 1);
      RunInv(steps, states, i - 1, i - 1);
      StepAdds(states[i - 1], steps[i - 1]);
      assert states[i - 1 + 1] == Next(states[i - 1], steps[i - 1]);
      assert steps[..i][..i - 1] == steps[..i - 1] && steps[..i][i - 1] == steps[i - 1];
    }
  }

  // Thread t began its load with step i and has neither ended it nor begun another by state j.
  ghost predicate Loading(steps: seq<Step>, t: nat, i: nat, j: nat) {
    && i < j <= |steps| && steps[i] == BeginLoad(t)
    && forall k :: i < k < j ==> steps[k] != BeginLoad(t) && steps[k] != EndLoad(t)
  }

  lemma {:induction false} StartRecorded(steps: seq<Step>, states: seq<State>, t: nat, i: nat, j: nat)
    requires Run(steps, states) && Loading(steps, t, i, j) && states[i].lanes != []
    ensures t in states[j].loads && states[j].loads[t].start == states[i].lanes && states[j].lanes != []
    decreases j
  {
    assert states[j - 1 + 1] == Next(states[j - 1], steps[j - 1]);
    if i + 1 < j {
      StartRecorded(steps, states, t, i, j - 1);
    }
  }

  // The value a load returns once all lanes are read.
  ghost predicate Loaded(s: State, t: nat, value: int) {
    t in s.loads && s.loads[t].next == |s.lanes| && s.loads[t].sum == value
  }

  /** Whatever other threads add meanwhile, a load returns a value between the true total when it
      began and the true total when it ended; if nothing was added, exactly the total. */
  lemma LoadBetweenTotals(steps: seq<Step>, states: seq<State>, t: nat, i: nat, j: nat, value: int)
    requires Run(steps, states) && Loading(steps, t, i, j) && states[i].lanes != []
    requires Loaded(states[j], t, value)
    ensures Sum(states[i].lanes) <= value <= Sum(states[j].lanes)
    ensures states[i].lanes == states[j].lanes ==> value == Sum(states[j].lanes)
  {
    RunInv(steps, states, i, j);
    StartRecorded(steps, states, t, i, j);
    var r, lanes := states[j].loads[t], states[j].lanes;
    assert r.start[..r.next] == r.start && lanes[..r.next] == lanes;
  }

  /** So a load counts everything added before it began and nothing that is added after it ended. */
  lemma LoadCountsAdds(steps: seq<Step>, states: seq<State>, t: nat, i: nat, j: nat, value: int)
    requires Run(steps, states) && Loading(steps, t, i, j) && states[0].lanes != []
    requires Loaded(states[j], t, value)
    ensures AddedBy(steps[..i]) <= value - Sum(states[0].lanes) <= AddedBy(steps[..j])
  {
    hide Run, Loading, Loaded, Sum;
    LoadingWithin(steps, states, t, i, j);
    NoAddLost(steps, states, i);
    NoAddLost(steps, states, j);
    LoadBetweenTotals(steps, states, t, i, j, value);
  }

  lemma LoadingWithin(steps: seq<Step>, states: seq<State>, t: nat, i: nat, j: nat)
    requires Run(steps, states) && Loading(steps, t, i, j)
    ensures i < j < |states|
  {
  }

  // A load that nothing comes between: t begins and reads the first n lanes.
  ghost function LoadedAlone(s: State, t: nat, n: nat): State {
    if n == 0 then Next(s, BeginLoad(t)) else Next(LoadedAlone(s, t, n - 1), ReadLane(t))
  }

  lemma {:induction false} AloneReads(s: State, t: nat, n: nat)
    requires s.lanes != [] && n <= |s.lanes|
    ensures
      var s' := LoadedAlone(s, t, n);
      s'.lanes == s.lanes && t in s'.loads && s'.loads[t] == Reading(n, Sum(s.lanes[..n]), s.lanes)
  {
    if n == 0 {
      assert s.lanes[..0] == [];
    } else {
      AloneReads(s, t, n - 1);
      SumTake(s.lanes, n - 1);
    }
  }

  /** A load can always be carried out, and undisturbed it gives the total. */
  lemma LoadAlone(s: State, t: nat)
    requires s.lanes != []
    ensures Loaded(LoadedAlone(s, t, |s.lanes|), t, Sum(s.lanes))
  {
    AloneReads(s, t, |s.lanes|);
    assert s.lanes[..|s.lanes|] == s.lanes;
  }

  // --- Lanes in turn -------------------------------------------------------------------------------------

  // Between 0 and n lies no multiple of n.
  lemma NoMultiple(d: int, n: nat)
    ensures d * n <= 0 || n <= d * n
  {
    if 1 <= d {
      assert d * n == (d - 1) * n + n;
    }
  }

  lemma Distribute(p: int, q: int, n: int)
    ensures q * n - p * n == (q - p) * n
  {
  }

  lemma TurnsDiffer(a: nat, b: nat, n: nat)
    requires a < b < a + n
    ensures a % n != b % n
  {
    var p, q := a / n, b / n;
    assert a == p * n + a % n && b == q * n + b % n;
    Distribute(p, q, n);
    NoMultiple(q - p, n);
  }

  /** Two threads share a lane only if at least as many others as there are lanes, counting one
      of them, came in between: the first threads all get lanes of their own. */
  lemma LanesApart(s: State, t: nat, s': State, u: nat)
    requires s.lanes != [] && |s'.lanes| == |s.lanes| && t !in s.laneOf && u !in s'.laneOf
    requires s.laneCounter < s'.laneCounter < s.laneCounter + |s.lanes|
    ensures WithLane(s, t).laneOf[t] != WithLane(s', u).laneOf[u]
  {
    TurnsDiffer(s.laneCounter, s'.laneCounter, |s.lanes|);
  }
}
