/**
 Subcase re-entry in third-party/argh/doctest.h: a test body is run again and again, each
 time entering the next root-to-leaf chain of its subcases.
 */
module Subcases {

  // SubcaseSignature
  datatype Signature = Signature(name: string, file: string, line: int)

  type Path = seq<Signature>

  // A test body: the subcases it meets in order, each with the body under it.
  datatype Forest = Nil | Cons(sig: Signature, kids: Forest, rest: Forest)

  ghost function Signatures(f: Forest): set<Signature> {
    match f
    case Nil => {}
    case Cons(s, _, rest) => {s} + Signatures(rest)
  }

  // No two siblings carry the same signature.
  ghost predicate Distinct(f: Forest) {
    match f
    case Nil => true
    case Cons(s, kids, rest) => s !in Signatures(rest) && Distinct(kids) && Distinct(rest)
  }

  // The paths of the leaves, depth first.
  ghost function Leaves(f: Forest, q: Path): seq<Path> {
    match f
    case Nil => []
    case Cons(s, kids, rest) => (if kids == Nil then [q + [s]] else Leaves(kids, q + [s])) + Leaves(rest, q)
  }

  // How many runs a body takes.
  ghost function Runs(f: Forest): nat {
    match f
    case Nil => 1
    case Cons(_, kids, Nil) => Runs(kids)
    case Cons(_, kids, rest) => Runs(kids) + Runs(rest)
  }

  lemma {:induction false} AtLeastOneRun(f: Forest)
    ensures 1 <= Runs(f)
  {
    match f
    case Nil =>
    case Cons(_, kids, _) => AtLeastOneRun(kids);
  }

  /** A body takes one run per leaf, and one if it has no subcases. */
  lemma {:induction false} RunsCountLeaves(f: Forest, q: Path)
    ensures Runs(f) == if f == Nil then 1 else |Leaves(f, q)|
  {
    match f
    case Nil =>
    case Cons(s, kids, rest) =>
      RunsCountLeaves(kids, q + [s]);
      RunsCountLeaves(rest, q);
  }

  // Every path of the forest below q.
  ghost function Paths(f: Forest, q: Path): set<Path> {
    match f
    case Nil => {}
    case Cons(s, kids, rest) => {q + [s]} + Paths(kids, q + [s]) + Paths(rest, q)
  }

  // The paths fully passed once the first n leaves are done.
  ghost function Done(f: Forest, q: Path, n: nat): set<Path> {
    match f
    case Nil => {}
    case Cons(s, kids, rest) =>
      if n < Runs(kids) then Done(kids, q + [s], n)
      else {q + [s]} + Done(kids, q + [s], Runs(kids)) + Done(rest, q, n - Runs(kids))
  }

  // The paths entered on the way to leaf n.
  ghost function Chain(f: Forest, q: Path, n: nat): seq<Path> {
    match f
    case Nil => []
    case Cons(s, kids, rest) =>
      if n < Runs(kids) then [q + [s]] + Chain(kids, q + [s], n) else Chain(rest, q, n - Runs(kids))
  }

  /** The chain to leaf n consists of the prefixes of that leaf's path. */
  lemma {:induction false} ChainIsRootToLeaf(f: Forest, q: Path, n: nat)
    requires f != Nil && n < Runs(f)
    ensures n < |Leaves(f, q)| && q < Leaves(f, q)[n]
    ensures
      var leaf, c := Leaves(f, q)[n], Chain(f, q, n);
      |c| == |leaf| - |q| && forall i :: 0 <= i < |c| ==> c[i] == leaf[..|q| + i + 1]
  {
    var Cons(s, kids, rest) := f;
    RunsCountLeaves(f, q);
    RunsCountLeaves(kids, q + [s]);
    if n < Runs(kids) {
      var leaf := Leaves(f, q)[n];
      if kids == Nil {
        assert leaf == q + [s] && leaf[..|q| + 1] == leaf;
      } else {
        ChainIsRootToLeaf(kids, q + [s], n);
        assert leaf[..|q| + 1] == q + [s];
      }
    } else {
      ChainIsRootToLeaf(rest, q, n - Runs(kids));
    }
  }

  lemma {:induction false} PathsExtend(f: Forest, q: Path, p: Path)
    requires p in Paths(f, q)
    ensures q < p && p[|q|] in Signatures(f)
  {
    var Cons(s, kids, rest) := f;
    if p in Paths(kids, q + [s]) {
      PathsExtend(kids, q + [s], p);
      assert p[..|q| + 1] == q + [s];
      assert p[..|q|] == q;
    } else if p in Paths(rest, q) {
      PathsExtend(rest, q, p);
    }
  }

  lemma {:induction false} ChainInPaths(f: Forest, q: Path, n: nat)
    ensures forall p :: p in Chain(f, q, n) ==> p in Paths(f, q)
  {
    match f
    case Nil =>
    case Cons(s, kids, rest) =>
      if n < Runs(kids) {
        ChainInPaths(kids, q + [s], n);
      } else {
        ChainInPaths(rest, q, n - Runs(kids));
      }
  }

  lemma LeafInPaths(f: Forest, q: Path, n: nat)
    requires f != Nil && n < Runs(f)
    ensures n < |Leaves(f, q)| && Leaves(f, q)[n] in Paths(f, q)
  {
    ChainIsRootToLeaf(f, q, n);
    ChainInPaths(f, q, n);
    var c, leaf := Chain(f, q, n), Leaves(f, q)[n];
    assert c[|c| - 1] == leaf[..|leaf|] == leaf;
  }

  lemma {:induction false} LeavesArePaths(f: Forest, q: Path, p: Path)
    ensures p in Leaves(f, q) ==> p in Paths(f, q)
  {
    match f
    case Nil =>
    case Cons(s, kids, rest) =>
      LeavesArePaths(kids, q + [s], p);
      LeavesArePaths(rest, q, p);
  }

  lemma PathsBelow(s: Signature, kids: Forest, rest: Forest, q: Path, p: Path, p': Path)
    requires s !in Signatures(rest) && p < p'
    requires p in Paths(Cons(s, kids, rest), q) && p' in Paths(Cons(s, kids, rest), q)
    ensures p in Paths(rest, q) <==> p' in Paths(rest, q)
    ensures p !in Paths(rest, q) ==> p' in Paths(kids, q + [s]) && (p == q + [s] || p in Paths(kids, q + [s]))
  {
    assert p' != q + [s] by {
      PathLonger(s, kids, rest, q, p);
    }
    if p in Paths(rest, q) {
      PathsExtend(rest, q, p);
    } else if p != q + [s] {
      PathsExtend(kids, q + [s], p);
      assert p[..|q| + 1] == q + [s];
    }
    if p' in Paths(rest, q) {
      PathsExtend(rest, q, p');
    } else {
      PathsExtend(kids, q + [s], p');
      assert p'[..|q| + 1] == q + [s];
    }
    assert p[|q|] == p'[|q|];
  }

  lemma PathLonger(s: Signature, kids: Forest, rest: Forest, q: Path, p: Path)
    requires p in Paths(Cons(s, kids, rest), q)
    ensures q < p
  {
    PathsExtend(Cons(s, kids, rest), q, p);
  }

  /** The leaves are the paths that no other path goes on from. */
  lemma {:induction false} LeafIff(f: Forest, q: Path, p: Path)
    requires Distinct(f)
    ensures p in Leaves(f, q) <==> p in Paths(f, q) && forall p' :: p' in Paths(f, q) ==> !(p < p')
  {
    match f
    case Nil =>
    case Cons(s, kids, rest) =>
      LeafIff(kids, q + [s], p);
      LeafIff(rest, q, p);
      LeavesArePaths(kids, q + [s], p);
      LeavesArePaths(rest, q, p);
      forall p' | p in Paths(f, q) && p' in Paths(f, q) && p < p'
        ensures p in Paths(rest, q) <==> p' in Paths(rest, q)
        ensures p !in Paths(rest, q) ==> p' in Paths(kids, q + [s]) && (p == q + [s] || p in Paths(kids, q + [s]))
      {
        PathsBelow(s, kids, rest, q, p, p');
      }
      if p in Paths(rest, q) {
        SiblingsApart(s, kids, rest, q, p);
      } else if p in Paths(kids, q + [s]) {
        PathsExtend(kids, q + [s], p);
      } else if p == q + [s] && kids != Nil {
        assert q + [s] + [kids.sig] in Paths(kids, q + [s]);
        assert p < q + [s] + [kids.sig];
      }
  }

  // No path is below two siblings.
  lemma SiblingsApart(s: Signature, kids: Forest, rest: Forest, q: Path, p: Path)
    requires s !in Signatures(rest) && p in Paths(rest, q)
    ensures p != q + [s] && p !in Paths(kids, q + [s])
  {
    PathsExtend(rest, q, p);
    if p in Paths(kids, q + [s]) {
      PathsExtend(kids, q + [s], p);
    }
  }

  lemma LeafElsewhere(s: Signature, kids: Forest, rest: Forest, q: Path, m: nat, n: nat)
    requires s !in Signatures(rest) && m < Runs(Cons(s, kids, rest)) && n < Runs(Cons(s, kids, rest))
    requires m < Runs(kids) <= n || n < Runs(kids) <= m
    ensures var f := Cons(s, kids, rest); m < |Leaves(f, q)| && Leaves(f, q)[m] !in Chain(f, q, n)
  {
    var f, here, k := Cons(s, kids, rest), q + [s], Runs(kids);
    LeafInPaths(f, q, m);
    RunsCountLeaves(kids, here);
    var leaf := Leaves(f, q)[m];
    if m < k {
      ChainInPaths(rest, q, n - k);
      if kids != Nil {
        LeafInPaths(kids, here, m);
      }
    } else {
      ChainInPaths(kids, here, n);
      LeafInPaths(rest, q, m - k);
    }
    if leaf in Paths(rest, q) {
      SiblingsApart(s, kids, rest, q, leaf);
    }
  }

  // What the first subcase and its siblings contribute.
  lemma FirstAndRest(s: Signature, kids: Forest, rest: Forest, q: Path, m: nat, n: nat)
    requires m < Runs(Cons(s, kids, rest))
    ensures
      var f, k := Cons(s, kids, rest), Runs(kids);
      && Leaves(f, q) == (if kids == Nil then [q + [s]] else Leaves(kids, q + [s])) + Leaves(rest, q)
      && |if kids == Nil then [q + [s]] else Leaves(kids, q + [s])| == k && |Leaves(f, q)| == Runs(f)
      && Chain(f, q, n) == (if n < k then [q + [s]] + Chain(kids, q + [s], n) else Chain(rest, q, n - k))
      && (k <= m ==> rest != Nil && m - k < Runs(rest))
  {
    RunsCountLeaves(Cons(s, kids, rest), q);
    RunsCountLeaves(kids, q + [s]);
  }

  /** A leaf is entered in its own run and in no other. */
  lemma {:induction false} LeafEnteredOnce(f: Forest, q: Path, m: nat, n: nat)
    requires Distinct(f) && f != Nil && m < Runs(f) && n < Runs(f)
    ensures m < |Leaves(f, q)| && (Leaves(f, q)[m] in Chain(f, q, n) <==> m == n)
  {
    hide Leaves, Chain, Runs, Paths;
    var Cons(s, kids, rest) := f;
    var here, k := q + [s], Runs(kids);
    FirstAndRest(s, kids, rest, q, m, n);
    FirstAndRest(s, kids, rest, q, n, m);
    if m < k && n < k {
      if kids != Nil {
        LeafEnteredOnce(kids, here, m, n);
        ChainIsRootToLeaf(kids, here, m);
      } else {
        NoSubcases(here, n);
      }
    } else if k <= m && k <= n {
      LeafEnteredOnce(rest, q, m - k, n - k);
    } else {
      LeafElsewhere(s, kids, rest, q, m, n);
    }
  }

  lemma NoSubcases(q: Path, n: nat)
    ensures Chain(Nil, q, n) == [] && Leaves(Nil, q) == [] && Runs(Nil) == 1
  {
  }

  lemma {:induction false} DoneArePaths(f: Forest, q: Path, n: nat)
    ensures Done(f, q, n) <= Paths(f, q)
  {
    match f
    case Nil =>
    case Cons(s, kids, rest) =>
      DoneArePaths(kids, q + [s], if n < Runs(kids) then n else Runs(kids));
      if Runs(kids) <= n {
        DoneArePaths(rest, q, n - Runs(kids));
      }
  }

  lemma {:induction false} DoneGrows(f: Forest, q: Path, n: nat)
    ensures Done(f, q, n) <= Done(f, q, n + 1)
  {
    match f
    case Nil =>
    case Cons(s, kids, rest) =>
      if n < Runs(kids) {
        DoneGrows(kids, q + [s], n);
      } else {
        DoneGrows(rest, q, n - Runs(kids));
      }
  }

  // Before the first run nothing is passed.
  lemma {:induction false} NothingDone(f: Forest, q: Path)
    ensures Done(f, q, 0) == {}
  {
    match f
    case Nil =>
    case Cons(s, kids, _) => NothingDone(kids, q + [s]);
  }

  // Of the paths below q, exactly those of the first n leaves are passed.
  ghost predicate Prefix(passed: set<Path>, f: Forest, q: Path, n: nat) {
    forall p :: p in Paths(f, q) ==> (p in passed <==> p in Done(f, q, n))
  }

  // The state of one subcase and its siblings, seen from the set of passed paths.
  lemma PrefixSplit(passed: set<Path>, s: Signature, kids: Forest, rest: Forest, q: Path, n: nat)
    requires Distinct(Cons(s, kids, rest)) && Prefix(passed, Cons(s, kids, rest), q, n)
    ensures q + [s] in passed <==> Runs(kids) <= n
    ensures n < Runs(kids) ==> Prefix(passed, kids, q + [s], n)
    ensures Runs(kids) <= n ==>
              && Prefix(passed, rest, q, n - Runs(kids))
              && {q + [s]} + Done(kids, q + [s], Runs(kids)) <= passed
  {
    var f := Cons(s, kids, rest);
    if n < Runs(kids) {
      DoneArePaths(kids, q + [s], n);
      if q + [s] in Done(kids, q + [s], n) {
        PathsExtend(kids, q + [s], q + [s]);
      }
      assert q + [s] in Paths(f, q);
    } else {
      DoneArePaths(kids, q + [s], Runs(kids));
      forall p | p in Paths(rest, q)
        ensures p in passed <==> p in Done(rest, q, n - Runs(kids))
      {
        PathsExtend(rest, q, p);
        if p in Paths(kids, q + [s]) {
          PathsExtend(kids, q + [s], p);
        }
      }
    }
  }

  // ContextState, the fields that Subcase uses
  class ContextState {
    var subcasesStack: Path
    var subcasesPassed: set<Path>
    var subcasesCurrentMaxLevel: int
    var shouldReenter: bool
    // The paths entered in this run.
    var log: seq<Path>

    constructor ()
    {
      subcasesStack, subcasesPassed, subcasesCurrentMaxLevel, shouldReenter, log := [], {}, 0, false, [];
    }

    // Subcase::Subcase
    method Enter(sig: Signature) returns (entered: bool)
      modifies this
      ensures old(|subcasesStack|) < old(subcasesCurrentMaxLevel) ==> !entered && shouldReenter
      ensures old(|subcasesStack|) >= old(subcasesCurrentMaxLevel) ==>
                shouldReenter == old(shouldReenter) && (entered <==> old(subcasesStack) + [sig] !in subcasesPassed)
      ensures subcasesPassed == old(subcasesPassed)
      ensures entered ==> subcasesStack == old(subcasesStack) + [sig] && subcasesCurrentMaxLevel == |subcasesStack|
                          && log == old(log) + [subcasesStack]
      ensures !entered ==> subcasesStack == old(subcasesStack) && log == old(log)
                           && subcasesCurrentMaxLevel == old(subcasesCurrentMaxLevel)
    {
      if |subcasesStack| < subcasesCurrentMaxLevel {
        shouldReenter := true;
        return false;
      }
      subcasesStack := subcasesStack + [sig];
      if subcasesStack in subcasesPassed {
        subcasesStack := subcasesStack[..|subcasesStack| - 1];
        return false;
      }
      subcasesCurrentMaxLevel := |subcasesStack|;
      log := log + [subcasesStack];
      entered := true;
    }

    // Subcase::~Subcase of an entered subcase
    method Leave()
      requires subcasesStack != []
      modifies this`subcasesPassed, this`subcasesStack
      ensures subcasesPassed == old(subcasesPassed) + if shouldReenter then {} else {old(subcasesStack)}
      ensures subcasesStack == old(subcasesStack)[..|old(subcasesStack)| - 1]
    {
      if !shouldReenter {
        subcasesPassed := subcasesPassed + {subcasesStack};
      }
      subcasesStack := subcasesStack[..|subcasesStack| - 1];
    }

    /** One run of a body of which the first n leaves are passed enters the chain to leaf n,
        marks what this completes as passed, and asks for another run if leaves are left.
        Once a subcase has been entered on a level, its later siblings only ask for another run. */
    method RunBody(f: Forest, ghost n: nat)
      requires Distinct(f) && |subcasesStack| <= subcasesCurrentMaxLevel
      requires |subcasesStack| == subcasesCurrentMaxLevel ==>
                 n < Runs(f) && Prefix(subcasesPassed, f, subcasesStack, n) && !shouldReenter
      modifies this
      ensures subcasesStack == old(subcasesStack) && old(subcasesCurrentMaxLevel) <= subcasesCurrentMaxLevel
      ensures |subcasesStack| == old(subcasesCurrentMaxLevel) ==>
                && log == old(log) + Chain(f, subcasesStack, n)
                && subcasesPassed == old(subcasesPassed) + Done(f, subcasesStack, n + 1)
                && (shouldReenter <==> n + 1 < Runs(f))
      ensures |subcasesStack| < old(subcasesCurrentMaxLevel) ==>
                && log == old(log) && subcasesPassed == old(subcasesPassed)
                && shouldReenter == (old(shouldReenter) || f != Nil)
      decreases f
    {
      match f
      case Nil =>
      case Cons(s, kids, rest) =>
        if |subcasesStack| == subcasesCurrentMaxLevel {
          PrefixSplit(subcasesPassed, s, kids, rest, subcasesStack, n);
          NothingDone(rest, subcasesStack);
        }
        var entered := Enter(s);
        if entered {
          RunBody(kids, n);
          Leave();
        }
        RunBody(rest, if n < Runs(kids) then 0 else n - Runs(kids));
    }

    /** The re-run loop of Context::run: one run per leaf (one if there is none), run n entering
        exactly the chain of leaf n, with everything passed at the end. */
    method RunTestCase(f: Forest) returns (runs: seq<seq<Path>>)
      requires Distinct(f)
      modifies this
      ensures |runs| == Runs(f) == (if f == Nil then 1 else |Leaves(f, [])|)
      ensures forall n :: 0 <= n < |runs| ==> runs[n] == Chain(f, [], n)
      ensures f != Nil ==> forall n :: 0 <= n < |runs| ==>
                var leaf := Leaves(f, [])[n];
                |runs[n]| == |leaf| && forall k :: 0 <= k < |leaf| ==> runs[n][k] == leaf[..k + 1]
      ensures subcasesPassed == Paths(f, [])
    {
      hide Leaves, Chain, Paths, Done, Distinct;
      subcasesPassed := {};
      runs := [];
      NothingDone(f, []);
      AtLeastOneRun(f);
      var runTest := true;
      while runTest
        invariant |runs| <= Runs(f) && (runTest <==> |runs| < Runs(f))
        invariant subcasesPassed == Done(f, [], |runs|)
        invariant forall n :: 0 <= n < |runs| ==> runs[n] == Chain(f, [], n)
        decreases Runs(f) - |runs|
      {
        shouldReenter := false;
        subcasesCurrentMaxLevel := 0;
        subcasesStack := [];
        log := [];
        DoneGrows(f, [], |runs|);
        RunBody(f, |runs|);
        runs := runs + [log];
        if !shouldReenter {
          runTest := false;
        }
      }
      AllDone(f, []);
      RunsCountLeaves(f, []);
      ChainsFollowLeaves(f);
    }
  }

  lemma ChainsFollowLeaves(f: Forest)
    ensures f != Nil ==> |Leaves(f, [])| == Runs(f) && forall n :: 0 <= n < Runs(f) ==>
              var leaf, c := Leaves(f, [])[n], Chain(f, [], n);
              |c| == |leaf| && forall k :: 0 <= k < |leaf| ==> c[k] == leaf[..k + 1]
  {
    if f != Nil {
      RunsCountLeaves(f, []);
      forall n | 0 <= n < Runs(f)
        ensures
          var leaf, c := Leaves(f, [])[n], Chain(f, [], n);
          |c| == |leaf| && forall k :: 0 <= k < |leaf| ==> c[k] == leaf[..k + 1]
      {
        ChainIsRootToLeaf(f, [], n);
      }
    }
  }

  lemma {:induction false} AllDone(f: Forest, q: Path)
    ensures Done(f, q, Runs(f)) == Paths(f, q)
  {
    match f
    case Nil =>
    case Cons(s, kids, rest) =>
      AllDone(kids, q + [s]);
      AllDone(rest, q);
  }
}
