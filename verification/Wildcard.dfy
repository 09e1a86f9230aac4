/**
 The wildcard matcher of third-party/argh/doctest.h, which backtracks only to the last star,
 against the recursive meaning of * and ?.
 */
module Wildcard {

  // A C string: what precedes the terminating NUL.
  type CString = s: string | '\0' !in s

  // *p of a pointer i characters into the string
  function At(s: CString, i: nat): char
    requires i <= |s|
  {
    if i < |s| then s[i] else '\0'
  }

  // tolower in the C locale
  function ToLower(c: char): char {
    if 'A' <= c <= 'Z' then (c as int + 32) as char else c
  }

  // A pattern character other than the star accepts a character.
  predicate Accepts(p: char, c: char, caseSensitive: bool) {
    p == '?' || (if caseSensitive then p == c else ToLower(p) == ToLower(c))
  }

  // The pattern from i on matches the string from j on: a star stands for any characters, any
  // other character for one.
  ghost predicate Matches(p: CString, i: nat, s: CString, j: nat, cs: bool)
    requires i <= |p| && j <= |s|
    decreases |p| - i + |s| - j
  {
    if i == |p| then j == |s|
    else if p[i] == '*' then Matches(p, i + 1, s, j, cs) || (j < |s| && Matches(p, i, s, j + 1, cs))
    else j < |s| && Accepts(p[i], s[j], cs) && Matches(p, i + 1, s, j + 1, cs)
  }

  // What a star means, without recursion: the rest of the pattern matches from some place on.
  lemma {:induction false} StarMeans(p: CString, i: nat, next: nat, s: CString, j: nat, cs: bool)
    requires next == i + 1 <= |p| && p[i] == '*' && j <= |s|
    ensures Matches(p, i, s, j, cs) <==> exists k :: j <= k <= |s| && Matches(p, next, s, k, cs)
    decreases |s| - j
  {
    assert Matches(p, i, s, j, cs) <==> Matches(p, next, s, j, cs) || (j < |s| && Matches(p, i, s, j + 1, cs));
    if j < |s| {
      StarMeans(p, i, next, s, j + 1, cs);
    }
  }

  // Letters that differ in case only.
  predicate SameLetter(a: char, b: char) {
    a == b || ('A' <= a <= 'Z' && b as int == a as int + 32) || ('A' <= b <= 'Z' && a as int == b as int + 32)
  }

  // Pattern character i + k gets the piece from cut k to the next: a star any, a question mark one
  // character, any other character one that is the same, in case or not.
  ghost predicate Piece(p: CString, i: nat, s: CString, cuts: seq<nat>, k: nat, cs: bool)
    requires k + 1 < |cuts| && i + k < |p|
  {
    var c, from, to := p[i + k], cuts[k], cuts[k + 1];
    && from <= to <= |s|
    && (c != '*' ==> to == from + 1 && (c == '?' || if cs then c == s[from] else SameLetter(c, s[from])))
  }

  // The string from j on is cut into pieces for the pattern from i on.
  ghost predicate Cut(p: CString, i: nat, s: CString, j: nat, cuts: seq<nat>, cs: bool) {
    && 0 < |cuts| && i + |cuts| == |p| + 1 && cuts[0] == j && cuts[|cuts| - 1] == |s|
    && forall k :: 0 <= k < |cuts| - 1 ==> Piece(p, i, s, cuts, k, cs)
  }

  lemma AcceptsIff(p: char, c: char, cs: bool)
    ensures Accepts(p, c, cs) <==> p == '?' || if cs then p == c else SameLetter(p, c)
  {
  }

  lemma CutCons(p: CString, i: nat, s: CString, j: nat, rest: seq<nat>, cs: bool)
    requires rest != [] && i < |p| && j <= rest[0] <= |s| && Cut(p, i + 1, s, rest[0], rest, cs)
    requires p[i] != '*' ==> rest[0] == j + 1 && Accepts(p[i], s[j], cs)
    ensures Cut(p, i, s, j, [j] + rest, cs)
  {
    hide Accepts, SameLetter;
    var cuts := [j] + rest;
    if p[i] != '*' {
      AcceptsIff(p[i], s[j], cs);
    }
    forall k | 0 <= k < |cuts| - 1
      ensures Piece(p, i, s, cuts, k, cs)
    {
      if 0 < k {
        assert Piece(p, i + 1, s, rest, k - 1, cs);
      }
    }
  }

  lemma {:induction false} MatchCuts(p: CString, i: nat, s: CString, j: nat, cs: bool) returns (cuts: seq<nat>)
    requires i <= |p| && j <= |s| && Matches(p, i, s, j, cs)
    ensures Cut(p, i, s, j, cuts, cs)
    decreases |p| - i
  {
    hide Accepts, Cut;
    if i == |p| {
      cuts := [j];
      CutEnd(p, s, cs);
    } else {
      var next := j + 1;
      if p[i] == '*' {
        StarMeans(p, i, i + 1, s, j, cs);
        next :| j <= next <= |s| && Matches(p, i + 1, s, next, cs);
      }
      var rest := MatchCuts(p, i + 1, s, next, cs);
      CutStart(p, i + 1, s, next, rest, cs);
      CutCons(p, i, s, j, rest, cs);
      cuts := [j] + rest;
    }
  }

  lemma CutEnd(p: CString, s: CString, cs: bool)
    ensures Cut(p, |p|, s, |s|, [|s|], cs)
  {
  }

  lemma CutStart(p: CString, i: nat, s: CString, j: nat, cuts: seq<nat>, cs: bool)
    requires Cut(p, i, s, j, cuts, cs)
    ensures cuts != [] && cuts[0] == j
  {
  }

  lemma {:induction false} CutsMatch(p: CString, i: nat, s: CString, j: nat, cuts: seq<nat>, cs: bool)
    requires i <= |p| && Cut(p, i, s, j, cuts, cs)
    ensures j <= |s| && Matches(p, i, s, j, cs)
    decreases |p| - i
  {
    hide Accepts, SameLetter;
    if i < |p| {
      var next, rest := i + 1, cuts[1..];
      assert Piece(p, i, s, cuts, 0, cs);
      forall k | 0 <= k < |rest| - 1
        ensures Piece(p, next, s, rest, k, cs)
      {
        assert Piece(p, i, s, cuts, k + 1, cs);
      }
      CutsMatch(p, next, s, rest[0], rest, cs);
      if p[i] == '*' {
        StarReaches(p, i, s, j, rest[0], cs);
      } else {
        AcceptsIff(p[i], s[j], cs);
      }
    }
  }

  /** The meaning of a pattern without recursion: it matches exactly the strings that can be cut so
      that each of its characters gets the piece it stands for. */
  lemma MatchesIff(p: CString, s: CString, cs: bool)
    ensures Matches(p, 0, s, 0, cs) <==> exists cuts: seq<nat> :: Cut(p, 0, s, 0, cuts, cs)
  {
    if Matches(p, 0, s, 0, cs) {
      var cuts := MatchCuts(p, 0, s, 0, cs);
    }
    if cuts: seq<nat> :| Cut(p, 0, s, 0, cuts, cs) {
      CutsMatch(p, 0, s, 0, cuts, cs);
    }
  }

  // The n pattern characters from i on are no stars.
  ghost predicate StarFree(p: CString, i: nat, n: nat) {
    i + n <= |p| && forall t :: i <= t < i + n ==> p[t] != '*'
  }

  // They accept the n characters from j on.
  ghost predicate Aligned(p: CString, i: nat, s: CString, j: nat, n: nat, cs: bool) {
    StarFree(p, i, n) && j + n <= |s| && forall t :: i <= t < i + n ==> Accepts(p[t], s[t - i + j], cs)
  }

  lemma {:induction false} SegmentMatches(p: CString, i: nat, s: CString, j: nat, n: nat, cs: bool)
    requires Aligned(p, i, s, j, n, cs)
    ensures Matches(p, i, s, j, cs) == Matches(p, i + n, s, j + n, cs)
    decreases n
  {
    if 0 < n {
      SegmentMatches(p, i + 1, s, j + 1, n - 1, cs);
    }
  }

  lemma {:induction false} SegmentNeeds(p: CString, i: nat, s: CString, j: nat, n: nat, cs: bool)
    requires StarFree(p, i, n) && j <= |s| && Matches(p, i, s, j, cs)
    ensures j + n <= |s| && Matches(p, i + n, s, j + n, cs)
    decreases n
  {
    if 0 < n {
      SegmentNeeds(p, i + 1, s, j + 1, n - 1, cs);
    }
  }

  lemma {:induction false} StarReaches(p: CString, i: nat, s: CString, j: nat, k: nat, cs: bool)
    requires i < |p| && p[i] == '*' && j <= k <= |s| && Matches(p, i, s, k, cs)
    ensures Matches(p, i, s, j, cs)
    decreases k - j
  {
    if j < k {
      StarReaches(p, i, s, j + 1, k, cs);
    }
  }

  /** Once the segment after a star has matched at its first place and another star follows, no
      other place for the segment can give a match that this one does not. */
  lemma LastStarSuffices(p: CString, mp: nat, s: CString, b: nat, n: nat, cs: bool)
    requires 0 < mp <= |p| && p[mp - 1] == '*' && Aligned(p, mp, s, b, n, cs)
    requires mp + n < |p| && p[mp + n] == '*'
    ensures Matches(p, mp - 1, s, b, cs) == Matches(p, mp + n, s, b + n, cs)
  {
    StarMeans(p, mp - 1, mp, s, b, cs);
    SegmentMatches(p, mp, s, b, n, cs);
    if Matches(p, mp - 1, s, b, cs) {
      var k :| b <= k <= |s| && Matches(p, mp, s, k, cs);
      SegmentNeeds(p, mp, s, k, n, cs);
      StarReaches(p, mp + n, s, b + n, k + n, cs);
    }
  }

  // At the end of the string the segment has only this one place left.
  lemma LastPlace(p: CString, mp: nat, s: CString, b: nat, n: nat, cs: bool)
    requires 0 < mp <= |p| && p[mp - 1] == '*' && Aligned(p, mp, s, b, n, cs) && b + n == |s|
    ensures Matches(p, mp - 1, s, b, cs) == Matches(p, mp + n, s, |s|, cs)
  {
    StarMeans(p, mp - 1, mp, s, b, cs);
    SegmentMatches(p, mp, s, b, n, cs);
    if Matches(p, mp - 1, s, b, cs) {
      var k :| b <= k <= |s| && Matches(p, mp, s, k, cs);
      SegmentNeeds(p, mp, s, k, n, cs);
    }
  }

  // A mismatch rules out this place, so the star takes one more character.
  lemma NextPlace(p: CString, mp: nat, s: CString, b: nat, n: nat, cs: bool)
    requires 0 < mp <= |p| && p[mp - 1] == '*' && Aligned(p, mp, s, b, n, cs) && b + n < |s|
    requires At(p, mp + n) != '*' && !Accepts(At(p, mp + n), s[b + n], cs)
    ensures Matches(p, mp - 1, s, b, cs) == Matches(p, mp - 1, s, b + 1, cs)
  {
    SegmentMatches(p, mp, s, b, n, cs);
  }

  lemma OneStep(p: CString, i: nat, s: CString, j: nat, cs: bool)
    requires i <= |p| && j < |s| && At(p, i) != '*'
    ensures Accepts(At(p, i), s[j], cs) ==> i < |p|
    ensures Matches(p, i, s, j, cs) <==> Accepts(At(p, i), s[j], cs) && Matches(p, i + 1, s, j + 1, cs)
  {
  }

  lemma AtTheEnd(p: CString, i: nat, s: CString, cs: bool)
    requires i <= |p|
    ensures At(p, i) == '*' ==> i < |p| && Matches(p, i, s, |s|, cs) == Matches(p, i + 1, s, |s|, cs)
    ensures At(p, i) != '*' ==> Matches(p, i, s, |s|, cs) == (i == |p|)
  {
  }

  // A star that ends the pattern takes the rest of the string.
  lemma FinalStar(p: CString, s: CString, j: nat, cs: bool)
    requires p != [] && p[|p| - 1] == '*' && j <= |s|
    ensures Matches(p, |p| - 1, s, j, cs)
  {
    assert Matches(p, |p|, s, |s|, cs);
    StarReaches(p, |p| - 1, s, j, |s|, cs);
  }

  // The pattern from its last star on, at mp - 1, is being tried from place cp - 1 of the string;
  // it has come as far as i and j, and nothing is lost by trying no other place for what is before.
  ghost predicate Trying(wild: CString, str: CString, i: nat, j: nat, mp: nat, cp: nat, cs: bool) {
    && 0 < mp <= i <= |wild| && 0 < cp <= j + 1 <= |str| + 1 && i - mp == j - (cp - 1)
    && wild[mp - 1] == '*' && Aligned(wild, mp, str, cp - 1, i - mp, cs)
    && Matches(wild, 0, str, 0, cs) == Matches(wild, mp - 1, str, cp - 1, cs)
  }

  lemma TryingStar(wild: CString, str: CString, i: nat, j: nat, mp: nat, cp: nat, cs: bool)
    requires Trying(wild, str, i, j, mp, cp, cs) && At(wild, i) == '*'
    ensures i < |wild| && Matches(wild, 0, str, 0, cs) == Matches(wild, i, str, j, cs)
  {
    hide Matches;
    LastStarSuffices(wild, mp, str, cp - 1, i - mp, cs);
  }

  lemma TryingFrom(wild: CString, str: CString, i: nat, j: nat, cs: bool)
    requires i < |wild| && wild[i] == '*' && j <= |str| && Matches(wild, 0, str, 0, cs) == Matches(wild, i, str, j, cs)
    ensures Trying(wild, str, i + 1, j, i + 1, j + 1, cs)
  {
    hide Matches;
  }

  lemma TryingOn(wild: CString, str: CString, i: nat, j: nat, mp: nat, cp: nat, cs: bool)
    requires Trying(wild, str, i, j, mp, cp, cs) && j < |str| && At(wild, i) != '*' && Accepts(At(wild, i), str[j], cs)
    ensures Trying(wild, str, i + 1, j + 1, mp, cp, cs)
  {
    hide Matches;
    OneStep(wild, i, str, j, cs);
  }

  lemma TryingNext(wild: CString, str: CString, i: nat, j: nat, mp: nat, cp: nat, cs: bool)
    requires Trying(wild, str, i, j, mp, cp, cs) && j < |str| && At(wild, i) != '*' && !Accepts(At(wild, i), str[j], cs)
    ensures Trying(wild, str, mp, cp, mp, cp + 1, cs)
  {
    hide Matches;
    NextPlace(wild, mp, str, cp - 1, i - mp, cs);
  }

  lemma TryingEnds(wild: CString, str: CString, i: nat, mp: nat, cp: nat, cs: bool)
    requires Trying(wild, str, i, |str|, mp, cp, cs)
    ensures Matches(wild, 0, str, 0, cs) == Matches(wild, i, str, |str|, cs)
  {
    hide Matches;
    LastPlace(wild, mp, str, cp - 1, i - mp, cs);
  }

  // The first loop of wildcmp: character by character up to the first star.
  method Literals(str: CString, wild: CString, caseSensitive: bool) returns (mismatch: bool, i: nat, j: nat)
    ensures i <= |wild| && j <= |str| && (mismatch || j == |str| || At(wild, i) == '*')
    ensures mismatch ==> !Matches(wild, 0, str, 0, caseSensitive)
    ensures Matches(wild, 0, str, 0, caseSensitive) == Matches(wild, i, str, j, caseSensitive)
  {
    hide Matches, ToLower;
    mismatch, i, j := false, 0, 0;
    while j < |str| && At(wild, i) != '*'
      invariant i <= |wild| && j <= |str|
      invariant Matches(wild, 0, str, 0, caseSensitive) == Matches(wild, i, str, j, caseSensitive)
      decreases |str| - j
    {
      OneStep(wild, i, str, j, caseSensitive);
      if (if caseSensitive then At(wild, i) != str[j] else ToLower(At(wild, i)) != ToLower(str[j]))
         && At(wild, i) != '?' {
        mismatch := true;
        return;
      }
      i, j := i + 1, j + 1;
    }
  }

  /** wildcmp */
  method Wildcmp(str: CString, wild: CString, caseSensitive: bool) returns (r: bool)
    ensures r <==> Matches(wild, 0, str, 0, caseSensitive)
  {
    hide Matches, ToLower, Trying;
    var mismatch: bool, i: nat, j: nat := Literals(str, wild, caseSensitive);
    if mismatch {
      return false;
    }
    var mp: nat, cp: nat := 0, 0;
    while j < |str|
      invariant i <= |wild| && j <= |str| && mp <= i && cp <= j + 1
      invariant mp == 0 ==> Matches(wild, 0, str, 0, caseSensitive) == Matches(wild, i, str, j, caseSensitive)
      invariant mp == 0 && j < |str| ==> At(wild, i) == '*'
      invariant 0 < mp ==> Trying(wild, str, i, j, mp, cp, caseSensitive)
      decreases |wild| - mp, |str| - cp, |str| - j
    {
      if At(wild, i) == '*' {
        if 0 < mp {
          TryingStar(wild, str, i, j, mp, cp, caseSensitive);
        }
        TryingFrom(wild, str, i, j, caseSensitive);
        i := i + 1;
        if i == |wild| {
          FinalStar(wild, str, j, caseSensitive);
          return true;
        }
        mp, cp := i, j + 1;
      } else {
        OneStep(wild, i, str, j, caseSensitive);
        if (if caseSensitive then At(wild, i) == str[j] else ToLower(At(wild, i)) == ToLower(str[j]))
           || At(wild, i) == '?' {
          TryingOn(wild, str, i, j, mp, cp, caseSensitive);
          i, j := i + 1, j + 1;
        } else {
          TryingNext(wild, str, i, j, mp, cp, caseSensitive);
          i, j, cp := mp, cp, cp + 1;
        }
      }
    }
    if 0 < mp {
      TryingEnds(wild, str, i, mp, cp, caseSensitive);
    }
    r := OnlyStars(str, wild, i, caseSensitive);
  }

  // Its last loop: nothing but stars may be left of the pattern.
  method OnlyStars(str: CString, wild: CString, at: nat, caseSensitive: bool) returns (r: bool)
    requires at <= |wild|
    ensures r <==> Matches(wild, at, str, |str|, caseSensitive)
  {
    hide Matches;
    var i := at;
    while At(wild, i) == '*'
      invariant i <= |wild|
      invariant Matches(wild, at, str, |str|, caseSensitive) == Matches(wild, i, str, |str|, caseSensitive)
      decreases |wild| - i
    {
      AtTheEnd(wild, i, str, caseSensitive);
      i := i + 1;
    }
    AtTheEnd(wild, i, str, caseSensitive);
    r := i == |wild|;
  }

  /** matchesAny */
  method MatchesAny(name: CString, filters: seq<CString>, matchEmpty: bool, caseSensitive: bool) returns (r: bool)
    ensures r <==> (filters == [] && matchEmpty) ||
                   exists k :: 0 <= k < |filters| && Matches(filters[k], 0, name, 0, caseSensitive)
  {
    if |filters| == 0 && matchEmpty {
      return true;
    }
    var k := 0;
    while k < |filters|
      invariant 0 <= k <= |filters|
      invariant forall m :: 0 <= m < k ==> !Matches(filters[m], 0, name, 0, caseSensitive)
    {
      var hit := Wildcmp(name, filters[k], caseSensitive);
      if hit {
        return true;
      }
      k := k + 1;
    }
    r := false;
  }
}
