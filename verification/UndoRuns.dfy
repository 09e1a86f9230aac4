/**
 Undo and redo of third-party/imgui/imstb_textedit.h on a redo half that may be stale, as steps of
 a machine, as long as they stay inside the buffers: what every such run keeps, where it agrees
 with the history of texts, runs in which it does not, and a run that ends at the limit.
 */
module UndoRuns {
  import opened RedoSides
  import opened UndoLog

  // The text, the undo stack and the redo half as it is.
  datatype Desk = Desk(text: string, undos: seq<Edit>, redo: Side)

  ghost function CharsUsed(d: Desk): nat {
    |Added(d.undos)|
  }

  // Both halves fit.
  ghost predicate Fitting(d: Desk, cap: Capacity) {
    |d.undos| + |d.redo.records| <= cap.records && CharsUsed(d) + |d.redo.chars| <= cap.chars
  }

  // The newest undo record lies in the text, and making room for it stays inside the buffer.
  ghost predicate Undoable(d: Desk, cap: Capacity) {
    d.undos != [] ==>
      var u := d.undos[|d.undos| - 1];
      Applies(u, d.text) && ClearsInBounds(u, d.redo, CharsUsed(d), cap.chars)
  }

  // The next undo gives up.
  ghost predicate Stuck(d: Desk, cap: Capacity) {
    d.undos != [] && GivesUp(d.undos[|d.undos| - 1], d.redo, CharsUsed(d), cap.chars)
  }

  // stb_text_undo
  ghost function UndoDesk(d: Desk, cap: Capacity): Desk
    requires Undoable(d, cap)
  {
    if d.undos == [] then d
    else
      var n := |d.undos| - 1;
      var u := d.undos[n];
      if Stuck(d, cap) then d.(redo := Cleared(u, d.redo, CharsUsed(d), cap.chars))
      else Desk(Apply(u, d.text), d.undos[..n], Saved(u, d.text, d.redo, CharsUsed(d), cap.chars))
  }

  lemma UndoDeskAt(d: Desk, u: Edit, us: seq<Edit>, cap: Capacity)
    requires d.undos == us + [u] && Undoable(d, cap)
    ensures Applies(u, d.text) && ClearsInBounds(u, d.redo, |Added(us + [u])|, cap.chars)
    ensures Stuck(d, cap) <==> GivesUp(u, d.redo, |Added(us + [u])|, cap.chars)
    ensures
      UndoDesk(d, cap) ==
      if Stuck(d, cap) then d.(redo := Cleared(u, d.redo, |Added(us + [u])|, cap.chars))
      else Desk(Apply(u, d.text), us, Saved(u, d.text, d.redo, |Added(us + [u])|, cap.chars))
  {
    assert (us + [u])[..|us|] == us;
  }

  ghost predicate RedoableDesk(d: Desk, cap: Capacity) {
    d.redo.records != [] ==> Redoable(d.redo, d.text, cap.chars)
  }

  // The characters the next redo takes out fit on the undo side (line 1394).
  ghost predicate RoomToRedo(d: Desk, cap: Capacity)
    requires RedoableDesk(d, cap)
  {
    d.redo.records != [] ==>
      var e := Held(d.redo, d.text, cap.chars);
      e.remove == 0 || CharsUsed(d) + e.remove <= cap.chars - |d.redo.chars|
  }

  // What the next redo records leads back to the text before.
  ghost predicate RedoRecorded(d: Desk, cap: Capacity)
    requires RedoableDesk(d, cap)
  {
    d.redo.records != [] ==>
      var e := Held(d.redo, d.text, cap.chars);
      RoomToRedo(d, cap) || d.text[e.where..e.where + e.remove] == e.add
  }

  // stb_text_redo
  ghost function RedoDesk(d: Desk, cap: Capacity): Desk
    requires RedoableDesk(d, cap)
  {
    if d.redo.records == [] then d
    else
      var e := Held(d.redo, d.text, cap.chars);
      var u := if RoomToRedo(d, cap) then Inverse(e, d.text) else Edit(e.where, 0, []);
      Desk(Apply(e, d.text), d.undos + [u], Side(d.redo.records[1..], d.redo.chars[|e.add|..]))
  }

  // --- Agreement with the history of texts ------------------------------------------------------

  ghost function DeskOf(s: Session, cap: Capacity): Desk {
    Desk(s.text, s.undos, Orderly(s.redos, cap.chars))
  }

  lemma {:induction false} DiscardedLess(s: Side, keep: int)
    ensures |Discarded(s, keep).records| <= |s.records| && |Discarded(s, keep).chars| <= |s.chars|
    ensures keep < |s.chars| && |Discarded(s, keep).chars| <= keep ==> |Discarded(s, keep).records| < |s.records|
    decreases |s.records|
  {
    if keep < |s.chars| && s.records != [] && Droppable(s) {
      DiscardedLess(WithoutOldest(s), keep);
    }
  }

  lemma SavedFits(u: Edit, t: string, s: Side, undoChars: nat, size: nat)
    requires Applies(u, t) && undoChars + |s.chars| <= size
    ensures !GivesUp(u, s, undoChars, size) ==>
              && |Saved(u, t, s, undoChars, size).records| <= |s.records| + 1
              && undoChars + |Saved(u, t, s, undoChars, size).chars| <= size
    ensures |Cleared(u, s, undoChars, size).records| <= |s.records|
    ensures |Cleared(u, s, undoChars, size).chars| <= |s.chars|
  {
    hide Discarded;
    DiscardedLess(s, size - undoChars - u.remove);
  }

  // Less than all record slots are taken.
  ghost predicate Gap(d: Desk, cap: Capacity) {
    |d.undos| + |d.redo.records| < cap.records
  }

  /** On an orderly redo half an undo never gives up. It leaves the redo half in order, or a free
      record slot; and once there is one, every undo leaves one. */
  lemma UndoLeavesGap(d: Desk, rs: seq<Edit>, cap: Capacity)
    requires Fitting(d, cap) && Undoable(d, cap) && d.undos != []
    requires d.redo == Orderly(rs, cap.chars) || Gap(d, cap)
    ensures d.redo == Orderly(rs, cap.chars) ==> !Stuck(d, cap)
    ensures
      var u, c := d.undos[|d.undos| - 1], CharsUsed(d);
      var top := RedoTop(u, d.text, rs, c, cap.chars - |Added(rs)|, cap.chars);
      || (!Stuck(d, cap) && UndoDesk(d, cap).redo == Orderly([top] + RedoRest(u, rs, c, cap.chars), cap.chars))
      || Gap(UndoDesk(d, cap), cap)
  {
    hide Added, RedoRecords, Saved, GivesUp, ClearsInBounds, Cleared;
    var u, c, size := d.undos[|d.undos| - 1], CharsUsed(d), cap.chars;
    SavedFits(u, d.text, d.redo, c, size);
    if d.redo == Orderly(rs, size) {
      SavedOrderly(u, d.text, rs, c, size);
      var first := Described(u, d.text, rs, c, size - |Added(rs)|, size);
      var own, rest := RedoOwn(u, d.text, c, size), RedoRest(u, rs, c, size);
      if |first.add| == |own.add| {
        StaleIsOrderly(first, own, rest, size);
      } else {
        SparedFewer(u, d.text, rs, c, size);
      }
    }
  }

  lemma SparedFewer(u: Edit, t: string, rs: seq<Edit>, undoChars: int, size: int)
    requires Applies(u, t)
    requires
      |Described(u, t, rs, undoChars, size - |Added(rs)|, size).add| != |RedoOwn(u, t, undoChars, size).add|
    ensures |RedoRest(u, rs, undoChars, size)| < |rs|
  {
    hide Added;
    var n := size - undoChars - u.remove;
    if rs != [] && n < |Added(rs)| {
      SparedPrefix(rs[..|rs| - 1], n);
    }
  }

  /** On an orderly redo half an undo is the step of a history if it finds room; otherwise it
      restores the text all the same, and the redo half stands for its stack if and only if the
      lengths agree. */
  lemma UndoDeskIs(s: Session, cap: Capacity)
    requires Rewinds(s.text, s.undos, s.past) && Fits(s, cap)
    ensures Undoable(DeskOf(s, cap), cap) && !Stuck(DeskOf(s, cap), cap)
    ensures s.undos != [] ==>
              && |s.past| == |s.undos| && Applies(s.undos[|s.undos| - 1], s.text)
              && var s', d' := UndoneAnyway(s, cap), UndoDesk(DeskOf(s, cap), cap);
              && d'.text == s'.text == s.past[|s.past| - 1] && d'.undos == s'.undos
              && (d' == DeskOf(s', cap) <==> LayoutSurvives(s, cap))
    ensures Faithful(s) && RoomToUndo(s, cap) ==> UndoDesk(DeskOf(s, cap), cap) == DeskOf(Undone(s), cap)
  {
    hide Added, RedoRecords, Saved, GivesUp, ClearsInBounds, RoomAhead, Rewinds, Replays;
    if s.undos != [] {
      NewestApplied(s);
      var u, c, size := s.undos[|s.undos| - 1], UndoChars(s), cap.chars;
      SavedOrderly(u, s.text, s.redos, c, size);
      var first := Described(u, s.text, s.redos, c, RedoChars(s, cap), size);
      var own, rest := RedoOwn(u, s.text, c, size), RedoRest(u, s.redos, c, size);
      StaleOrderlyIff(first, own, rest, size);
      if |first.add| == |own.add| {
        StaleIsOrderly(first, own, rest, size);
      }
      LayoutMeans(s, cap);
      if Faithful(s) && RoomToUndo(s, cap) {
        RoomyUndo(s, cap);
      }
    }
  }

  lemma LayoutMeans(s: Session, cap: Capacity)
    requires Fits(s, cap) && s.undos != [] && Applies(s.undos[|s.undos| - 1], s.text)
    ensures
      var u, c, size := s.undos[|s.undos| - 1], UndoChars(s), cap.chars;
      |Described(u, s.text, s.redos, c, RedoChars(s, cap), size).add| == |RedoOwn(u, s.text, c, size).add|
      <==> LayoutSurvives(s, cap)
  {
    hide Added, RoomAhead;
    EmptyStacks(0);
  }

  lemma {:induction false} OrderlyTop(rs: seq<Edit>, t: string, size: nat)
    requires rs != [] && Applies(rs[0], t) && |Added(rs)| <= size
    ensures Redoable(Orderly(rs, size), t, size)
    ensures Held(Orderly(rs, size), t, size) == rs[0]
    ensures Side(Orderly(rs, size).records[1..], Orderly(rs, size).chars[|rs[0].add|..]) == Orderly(rs[1..], size)
  {
    hide Added, RedoRecords;
    var e, rest := rs[0], rs[1..];
    RedoGrows(e, rest, size);
    assert rs == [e] + rest;
    var chars := e.add + Added(rest);
    assert chars[..|e.add|] == e.add;
    assert chars[|e.add|..] == Added(rest);
  }

  /** A redo on an orderly redo half is the step of a history and finds its room. */
  lemma RedoDeskIs(s: Session, cap: Capacity)
    requires Faithful(s) && Fits(s, cap)
    ensures RedoableDesk(DeskOf(s, cap), cap) && RoomToRedo(DeskOf(s, cap), cap)
    ensures RedoDesk(DeskOf(s, cap), cap) == DeskOf(Redone(s), cap)
  {
    hide Added, RedoRecords, Rewinds, Redoable, Held;
    if s.redos != [] {
      OrderlyTop(s.redos, s.text, cap.chars);
    }
    NoRecords(s.redos, cap.chars);
  }

  lemma NoRecords(rs: seq<Edit>, size: int)
    ensures Orderly(rs, size).records == [] <==> rs == []
  {
  }

  // --- Whole runs -------------------------------------------------------------------------------

  ghost predicate DeskStep(d: Desk, past: seq<string>, a: Act, d': Desk, past': seq<string>, cap: Capacity) {
    match a
    case Change(e, t') =>
      && Makes(e, t', d.text) && d' == Desk(t', Pushed(d.undos, e, cap), Side([], []))
      && past' == Recorded(Session(d.text, d.undos, [], past, []), e, t', cap).past
    case Undo =>
      && Undoable(d, cap) && d' == UndoDesk(d, cap)
      && past' == if d.undos == [] || Stuck(d, cap) || past == [] then past else past[..|past| - 1]
    case Redo =>
      && RedoableDesk(d, cap) && RedoRecorded(d, cap) && d' == RedoDesk(d, cap)
      && past' == if d.redo.records == [] then past else past + [d.text]
  }

  ghost predicate DeskRun(cap: Capacity, acts: seq<Act>, desks: seq<Desk>, pasts: seq<seq<string>>) {
    && |desks| == |pasts| == |acts| + 1
    && desks[0] == Desk(desks[0].text, [], Side([], [])) && pasts[0] == []
    && forall i :: 0 <= i < |acts| ==> DeskStep(desks[i], pasts[i], acts[i], desks[i + 1], pasts[i + 1], cap)
  }

  lemma ChangeKeeps(d: Desk, past: seq<string>, e: Edit, t': string, cap: Capacity)
    requires 1 <= cap.records && Rewinds(d.text, d.undos, past) && Fitting(d, cap) && Makes(e, t', d.text)
    ensures
      var s' := Recorded(Session(d.text, d.undos, [], past, []), e, t', cap);
      Rewinds(t', s'.undos, s'.past) && Fitting(Desk(t', s'.undos, Side([], [])), cap)
  {
    hide Added, Rewinds, Replays;
    EmptyStacks(cap.chars);
    RecordedFaithful(Session(d.text, d.undos, [], past, []), e, t', cap);
  }

  lemma UndoKeeps(d: Desk, past: seq<string>, cap: Capacity)
    requires Rewinds(d.text, d.undos, past) && Fitting(d, cap) && Undoable(d, cap)
    ensures Fitting(UndoDesk(d, cap), cap)
    ensures Stuck(d, cap) ==> UndoDesk(d, cap).text == d.text && UndoDesk(d, cap).undos == d.undos
    ensures d.undos != [] && !Stuck(d, cap) ==>
              && |past| == |d.undos| && UndoDesk(d, cap).text == past[|past| - 1]
              && Rewinds(past[|past| - 1], UndoDesk(d, cap).undos, past[..|past| - 1])
  {
    hide Added, Apply, Saved, Cleared, GivesUp, ClearsInBounds, Rewinds;
    if d.undos != [] {
      NewestApplied(Session(d.text, d.undos, [], past, []));
      var n := |d.undos| - 1;
      var u := d.undos[n];
      UndoGrows(d.undos[..n], u);
      assert d.undos == d.undos[..n] + [u];
      SavedFits(u, d.text, d.redo, CharsUsed(d), cap.chars);
    }
  }

  /** After a redo both halves fit, and the undo records still lead back through the texts held if
      and only if there was room to record it or it changed nothing. */
  lemma RedoKeepsIff(d: Desk, past: seq<string>, cap: Capacity)
    requires Rewinds(d.text, d.undos, past) && Fitting(d, cap)
    requires RedoableDesk(d, cap) && d.redo.records != []
    ensures Fitting(RedoDesk(d, cap), cap)
    ensures Rewinds(RedoDesk(d, cap).text, RedoDesk(d, cap).undos, past + [d.text]) <==> RedoRecorded(d, cap)
  {
    hide Added, Rewinds, Apply;
    var e := Held(d.redo, d.text, cap.chars);
    UndoGrows(d.undos, Inverse(e, d.text));
    UndoGrows(d.undos, Edit(e.where, 0, []));
    RecordedIff(d.text, d.undos, past, e, if RoomToRedo(d, cap) then Inverse(e, d.text) else Edit(e.where, 0, []),
                RoomToRedo(d, cap));
  }

  /** In every run of changes, undos and redos whose steps all stay inside the buffers and whose
      redos are recorded, whatever has become of the redo half, both halves fit and the undo records
      lead back through texts really held. */
  lemma {:induction false} RunRewinds(cap: Capacity, acts: seq<Act>, desks: seq<Desk>, pasts: seq<seq<string>>, i: nat)
    requires 1 <= cap.records && DeskRun(cap, acts, desks, pasts) && i <= |acts|
    ensures Rewinds(desks[i].text, desks[i].undos, pasts[i]) && Fitting(desks[i], cap)
  {
    hide Rewinds, Fitting, UndoDesk, RedoDesk, Undoable, RedoableDesk, RedoRecorded, Stuck, Recorded, Makes, Pushed;
    if i == 0 {
      RunBegins(desks[0], cap);
    } else {
      RunRewinds(cap, acts, desks, pasts, i - 1);
      StepKeeps(desks[i - 1], pasts[i - 1], acts[i - 1], desks[i], pasts[i], cap);
    }
  }

  lemma RunBegins(d: Desk, cap: Capacity)
    requires d.undos == [] && d.redo == Side([], [])
    ensures Rewinds(d.text, d.undos, []) && Fitting(d, cap)
  {
  }

  lemma StepKeeps(d: Desk, past: seq<string>, a: Act, d': Desk, past': seq<string>, cap: Capacity)
    requires 1 <= cap.records && Rewinds(d.text, d.undos, past) && Fitting(d, cap)
    requires DeskStep(d, past, a, d', past', cap)
    ensures Rewinds(d'.text, d'.undos, past') && Fitting(d', cap)
  {
    hide Added, Rewinds, Fitting, Undoable, Stuck, Makes;
    match a
    case Change(e, t') => ChangeKeeps(d, past, e, t', cap);
    case Undo =>
      UndoKeeps(d, past, cap);
      RewindsLength(d.text, d.undos, past);
    case Redo =>
      if d.redo.records != [] {
        RedoKeepsIff(d, past, cap);
      }
  }

  /** An undo with a stale record on top, which carries the data of first above the characters of
      e: when it stays inside the buffer, and when it then gives up, in lengths stored there. */
  lemma StaleUndoIff(d: Desk, u: Edit, us: seq<Edit>, first: Edit, e: Edit, rs: seq<Edit>, cap: Capacity)
    requires d.undos == us + [u] && Applies(u, d.text) && d.redo == Stale(first, e, rs, cap.chars) && Fitting(d, cap)
    ensures
      var keep := cap.chars - CharsUsed(d) - u.remove;
      && (Undoable(d, cap) <==> u.remove == 0 || keep <= 0 || |e.add| <= keep || |first.add| <= |e.add|)
      && (Undoable(d, cap) ==> (Stuck(d, cap) <==> 0 < u.remove && 0 < keep < |e.add| - |first.add|))
  {
    hide Added, RedoRecords, Discarded, InBounds;
    var keep := cap.chars - CharsUsed(d) - u.remove;
    if 0 < u.remove && 0 < keep {
      DiscardedStale(first, e, rs, keep, cap.chars);
      NoNeed(d.redo, keep);
    }
  }

  /** After an undo of u that had to discard redo records, from an orderly half: exactly when the
      undo of v before it stays inside the character buffer, and exactly when a redo does. */
  lemma CrowdedUndoLeaves(d: Desk, u: Edit, v: Edit, us: seq<Edit>, rs: seq<Edit>, cap: Capacity)
    requires d.undos == us + [v] + [u] && d.redo == Orderly(rs, cap.chars) && Fitting(d, cap)
    requires Applies(u, d.text) && Applies(v, Apply(u, d.text)) && Crowded(u, d.redo, CharsUsed(d), cap.chars)
    ensures Undoable(d, cap) && !Stuck(d, cap) && rs != []
    ensures
      var d', rest := UndoDesk(d, cap), Spared(rs, cap.chars - CharsUsed(d) - u.remove);
      var keep := cap.chars - CharsUsed(d') - v.remove;
      && d'.text == Apply(u, d.text) && d'.undos == us + [v]
      && (Undoable(d', cap) <==> v.remove == 0 || keep <= 0 || u.remove <= keep || |rs[0].add| <= u.remove)
      && (Undoable(d', cap) ==> (Stuck(d', cap) <==> 0 < v.remove && 0 < keep < u.remove - |rs[0].add|))
      && (RedoableDesk(d', cap) <==>
            && rs[0].where + rs[0].remove <= |d'.text|
            && |rs[0].add| <= u.remove + |Added(rest)|)
  {
    hide Added, RedoRecords, Orderly, Stale, Fitting, Apply, Undoable, Stuck, UndoDesk, RedoOwn, Spared;
    OrderlyCrowded(d, u, us + [v], rs, cap);
    var d', own := UndoDesk(d, cap), RedoOwn(u, d.text, CharsUsed(d), cap.chars);
    var rest := Spared(rs, cap.chars - CharsUsed(d) - u.remove);
    UndoFits(d, cap);
    StaleFits(d', rs[0], own, rest, cap);
    StaleUndoIff(d', v, us, rs[0], own, rest, cap);
    StaleRedoableIff(rs[0], own, rest, d'.text, cap.chars);
  }

  lemma OrderlyCrowded(d: Desk, u: Edit, us: seq<Edit>, rs: seq<Edit>, cap: Capacity)
    requires d.undos == us + [u] && d.redo == Orderly(rs, cap.chars) && Fitting(d, cap)
    requires Applies(u, d.text) && Crowded(u, d.redo, CharsUsed(d), cap.chars)
    ensures Undoable(d, cap) && !Stuck(d, cap) && rs != [] && cap.chars - CharsUsed(d) - u.remove >= 0
    ensures
      var own, rest := RedoOwn(u, d.text, CharsUsed(d), cap.chars), Spared(rs, cap.chars - CharsUsed(d) - u.remove);
      && |own.add| == u.remove > 0
      && UndoDesk(d, cap) == Desk(Apply(u, d.text), us, Stale(rs[0], own, rest, cap.chars))
  {
    hide Added, RedoRecords, Discarded, InBounds, Stale, Apply, Spared, Saved, GivesUp;
    EmptyStacks(0);
    var c, size := CharsUsed(d), cap.chars;
    SavedOrderly(u, d.text, rs, c, size);
    UndoDeskAt(d, u, us, cap);
  }

  lemma StaleFits(d: Desk, first: Edit, e: Edit, rs: seq<Edit>, cap: Capacity)
    requires d.redo == Stale(first, e, rs, cap.chars) && Fitting(d, cap)
    ensures |e.add| + |Added(rs)| <= cap.chars && d.redo.records != []
  {
  }

  lemma UndoFits(d: Desk, cap: Capacity)
    requires Fitting(d, cap) && Undoable(d, cap)
    ensures Fitting(UndoDesk(d, cap), cap)
  {
    hide Added, Apply, Saved, Cleared, GivesUp, ClearsInBounds;
    if d.undos != [] {
      var n := |d.undos| - 1;
      UndoGrows(d.undos[..n], d.undos[n]);
      assert d.undos == d.undos[..n] + [d.undos[n]];
      SavedFits(d.undos[n], d.text, d.redo, CharsUsed(d), cap.chars);
    }
  }

  /** An undo that has given up leaves the text as it is, and so does every one after it. */
  lemma StuckForGood(d: Desk, cap: Capacity)
    requires Undoable(d, cap) && Stuck(d, cap)
    ensures var d' := UndoDesk(d, cap);
      && d'.text == d.text && d'.undos == d.undos
      && Undoable(d', cap) && Stuck(d', cap) && UndoDesk(d', cap) == d'
  {
    var u := d.undos[|d.undos| - 1];
    GivesUpIff(d.redo, cap.chars - CharsUsed(d) - u.remove);
  }

  // --- Runs that go wrong --------------------------------------------------------------------------

  // The desk while nothing has been undone since the insertions us.
  function Plain(t: string, us: seq<Edit>): Desk {
    Desk(t, us, Side([], []))
  }

  lemma Changed(t: string, us: seq<Edit>, past: seq<string>, u: Edit, t': string, us': seq<Edit>, past': seq<string>,
                cap: Capacity)
    requires Makes(u, t', t) && |Added(us)| + |u.add| <= cap.chars && |us| < cap.records && |past| == |us|
    requires us' == us + [u] && past' == past + [t]
    ensures Added(us') == Added(us) + u.add
    ensures DeskStep(Plain(t, us), past, Change(u, t'), Plain(t', us'), past', cap)
  {
    hide Added, Kept, Makes;
    NothingDropped(us, |u.add|, cap);
    UndoGrows(us, u);
    assert past'[0..] == past';
  }

  lemma NothingDropped(us: seq<Edit>, n: nat, cap: Capacity)
    requires |Added(us)| + n <= cap.chars && |us| < cap.records
    ensures Kept(us, n, cap) == us
  {
    hide Added;
  }

  // The undo of an insertion while no characters are stored.
  lemma FirstUndo(t: string, us: seq<Edit>, u: Edit, past: seq<string>, t': string, cap: Capacity)
    requires u.add == [] && Makes(u, t, t') && 0 < u.remove && past != []
    requires |Added(us + [u])| + u.remove < cap.chars
    ensures
      var r := Record(u.where, u.remove, 0, cap.chars - u.remove);
      DeskStep(Plain(t, us + [u]), past, Undo,
               Desk(t', us, Side([r], t[u.where..u.where + u.remove])), past[..|past| - 1], cap)
  {
    hide Added, Apply;
    assert (us + [u])[..|us|] == us;
  }

  // The undo of a deletion.
  lemma DeletionUndo(t: string, us: seq<Edit>, u: Edit, past: seq<string>, t': string, s: Side, cap: Capacity)
    requires u.remove == 0 && Makes(u, t, t') && past != []
    ensures DeskStep(Desk(t, us + [u], s), past, Undo,
                     Desk(t', us, Side([Record(u.where, 0, |u.add|, -1)] + s.records, s.chars)),
                     past[..|past| - 1], cap)
  {
    hide Added, Apply;
    assert (us + [u])[..|us|] == us;
  }

  // The next one, when it needs the room of the only redo record.
  lemma NextUndo(t: string, us: seq<Edit>, u: Edit, past: seq<string>, t': string, r: Record, chars: string,
                 cap: Capacity)
    requires u.add == [] && Makes(u, t, t') && Added(us + [u]) == [] && 0 < u.remove < cap.chars < u.remove + |chars|
    requires 0 <= r.charStorage && r.insertLength <= |chars| && past != []
    ensures
      var d, left := Desk(t, us + [u], Side([r], chars)), |chars| - r.insertLength;
      && Undoable(d, cap) && (Stuck(d, cap) <==> cap.chars < u.remove + left)
      && (left == 0 ==>
            var r' := r.(charStorage := cap.chars - u.remove);
            DeskStep(d, past, Undo, Desk(t', us, Side([r'], t[u.where..u.where + u.remove])),
                     past[..|past| - 1], cap))
  {
    hide Added, Apply;
    assert (us + [u])[..|us|] == us;
    var s, keep := Side([r], chars), cap.chars - u.remove;
    OnlyOne(s);
    assert InBounds(WithoutOldest(s), keep) && Discarded(s, keep) == WithoutOldest(s);
  }

  // The next one, when it needs the room of the last of two redo records.
  lemma FarUndo(t: string, us: seq<Edit>, u: Edit, past: seq<string>, t': string, top: Record, r: Record, chars: string,
                cap: Capacity)
    requires u.add == [] && Makes(u, t, t') && Added(us + [u]) == [] && 0 < u.remove < cap.chars < u.remove + |chars|
    requires top.charStorage < 0 <= r.charStorage && r.insertLength == |chars| && past != []
    ensures DeskStep(Desk(t, us + [u], Side([top, r], chars)), past, Undo,
                     Desk(t', us, Side([top.(charStorage := cap.chars - u.remove), top],
                                       t[u.where..u.where + u.remove])),
                     past[..|past| - 1], cap)
  {
    hide Added, Apply;
    assert (us + [u])[..|us|] == us;
    var s, keep := Side([top, r], chars), cap.chars - u.remove;
    assert s.records[..1] == [top] && MovedAll([top], |chars|) == [top];
    assert WithoutOldest(s) == Side([top], []);
    assert InBounds(WithoutOldest(s), keep) && Discarded(s, keep) == WithoutOldest(s);
  }

  lemma TakesOut(before: string, x: string, after: string, t: string, t': string)
    requires t == before + x + after && t' == before + after
    ensures Makes(Edit(|before|, |x|, []), t, t') && t[|before|..|before| + |x|] == x
  {
  }

  /** A redo that goes wrong: with room for three records and five characters, "aaa" typed after
      "x" and "bbb" before it, both undone. The topmost redo record then says that "aaa" goes to
      the front, and makes "aaax" out of "x", a text never held. */
  lemma StaleRedo() returns (desks: seq<Desk>, pasts: seq<seq<string>>)
    ensures
      var cap, u1, u2 := Capacity(3, 5), Edit(1, 3, []), Edit(0, 3, []);
      && DeskRun(cap, [Change(u1, "xaaa"), Change(u2, "bbbxaaa"), Undo, Undo], desks, pasts)
      && desks[0].text == desks[4].text == "x" && desks[1].text == desks[3].text == "xaaa"
      && desks[2].text == "bbbxaaa"
      && RedoableDesk(desks[4], cap) && RoomToRedo(desks[4], cap) && RedoDesk(desks[4], cap).text == "aaax"
  {
    hide Added, DeskStep, RedoDesk, RedoableDesk, RoomToRedo, Makes, UndoDesk, Stuck, Undoable;
    var cap, u1, u2 := Capacity(3, 5), Edit(1, 3, []), Edit(0, 3, []);
    EmptyStacks(5);
    TakesOut("x", "aaa", "", "xaaa", "x");
    TakesOut("", "bbb", "xaaa", "bbbxaaa", "xaaa");
    Changed("x", [], [], u1, "xaaa", [u1], ["x"], cap);
    Changed("xaaa", [u1], ["x"], u2, "bbbxaaa", [u1, u2], ["x", "xaaa"], cap);
    assert [u1] + [u2] == [u1, u2] && [] + [u1] == [u1];
    FirstUndo("bbbxaaa", [u1], u2, ["x", "xaaa"], "xaaa", cap);
    NextUndo("xaaa", [], u1, ["x"], "x", Record(0, 3, 0, 2), "bbb", cap);
    assert ["x", "xaaa"][..1] == ["x"] && ["x"][..0] == [];
    var d3 := Desk("xaaa", [u1], Side([Record(0, 3, 0, 2)], "bbb"));
    var d4 := Desk("x", [], Side([Record(0, 3, 0, 2)], "aaa"));
    desks, pasts := [Plain("x", []), Plain("xaaa", [u1]), Plain("bbbxaaa", [u1, u2]), d3, d4],
      [[], ["x"], ["x", "xaaa"], ["x"], []];
    RedoneWrong(d4, cap);
  }

  lemma RedoneWrong(d: Desk, cap: Capacity)
    requires d == Desk("x", [], Side([Record(0, 3, 0, 2)], "aaa")) && cap == Capacity(3, 5)
    ensures RedoableDesk(d, cap) && RoomToRedo(d, cap) && RedoDesk(d, cap).text == "aaax"
  {
    assert Held(d.redo, "x", 5) == Edit(0, 0, "aaa");
    assert Apply(Edit(0, 0, "aaa"), "x") == "aaax";
  }

  /** An undo that gives up: with room for three records and five characters, "aaaa", "bbbb" and
      "cc" typed one after the other and three undos. The third finds two of the four characters
      of "bbbb" left over by the stale record, leaves "aaaa" as it is, and so does every later one. */
  lemma StuckUndo() returns (desks: seq<Desk>, pasts: seq<seq<string>>)
    ensures
      var cap, u1, u2, u3 := Capacity(3, 5), Edit(0, 4, []), Edit(4, 4, []), Edit(8, 2, []);
      && DeskRun(cap, [Change(u1, "aaaa"), Change(u2, "aaaabbbb"), Change(u3, "aaaabbbbcc"), Undo, Undo, Undo],
                 desks, pasts)
      && desks[4].text == "aaaabbbb" && desks[5].text == desks[6].text == "aaaa" && desks[6].undos == [u1]
      && Undoable(desks[6], cap) && Stuck(desks[6], cap) && UndoDesk(desks[6], cap) == desks[6]
  {
    hide Added, DeskStep, UndoDesk, Stuck, Undoable, Makes;
    var cap, u1, u2, u3 := Capacity(3, 5), Edit(0, 4, []), Edit(4, 4, []), Edit(8, 2, []);
    var t2, t3 := "aaaabbbb", "aaaabbbbcc";
    EmptyStacks(5);
    TakesOut("", "aaaa", "", "aaaa", "");
    TakesOut("aaaa", "bbbb", "", t2, "aaaa");
    TakesOut(t2, "cc", "", t3, t2);
    Changed("", [], [], u1, "aaaa", [u1], [""], cap);
    Changed("aaaa", [u1], [""], u2, t2, [u1, u2], ["", "aaaa"], cap);
    Changed(t2, [u1, u2], ["", "aaaa"], u3, t3, [u1, u2, u3], ["", "aaaa", t2], cap);
    assert [u1, u2] + [u3] == [u1, u2, u3] && [u1] + [u2] == [u1, u2] && [] + [u1] == [u1];
    FirstUndo(t3, [u1, u2], u3, ["", "aaaa", t2], t2, cap);
    NextUndo(t2, [u1], u2, ["", "aaaa"], "aaaa", Record(8, 2, 0, 3), "cc", cap);
    NextUndo("aaaa", [], u1, [""], "", Record(8, 2, 0, 1), "bbbb", cap);
    assert ["", "aaaa", t2][..2] == ["", "aaaa"] && ["", "aaaa"][..1] == [""];
    var d4 := Desk(t2, [u1, u2], Side([Record(8, 2, 0, 3)], "cc"));
    var d5 := Desk("aaaa", [u1], Side([Record(8, 2, 0, 1)], "bbbb"));
    StuckForGood(d5, cap);
    StuckStep(d5, [""], cap);
    desks, pasts := [Plain("", []), Plain("aaaa", [u1]), Plain(t2, [u1, u2]), Plain(t3, [u1, u2, u3]),
                     d4, d5, UndoDesk(d5, cap)],
      [[], [""], ["", "aaaa"], ["", "aaaa", t2], ["", "aaaa"], [""], [""]];
  }

  lemma StuckStep(d: Desk, past: seq<string>, cap: Capacity)
    requires Undoable(d, cap) && Stuck(d, cap)
    ensures DeskStep(d, past, Undo, UndoDesk(d, cap), past, cap)
  {
  }

  /** The limit of all this: with room for three records and five characters, "aaaa", "bb" and
      "cccc" typed one after the other and two undos. The stale record then claims four characters
      of which two are stored, so that neither another undo nor a redo is defined. */
  lemma OverrunUndo() returns (desks: seq<Desk>, pasts: seq<seq<string>>)
    ensures
      var cap, u1, u2, u3 := Capacity(3, 5), Edit(0, 4, []), Edit(4, 2, []), Edit(6, 4, []);
      && DeskRun(cap, [Change(u1, "aaaa"), Change(u2, "aaaabb"), Change(u3, "aaaabbcccc"), Undo, Undo], desks, pasts)
      && desks[5] == Desk("aaaa", [u1], Side([Record(6, 4, 0, 3)], "bb"))
      && !Undoable(desks[5], cap) && !RedoableDesk(desks[5], cap)
  {
    hide Added, DeskStep, UndoDesk, Stuck, Makes, Undoable, RedoableDesk;
    var cap, u1, u2, u3 := Capacity(3, 5), Edit(0, 4, []), Edit(4, 2, []), Edit(6, 4, []);
    var t2, t3 := "aaaabb", "aaaabbcccc";
    EmptyStacks(5);
    TakesOut("", "aaaa", "", "aaaa", "");
    TakesOut("aaaa", "bb", "", t2, "aaaa");
    TakesOut(t2, "cccc", "", t3, t2);
    Changed("", [], [], u1, "aaaa", [u1], [""], cap);
    Changed("aaaa", [u1], [""], u2, t2, [u1, u2], ["", "aaaa"], cap);
    Changed(t2, [u1, u2], ["", "aaaa"], u3, t3, [u1, u2, u3], ["", "aaaa", t2], cap);
    assert [u1, u2] + [u3] == [u1, u2, u3] && [u1] + [u2] == [u1, u2] && [] + [u1] == [u1];
    FirstUndo(t3, [u1, u2], u3, ["", "aaaa", t2], t2, cap);
    NextUndo(t2, [u1], u2, ["", "aaaa"], "aaaa", Record(6, 4, 0, 1), "cccc", cap);
    assert ["", "aaaa", t2][..2] == ["", "aaaa"] && ["", "aaaa"][..1] == [""];
    var d4 := Desk(t2, [u1, u2], Side([Record(6, 4, 0, 1)], "cccc"));
    var d5 := Desk("aaaa", [u1], Side([Record(6, 4, 0, 3)], "bb"));
    Undefined(d5, u1, cap);
    desks, pasts := [Plain("", []), Plain("aaaa", [u1]), Plain(t2, [u1, u2]), Plain(t3, [u1, u2, u3]), d4, d5],
      [[], [""], ["", "aaaa"], ["", "aaaa", t2], ["", "aaaa"], [""]];
  }

  lemma Undefined(d: Desk, u: Edit, cap: Capacity)
    requires u == Edit(0, 4, []) && cap == Capacity(3, 5)
    requires d == Desk("aaaa", [u], Side([Record(6, 4, 0, 3)], "bb"))
    ensures !Undoable(d, cap) && !RedoableDesk(d, cap)
  {
    AddedOne(u);
  }

  /** A redo that is not recorded: with room for three records and five characters, "aaaa" typed
      after "xy", "xy" deleted, "cc" typed, and three undos. The redo that follows deletes "xy"
      again, but line 1394 finds no room for it, and the undo after that does not bring it back. */
  lemma UnrecordedRedo() returns (desks: seq<Desk>, pasts: seq<seq<string>>)
    ensures
      var cap, u1, u2, u3 := Capacity(3, 5), Edit(2, 4, []), Edit(0, 0, "xy"), Edit(4, 2, []);
      && DeskRun(cap, [Change(u1, "xyaaaa"), Change(u2, "aaaa"), Change(u3, "aaaacc"), Undo, Undo, Undo], desks, pasts)
      && desks[6].text == "xy" && RedoableDesk(desks[6], cap) && !RoomToRedo(desks[6], cap)
      && !RedoRecorded(desks[6], cap)
      && RedoDesk(desks[6], cap).text == "" && Undoable(RedoDesk(desks[6], cap), cap)
      && UndoDesk(RedoDesk(desks[6], cap), cap).text == ""
  {
    hide Added, DeskStep, RedoDesk, RedoableDesk, RoomToRedo, RedoRecorded, UndoDesk, Stuck, Undoable, Makes;
    var cap, u1, u2, u3 := Capacity(3, 5), Edit(2, 4, []), Edit(0, 0, "xy"), Edit(4, 2, []);
    EmptyStacks(5);
    TakesOut("xy", "aaaa", "", "xyaaaa", "xy");
    TakesOut("aaaa", "cc", "", "aaaacc", "aaaa");
    PutsIn("xy", "aaaa", "xyaaaa");
    Changed("xy", [], [], u1, "xyaaaa", [u1], ["xy"], cap);
    Changed("xyaaaa", [u1], ["xy"], u2, "aaaa", [u1, u2], ["xy", "xyaaaa"], cap);
    Changed("aaaa", [u1, u2], ["xy", "xyaaaa"], u3, "aaaacc", [u1, u2, u3], ["xy", "xyaaaa", "aaaa"], cap);
    assert [u1, u2] + [u3] == [u1, u2, u3] && [u1] + [u2] == [u1, u2] && [] + [u1] == [u1];
    FirstUndo("aaaacc", [u1, u2], u3, ["xy", "xyaaaa", "aaaa"], "aaaa", cap);
    var r, top := Record(4, 2, 0, 3), Record(0, 0, 2, -1);
    DeletionUndo("aaaa", [u1], u2, ["xy", "xyaaaa"], "xyaaaa", Side([r], "cc"), cap);
    FarUndo("xyaaaa", [], u1, ["xy"], "xy", top, r, "cc", cap);
    assert [top] + [r] == [top, r];
    assert ["xy", "xyaaaa", "aaaa"][..2] == ["xy", "xyaaaa"] && ["xy", "xyaaaa"][..1] == ["xy"] && ["xy"][..0] == [];
    var d6 := Desk("xy", [], Side([top.(charStorage := 1), top], "aaaa"));
    NotBroughtBack(d6, top, cap);
    desks, pasts := [Plain("xy", []), Plain("xyaaaa", [u1]), Plain("aaaa", [u1, u2]), Plain("aaaacc", [u1, u2, u3]),
                     Desk("aaaa", [u1, u2], Side([r], "cc")), Desk("xyaaaa", [u1], Side([top, r], "cc")), d6],
      [[], ["xy"], ["xy", "xyaaaa"], ["xy", "xyaaaa", "aaaa"], ["xy", "xyaaaa"], ["xy"], []];
  }

  lemma PutsIn(x: string, t: string, t': string)
    requires t' == x + t
    ensures Makes(Edit(0, 0, x), t, t')
  {
  }

  lemma NotBroughtBack(d: Desk, top: Record, cap: Capacity)
    requires top == Record(0, 0, 2, -1) && cap == Capacity(3, 5)
    requires d == Desk("xy", [], Side([top.(charStorage := 1), top], "aaaa"))
    ensures RedoableDesk(d, cap) && !RoomToRedo(d, cap) && !RedoRecorded(d, cap) && RedoDesk(d, cap).text == ""
    ensures Undoable(RedoDesk(d, cap), cap) && UndoDesk(RedoDesk(d, cap), cap).text == ""
  {
    EmptyStacks(5);
    var none := Edit(0, 0, []);
    assert Held(d.redo, "xy", 5) == Edit(0, 2, []);
    assert RedoDesk(d, cap) == Desk("", [none], Side([top], "aaaa"));
    AddedOne(none);
    assert Apply(none, "") == "";
  }
}
