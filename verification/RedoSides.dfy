/**
 The redo half of the undo buffers as it is, stale records included: what discarding and storing
 do to it, when they stay inside the character buffer, when stb_text_undo gives up at line 1339,
 and when the record it leaves can be redone.
 */
module RedoSides {
  import opened UndoLog

  // The records from redo_point on and the characters from redo_char_point on.
  datatype Side = Side(records: seq<Record>, chars: string)

  // The half that holds the redo stack rs.
  ghost function Orderly(rs: seq<Edit>, size: int): Side {
    Side(RedoRecords(rs, size), Added(rs))
  }

  // The half that holds the redo stack [e] + rs, but whose topmost record carries the data of first.
  ghost function Stale(first: Edit, e: Edit, rs: seq<Edit>, size: int): Side {
    var r := RecordOf(e, size - |Added(rs)| - |e.add|);
    var top := Record(first.where, |first.add|, first.remove, r.charStorage);
    Side([top] + RedoRecords(rs, size), e.add + Added(rs))
  }

  // The same record but for the place of its characters.
  predicate Alike(r: Record, r': Record) {
    r' == r.(charStorage := r'.charStorage)
  }

  // --- Discarding -------------------------------------------------------------------------------

  // The characters a discard takes the record to hold.
  function Stored(r: Record): nat {
    if r.charStorage >= 0 then r.insertLength else 0
  }

  // A discard stays inside the character buffer.
  predicate Droppable(s: Side) {
    s.records != [] ==> Stored(s.records[|s.records| - 1]) <= |s.chars|
  }

  // stb_textedit_discard_redo
  function WithoutOldest(s: Side): Side
    requires s.records != [] && Droppable(s)
  {
    var m := |s.records| - 1;
    var n := Stored(s.records[m]);
    Side(MovedAll(s.records[..m], n), s.chars[..|s.chars| - n])
  }

  // The loop at line 1336: discards until at most keep characters or no records are left.
  function Discarded(s: Side, keep: int): Side
    decreases |s.records|
  {
    if |s.chars| <= keep || s.records == [] || !Droppable(s) then s else Discarded(WithoutOldest(s), keep)
  }

  // All of its discards stay inside the character buffer.
  predicate InBounds(s: Side, keep: int)
    decreases |s.records|
  {
    |s.chars| <= keep || s.records == [] || (Droppable(s) && InBounds(WithoutOldest(s), keep))
  }

  function Total(rs: seq<Record>): nat {
    if rs == [] then 0 else Total(rs[..|rs| - 1]) + Stored(rs[|rs| - 1])
  }

  lemma {:induction false} TotalMoved(rs: seq<Record>, n: nat)
    ensures Total(MovedAll(rs, n)) == Total(rs)
  {
    if rs != [] {
      var m := |rs| - 1;
      TotalMoved(rs[..m], n);
      assert MovedAll(rs, n)[..m] == MovedAll(rs[..m], n);
    }
  }

  /** The loop makes the room if and only if the lengths stored in the records leave at most keep
      characters; otherwise it ends without records. */
  lemma {:induction false} GivesUpIff(s: Side, keep: int)
    requires InBounds(s, keep)
    ensures |Discarded(s, keep).chars| <= keep <==> |s.chars| - Total(s.records) <= keep
    ensures |Discarded(s, keep).chars| <= keep || Discarded(s, keep).records == []
    decreases |s.records|
  {
    if keep < |s.chars| && s.records != [] {
      var m := |s.records| - 1;
      TotalMoved(s.records[..m], Stored(s.records[m]));
      GivesUpIff(WithoutOldest(s), keep);
    }
  }

  // The characters the last j records claim.
  function LastStored(rs: seq<Record>, j: nat): nat
    requires j <= |rs|
  {
    Total(rs[|rs| - j..])
  }

  // If the loop comes to the record j-th from the end, it does not claim more than is left.
  predicate EnoughFor(s: Side, keep: int, j: nat)
    requires 0 < j <= |s.records|
  {
    keep < |s.chars| - LastStored(s.records, j - 1) ==> LastStored(s.records, j) <= |s.chars|
  }

  lemma EnoughForOldest(s: Side, keep: int)
    requires s.records != [] && keep < |s.chars|
    ensures EnoughFor(s, keep, 1) <==> Droppable(s)
  {
    LastOne(s.records);
  }

  lemma EnoughForOthers(s: Side, keep: int, j: nat)
    requires s.records != [] && Droppable(s) && 1 < j <= |s.records|
    ensures |WithoutOldest(s).records| == |s.records| - 1
    ensures EnoughFor(s, keep, j) <==> EnoughFor(WithoutOldest(s), keep, j - 1)
  {
    hide LastStored;
    var n := Stored(s.records[|s.records| - 1]);
    LastStoredBefore(s.records, n, j - 2);
    LastStoredBefore(s.records, n, j - 1);
  }

  /** The loop stays inside the character buffer if and only if no record it comes to claims more
      characters than those after it have left. */
  lemma {:induction false} InBoundsIff(s: Side, keep: int)
    ensures InBounds(s, keep) <==> forall j :: 0 < j <= |s.records| ==> EnoughFor(s, keep, j)
    decreases |s.records|
  {
    if |s.chars| <= keep || s.records == [] {
    } else {
      EnoughForOldest(s, keep);
      if Droppable(s) {
        EnoughAfter(s, keep);
        InBoundsIff(WithoutOldest(s), keep);
      }
    }
  }

  lemma EnoughAfter(s: Side, keep: int)
    requires s.records != [] && Droppable(s) && EnoughFor(s, keep, 1)
    ensures
      var s' := WithoutOldest(s);
      (forall j :: 0 < j <= |s.records| ==> EnoughFor(s, keep, j)) <==>
      (forall j :: 0 < j <= |s'.records| ==> EnoughFor(s', keep, j))
  {
    hide EnoughFor;
    var s' := WithoutOldest(s);
    forall j | 1 < j <= |s.records|
      ensures EnoughFor(s, keep, j) <==> EnoughFor(s', keep, j - 1)
    {
      EnoughForOthers(s, keep, j);
    }
    assert forall j :: 0 < j <= |s'.records| ==> (EnoughFor(s', keep, j) <==> EnoughFor(s, keep, j + 1));
  }

  lemma LastOne(rs: seq<Record>)
    requires rs != []
    ensures LastStored(rs, 0) == 0 && LastStored(rs, 1) == Stored(rs[|rs| - 1])
  {
    assert rs[|rs| - 1..] == [rs[|rs| - 1]] && rs[|rs|..] == [];
    assert [rs[|rs| - 1]][..0] == [];
  }

  lemma LastStoredBefore(rs: seq<Record>, n: nat, j: nat)
    requires j < |rs|
    ensures LastStored(rs, j + 1) == LastStored(MovedAll(rs[..|rs| - 1], n), j) + Stored(rs[|rs| - 1])
  {
    var m := |rs|;
    var last := rs[m - 1 - j..];
    assert last[..|last| - 1] == rs[..m - 1][m - 1 - j..] && last[|last| - 1] == rs[m - 1];
    TotalMoved(rs[..m - 1][m - 1 - j..], n);
    assert MovedAll(rs[..m - 1], n)[m - 1 - j..] == MovedAll(rs[..m - 1][m - 1 - j..], n);
  }

  lemma {:induction false} DiscardedShape(s: Side, s': Side, keep: int)
    requires s.records == s'.records && |s.chars| == |s'.chars|
    ensures Discarded(s, keep).records == Discarded(s', keep).records
    ensures |Discarded(s, keep).chars| == |Discarded(s', keep).chars| && Discarded(s', keep).chars <= s'.chars
    decreases |s.records|
  {
    if keep < |s.chars| && s.records != [] && Droppable(s) {
      DiscardedShape(WithoutOldest(s), WithoutOldest(s'), keep);
    }
  }

  lemma OrderlySnoc(rs: seq<Edit>, e: Edit, size: int)
    requires |Added(rs + [e])| <= size
    ensures Orderly(rs + [e], size).records != [] && Droppable(Orderly(rs + [e], size))
    ensures WithoutOldest(Orderly(rs + [e], size)) == Orderly(rs, size)
  {
    hide Added, RedoRecords;
    RedoWithoutOldest(rs, e, size);
    UndoGrows(rs, e);
  }

  /** On a half that is in order the loop stays inside the buffer, always makes the room and takes
      away the records redone last: there the comment at line 1338 is right. */
  lemma {:induction false} DiscardedOrderly(rs: seq<Edit>, keep: nat, size: int)
    requires |Added(rs)| <= size
    ensures InBounds(Orderly(rs, size), keep)
    ensures Discarded(Orderly(rs, size), keep) == Orderly(Spared(rs, keep), size)
    ensures |Discarded(Orderly(rs, size), keep).chars| <= keep
    decreases |rs|
  {
    hide Added, RedoRecords, WithoutOldest;
    EmptyStacks(size);
    if rs != [] && keep < |Added(rs)| {
      var n := |rs| - 1;
      assert rs == rs[..n] + [rs[n]];
      OrderlySnoc(rs[..n], rs[n], size);
      UndoGrows(rs[..n], rs[n]);
      DiscardedOrderly(rs[..n], keep, size);
    }
  }

  lemma StaleSnoc(first: Edit, e: Edit, rs: seq<Edit>, x: Edit, size: int)
    requires |e.add| + |Added(rs + [x])| <= size
    ensures Stale(first, e, rs + [x], size).records != [] && Droppable(Stale(first, e, rs + [x], size))
    ensures WithoutOldest(Stale(first, e, rs + [x], size)) == Stale(first, e, rs, size)
  {
    hide Added, RedoRecords, MovedAll;
    UndoGrows(rs, x);
    RedoWithoutOldest(rs, x, size);
    var s := Stale(first, e, rs + [x], size);
    var later := RedoRecords(rs + [x], size);
    MovedCons(s.records[0], later[..|rs|], |x.add|);
    assert s.records[..|rs| + 1] == [s.records[0]] + later[..|rs|];
    assert s.chars == e.add + Added(rs) + x.add;
    assert s.chars[..|s.chars| - |x.add|] == e.add + Added(rs);
  }

  /** On a half whose topmost record is stale the loop stays inside the buffer if and only if the
      characters on top fit or the stale record does not claim more than there are, and then makes
      the room if and only if the characters it does not claim fit. */
  lemma {:induction false} DiscardedStale(first: Edit, e: Edit, rs: seq<Edit>, keep: nat, size: int)
    requires |e.add| + |Added(rs)| <= size
    ensures InBounds(Stale(first, e, rs, size), keep) <==> |e.add| <= keep || |first.add| <= |e.add|
    ensures InBounds(Stale(first, e, rs, size), keep) ==>
              (|Discarded(Stale(first, e, rs, size), keep).chars| <= keep <==> |e.add| - |first.add| <= keep)
    decreases |rs|
  {
    hide Added, RedoRecords, WithoutOldest;
    EmptyStacks(size);
    var s := Stale(first, e, rs, size);
    if keep < |s.chars| {
      if rs == [] {
        assert s.records[..0] == [];
        assert s.chars == e.add && Stored(s.records[0]) == |first.add|;
        assert Droppable(s) <==> |first.add| <= |e.add|;
        if Droppable(s) {
          OnlyOne(s);
        }
      } else {
        var n := |rs| - 1;
        assert rs == rs[..n] + [rs[n]];
        StaleSnoc(first, e, rs[..n], rs[n], size);
        UndoGrows(rs[..n], rs[n]);
        DiscardedStale(first, e, rs[..n], keep, size);
      }
    }
  }

  lemma OnlyOne(s: Side)
    requires |s.records| == 1 && Droppable(s)
    ensures WithoutOldest(s) == Side([], s.chars[..|s.chars| - Stored(s.records[0])])
  {
  }

  // --- Storing ----------------------------------------------------------------------------------

  // An undo that needs room for the characters it takes out.
  predicate Crowded(u: Edit, s: Side, undoChars: nat, size: nat) {
    !NoSpace(u, undoChars, size) && !FindsRoom(u, undoChars, size - |s.chars|, size)
  }

  // What the loop does to the redo half for it.
  function Cleared(u: Edit, s: Side, undoChars: nat, size: nat): Side {
    if Crowded(u, s, undoChars, size) then Discarded(s, size - undoChars - u.remove) else s
  }

  lemma NoNeed(s: Side, keep: int)
    ensures |s.chars| <= keep ==> InBounds(s, keep) && Discarded(s, keep) == s
  {
  }

  predicate ClearsInBounds(u: Edit, s: Side, undoChars: nat, size: nat) {
    Crowded(u, s, undoChars, size) ==> InBounds(s, size - undoChars - u.remove)
  }

  // Line 1339-1340 returns.
  predicate GivesUp(u: Edit, s: Side, undoChars: nat, size: nat) {
    Crowded(u, s, undoChars, size) && size - undoChars - u.remove < |Discarded(s, size - undoChars - u.remove).chars|
  }

  // The redo half, one record larger, once the redo record for u is stored (lines 1311-1352).
  function Saved(u: Edit, t: string, s: Side, undoChars: nat, size: nat): Side
    requires Applies(u, t)
  {
    var own := Record(u.where, u.remove, |u.add|, -1);
    if u.remove == 0 then Side([own] + s.records, s.chars)
    else if NoSpace(u, undoChars, size) then Side([own.(insertLength := 0)] + s.records, s.chars)
    else
      var d := Cleared(u, s, undoChars, size);
      var top := if Crowded(u, s, undoChars, size) && s.records != [] then s.records[0] else own;
      Side([top.(charStorage := size - |d.chars| - u.remove)] + d.records, t[u.where..u.where + u.remove] + d.chars)
  }

  lemma StaleIsOrderly(first: Edit, e: Edit, rs: seq<Edit>, size: int)
    requires |first.add| == |e.add|
    ensures Stale(first, e, rs, size) == Orderly([Edit(first.where, first.remove, e.add)] + rs, size)
  {
    RedoGrows(Edit(first.where, first.remove, e.add), rs, size);
  }

  lemma {:induction false} RecordsTellLength(rs: seq<Edit>, rs': seq<Edit>, size: int)
    requires RedoRecords(rs, size) == RedoRecords(rs', size)
    ensures |Added(rs)| == |Added(rs')|
    decreases |rs|
  {
    hide Added, RedoRecords;
    EmptyStacks(size);
    if rs != [] {
      var n := |rs[1..]|;
      assert |rs| == |rs'|;
      assert rs == [rs[0]] + rs[1..] && rs' == [rs'[0]] + rs'[1..];
      RedoGrows(rs[0], rs[1..], size);
      RedoGrows(rs'[0], rs'[1..], size);
      assert RedoRecords(rs, size)[1..] == RedoRecords(rs', size)[1..];
      assert RedoRecords(rs, size)[0] == RedoRecords(rs', size)[0];
      RecordsTellLength(rs[1..], rs'[1..], size);
    }
  }

  /** A stale record fits the characters stored for it in one way only: if it claims as many. */
  lemma StaleOrderlyIff(first: Edit, e: Edit, rs: seq<Edit>, size: int)
    ensures (exists rs' :: Stale(first, e, rs, size) == Orderly(rs', size)) <==> |first.add| == |e.add|
  {
    hide Added, RedoRecords;
    if |first.add| == |e.add| {
      StaleIsOrderly(first, e, rs, size);
    } else {
      forall rs': seq<Edit>
        ensures Stale(first, e, rs, size) != Orderly(rs', size)
      {
        var s := Stale(first, e, rs, size);
        if s == Orderly(rs', size) {
          EmptyStacks(size);
          assert |rs'| != 0 && rs' == [rs'[0]] + rs'[1..];
          RedoGrows(rs'[0], rs'[1..], size);
          assert RedoRecords(rs', size)[1..] == s.records[1..] == RedoRecords(rs, size);
          RecordsTellLength(rs, rs'[1..], size);
        }
      }
    }
  }

  /** From a half that is in order an undo never gives up, and leaves the records and characters
      of the stack meant, except that its topmost record may be stale. */
  lemma SavedOrderly(u: Edit, t: string, rs: seq<Edit>, undoChars: nat, size: nat)
    requires Applies(u, t) && undoChars + |Added(rs)| <= size
    ensures ClearsInBounds(u, Orderly(rs, size), undoChars, size)
    ensures !GivesUp(u, Orderly(rs, size), undoChars, size)
    ensures
      Saved(u, t, Orderly(rs, size), undoChars, size) ==
      Stale(Described(u, t, rs, undoChars, size - |Added(rs)|, size), RedoOwn(u, t, undoChars, size),
            RedoRest(u, rs, undoChars, size), size)
  {
    hide Added, RedoRecords, Discarded, InBounds;
    EmptyStacks(size);
    var s := Orderly(rs, size);
    if 0 < u.remove && !NoSpace(u, undoChars, size) {
      var keep := size - undoChars - u.remove;
      DiscardedOrderly(rs, keep, size);
      if Crowded(u, s, undoChars, size) {
        assert rs != [];
        assert rs == [rs[0]] + rs[1..];
        RedoGrows(rs[0], rs[1..], size);
      } else {
        SparedAll(rs, keep);
      }
    }
  }

  // --- What redoing would do --------------------------------------------------------------------

  // The topmost record lies within the text and its characters within the redo half.
  predicate Redoable(s: Side, t: string, size: nat) {
    && s.records != []
    && var r := s.records[0];
    && r.where + r.deleteLength <= |t| && r.insertLength <= |s.chars|
    && (r.insertLength != 0 ==> size - |s.chars| <= r.charStorage && r.charStorage + r.insertLength <= size)
  }

  // The edit it makes: its data, with the characters found at its char_storage.
  function Held(s: Side, t: string, size: nat): Edit
    requires Redoable(s, t, size)
  {
    var r := s.records[0];
    var from := if r.insertLength == 0 then 0 else r.charStorage - (size - |s.chars|);
    Edit(r.where, r.deleteLength, s.chars[from..from + r.insertLength])
  }

  /** A stale record can be redone if and only if it lies in the text and claims no more characters
      than the redo half holds. */
  lemma StaleRedoableIff(first: Edit, e: Edit, rs: seq<Edit>, t: string, size: nat)
    requires |e.add| + |Added(rs)| <= size
    ensures Redoable(Stale(first, e, rs, size), t, size) <==>
            && first.where + first.remove <= |t|
            && (first.add == [] || (e.add != [] && |first.add| <= |e.add| + |Added(rs)|))
  {
    hide Added, RedoRecords;
  }

  // The characters that redoing r takes out fit on the undo side (line 1394).
  predicate RoomFor(r: Record, undoChars: int, redoChars: int) {
    r.deleteLength == 0 || undoChars + r.deleteLength <= redoChars
  }

  // What redoing r records: its inverse, or nothing without room for the characters.
  function UndoFor(r: Record, text: string, undoChars: int, redoChars: int): Edit
    requires r.where + r.deleteLength <= |text|
  {
    if RoomFor(r, undoChars, redoChars)
    then Edit(r.where, r.insertLength, text[r.where..r.where + r.deleteLength]) else Edit(r.where, 0, [])
  }

  /** What is recorded for a redo e leads back to the text before if and only if there was room for
      its inverse or it put in exactly what it took out. */
  lemma RecordedIff(t: string, us: seq<Edit>, past: seq<string>, e: Edit, u: Edit, room: bool)
    requires Rewinds(t, us, past) && Applies(e, t) && u == if room then Inverse(e, t) else Edit(e.where, 0, [])
    ensures Rewinds(Apply(e, t), us + [u], past + [t]) <==> room || t[e.where..e.where + e.remove] == e.add
  {
    hide Rewinds;
    InverseUndoes(e, t);
    SameTextIff(e, t);
    if room || t[e.where..e.where + e.remove] == e.add {
      RewindsSnoc(Apply(e, t), u, t, us, past);
    } else {
      RewindsLength(t, us, past);
      NewestWrong(Apply(e, t), us, u, past + [t], t);
    }
  }

  lemma SameTextIff(e: Edit, t: string)
    requires Applies(e, t)
    ensures Apply(e, t) == t <==> t[e.where..e.where + e.remove] == e.add
    ensures Makes(Edit(e.where, 0, []), Apply(e, t), Apply(e, t))
  {
    var t' := Apply(e, t);
    assert t == t[..e.where] + t[e.where..e.where + e.remove] + t[e.where + e.remove..];
    if t' == t {
      assert |e.add| == e.remove;
      assert t'[e.where..e.where + e.remove] == e.add;
    }
  }

  // Undoing u on t and redoing gives t back.
  predicate RedoRight(u: Edit, t: string, s: Side, undoChars: nat, size: nat)
    requires Applies(u, t)
  {
    && !GivesUp(u, s, undoChars, size)
    && var s' := Saved(u, t, s, undoChars, size);
    && Redoable(s', Apply(u, t), size) && Makes(Held(s', Apply(u, t), size), Apply(u, t), t)
  }

  // The undo found room, or the record that was on top has the position and lengths needed.
  predicate ShapeRight(u: Edit, s: Side, undoChars: nat, size: nat) {
    || FindsRoom(u, undoChars, size - |s.chars|, size)
    || (&& !NoSpace(u, undoChars, size) && !GivesUp(u, s, undoChars, size) && s.records != []
        && s.records[0].where == u.where && s.records[0].insertLength == u.remove
        && s.records[0].deleteLength == |u.add|)
  }

  // The same positions and lengths, whatever the characters.
  predicate SameShape(u: Edit, t: string, s: Side, u': Edit, t': string, s': Side) {
    && u.where == u'.where && u.remove == u'.remove && |u.add| == |u'.add| && |t| == |t'|
    && s.records == s'.records && |s.chars| == |s'.chars|
  }

  // Stored as it should be: the data of the record needed, and its characters first.
  lemma SavedShape(u: Edit, t: string, s: Side, undoChars: nat, size: nat)
    requires Applies(u, t) && undoChars + |s.chars| <= size && ShapeRight(u, s, undoChars, size)
    ensures !GivesUp(u, s, undoChars, size)
    ensures
      var s' := Saved(u, t, s, undoChars, size);
      && s'.records != [] && u.remove <= |s'.chars| <= size
      && Alike(s'.records[0], Record(u.where, u.remove, |u.add|, 0))
      && (u.remove != 0 ==> s'.records[0].charStorage == size - |s'.chars|)
      && s'.chars[..u.remove] == t[u.where..u.where + u.remove]
  {
    hide Discarded;
    assert t[u.where..u.where] == [];
  }

  lemma HeldShape(s: Side, t: string, size: nat, where: nat, n: nat, m: nat)
    requires s.records != [] && n <= |s.chars| <= size && Alike(s.records[0], Record(where, n, m, 0))
    requires (n != 0 ==> s.records[0].charStorage == size - |s.chars|) && where + m <= |t|
    ensures Redoable(s, t, size) && Held(s, t, size) == Edit(where, m, s.chars[..n])
  {
  }

  lemma SavedHeld(u: Edit, t: string, s: Side, undoChars: nat, size: nat)
    requires Applies(u, t) && undoChars + |s.chars| <= size && ShapeRight(u, s, undoChars, size)
    ensures RedoRight(u, t, s, undoChars, size)
  {
    hide Saved, ShapeRight, GivesUp, Redoable, Held, Apply, Alike;
    InverseUndoes(u, t);
    SavedShape(u, t, s, undoChars, size);
    HeldShape(Saved(u, t, s, undoChars, size), Apply(u, t), size, u.where, u.remove, |u.add|);
  }

  // A text that tells where characters come from.
  function Marked(where: nat, n: nat, size: nat): (t: string)
    requires where + n <= size
    ensures |t| == size
  {
    seq(size, i => if where <= i < where + n then 'b' else 'a')
  }

  lemma MarkedAt(where: nat, n: nat, where': nat, n': nat, size: nat)
    requires where + n <= size && where' + n' <= size && Marked(where, n, size) == Marked(where', n', size) && 0 < n
    ensures where == where' && n == n'
  {
    var t := Marked(where, n, size);
    assert t[where] == 'b' && t[where + n - 1] == 'b';
    assert 0 < where ==> t[where - 1] == 'a';
    assert where + n < size ==> t[where + n] == 'a';
  }

  lemma NothingToDiscard(s: Side, keep: int)
    ensures s.records == [] ==> Discarded(s, keep) == s
  {
  }

  // A redo that is right and puts the right number of characters at the right place has the
  // shape it needs.
  lemma RightShape(u: Edit, t: string, s: Side, undoChars: nat, size: nat)
    requires Applies(u, t) && undoChars + |s.chars| <= size && RedoRight(u, t, s, undoChars, size)
    requires
      var h := Held(Saved(u, t, s, undoChars, size), Apply(u, t), size);
      h.where == u.where && |h.add| == u.remove
    ensures ShapeRight(u, s, undoChars, size)
  {
    hide Discarded;
    NothingToDiscard(s, size - undoChars - u.remove);
    MakesLength(Held(Saved(u, t, s, undoChars, size), Apply(u, t), size), u, t);
  }

  // Putting nothing but 'b' into nothing but 'a'.
  lemma MarkedBy(e: Edit, t: string)
    requires Applies(e, t) && t == Marked(0, 0, |t|) && e.add == seq(|e.add|, _ => 'b')
    ensures Apply(e, t) == Marked(e.where, |e.add|, |t| - e.remove + |e.add|)
  {
  }

  lemma RemovesMark(u: Edit, size: nat)
    requires u.where + u.remove <= size && u.add == seq(|u.add|, _ => 'a')
    ensures
      var n := size - u.remove + |u.add|;
      Applies(u, Marked(u.where, u.remove, size)) && Apply(u, Marked(u.where, u.remove, size)) == Marked(0, 0, n)
  {
  }

  // All characters of the redo half are 'b' after such an undo if they were before.
  lemma SavedMark(u: Edit, t: string, s: Side, undoChars: nat, size: nat)
    requires Applies(u, t) && t == Marked(u.where, u.remove, |t|)
    requires forall i :: 0 <= i < |s.chars| ==> s.chars[i] == 'b'
    ensures var s' := Saved(u, t, s, undoChars, size); forall i :: 0 <= i < |s'.chars| ==> s'.chars[i] == 'b'
  {
    hide Discarded, Marked;
    DiscardedShape(s, s, size - undoChars - u.remove);
    MarkedKept(u.where, u.remove, |t|);
  }

  // So are those a redo then puts in.
  lemma HeldMark(u: Edit, t: string, s: Side, undoChars: nat, size: nat)
    requires Applies(u, t) && t == Marked(u.where, u.remove, |t|)
    requires forall i :: 0 <= i < |s.chars| ==> s.chars[i] == 'b'
    requires Redoable(Saved(u, t, s, undoChars, size), Apply(u, t), size)
    ensures var h := Held(Saved(u, t, s, undoChars, size), Apply(u, t), size); h.add == seq(|h.add|, _ => 'b')
  {
    hide Saved, Marked, Apply;
    SavedMark(u, t, s, undoChars, size);
  }

  lemma MarkedKept(where: nat, n: nat, size: nat)
    requires where + n <= size
    ensures Marked(where, n, size)[where..where + n] == seq(n, _ => 'b')
  {
  }

  // With the record on top stale, characters that give it away.
  lemma StaleGivenAway(u: Edit, t: string, s: Side, undoChars: nat, size: nat) returns (u': Edit, t': string, s': Side)
    requires Applies(u, t) && undoChars + |s.chars| <= size && !ShapeRight(u, s, undoChars, size)
    ensures SameShape(u, t, s, u', t', s') && Applies(u', t') && !RedoRight(u', t', s', undoChars, size)
  {
    hide Discarded, ShapeRight, Saved, Held, Redoable, Marked, Apply;
    u' := Edit(u.where, u.remove, seq(|u.add|, _ => 'a'));
    t' := Marked(u.where, u.remove, |t|);
    s' := Side(s.records, seq(|s.chars|, _ => 'b'));
    ShapeOnly(u, t, s, u', t', s', undoChars, size);
    RemovesMark(u', |t|);
    if RedoRight(u', t', s', undoChars, size) {
      var h := Held(Saved(u', t', s', undoChars, size), Apply(u', t'), size);
      HeldMark(u', t', s', undoChars, size);
      MarkedBy(h, Apply(u', t'));
      RoomIsRight(u', s', undoChars, size);
      MarkedAt(u.where, u.remove, h.where, |h.add|, |t|);
      RightShape(u', t', s', undoChars, size);
    }
  }

  lemma RoomIsRight(u: Edit, s: Side, undoChars: nat, size: nat)
    ensures u.remove == 0 ==> ShapeRight(u, s, undoChars, size)
  {
  }

  /** For given records, pointers, positions and lengths: redoing an undo gives the text back
      whatever the characters if and only if the undo found room, or the topmost redo record,
      which then is stale, happens to have the position and lengths of the one it should be. */
  lemma RedoRightIff(u: Edit, t: string, s: Side, undoChars: nat, size: nat)
    requires Applies(u, t) && undoChars + |s.chars| <= size
    ensures (forall u', t', s' :: SameShape(u, t, s, u', t', s') ==> RedoRight(u', t', s', undoChars, size))
            <==> ShapeRight(u, s, undoChars, size)
  {
    hide Saved, Held, Redoable, Discarded, ShapeRight, RedoRight;
    if ShapeRight(u, s, undoChars, size) {
      forall u', t', s' | SameShape(u, t, s, u', t', s')
        ensures RedoRight(u', t', s', undoChars, size)
      {
        ShapeOnly(u, t, s, u', t', s', undoChars, size);
        SavedHeld(u', t', s', undoChars, size);
      }
    } else {
      var u', t', s' := StaleGivenAway(u, t, s, undoChars, size);
    }
  }

  lemma ShapeOnly(u: Edit, t: string, s: Side, u': Edit, t': string, s': Side, undoChars: nat, size: nat)
    requires SameShape(u, t, s, u', t', s')
    ensures ShapeRight(u, s, undoChars, size) <==> ShapeRight(u', s', undoChars, size)
  {
    hide Discarded;
    DiscardedShape(s, s', size - undoChars - u.remove);
  }
}
