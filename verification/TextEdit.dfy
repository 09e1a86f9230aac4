/**
 The editing operations of third-party/imgui/imstb_textedit.h on a text and its undo state.
 */
module TextEditing {
  import opened RedoSides
  import opened UndoBuffers
  import opened UndoLog
  import opened UndoRuns

  function Min(a: int, b: int): int {
    if a < b then a else b
  }

  // STB_TexteditState with the host's string
  class TextEdit {
    const undo: UndoState
    var text: string
    var cursor: int
    var selectStart: int
    var selectEnd: int
    var insertMode: bool
    var singleLine: bool
    // The texts really held that undo and redo can still reach.
    ghost var past: seq<string>
    ghost var future: seq<string>

    ghost function Now(): Session
      reads this, undo
    {
      Session(text, undo.undos, undo.redos, past, future)
    }

    // The text and the undo state as they are.
    ghost function Actual(): Desk
      requires undo.Bounds()
      reads this, undo, undo.records, undo.chars
    {
      Desk(text, undo.undos, undo.RedoView())
    }

    // What every operation keeps: once a redo record may be stale there is a free slot below.
    ghost predicate Usable()
      reads this, undo, undo.records, undo.chars
    {
      && undo.UndoSide() && 0 <= cursor && 0 <= selectStart && 0 <= selectEnd
      && (undo.RedoSide() || undo.undoPoint < undo.redoPoint)
    }

    // The undo records lead back through the texts held.
    ghost predicate Editable()
      reads this, undo, undo.records, undo.chars
    {
      Usable() && Rewinds(text, undo.undos, past)
    }

    // The redo records lead forth, too, and find their room.
    ghost predicate Sound()
      reads this, undo, undo.records, undo.chars
    {
      Editable() && undo.Valid() && Replays(text, undo.redos, future)
    }

    predicate HasSelection()
      reads this
    {
      selectStart != selectEnd
    }

    // Where the selection begins and ends once it is clamped to the text.
    function From(): (f: int)
      reads this
      ensures f <= |text| && f <= selectStart && f <= selectEnd
      ensures f == |text| || f == selectStart || f == selectEnd
    {
      Min(Min(selectStart, selectEnd), |text|)
    }

    function To(): (t: int)
      reads this
      ensures t <= |text| && (t == |text| || t == selectStart || t == selectEnd)
      ensures if t == |text| then t <= selectStart || t <= selectEnd else selectStart <= t && selectEnd <= t
    {
      Min(if selectStart < selectEnd then selectEnd else selectStart, |text|)
    }

    // stb_textedit_clear_state, for the given text
    constructor ClearState(text: string, singleLine: bool, records: nat, chars: nat)
      requires 1 <= records && 1 <= chars
      ensures Sound() && Now() == Session(text, [], [], [], []) && undo.Cap() == Capacity(records, chars)
      ensures cursor == selectStart == selectEnd == 0 && !insertMode && this.singleLine == singleLine
    {
      undo := new UndoState.Clear(records, chars);
      this.text, this.singleLine := text, singleLine;
      cursor, selectStart, selectEnd, insertMode := 0, 0, 0, false;
      past, future := [], [];
    }

    // stb_textedit_clamp
    method Clamp()
      requires Usable()
      modifies this`cursor, this`selectStart, this`selectEnd
      ensures selectStart == if old(HasSelection()) then Min(old(selectStart), |text|) else old(selectStart)
      ensures selectEnd == if old(HasSelection()) then Min(old(selectEnd), |text|) else old(selectEnd)
      ensures HasSelection() <==> From() < To()
      ensures From() == old(From()) && To() == old(To())
      ensures old(HasSelection()) ==> {selectStart, selectEnd} == {From(), To()}
      ensures HasSelection() ==> (selectStart < selectEnd <==> old(selectStart < selectEnd))
      ensures cursor == if old(HasSelection()) && From() == To() then From() else Min(old(cursor), |text|)
      ensures Usable()
    {
      hide Rewinds, UndoState.UndoSide, UndoState.RedoSide;
      var n := |text|;
      if HasSelection() {
        if selectStart > n {
          selectStart := n;
        }
        if selectEnd > n {
          selectEnd := n;
        }
        if selectStart == selectEnd {
          cursor := selectStart;
        }
      }
      if cursor > n {
        cursor := n;
      }
    }

    // stb_textedit_delete
    method Delete(where: nat, len: nat)
      requires Usable() && where + len <= |text|
      modifies this`text, this`past, this`future, undo, undo.records, undo.chars
      ensures Usable() && undo.Valid() && (old(Editable()) ==> Sound())
      ensures Now() == Removed(old(Now()), where, where + len, undo.Cap())
      ensures text == old(text[..where] + text[where + len..]) && undo.redos == [] && future == []
      ensures len <= undo.chars.Length ==> undo.undos != [] && past != [] && past[|past| - 1] == old(text)
    {
      hide Added, Rewinds, Replays, RoomAhead, UndoRecords, RedoRecords, Pushed, UndoState.UndoSide, UndoState.RedoSide;
      undo.Sizes();
      RemovedOnTop(Now(), where, where + len, undo.Cap());
      if Editable() {
        RemovedFaithful(Now(), where, where + len, undo.Cap());
      }
      past, future := Removed(Now(), where, where + len, undo.Cap()).past, [];
      undo.MakeUndoReplace(text, where, len, 0);
      text := text[..where] + text[where + len..];
    }

    // stb_textedit_delete_selection
    method DeleteSelection()
      requires Usable()
      modifies this`text, this`past, this`future, this`cursor, this`selectStart, this`selectEnd
      modifies undo, undo.records, undo.chars
      ensures Usable() && (old(Editable()) ==> Editable())
      ensures old(Sound()) || old(Editable() && From() < To()) ==> Sound()
      ensures Now() == old(if From() < To() then Removed(Now(), From(), To(), undo.Cap()) else Now())
      ensures text == old(text[..From()] + text[To()..])
      ensures old(From() < To() <= From() + undo.chars.Length) ==>
                undo.undos != [] && past != [] && past[|past| - 1] == old(text)
      ensures cursor == (if old(HasSelection()) then old(From()) else Min(old(cursor), |text|)) <= |text|
      ensures !HasSelection() && (old(HasSelection()) ==> selectStart == cursor)
    {
      hide Added, Rewinds, Replays, RoomAhead, UndoRecords, RedoRecords, Recorded, UndoState.UndoSide,
        UndoState.RedoSide;
      Clamp();
      assert text[..From()] + text[From()..] == text;
      if HasSelection() {
        if selectStart < selectEnd {
          Delete(selectStart, selectEnd - selectStart);
          selectEnd, cursor := selectStart, selectStart;
        } else {
          Delete(selectEnd, selectStart - selectEnd);
          selectStart, cursor := selectEnd, selectEnd;
        }
      }
    }

    // stb_textedit_cut
    method Cut() returns (done: bool)
      requires Usable()
      modifies this`text, this`past, this`future, this`cursor, this`selectStart, this`selectEnd
      modifies undo, undo.records, undo.chars
      ensures Usable() && (old(Editable()) ==> Editable()) && (old(Sound()) ==> Sound())
      ensures done == old(HasSelection())
      ensures cursor == if done then old(From()) else old(cursor)
      ensures Now() == old(if From() < To() then Removed(Now(), From(), To(), undo.Cap()) else Now())
      ensures text == old(text[..From()] + text[To()..])
      ensures old(From() < To() <= From() + undo.chars.Length) ==> past != [] && past[|past| - 1] == old(text)
    {
      hide Added, Rewinds, Replays, RoomAhead, UndoRecords, RedoRecords, Recorded, UndoState.UndoSide,
        UndoState.RedoSide;
      assert text[..From()] + text[From()..] == text;
      if HasSelection() {
        DeleteSelection();
        return true;
      }
      return false;
    }

    // Inserts at the cursor and records it.
    method Insert(x: string)
      requires Usable() && cursor <= |text| && x != []
      modifies this`text, this`past, this`future, this`cursor, undo, undo.records, undo.chars
      ensures Usable() && (old(Editable()) ==> Sound()) && cursor == old(cursor) + |x|
      ensures Now() == Inserted(old(Now()), old(cursor), x, undo.Cap())
    {
      hide Added, Rewinds, Replays, RoomAhead, UndoRecords, RedoRecords, Pushed, UndoState.UndoSide,
        UndoState.RedoSide;
      if Editable() {
        undo.Sizes();
        InsertedFaithful(Now(), cursor, x, undo.Cap());
      }
      past, future := Inserted(Now(), cursor, x, undo.Cap()).past, [];
      text := text[..cursor] + x + text[cursor..];
      undo.MakeUndoInsert(cursor, |x|);
      cursor := cursor + |x|;
    }

    // Inserts at the cursor and records it, if there is anything to insert.
    method InsertAtCursor(x: string)
      requires Usable() && cursor <= |text|
      modifies this`text, this`past, this`future, this`cursor, undo, undo.records, undo.chars
      ensures Usable() && (old(Editable()) ==> Editable())
      ensures old(Sound()) || (old(Editable()) && x != []) ==> Sound()
      ensures Now() == if x == [] then old(Now()) else Inserted(old(Now()), old(cursor), x, undo.Cap())
      ensures cursor == old(cursor) + |x| && text == old(text[..cursor] + x + text[cursor..])
      ensures x != [] ==> past != [] && past[|past| - 1] == old(text)
      ensures x != [] && old(undo.undos != [] && past != []) && 2 <= undo.records.Length ==>
                2 <= |past| && past[|past| - 2] == old(past[|past| - 1])
    {
      hide Added, Rewinds, Replays, Inserted, UndoState.UndoSide, UndoState.RedoSide, UndoState.Valid;
      assert x == [] ==> text[..cursor] + x + text[cursor..] == text;
      if |x| != 0 {
        undo.Sizes();
        InsertedOnTop(Now(), cursor, x, undo.Cap());
        if undo.undos != [] && 2 <= undo.records.Length {
          InsertedSecond(Now(), cursor, x, undo.Cap());
        }
        Insert(x);
      }
    }

    // The session after the selection, if any, has been replaced by x.
    ghost function Typed(x: string): Session
      requires 0 <= cursor && 0 <= selectStart && 0 <= selectEnd
      reads this, undo
    {
      var s := if From() < To() then Removed(Now(), From(), To(), undo.Cap()) else Now();
      if x == [] then s else Inserted(s, TypedAt(), x, undo.Cap())
    }

    // Where x goes.
    function TypedAt(): int
      reads this
    {
      if HasSelection() then From() else Min(cursor, |text|)
    }

    // Puts x in the place of the selection or, without one, in at the cursor.
    method ReplaceSelection(x: string)
      requires Usable()
      modifies this`text, this`past, this`future, this`cursor, this`selectStart, this`selectEnd
      modifies undo, undo.records, undo.chars
      ensures Usable() && (old(Editable()) ==> Editable())
      ensures old(Sound()) || (old(Editable()) && x != []) ==> Sound()
      ensures Now() == old(Typed(x)) && !HasSelection() && cursor == old(TypedAt()) + |x|
      ensures text == old(if HasSelection() then text[..From()] + x + text[To()..]
                          else text[..Min(cursor, |text|)] + x + text[Min(cursor, |text|)..])
      ensures x != [] ==> past != [] && past[|past| - 1] == old(text[..From()] + text[To()..])
      ensures x != [] && old(From() < To() <= From() + undo.chars.Length) && 2 <= undo.records.Length ==>
                2 <= |past| && past[|past| - 2] == old(text)
    {
      hide Added, Rewinds, Replays, RoomAhead, UndoRecords, RedoRecords, Recorded, UndoState.UndoSide,
        UndoState.RedoSide;
      DeleteSelection();
      InsertAtCursor(x);
    }

    // stb_textedit_paste_internal
    method Paste(x: string) returns (done: bool)
      requires Usable()
      modifies this`text, this`past, this`future, this`cursor, this`selectStart, this`selectEnd
      modifies undo, undo.records, undo.chars
      ensures Usable() && (old(Editable()) ==> Editable()) && done == (x != [])
      ensures old(Sound()) || (old(Editable()) && x != []) ==> Sound()
      ensures Now() == old(Typed(x)) && !HasSelection() && cursor == old(TypedAt()) + |x|
      ensures text == old(if HasSelection() then text[..From()] + x + text[To()..]
                          else text[..Min(cursor, |text|)] + x + text[Min(cursor, |text|)..])
      ensures x != [] ==> past != [] && past[|past| - 1] == old(text[..From()] + text[To()..])
      ensures x != [] && old(From() < To() <= From() + undo.chars.Length) && 2 <= undo.records.Length ==>
                2 <= |past| && past[|past| - 2] == old(text)
    {
      hide Added, Rewinds, Replays, RoomAhead, UndoRecords, RedoRecords, Recorded, UndoState.UndoSide,
        UndoState.RedoSide;
      Clamp();
      ReplaceSelection(x);
      done := |x| != 0;
    }

    // The deletion and the insertion of lines 806-807.
    method Exchange(x: string)
      requires 0 <= cursor < |text|
      modifies this`text
      ensures text == old(text[..cursor] + x + text[cursor + 1..])
    {
      text := text[..cursor] + text[cursor + 1..];
      text := text[..cursor] + x + text[cursor..];
      assert text == old(text[..cursor] + x + text[cursor + 1..]);
    }

    // Overwrites the character at the cursor and records it.
    method Replace(x: string)
      requires Usable() && cursor < |text| && 1 <= |x|
      modifies this`text, this`past, this`future, this`cursor, undo, undo.records, undo.chars
      ensures Usable() && (old(Editable()) ==> (Editable() <==> |x| == 1) && (Sound() <==> |x| == 1))
      ensures Now() == Replaced(old(Now()), old(cursor), x, undo.Cap()) && cursor == old(cursor) + |x|
    {
      hide Added, Rewinds, Replays, RoomAhead, UndoRecords, RedoRecords, Pushed, UndoState.UndoSide,
        UndoState.RedoSide;
      if Editable() {
        undo.Sizes();
        ReplacedFaithful(Now(), cursor, x, undo.Cap());
      }
      past, future := Replaced(Now(), cursor, x, undo.Cap()).past, [];
      assert text[cursor..cursor + 1] == [text[cursor]];
      undo.MakeUndoReplace(text, cursor, 1, 1);
      Exchange(x);
      cursor := cursor + |x|;
    }

    /** Overwrites the character at the cursor. The record made takes x to be one character
        (line 805): undo leads back to the text before exactly if it is. */
    method Overwrite(x: string)
      requires Usable() && cursor < |text| && 1 <= |x|
      modifies this`text, this`past, this`future, this`cursor, undo, undo.records, undo.chars
      ensures Usable() && (old(Editable()) ==> (Editable() <==> |x| == 1) && (Sound() <==> |x| == 1))
      ensures Now() == Replaced(old(Now()), old(cursor), x, undo.Cap()) && cursor == old(cursor) + |x|
      ensures text == old(text[..cursor] + x + text[cursor + 1..]) && past != [] && past[|past| - 1] == old(text)
    {
      hide Added, Rewinds, Replays, Replaced, UndoState.UndoSide, UndoState.RedoSide, UndoState.Valid;
      undo.Sizes();
      ReplacedOnTop(Now(), cursor, x, undo.Cap());
      Replace(x);
    }

    // stb_textedit_text
    method Text(x: string)
      requires Usable() && 1 <= |x|
      modifies this`text, this`past, this`future, this`cursor, this`selectStart, this`selectEnd
      modifies undo, undo.records, undo.chars
      ensures
        var ignored := x[0] == '\n' && singleLine;
        var overwrite := insertMode && old(!HasSelection() && cursor < |text|);
        && (ignored ==> Now() == old(Now()) && cursor == old(cursor))
        && (!ignored && overwrite ==>
              Now() == Replaced(old(Now()), old(cursor), x, undo.Cap()) && cursor == old(cursor) + |x|)
        && (!ignored && !overwrite ==> Now() == old(Typed(x)) && cursor == old(TypedAt()) + |x|)
        && Usable() && (ignored || !overwrite || |x| == 1 ==>
                          (old(Editable()) ==> Editable()) && (old(Sound()) ==> Sound()))
        && (!ignored && overwrite && 1 < |x| && old(Editable()) ==> !Editable())
      ensures
        var from, to, at := old(From()), old(To()), Min(old(cursor), |old(text)|);
        var overwrite := insertMode && old(!HasSelection() && cursor < |text|);
        if x[0] == '\n' && singleLine then text == old(text)
        else if overwrite then
          text == old(text[..cursor] + x + text[cursor + 1..]) && past != [] && past[|past| - 1] == old(text)
        else
          && text == (if old(HasSelection()) then old(text)[..from] + x + old(text)[to..]
                      else old(text)[..at] + x + old(text)[at..])
          && past != [] && past[|past| - 1] == old(text)[..from] + old(text)[to..]
          && (from < to <= from + undo.chars.Length && 2 <= undo.records.Length ==>
                2 <= |past| && past[|past| - 2] == old(text))
    {
      hide Added, Rewinds, Replays, RoomAhead, UndoRecords, RedoRecords, Recorded, Removed, Inserted, Replaced,
        UndoState.UndoSide, UndoState.RedoSide, UndoState.Valid;
      if x[0] == '\n' && singleLine {
        return;
      }
      if insertMode && !HasSelection() && cursor < |text| {
        Overwrite(x);
      } else {
        ReplaceSelection(x);
      }
    }

    // The deletion and the insertion a record asks for, carried out on the text.
    method Carry(r: Record)
      requires r.where + r.deleteLength <= |text|
      requires r.insertLength != 0 ==> 0 <= r.charStorage && r.charStorage + r.insertLength <= undo.chars.Length
      modifies this`text
      ensures text == old(text)[..r.where] + CharsFor(r) + old(text)[r.where + r.deleteLength..]
    {
      if r.deleteLength != 0 {
        text := text[..r.where] + text[r.where + r.deleteLength..];
      }
      if r.insertLength != 0 {
        text := text[..r.where] + undo.chars[r.charStorage..r.charStorage + r.insertLength] + text[r.where..];
      }
      assert text == old(text)[..r.where] + CharsFor(r) + old(text)[r.where + r.deleteLength..];
    }

    // The characters of a record.
    ghost function CharsFor(r: Record): string
      requires r.insertLength != 0 ==> 0 <= r.charStorage && r.charStorage + r.insertLength <= undo.chars.Length
      reads undo.chars
    {
      if r.insertLength == 0 then [] else undo.chars[r.charStorage..r.charStorage + r.insertLength]
    }

    // The text is changed as the undo record r of u asks, and both records' slots are given up.
    method FinishUndo(r: Record, ghost u: Edit, ghost us: seq<Edit>)
      requires undo.undoPoint == |us| + 1 <= undo.redoPoint <= undo.records.Length && 1 <= undo.chars.Length
      requires undo.undoCharPoint == |Added(us)| + |u.add| <= undo.redoCharPoint <= undo.chars.Length
      requires undo.records[..|us|] == UndoRecords(us) && undo.chars[..undo.undoCharPoint] == Added(us) + u.add
      requires SaysTo(r, u) && (u.add != [] ==> r.charStorage == |Added(us)|) && Applies(u, text)
      modifies this`text, this`cursor, undo
      ensures undo.UndoSide() && undo.undos == us && undo.redos == old(undo.redos)
      ensures undo.RedoView() == Side(undo.records[old(undo.redoPoint) - 1..], undo.chars[old(undo.redoCharPoint)..])
      ensures text == Apply(u, old(text)) && cursor == u.where + |u.add|
    {
      hide Added, UndoRecords, RedoRecords;
      assert u.add != [] ==> CharsFor(r) == undo.chars[..undo.undoCharPoint][|Added(us)|..] == u.add;
      Carry(r);
      undo.GiveUpUndo(r.insertLength, u, us);
      cursor := r.where + r.insertLength;
    }

    // The steps of stb_text_undo for u, the newest of the undo records.
    method UndoLast(ghost d: Desk, ghost u: Edit, ghost us: seq<Edit>)
      requires undo.UndoSide() && d == Actual() && undo.undos == us + [u] && Undoable(d, undo.Cap())
      requires Stuck(d, undo.Cap()) ==> undo.undoPoint < undo.redoPoint
      modifies this`text, this`cursor, undo, undo.records, undo.chars
      ensures undo.UndoSide() && undo.redos == old(undo.redos) && Actual() == UndoDesk(d, undo.Cap())
      ensures cursor == if Stuck(d, undo.Cap()) then old(cursor) else u.where + |u.add|
    {
      hide Added, UndoRecords, RedoRecords, Saved, GivesUp, ClearsInBounds, Cleared, UndoDesk, Stuck, Undoable, Apply;
      UndoDeskAt(d, u, us, undo.Cap());
      var r := undo.records[undo.undoPoint - 1];
      UndoGrows(us, u);
      assert r == undo.records[..undo.undoPoint][|us|];
      ghost var was := undo.chars[..undo.undoCharPoint];
      var ok := undo.StoreRedo(r, text, u);
      assert undo.chars[..undo.undoCharPoint] == was;
      assert undo.records[..|us|] == UndoRecords(us);
      if !ok {
        assert undo.records[..undo.undoPoint] == undo.records[..|us|] + [undo.records[|us|]];
        return;
      }
      FinishUndo(r, u, us);
    }

    // What the redo half is worth once an undo of the session s is done.
    lemma AfterUndo(s: Session)
      requires Faithful(s) && Fits(s, undo.Cap()) && s.undos != []
      requires undo.UndoSide() && Undoable(DeskOf(s, undo.Cap()), undo.Cap())
      requires Actual() == UndoDesk(DeskOf(s, undo.Cap()), undo.Cap())
      requires |s.past| == |s.undos| && Applies(s.undos[|s.undos| - 1], s.text) && Now() == UndoneAnyway(s, undo.Cap())
      ensures Rewinds(text, undo.undos, past)
      ensures undo.Valid() && Replays(text, undo.redos, future) <==> RedoSurvives(s, undo.Cap())
      ensures RoomToUndo(s, undo.Cap()) ==> Now() == Undone(s)
    {
      hide Added, Rewinds, Replays, UndoRecords, RedoRecords, RoomAhead, LayoutSurvives, RedoSurvives, RoomToUndo,
        UndoDesk, UndoneAnyway, Undone;
      UndoDeskIs(s, undo.Cap());
      RedoSurvivesIff(s, undo.Cap());
      if RoomToUndo(s, undo.Cap()) {
        RoomyUndo(s, undo.Cap());
      }
    }

    // An undo there is something for, with the redo stack and the texts it leads to.
    method UndoNewest(ghost s: Session, ghost d: Desk, ghost u: Edit, ghost us: seq<Edit>)
      requires Usable() && undo.undos == us + [u] && s == Now() && d == Actual()
      requires Undoable(d, undo.Cap()) && Applies(u, text)
      modifies this`text, this`past, this`future, this`cursor, undo, undo.records, undo.chars
      ensures Usable() && Actual() == UndoDesk(d, undo.Cap())
      ensures cursor == if Stuck(d, undo.Cap()) then old(cursor) else u.where + |u.add|
      ensures Stuck(d, undo.Cap()) ==> Now() == s
      ensures old(undo.RedoSide()) ==> !Stuck(d, undo.Cap())
      ensures !Stuck(d, undo.Cap()) ==>
                past == (if s.past == [] then [] else s.past[..|s.past| - 1]) &&
                (|s.past| == |us| + 1 && text == s.past[|us|] ==> Now() == UndoneAnyway(s, undo.Cap()))
    {
      hide Added, Rewinds, Replays, UndoRecords, RedoRecords, RedoTop, RedoRest, Stuck, Saved, Cleared,
        Orderly, Apply, Applies, UndoState.UndoSide, UndoState.RedoSide, Undoable, Gap, Fitting, Usable;
      ghost var top := RedoTop(u, s.text, s.redos, CharsUsed(d), RedoChars(s, undo.Cap()), undo.chars.Length);
      ghost var rest := RedoRest(u, s.redos, CharsUsed(d), undo.chars.Length);
      UsableMeans(d, s.redos);
      UndoLeavesGap(d, s.redos, undo.Cap());
      UndoLast(d, u, us);
      if !Stuck(d, undo.Cap()) {
        undo.Claim([top] + rest);
        past := if past == [] then [] else past[..|past| - 1];
        future := [s.text] + if |rest| <= |future| then future[..|rest|] else [];
      }
      UsableFrom();
    }

    lemma UsableMeans(d: Desk, rs: seq<Edit>)
      requires Usable() && d == Actual() && rs == undo.redos
      ensures Fitting(d, undo.Cap()) && undo.UndoSide() && 0 <= cursor && 0 <= selectStart && 0 <= selectEnd
      ensures undo.RedoSide() ==> d.redo == Orderly(rs, undo.Cap().chars) && (rs == [] <==> d.redo.records == [])
      ensures undo.RedoSide() || Gap(d, undo.Cap())
      ensures Gap(d, undo.Cap()) <==> undo.undoPoint < undo.redoPoint
    {
      hide Added, UndoRecords, Orderly;
      NoRecords(rs, undo.chars.Length);
    }

    lemma UsableFrom()
      requires undo.UndoSide() && 0 <= cursor && 0 <= selectStart && 0 <= selectEnd
      requires undo.RedoView() == Orderly(undo.redos, undo.Cap().chars) || Gap(Actual(), undo.Cap())
      ensures Usable()
    {
      hide Added, UndoRecords, Orderly;
    }

    /** stb_text_undo as long as it stays inside the buffers, which it does from an orderly redo
        half; when it does otherwise, UndoRuns.CrowdedUndoLeaves says. Unless it gives up it restores
        the text. From an orderly redo half it never gives up, and redoing stays right exactly when
        RedoSurvives holds before, in particular when the undo finds room, which then is the step of
        a history. */
    method Undo()
      requires Usable() && Undoable(Actual(), undo.Cap())
      modifies this`text, this`past, this`future, this`cursor, undo, undo.records, undo.chars
      ensures Usable() && Actual() == UndoDesk(old(Actual()), undo.Cap())
      ensures
        var idle := old(undo.undos == [] || Stuck(Actual(), undo.Cap()));
        && (idle ==> Now() == old(Now()) && cursor == old(cursor))
        && (!idle ==> cursor == old(undo.undos[|undo.undos| - 1].where + |undo.undos[|undo.undos| - 1].add|))
        && (!idle && old(Editable()) ==> old(past) != [] && text == old(past[|past| - 1]))
      ensures old(undo.RedoSide()) ==> !old(Stuck(Actual(), undo.Cap()))
      ensures old(Editable()) ==> Editable()
      ensures old(Sound()) && old(undo.undos) != [] ==>
                && |old(past)| == |old(undo.undos)| && Applies(old(undo.undos[|undo.undos| - 1]), old(text))
                && Now() == UndoneAnyway(old(Now()), undo.Cap())
      ensures old(Sound()) ==> (Sound() <==> RedoSurvives(old(Now()), undo.Cap()))
      ensures old(Sound()) && RoomToUndo(old(Now()), undo.Cap()) ==> Now() == Undone(old(Now()))
      ensures
        var us, t, used := old(undo.undos), old(text), old(undo.undoCharPoint);
        old(Sound()) && us != [] ==>
          var u := us[|us| - 1];
          && u.where + u.remove <= |t| && old(past) != []
          && (u.remove == 0 || (used + u.remove < undo.chars.Length && used + u.remove <= old(undo.redoCharPoint)) ==>
                && Sound() && text == old(past[|past| - 1]) && past == old(past[..|past| - 1])
                && undo.undos == us[..|us| - 1] && future == [t] + old(future)
                && undo.redos == [Edit(u.where, |u.add|, t[u.where..u.where + u.remove])] + old(undo.redos))
    {
      hide Added, Rewinds, Replays, UndoRecords, RedoRecords, RoomAhead, Undone, RedoSurvives, LayoutSurvives,
        UndoneAnyway, UndoDesk, Stuck;
      ghost var s, d, n := Now(), Actual(), undo.undoPoint - 1;
      if undo.undoPoint == 0 {
        NothingUndone(s, d, undo.Cap());
        return;
      }
      assert s.undos == s.undos[..n] + [s.undos[n]];
      ghost var sound := Sound();
      if Editable() {
        UndoKeeps(d, s.past, undo.Cap());
      }
      assert Sound() ==> RedoChars(s, undo.Cap()) == undo.redoCharPoint by {
        RedoCharsAre();
      }
      UndoNewest(s, d, s.undos[n], s.undos[..n]);
      if sound {
        AfterUndo(s);
        StepsMove(s);
        RoomSurvives(s, undo.Cap());
      }
    }

    lemma NothingUndone(s: Session, d: Desk, cap: Capacity)
      requires s.undos == [] && d.undos == []
      ensures UndoDesk(d, cap) == d && Undone(s) == s && RedoSurvives(s, cap) && !Stuck(d, cap)
    {
    }

    // The topmost redo record lies in the text and its characters in the buffer.
    ghost predicate RedoInBounds()
      requires undo.Bounds()
      reads this, undo, undo.records, undo.chars
    {
      undo.redoPoint < undo.records.Length ==>
        var r := undo.records[undo.redoPoint];
        && r.where + r.deleteLength <= |text| && undo.redoCharPoint + r.insertLength <= undo.chars.Length
        && (r.insertLength != 0 ==> 0 <= r.charStorage && r.charStorage + r.insertLength <= undo.chars.Length)
    }

    // The topmost redo record r of the desk d has been carried out, with the characters found at
    // its char_storage, and recorded.
    ghost predicate CarriedOut(r: Record, d: Desk)
      requires undo.Bounds()
      reads this, undo, undo.records, undo.chars
    {
      var used, free := |Added(d.undos)|, undo.chars.Length - |d.redo.chars|;
      && r.where + r.deleteLength <= |d.text| && r.insertLength <= |d.redo.chars| && d.redo.records != []
      && (r.insertLength != 0 ==> 0 <= r.charStorage && r.charStorage + r.insertLength <= undo.chars.Length)
      && undo.undos == d.undos + [UndoFor(r, d.text, used, free)]
      && undo.RedoView() == Side(d.redo.records[1..], d.redo.chars[r.insertLength..])
      && 0 <= free && undo.chars[free..] == d.redo.chars
      && text == d.text[..r.where] + CharsFor(r) + d.text[r.where + r.deleteLength..]
      && cursor == r.where + r.insertLength
    }

    // The steps of stb_text_redo for r, the topmost redo record.
    method RedoFirst(r: Record, ghost d: Desk)
      requires undo.UndoSide() && d == Actual() && undo.redoPoint < undo.records.Length
      requires r == undo.records[undo.redoPoint] && RedoInBounds()
      modifies this`text, this`cursor, undo, undo.records, undo.chars
      ensures undo.UndoSide() && undo.redos == old(undo.redos) && CarriedOut(r, d) && 0 <= cursor
    {
      hide Added, UndoRecords, RedoRecords, UndoFor, Orderly;
      ghost var u := UndoFor(r, text, undo.undoCharPoint, undo.redoCharPoint);
      undo.StoreUndo(r, text);
      Carry(r);
      assert undo.RedoView().records[1..] == d.redo.records[1..] && undo.RedoView().chars == d.redo.chars;
      undo.GiveUpRedo(r.insertLength, u);
      cursor := r.where + r.insertLength;
    }

    // If its characters lie in the redo half, that is the redo of a desk.
    lemma CarriedOutIs(r: Record, d: Desk)
      requires undo.Bounds() && CarriedOut(r, d) && d.redo.records[0] == r && RedoableDesk(d, undo.Cap())
      ensures Actual() == RedoDesk(d, undo.Cap())
    {
      hide Added, UndoRecords, RedoRecords;
      HeldIs(r, d);
    }

    lemma HeldIs(r: Record, d: Desk)
      requires undo.Bounds() && CarriedOut(r, d) && d.redo.records[0] == r && RedoableDesk(d, undo.Cap())
      ensures Held(d.redo, d.text, undo.chars.Length) == Edit(r.where, r.deleteLength, CharsFor(r))
    {
      hide Added, Orderly, UndoFor;
      var free := undo.chars.Length - |d.redo.chars|;
      if r.insertLength != 0 {
        var from := r.charStorage - free;
        assert undo.chars[free..][from..from + r.insertLength] == CharsFor(r);
      }
    }

    // The undo records lead on back if what was carried out is recorded.
    lemma CarriedOutRecorded(r: Record, d: Desk, before: seq<string>)
      requires undo.Bounds() && CarriedOut(r, d) && Rewinds(d.text, d.undos, before)
      ensures Rewinds(text, undo.undos, before + [d.text]) <==>
              || RoomFor(r, |Added(d.undos)|, undo.chars.Length - |d.redo.chars|)
              || d.text[r.where..r.where + r.deleteLength] == CharsFor(r)
    {
      hide Added, Rewinds, Orderly;
      var room := RoomFor(r, |Added(d.undos)|, undo.chars.Length - |d.redo.chars|);
      RecordedIff(d.text, d.undos, before, Edit(r.where, r.deleteLength, CharsFor(r)),
                  undo.undos[|d.undos|], room);
    }

    // What is left of the redo half stands for the rest of the redo stack, or a slot stays free.
    lemma CarriedOutLeaves(r: Record, d: Desk, rs: seq<Edit>)
      requires undo.UndoSide() && CarriedOut(r, d) && d.redo.records[0] == r
      requires d.redo == Orderly(rs, undo.chars.Length) || Gap(d, undo.Cap())
      ensures
        || (rs != [] && undo.RedoView() == Orderly(rs[1..], undo.chars.Length))
        || Gap(Actual(), undo.Cap())
    {
      hide Added, UndoRecords, RedoRecords;
      if d.redo == Orderly(rs, undo.chars.Length) {
        RecordTop(r, rs);
        OrderlyTop(rs, d.text, undo.chars.Length);
      }
    }

    lemma RecordTop(r: Record, rs: seq<Edit>)
      requires Orderly(rs, undo.chars.Length).records != [] && r == Orderly(rs, undo.chars.Length).records[0]
      ensures rs != [] && SaysTo(r, rs[0])
    {
      hide Added;
    }

    /** stb_text_redo as long as it stays inside the text and the buffers: the topmost record is
        carried out and recorded. The undo records go on leading back exactly if there was room to
        record it or it changed nothing. When redoing can be trusted this is the step of a history. */
    method Redo()
      requires Usable() && RedoInBounds()
      modifies this`text, this`past, this`future, this`cursor, undo, undo.records, undo.chars
      ensures Usable()
      ensures old(undo.redoPoint) == undo.records.Length ==> Now() == old(Now()) && cursor == old(cursor)
      ensures old(undo.redoPoint) < undo.records.Length ==> CarriedOut(old(undo.records[undo.redoPoint]), old(Actual()))
      ensures old(RedoableDesk(Actual(), undo.Cap())) ==> Actual() == RedoDesk(old(Actual()), undo.Cap())
      ensures old(Editable()) && old(undo.redoPoint) < undo.records.Length ==>
                var r := old(undo.records[undo.redoPoint]);
                Editable() <==>
                RoomFor(r, old(undo.undoCharPoint), old(undo.redoCharPoint)) ||
                old(text)[r.where..r.where + r.deleteLength] == CharsFor(r)
      ensures old(Sound()) ==> Sound() && Now() == Redone(old(Now()))
      ensures
        var rs, t := old(undo.redos), old(text);
        old(Sound()) && rs != [] ==>
          && rs[0].where + rs[0].remove <= |t| && old(future) != []
          && text == old(future)[0] && future == old(future)[1..] && past == old(past) + [t] && undo.redos == rs[1..]
          && undo.undos == old(undo.undos)
                           + [Edit(rs[0].where, |rs[0].add|, t[rs[0].where..rs[0].where + rs[0].remove])]
    {
      hide Added, Rewinds, Replays, UndoRecords, RedoRecords, RedoDesk, RedoableDesk, RoomToRedo, RoomAhead, Redone,
        CarriedOut, Orderly, Gap, Fitting, UndoFor, RoomFor, Apply, Applies;
      ghost var s, d, cap := Now(), Actual(), undo.Cap();
      UsableMeans(d, s.redos);
      if undo.redoPoint == undo.records.Length {
        NothingRedone(s, d, cap);
        return;
      }
      var r := undo.records[undo.redoPoint];
      ghost var sound, editable := Sound(), Editable();
      if sound {
        SoundFits();
      }
      undo.Claim(if s.redos == [] then [] else s.redos[1..]);
      past, future := past + [s.text], if future == [] then [] else future[1..];
      RedoFirst(r, d);
      CarriedOutLeaves(r, d, s.redos);
      UsableFrom();
      if RedoableDesk(d, cap) {
        CarriedOutIs(r, d);
      }
      if sound {
        AfterRedo(s);
        StepsMove(s);
      }
      if editable {
        CarriedOutRecorded(r, d, s.past);
      }
    }

    lemma SoundFits()
      requires Sound()
      ensures Faithful(Now()) && Fits(Now(), undo.Cap()) && Actual() == DeskOf(Now(), undo.Cap())
      ensures RedoableDesk(Actual(), undo.Cap()) && undo.Bounds()
    {
      hide Added, Rewinds, Replays, UndoRecords, RedoRecords, RoomAhead, RedoableDesk;
      RedoDeskIs(Now(), undo.Cap());
    }

    lemma AfterRedo(s: Session)
      requires Faithful(s) && Fits(s, undo.Cap()) && s.redos != [] && undo.UndoSide()
      requires RedoableDesk(DeskOf(s, undo.Cap()), undo.Cap())
      requires Actual() == RedoDesk(DeskOf(s, undo.Cap()), undo.Cap()) && undo.redos == s.redos[1..]
      requires past == s.past + [s.text] && future == if s.future == [] then [] else s.future[1..]
      ensures Now() == Redone(s) && Rewinds(text, undo.undos, past) && Replays(text, undo.redos, future) && undo.Valid()
    {
      hide Added, Rewinds, Replays, UndoRecords, RedoRecords, RoomAhead, Redone, RedoDesk, RedoableDesk, RoomToRedo;
      RedoDeskIs(s, undo.Cap());
      RedoneFaithful(s, undo.Cap());
      RedoneIs(s);
    }

    lemma NothingRedone(s: Session, d: Desk, cap: Capacity)
      requires d.redo.records == []
      ensures RedoDesk(d, cap) == d && (s.redos == [] ==> Redone(s) == s)
    {
    }

    lemma RedoneIs(s: Session)
      requires Replays(s.text, s.redos, s.future) && s.redos != []
      ensures s.future != [] && Redone(s).past == s.past + [s.text] && Redone(s).future == s.future[1..]
      ensures Redone(s).redos == s.redos[1..]
    {
    }

    // The four pointers and what is live in the two buffers.
    twostate predicate LiveAsBefore()
      requires old(undo.Bounds()) && undo.Bounds()
      reads undo, undo.records, undo.chars
    {
      && undo.undoPoint == old(undo.undoPoint) && undo.redoPoint == old(undo.redoPoint)
      && undo.undoCharPoint == old(undo.undoCharPoint) && undo.redoCharPoint == old(undo.redoCharPoint)
      && undo.records[..undo.undoPoint] == old(undo.records[..undo.undoPoint])
      && undo.records[undo.redoPoint..] == old(undo.records[undo.redoPoint..])
      && undo.chars[..undo.undoCharPoint] == old(undo.chars[..undo.undoCharPoint])
      && undo.chars[undo.redoCharPoint..] == old(undo.chars[undo.redoCharPoint..])
    }

    twostate lemma SameStacks()
      requires old(undo.Valid()) && undo.Valid() && undo.undos == old(undo.undos) && undo.redos == old(undo.redos)
      ensures LiveAsBefore()
    {
      hide Added, UndoRecords, RedoRecords, RoomAhead;
      assert undo.RedoView() == old(undo.RedoView());
      assert |undo.RedoView().records| == undo.records.Length - undo.redoPoint;
      assert |undo.RedoView().chars| == undo.chars.Length - undo.redoCharPoint;
    }

    /** An undo that finds room, and a redo: the text, all pointers and everything live in both
        buffers are as before. */
    method UndoThenRedo()
      requires Sound() && undo.undos != [] && RoomToUndo(Now(), undo.Cap())
      modifies this`text, this`past, this`future, this`cursor, undo, undo.records, undo.chars
      ensures Sound() && Now() == old(Now()) && LiveAsBefore()
    {
      hide Added, Rewinds, Replays, UndoRecords, RedoRecords, RoomAhead, Undone, Redone, RoomToUndo, UndoDesk, Undoable,
        UndoState.UndoSide, UndoState.RedoSide, Stuck, CarriedOut, RedoDesk, RoomToRedo, Fits;
      ghost var s := Now();
      SoundFits();
      UndoDeskIs(s, undo.Cap());
      UndoneFaithful(s, undo.Cap());
      RoomSurvives(s, undo.Cap());
      Undo();
      SoundFits();
      RedoableInBounds();
      Redo();
      UndoRedoInverse(s);
      SameStacks();
    }

    lemma RoomSurvives(s: Session, cap: Capacity)
      ensures RoomToUndo(s, cap) ==> RedoSurvives(s, cap)
    {
    }

    lemma RedoCharsAre()
      requires undo.Bounds()
      ensures undo.RedoSide() ==> RedoChars(Now(), undo.Cap()) == undo.redoCharPoint
    {
      hide Added, RedoRecords;
      assert |undo.RedoView().chars| == undo.chars.Length - undo.redoCharPoint;
    }

    lemma RedoableInBounds()
      requires undo.Bounds() && RedoableDesk(Actual(), undo.Cap())
      ensures RedoInBounds()
    {
      assert undo.redoPoint < undo.records.Length ==>
          undo.RedoView().records[0] == undo.records[undo.redoPoint];
    }
  }
}
