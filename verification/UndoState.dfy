/**
 StbUndoState of third-party/imgui/imstb_textedit.h: two stacks growing towards each other
 in one record array, their texts growing towards each other in one character array.
 */
module UndoBuffers {
  import opened UndoLog
  import opened RedoSides

  class UndoState {
    // undo_rec and undo_char
    const records: array<Record>
    const chars: array<char>
    var undoPoint: int
    var redoPoint: int
    var undoCharPoint: int
    var redoCharPoint: int
    // The stacks the buffers stand for.
    ghost var undos: seq<Edit>
    ghost var redos: seq<Edit>

    ghost function Cap(): Capacity {
      Capacity(records.Length, chars.Length)
    }

    // The two regions of each array never overlap.
    ghost predicate Bounds()
      reads this
    {
      && 1 <= records.Length && 1 <= chars.Length
      && 0 <= undoPoint <= redoPoint <= records.Length
      && 0 <= undoCharPoint <= redoCharPoint <= chars.Length
    }

    ghost predicate UndoSide()
      reads this, records, chars
    {
      && Bounds()
      && undoPoint == |undos| && records[..undoPoint] == UndoRecords(undos)
      && undoCharPoint == |Added(undos)| && chars[..undoCharPoint] == Added(undos)
    }

    // The redo half as it is.
    ghost function RedoView(): Side
      requires Bounds()
      reads this, records, chars
    {
      Side(records[redoPoint..], chars[redoCharPoint..])
    }

    ghost predicate RedoSide()
      reads this, records, chars
    {
      Bounds() && RedoView() == Orderly(redos, chars.Length)
    }

    ghost predicate Valid()
      reads this, records, chars
    {
      UndoSide() && RedoSide() && RoomAhead(undoCharPoint, redoCharPoint, redos)
    }

    lemma Sizes()
      requires UndoSide()
      ensures 1 <= records.Length && 1 <= chars.Length && |undos| <= records.Length && |Added(undos)| <= chars.Length
    {
    }

    constructor Clear(records: nat, chars: nat)
      requires 1 <= records && 1 <= chars
      ensures Valid() && undos == [] && redos == [] && Cap() == Capacity(records, chars)
      ensures fresh(this.records) && fresh(this.chars)
    {
      this.records := new Record[records](i => Record(0, 0, 0, -1));
      this.chars := new char[chars](i => ' ');
      undoPoint, undoCharPoint, redoPoint, redoCharPoint := 0, 0, records, chars;
      undos, redos := [], [];
    }

    // The redo half is from now on to stand for rs.
    ghost method Claim(rs: seq<Edit>)
      requires UndoSide()
      modifies this`redos
      ensures UndoSide() && redos == rs && RedoView() == old(RedoView())
      ensures RedoSide() <==> RedoView() == Orderly(rs, chars.Length)
    {
      redos := rs;
    }

    // stb_textedit_flush_redo
    method FlushRedo()
      requires UndoSide()
      modifies this`redoPoint, this`redoCharPoint, this`redos
      ensures Valid() && redos == []
    {
      redoPoint := records.Length;
      redoCharPoint := chars.Length;
      redos := [];
    }

    // memmove within undo_char and undo_rec
    method MoveChars(to: nat, from: nat, n: nat)
      requires to + n <= chars.Length && from + n <= chars.Length
      modifies chars
      ensures forall i :: 0 <= i < to || to + n <= i < chars.Length ==> chars[i] == old(chars[i])
      ensures chars[to..to + n] == old(chars[from..from + n])
    {
      forall i | to <= i < to + n {
        chars[i] := chars[i - to + from];
      }
    }

    method MoveRecords(to: nat, from: nat, n: nat)
      requires to + n <= records.Length && from + n <= records.Length
      modifies records
      ensures forall i :: 0 <= i < to || to + n <= i < records.Length ==> records[i] == old(records[i])
      ensures records[to..to + n] == old(records[from..from + n])
    {
      forall i | to <= i < to + n {
        records[i] := records[i - to + from];
      }
    }

    // The loops that save characters of the text.
    method CopyText(to: nat, text: string, from: nat, n: nat)
      requires to + n <= chars.Length && from + n <= |text|
      modifies chars
      ensures forall i :: 0 <= i < to || to + n <= i < chars.Length ==> chars[i] == old(chars[i])
      ensures chars[to..to + n] == text[from..from + n]
    {
      var i := 0;
      while i < n
        invariant 0 <= i <= n
        invariant forall j :: 0 <= j < to || to + i <= j < chars.Length ==> chars[j] == old(chars[j])
        invariant forall j :: to <= j < to + i ==> chars[j] == text[j - to + from]
      {
        chars[to + i] := text[from + i];
        i := i + 1;
      }
    }

    // The loop of both discards over the surviving records.
    method Relocate(from: nat, to: nat, shift: int)
      requires from <= to <= records.Length
      modifies records
      ensures forall i :: 0 <= i < from || to <= i < records.Length ==> records[i] == old(records[i])
      ensures records[from..to] == MovedAll(old(records[from..to]), shift)
    {
      var i := from;
      while i < to
        invariant from <= i <= to
        invariant forall j :: from <= j < i ==> records[j] == Moved(old(records[j]), shift)
        invariant forall j :: 0 <= j < from || i <= j < records.Length ==> records[j] == old(records[j])
      {
        if records[i].charStorage >= 0 {
          records[i] := records[i].(charStorage := records[i].charStorage + shift);
        }
        i := i + 1;
      }
    }

    // Takes the oldest undo record's text out of the character array.
    method DropOldestText(ghost e: Edit, ghost us: seq<Edit>)
      requires UndoSide() && undos == [e] + us
      modifies this`undoCharPoint, records, chars
      ensures undoCharPoint == |Added(us)| && undoCharPoint <= old(undoCharPoint) && chars[..undoCharPoint] == Added(us)
      ensures records[1..undoPoint] == UndoRecords(us)
      ensures forall i :: undoPoint <= i < records.Length ==> records[i] == old(records[i])
      ensures forall i :: old(undoCharPoint) <= i < chars.Length ==> chars[i] == old(chars[i])
    {
      hide Added, UndoRecords, RedoRecords;
      UndoWithoutOldest(e, us);
      assert records[0] == records[..undoPoint][0];
      if records[0].charStorage >= 0 {
        var n: int := records[0].insertLength;
        undoCharPoint := undoCharPoint - n;
        MoveChars(0, n, undoCharPoint);
        Relocate(0, undoPoint, -n);
      }
    }

    method DropOldestRecord(ghost us: seq<Edit>)
      requires 0 < undoPoint <= records.Length && records[1..undoPoint] == UndoRecords(us)
      modifies this`undoPoint, records
      ensures undoPoint == old(undoPoint) - 1 && records[..undoPoint] == UndoRecords(us)
      ensures forall i :: undoPoint < i < records.Length ==> records[i] == old(records[i])
    {
      hide Added, UndoRecords, RedoRecords;
      undoPoint := undoPoint - 1;
      MoveRecords(0, 1, undoPoint);
    }

    // stb_textedit_discard_undo
    method DiscardUndo()
      requires UndoSide()
      modifies this`undoPoint, this`undoCharPoint, this`undos, records, chars
      ensures UndoSide() && undos == if old(undos) == [] then [] else old(undos)[1..]
      ensures records[redoPoint..] == old(records[redoPoint..]) && chars[redoCharPoint..] == old(chars[redoCharPoint..])
    {
      hide Added, UndoRecords, RedoRecords;
      if undoPoint > 0 {
        ghost var us := undos[1..];
        DropOldestText(undos[0], us);
        DropOldestRecord(us);
        undos := us;
      }
    }

    // Takes the text of the redo record furthest away out of the character array.
    method DropFurthestText()
      requires Bounds() && redoPoint < records.Length && Droppable(RedoView())
      modifies this`redoCharPoint, records, chars
      ensures
        var k := records.Length - 1;
        var n := Stored(old(records[k]));
        && redoCharPoint == old(redoCharPoint) + n <= chars.Length
        && chars[redoCharPoint..] == old(chars[redoCharPoint..])[..chars.Length - redoCharPoint]
        && records[redoPoint..k] == MovedAll(old(records[redoPoint..k]), n)
      ensures forall i :: 0 <= i < redoPoint || i == records.Length - 1 ==> records[i] == old(records[i])
      ensures forall i :: 0 <= i < old(redoCharPoint) ==> chars[i] == old(chars[i])
    {
      var k := records.Length - 1;
      assert records[k] == records[redoPoint..][k - redoPoint];
      ghost var before := chars[redoCharPoint..];
      if records[k].charStorage >= 0 {
        var n := records[k].insertLength;
        redoCharPoint := redoCharPoint + n;
        assert before[..chars.Length - redoCharPoint] == chars[redoCharPoint - n..chars.Length - n];
        MoveChars(redoCharPoint, redoCharPoint - n, chars.Length - redoCharPoint);
        Relocate(redoPoint, k, n);
      } else {
        assert MovedAll(records[redoPoint..k], 0) == records[redoPoint..k];
        assert before[..chars.Length - redoCharPoint] == before;
      }
    }

    // Moves the redo records one slot up, over the last one; their lowest slot keeps its record.
    method ShiftRedo()
      requires Bounds() && redoPoint < records.Length
      modifies this`redoPoint, records
      ensures redoPoint == old(redoPoint) + 1
      ensures records[redoPoint..] == old(records[redoPoint..records.Length - 1])
      ensures forall i :: 0 <= i <= old(redoPoint) ==> records[i] == old(records[i])
    {
      MoveRecords(redoPoint + 1, redoPoint, records.Length - redoPoint - 1);
      redoPoint := redoPoint + 1;
    }

    // stb_textedit_discard_redo, as long as the record claims no more characters than there are.
    // The record slot given up still says what the next redo does.
    method DiscardRedo()
      requires Bounds() && Droppable(RedoView())
      modifies this`redoPoint, this`redoCharPoint, records, chars
      ensures Bounds() && old(redoCharPoint) <= redoCharPoint
      ensures RedoView() == if old(redoPoint) == records.Length then old(RedoView()) else WithoutOldest(old(RedoView()))
      ensures old(redoPoint) < records.Length ==>
                redoPoint == old(redoPoint) + 1 && Alike(records[old(redoPoint)], old(records[redoPoint]))
      ensures redoPoint < records.Length ==> Alike(records[redoPoint], old(records[redoPoint]))
      ensures forall i :: 0 <= i < old(redoPoint) ==> records[i] == old(records[i])
      ensures forall i :: 0 <= i < old(redoCharPoint) ==> chars[i] == old(chars[i])
    {
      hide MovedAll;
      var k := records.Length - 1;
      if redoPoint <= k {
        ghost var s, from := RedoView(), redoPoint;
        assert s.records[..k - from] == records[from..k] && s.records[k - from] == records[k];
        DropFurthestText();
        assert from < k ==> records[from] == records[from..k][0];
        ShiftRedo();
        assert from + 1 <= k ==> records[from + 1] == records[from + 1..][0];
      }
    }

    // The state between taking a slot for a new undo record and filling it in.
    ghost predicate Reserved(slot: int)
      reads this, records, chars
    {
      && Bounds() && RedoSide() && redos == []
      && slot == |undos| == undoPoint - 1 && records[..slot] == UndoRecords(undos)
      && undoCharPoint == |Added(undos)| && chars[..undoCharPoint] == Added(undos)
    }

    // stb_text_create_undo_record
    method CreateUndoRecord(n: nat) returns (slot: int)
      requires UndoSide()
      modifies this, records, chars
      ensures slot == -1 <==> chars.Length < n
      ensures slot == -1 ==> Valid() && undos == [] && redos == []
      ensures slot != -1 ==> Reserved(slot) && undos == Kept(old(undos), n, Cap()) && undoCharPoint + n <= chars.Length
    {
      hide Added, UndoRecords, RedoRecords;
      EmptyStacks(chars.Length);
      FlushRedo();
      if undoPoint == records.Length {
        DiscardUndo();
      }
      if n > chars.Length {
        undoPoint, undoCharPoint := 0, 0;
        undos := [];
        return -1;
      }
      while undoCharPoint + n > chars.Length
        invariant UndoSide() && RedoSide() && redos == [] && |undos| < records.Length
        invariant Dropped(undos, n, chars.Length) == Kept(old(undos), n, Cap())
        decreases |undos|
      {
        DiscardUndo();
      }
      slot := undoPoint;
      undoPoint := undoPoint + 1;
    }

    // The second half of stb_text_createundo: the new record, its text still to be filled in.
    method FillRecord(slot: int, pos: nat, insertLength: nat, deleteLength: nat) returns (p: int, ghost add: string)
      requires Reserved(slot) && undoCharPoint + insertLength <= chars.Length
      modifies this`undoCharPoint, this`undos, records
      ensures UndoSide() && RedoSide() && redos == []
      ensures |add| == insertLength && undos == old(undos) + [Edit(pos, deleteLength, add)]
      ensures p == if insertLength == 0 then -1 else undoCharPoint - insertLength
    {
      hide Added, UndoRecords, RedoRecords;
      EmptyStacks(chars.Length);
      records[slot] := Record(pos, insertLength, deleteLength, -1);
      p := -1;
      add := chars[undoCharPoint..undoCharPoint + insertLength];
      if insertLength != 0 {
        records[slot] := records[slot].(charStorage := undoCharPoint);
        p := undoCharPoint;
        undoCharPoint := undoCharPoint + insertLength;
      }
      UndoGrows(undos, Edit(pos, deleteLength, add));
      assert chars[..undoCharPoint] == old(chars[..undoCharPoint]) + add;
      assert records[..undoPoint] == records[..slot] + [records[slot]];
      undos := undos + [Edit(pos, deleteLength, add)];
    }

    // stb_text_createundo: the place of the text still to be filled in, or -1 for none
    method CreateUndo(pos: nat, insertLength: nat, deleteLength: nat) returns (p: int, ghost add: string)
      requires UndoSide()
      modifies this, records, chars
      ensures Valid() && redos == []
      ensures |add| == insertLength
      ensures undos == if insertLength > chars.Length then []
                       else Kept(old(undos), insertLength, Cap()) + [Edit(pos, deleteLength, add)]
      ensures p == if insertLength == 0 || chars.Length < insertLength then -1 else undoCharPoint - insertLength
    {
      hide Added, UndoRecords, RedoRecords;
      var slot := CreateUndoRecord(insertLength);
      if slot == -1 {
        return -1, seq(insertLength, i => ' ');
      }
      p, add := FillRecord(slot, pos, insertLength, deleteLength);
    }

    // The loop of makeundo_delete and makeundo_replace that saves the text.
    method SaveText(p: int, text: string, where: nat, n: nat)
      requires Valid() && redos == [] && undos != [] && 0 < n == |undos[|undos| - 1].add|
      requires p == undoCharPoint - n && where + n <= |text|
      modifies this`undos, chars
      ensures Valid() && redos == []
      ensures undos == old(undos)[..|undos| - 1] + [old(undos)[|undos| - 1].(add := text[where..where + n])]
    {
      hide Added, UndoRecords, RedoRecords;
      ghost var us, e := undos[..|undos| - 1], undos[|undos| - 1];
      ghost var e' := e.(add := text[where..where + n]);
      assert undos == us + [e];
      UndoGrows(us, e);
      UndoGrows(us, e');
      CopyText(p, text, where, n);
      undos := us + [e'];
    }

    // stb_text_makeundo_insert
    method MakeUndoInsert(where: nat, length: nat)
      requires UndoSide()
      modifies this, records, chars
      ensures Valid() && redos == [] && undos == Pushed(old(undos), Edit(where, length, []), Cap())
      ensures undos == old(undos)[if |old(undos)| == records.Length then 1 else 0..] + [Edit(where, length, [])]
    {
      hide Added, Kept, UndoRecords, RedoRecords;
      PushedBare(undos, Edit(where, length, []), Cap());
      ghost var add;
      var p;
      p, add := CreateUndo(where, 0, length);
    }

    // stb_text_makeundo_delete, and stb_text_makeundo_replace when newLength is not 0
    method MakeUndoReplace(text: string, where: nat, oldLength: nat, newLength: nat)
      requires UndoSide() && where + oldLength <= |text|
      modifies this, records, chars
      ensures Valid() && redos == []
      ensures undos == Pushed(old(undos), Edit(where, newLength, text[where..where + oldLength]), Cap())
      ensures chars.Length < oldLength ==> undos == []
      ensures oldLength <= chars.Length ==> exists k: nat ::
                && k <= |old(undos)|
                && undos == old(undos)[k..] + [Edit(where, newLength, text[where..where + oldLength])]
                && |undos| <= records.Length && |Added(old(undos)[k..])| + oldLength <= chars.Length
                && forall j :: 0 <= j < k ==>
                     records.Length < |old(undos)| - j + 1 || chars.Length < |Added(old(undos)[j..])| + oldLength
    {
      hide Added, Kept, UndoRecords, RedoRecords;
      ghost var e, kept := Edit(where, newLength, text[where..where + oldLength]), Kept(undos, oldLength, Cap());
      ghost var k := PushedLongest(undos, e, Cap());
      ghost var add;
      var p;
      p, add := CreateUndo(where, oldLength, newLength);
      UndoGrows(kept, Edit(where, newLength, add));
      if p != -1 {
        assert undos[..|undos| - 1] == kept;
        SaveText(p, text, where, oldLength);
        assert undos == kept + [e];
      } else if oldLength == 0 {
        assert add == e.add;
        assert undos == kept + [e];
      }
    }

    /** The loop of stb_text_undo that discards redo records until the text fits. It gives up
        (lines 1338-1340) exactly when the lengths stored in the records leave too many characters. */
    method MakeRoom(need: nat) returns (ok: bool)
      requires Bounds() && undoCharPoint + need < chars.Length
      requires InBounds(RedoView(), chars.Length - undoCharPoint - need)
      modifies this`redoPoint, this`redoCharPoint, records, chars
      ensures Bounds() && RedoView() == Discarded(old(RedoView()), chars.Length - undoCharPoint - need)
      ensures ok <==> undoCharPoint + need <= redoCharPoint
      ensures ok <==> |old(RedoView()).chars| - Total(old(RedoView()).records) <= chars.Length - undoCharPoint - need
      ensures old(redoPoint) <= redoPoint && old(redoCharPoint) <= redoCharPoint
      ensures ok ==> (redoPoint == old(redoPoint) <==> undoCharPoint + need <= old(redoCharPoint))
      ensures old(redoPoint) < redoPoint ==> Alike(records[redoPoint - 1], old(records[redoPoint]))
      ensures forall i :: 0 <= i < old(redoPoint) ==> records[i] == old(records[i])
      ensures forall i :: 0 <= i < old(redoCharPoint) ==> chars[i] == old(chars[i])
    {
      hide WithoutOldest, Total;
      ghost var keep := chars.Length - undoCharPoint - need;
      GivesUpIff(RedoView(), keep);
      while undoCharPoint + need > redoCharPoint
        invariant Bounds() && InBounds(RedoView(), keep)
        invariant Discarded(RedoView(), keep) == Discarded(old(RedoView()), keep)
        invariant old(redoPoint) <= redoPoint && old(redoCharPoint) <= redoCharPoint
        invariant redoPoint == old(redoPoint) ==> redoCharPoint == old(redoCharPoint)
        invariant old(redoPoint) < redoPoint ==>
                    undoCharPoint + need > old(redoCharPoint) && Alike(records[redoPoint - 1], old(records[redoPoint]))
        invariant redoPoint < records.Length ==> Alike(records[redoPoint], old(records[redoPoint]))
        invariant forall i :: 0 <= i < old(redoPoint) ==> records[i] == old(records[i])
        invariant forall i :: 0 <= i < old(redoCharPoint) ==> chars[i] == old(chars[i])
        decreases records.Length - redoPoint
      {
        if redoPoint == records.Length {
          return false;
        }
        DiscardRedo();
      }
      ok := true;
    }

    // The undo half is as it was.
    twostate predicate UndoHalfKept()
      requires old(Bounds()) && 0 < old(undoPoint)
      reads this, records, chars
    {
      && undoPoint == old(undoPoint) <= redoPoint <= records.Length
      && undoCharPoint == old(undoCharPoint) <= redoCharPoint <= chars.Length
      && (forall i :: 0 <= i < undoPoint - 1 ==> records[i] == old(records[i]))
      && (old(undoPoint < redoPoint) ==> records[undoPoint - 1] == old(records[undoPoint - 1]))
      && (forall i :: 0 <= i < undoCharPoint ==> chars[i] == old(chars[i]))
    }

    // Lines 1346-1351: n characters of the text are stored below the others, for the record below them.
    method PutRedoText(text: string, where: nat, n: nat)
      requires Bounds() && 0 < redoPoint && undoCharPoint + n <= redoCharPoint && where + n <= |text|
      modifies this`redoCharPoint, records, chars
      ensures redoCharPoint == old(redoCharPoint) - n
      ensures records[redoPoint - 1..] ==
              [old(records[redoPoint - 1]).(charStorage := redoCharPoint)] + old(records[redoPoint..])
      ensures chars[redoCharPoint..] == text[where..where + n] + old(chars[redoCharPoint..])
      ensures forall i :: 0 <= i < redoPoint - 1 ==> records[i] == old(records[i])
      ensures forall i :: 0 <= i < redoCharPoint ==> chars[i] == old(chars[i])
    {
      var r := redoPoint - 1;
      redoCharPoint := redoCharPoint - n;
      records[r] := records[r].(charStorage := redoCharPoint);
      CopyText(redoCharPoint, text, where, n);
      assert records[r..] == [records[r]] + records[r + 1..];
      assert chars[redoCharPoint..] == chars[redoCharPoint..redoCharPoint + n] + chars[redoCharPoint + n..];
    }

    // Lines 1334-1351: the characters u takes out are kept for redoing.
    method StoreRedoText(text: string, where: nat, n: nat, ghost u: Edit, ghost s: Side) returns (ok: bool)
      requires where == u.where && n == u.remove
      requires Bounds() && 0 < undoPoint && Applies(u, text) && 0 < n && undoCharPoint + n < chars.Length
      requires s == RedoView() && ClearsInBounds(u, s, undoCharPoint, chars.Length)
      requires records[redoPoint - 1] == Record(u.where, u.remove, |u.add|, -1)
      modifies this`redoPoint, this`redoCharPoint, records, chars
      ensures UndoHalfKept() && (ok <==> !GivesUp(u, s, undoCharPoint, chars.Length))
      ensures old(undoPoint - 1 < redoPoint - 1) ==> records[undoPoint - 1] == old(records[undoPoint - 1])
      ensures !ok ==> RedoView() == Cleared(u, s, undoCharPoint, chars.Length)
      ensures ok ==>
                Side(records[redoPoint - 1..], chars[redoCharPoint..]) == Saved(u, text, s, undoCharPoint, chars.Length)
    {
      hide Discarded, InBounds, Total;
      NoNeed(s, chars.Length - undoCharPoint - n);
      ok := MakeRoom(n);
      if !ok {
        return;
      }
      assert old(redoPoint) < redoPoint ==> s.records[0] == old(records[redoPoint]);
      PutRedoText(text, where, n);
    }

    // The first half of stb_text_undo: the redo record for u.
    method StoreRedo(r: Record, text: string, ghost u: Edit) returns (ok: bool)
      requires Bounds() && 0 < undoPoint && SaysTo(r, u) && Applies(u, text)
      requires ClearsInBounds(u, RedoView(), undoCharPoint, chars.Length)
      modifies this`redoPoint, this`redoCharPoint, records, chars
      ensures UndoHalfKept() && (ok <==> !GivesUp(u, old(RedoView()), undoCharPoint, chars.Length))
      ensures !ok ==> RedoView() == Cleared(u, old(RedoView()), undoCharPoint, chars.Length)
      ensures ok ==>
                Side(records[redoPoint - 1..], chars[redoCharPoint..]) ==
                Saved(u, text, old(RedoView()), undoCharPoint, chars.Length)
    {
      hide Discarded, InBounds;
      ghost var s := RedoView();
      records[redoPoint - 1] := Record(r.where, r.deleteLength, r.insertLength, -1);
      assert RedoView() == s;
      if r.deleteLength != 0 {
        if undoCharPoint + r.deleteLength >= chars.Length {
          records[redoPoint - 1] := records[redoPoint - 1].(insertLength := 0);
        } else {
          ok := StoreRedoText(text, r.where, r.deleteLength, u, s);
          return;
        }
      }
      ok := true;
      assert records[redoPoint - 1..] == [records[redoPoint - 1]] + records[redoPoint..];
    }

    // The last steps of stb_text_undo.
    method GiveUpUndo(n: nat, ghost u: Edit, ghost us: seq<Edit>)
      requires undoPoint == |us| + 1 && n == |u.add| && undoCharPoint == |Added(us)| + |u.add|
      requires undoPoint <= redoPoint <= records.Length && undoCharPoint <= redoCharPoint <= chars.Length
      requires 1 <= chars.Length && records[..|us|] == UndoRecords(us) && chars[..undoCharPoint] == Added(us) + u.add
      modifies this`undoPoint, this`redoPoint, this`undoCharPoint, this`undos
      ensures UndoSide() && undos == us && RedoView() == Side(records[old(redoPoint) - 1..], chars[redoCharPoint..])
    {
      hide Added, UndoRecords;
      undoCharPoint := undoCharPoint - n;
      undoPoint := undoPoint - 1;
      redoPoint := redoPoint - 1;
      undos := us;
    }

    // The first half of stb_text_redo: the undo record for r.
    method StoreUndo(r: Record, text: string)
      requires UndoSide() && redoPoint < records.Length && r.where + r.deleteLength <= |text|
      modifies this`undoCharPoint, records, chars
      ensures
        var us := undos + [UndoFor(r, text, old(undoCharPoint), redoCharPoint)];
        && undoPoint < records.Length && records[..undoPoint + 1] == UndoRecords(us)
        && 0 <= undoCharPoint == |Added(us)| <= redoCharPoint && chars[..undoCharPoint] == Added(us)
      ensures forall i :: redoPoint < i < records.Length ==> records[i] == old(records[i])
      ensures forall i :: redoCharPoint <= i < chars.Length ==> chars[i] == old(chars[i])
    {
      hide Added, UndoRecords;
      UndoGrows(undos, UndoFor(r, text, undoCharPoint, redoCharPoint));
      var u := Record(r.where, r.deleteLength, r.insertLength, -1);
      if r.deleteLength != 0 {
        if undoCharPoint + u.insertLength > redoCharPoint {
          u := u.(insertLength := 0, deleteLength := 0);
        } else {
          u := u.(charStorage := undoCharPoint);
          CopyText(undoCharPoint, text, u.where, u.insertLength);
          undoCharPoint := undoCharPoint + u.insertLength;
        }
      }
      records[undoPoint] := u;
    }

    // The last steps of stb_text_redo.
    method GiveUpRedo(n: nat, ghost u: Edit)
      requires Bounds() && redoPoint < records.Length && redoCharPoint + n <= chars.Length && undoPoint == |undos|
      requires var us := undos + [u];
        && records[..undoPoint + 1] == UndoRecords(us)
        && undoCharPoint == |Added(us)| && chars[..undoCharPoint] == Added(us)
      modifies this`undoPoint, this`redoPoint, this`redoCharPoint, this`undos
      ensures UndoSide() && undos == old(undos) + [u] && redoPoint == old(redoPoint) + 1
      ensures redoCharPoint == old(redoCharPoint) + n
      ensures RedoView() == Side(old(RedoView()).records[1..], old(RedoView()).chars[n..])
    {
      hide Added, UndoRecords;
      redoCharPoint := redoCharPoint + n;
      undoPoint := undoPoint + 1;
      redoPoint := redoPoint + 1;
      undos := undos + [u];
    }
  }
}
