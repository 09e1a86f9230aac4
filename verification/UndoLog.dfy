/**
 The undo engine of third-party/imgui/imstb_textedit.h as values: what the live part of its
 two buffers holds for a given pair of undo and redo stacks, and what the stacks mean as a
 history of texts.
 */
module UndoLog {

  // An undo or redo record together with the text stored for it: at where, take out remove
  // characters and put add in their place.
  datatype Edit = Edit(where: nat, remove: nat, add: string)

  // StbUndoRecord; positions and lengths are never negative
  datatype Record = Record(where: nat, insertLength: nat, deleteLength: nat, charStorage: int)

  // UNDOSTATECOUNT and UNDOCHARCOUNT
  datatype Capacity = Capacity(records: nat, chars: nat)

  // --- Where records and their texts are kept ----------------------------------------------

  // The stored texts one after the other.
  function Added(es: seq<Edit>): string {
    if es == [] then [] else Added(es[..|es| - 1]) + es[|es| - 1].add
  }

  lemma {:induction false} AddedSplit(es: seq<Edit>, k: nat)
    requires k <= |es|
    ensures Added(es) == Added(es[..k]) + Added(es[k..])
  {
    var n := |es| - 1;
    if k == |es| {
      assert es[..k] == es && es[k..] == [];
    } else {
      AddedSplit(es[..n], k);
      assert es[..n][..k] == es[..k] && es[..n][k..] == es[k..][..n - k];
    }
  }

  lemma AddedOne(e: Edit)
    ensures Added([e]) == e.add
  {
    assert [e][..0] == [];
  }

  lemma AddedFirst(es: seq<Edit>)
    requires es != []
    ensures Added(es) == es[0].add + Added(es[1..])
  {
    AddedSplit(es, 1);
    AddedOne(es[0]);
    assert es[..1] == [es[0]];
  }

  function RecordOf(e: Edit, storage: int): Record {
    Record(e.where, |e.add|, e.remove, if e.add == [] then -1 else storage)
  }

  // What the record does, wherever its text is kept.
  ghost predicate SaysTo(r: Record, e: Edit) {
    r.where == e.where && r.insertLength == |e.add| && r.deleteLength == e.remove
  }

  // Undo texts lie from 0 upward in record order.
  ghost function UndoRecords(us: seq<Edit>): (r: seq<Record>)
    ensures |r| == |us|
  {
    if us == [] then []
    else
      var older := us[..|us| - 1];
      UndoRecords(older) + [RecordOf(us[|us| - 1], |Added(older)|)]
  }

  // Redo texts lie against the end of the buffer, the next one to redo first.
  ghost function RedoRecords(rs: seq<Edit>, size: int): (r: seq<Record>)
    ensures |r| == |rs|
  {
    if rs == [] then [] else [RecordOf(rs[0], size - |Added(rs)|)] + RedoRecords(rs[1..], size)
  }

  // The adjustment both discards make to the surviving records.
  function Moved(r: Record, shift: int): Record {
    if r.charStorage >= 0 then r.(charStorage := r.charStorage + shift) else r
  }

  function MovedAll(rs: seq<Record>, shift: int): (r: seq<Record>)
    ensures |r| == |rs| && forall i :: 0 <= i < |rs| ==> r[i] == Moved(rs[i], shift)
  {
    seq(|rs|, i requires 0 <= i < |rs| => Moved(rs[i], shift))
  }

  lemma MovedCons(r: Record, rs: seq<Record>, shift: int)
    ensures MovedAll([r] + rs, shift) == [Moved(r, shift)] + MovedAll(rs, shift)
  {
  }

  lemma MovedSnoc(rs: seq<Record>, r: Record, shift: int)
    ensures MovedAll(rs + [r], shift) == MovedAll(rs, shift) + [Moved(r, shift)]
  {
  }

  lemma {:induction false} UndoWithoutOldest(e: Edit, us: seq<Edit>)
    ensures Added([e] + us) == e.add + Added(us)
    ensures UndoRecords([e] + us)[0] == RecordOf(e, 0)
    ensures MovedAll(UndoRecords([e] + us), -|e.add|) == [Moved(RecordOf(e, 0), -|e.add|)] + UndoRecords(us)
    decreases |us|
  {
    hide Added, UndoRecords;
    EmptyStacks(0);
    if us == [] {
      assert [e] + us == [] + [e];
      UndoGrows([], e);
    } else {
      var older, last := us[..|us| - 1], us[|us| - 1];
      UndoWithoutOldest(e, older);
      UndoGrows([e] + older, last);
      UndoGrows(older, last);
      MovedSnoc(UndoRecords([e] + older), RecordOf(last, |e.add| + |Added(older)|), -|e.add|);
      assert us == older + [last] && [e] + us == [e] + older + [last];
    }
  }

  lemma {:induction false} RedoRecordAt(rs: seq<Edit>, size: int, i: nat)
    requires i < |rs|
    ensures RedoRecords(rs, size)[i] == RecordOf(rs[i], size - |Added(rs[i..])|)
    decreases i
  {
    hide Added, RecordOf;
    if i == 0 {
      assert rs[0..] == rs;
    } else {
      RedoRecordAt(rs[1..], size, i - 1);
      assert rs[1..][i - 1..] == rs[i..];
    }
  }

  lemma MovedRecord(e: Edit, storage: nat, n: nat)
    ensures Moved(RecordOf(e, storage), n) == RecordOf(e, storage + n)
  {
  }

  lemma RedoWithoutOldest(rs: seq<Edit>, e: Edit, size: int)
    requires |Added(rs + [e])| <= size
    ensures Added(rs + [e]) == Added(rs) + e.add
    ensures RedoRecords(rs + [e], size)[|rs|] == RecordOf(e, size - |e.add|)
    ensures MovedAll(RedoRecords(rs + [e], size)[..|rs|], |e.add|) == RedoRecords(rs, size)
  {
    hide Added, RedoRecords, Moved, RecordOf;
    UndoGrows(rs, e);
    RedoRecordAt(rs + [e], size, |rs|);
    assert (rs + [e])[|rs|..] == [e];
    AddedOne(e);
    forall i | 0 <= i < |rs|
      ensures Moved(RedoRecords(rs + [e], size)[i], |e.add|) == RedoRecords(rs, size)[i]
    {
      RedoRecordAt(rs + [e], size, i);
      RedoRecordAt(rs, size, i);
      assert (rs + [e])[i..] == rs[i..] + [e];
      UndoGrows(rs[i..], e);
      AddedSplit(rs, i);
      MovedRecord(rs[i], size - |Added(rs[i..])| - |e.add|, |e.add|);
    }
  }

  lemma EmptyStacks(size: int)
    ensures Added([]) == [] && UndoRecords([]) == [] && RedoRecords([], size) == []
  {
  }

  lemma RedoFirst(rs: seq<Edit>, size: int)
    requires rs != []
    ensures SaysTo(RedoRecords(rs, size)[0], rs[0])
  {
  }

  lemma UndoGrows(us: seq<Edit>, e: Edit)
    ensures UndoRecords(us + [e]) == UndoRecords(us) + [RecordOf(e, |Added(us)|)]
    ensures Added(us + [e]) == Added(us) + e.add
  {
    assert (us + [e])[..|us|] == us;
  }

  lemma RedoGrows(e: Edit, rs: seq<Edit>, size: int)
    ensures RedoRecords([e] + rs, size) == [RecordOf(e, size - |Added(rs)| - |e.add|)] + RedoRecords(rs, size)
    ensures Added([e] + rs) == e.add + Added(rs)
  {
    AddedFirst([e] + rs);
    assert ([e] + rs)[1..] == rs;
  }

  /** Each undo record's text is found at its char_storage, right after the older texts. */
  lemma {:induction false} UndoTextAt(us: seq<Edit>, i: nat)
    requires i < |us|
    ensures
      var r := UndoRecords(us)[i];
      && SaysTo(r, us[i]) && r.charStorage == (if us[i].add == [] then -1 else |Added(us[..i])|)
      && |Added(us[..i])| + |us[i].add| <= |Added(us)|
      && Added(us)[|Added(us[..i])|..|Added(us[..i])| + |us[i].add|] == us[i].add
    decreases us
  {
    hide Added, UndoRecords;
    var n := |us| - 1;
    UndoGrows(us[..n], us[n]);
    assert us == us[..n] + [us[n]];
    if i < n {
      UndoTextAt(us[..n], i);
      assert us[..n][..i] == us[..i];
    }
  }

  /** Each redo record's text is found at its char_storage, right before those redone later. */
  lemma {:induction false} RedoTextAt(rs: seq<Edit>, size: int, i: nat)
    requires i < |rs|
    ensures
      var r, from := RedoRecords(rs, size)[i], |Added(rs)| - |Added(rs[i..])|;
      && SaysTo(r, rs[i]) && r.charStorage == (if rs[i].add == [] then -1 else size - |Added(rs[i..])|)
      && 0 <= from <= |Added(rs)| - |rs[i].add| && Added(rs)[from..from + |rs[i].add|] == rs[i].add
    decreases i
  {
    hide Added, RedoRecords;
    var e, rest := rs[0], rs[1..];
    RedoGrows(e, rest, size);
    assert rs == [e] + rest;
    if i == 0 {
      assert rs[0..] == rs && (e.add + Added(rest))[..|e.add|] == e.add;
    } else {
      RedoTextAt(rest, size, i - 1);
      assert rest[i - 1..] == rs[i..] && rest[i - 1] == rs[i];
      var from := |Added(rest)| - |Added(rs[i..])|;
      var to := from + |rs[i].add|;
      assert (e.add + Added(rest))[|e.add| + from..|e.add| + to] == Added(rest)[from..to];
    }
  }

  // --- Making room -----------------------------------------------------------------------------

  // Redoing one record after the other never runs into the characters not yet redone.
  ghost predicate RoomAhead(undoChars: int, redoChars: int, rs: seq<Edit>)
    decreases rs
  {
    rs != [] ==>
      && undoChars + rs[0].remove <= redoChars
      && RoomAhead(undoChars + rs[0].remove, redoChars + |rs[0].add|, rs[1..])
  }

  lemma {:induction false} RoomAheadWeaker(u: int, r: int, rs: seq<Edit>, u': int, r': int, k: nat)
    requires RoomAhead(u, r, rs) && u' <= u && r <= r' && k <= |rs|
    ensures RoomAhead(u', r', rs[..k])
    decreases k
  {
    if 0 < k {
      RoomAheadWeaker(u + rs[0].remove, r + |rs[0].add|, rs[1..], u' + rs[0].remove, r' + |rs[0].add|, k - 1);
      assert rs[..k][1..] == rs[1..][..k - 1];
    }
  }

  // The oldest records go until n more characters fit.
  ghost function Dropped(us: seq<Edit>, n: nat, size: int): seq<Edit> {
    if us == [] || |Added(us)| + n <= size then us else Dropped(us[1..], n, size)
  }

  // What a new record with n characters leaves of the undo stack.
  ghost function Kept(us: seq<Edit>, n: nat, cap: Capacity): seq<Edit> {
    Dropped(if us != [] && |us| == cap.records then us[1..] else us, n, cap.chars)
  }

  // The undo stack after a record.
  ghost function Pushed(us: seq<Edit>, e: Edit, cap: Capacity): seq<Edit> {
    if |e.add| > cap.chars then [] else Kept(us, |e.add|, cap) + [e]
  }

  ghost predicate FitsIn(us: seq<Edit>, n: nat, cap: Capacity) {
    |us| < cap.records && |Added(us)| + n <= cap.chars
  }

  lemma {:induction false} DroppedSuffix(us: seq<Edit>, n: nat, size: int) returns (k: nat)
    requires n <= size
    ensures k <= |us| && Dropped(us, n, size) == us[k..] && |Added(us[k..])| + n <= size
    ensures forall j :: 0 <= j < k ==> size < |Added(us[j..])| + n
  {
    assert us[0..] == us;
    if us == [] || |Added(us)| + n <= size {
      k := 0;
    } else {
      var i := DroppedSuffix(us[1..], n, size);
      k := i + 1;
      assert us[1..][i..] == us[k..];
      forall j | 0 <= j < k
        ensures size < |Added(us[j..])| + n
      {
        assert 0 < j ==> us[1..][j - 1..] == us[j..];
      }
    }
  }

  /** A record only shortens the history at its old end, and no more than it must. */
  lemma KeptLongest(us: seq<Edit>, n: nat, cap: Capacity) returns (k: nat)
    requires |us| <= cap.records && 1 <= cap.records && n <= cap.chars
    ensures k <= |us| && Kept(us, n, cap) == us[k..] && FitsIn(us[k..], n, cap)
    ensures forall j :: 0 <= j < k ==> !FitsIn(us[j..], n, cap)
  {
    if us != [] && |us| == cap.records {
      var i := DroppedSuffix(us[1..], n, cap.chars);
      k := i + 1;
      forall j | 0 <= j <= i
        ensures us[1..][j..] == us[j + 1..]
      {
      }
      forall j | 0 <= j < k
        ensures !FitsIn(us[j..], n, cap)
      {
        assert 0 < j ==> us[1..][j - 1..] == us[j..];
      }
    } else {
      k := DroppedSuffix(us, n, cap.chars);
    }
  }

  /** A new record that fits into an empty buffer is always kept, on top of the longest end of the
      history that leaves room for it and its characters; one that does not takes everything with it. */
  lemma PushedLongest(us: seq<Edit>, e: Edit, cap: Capacity) returns (k: nat)
    requires |us| <= cap.records && 1 <= cap.records
    ensures k <= |us|
    ensures |e.add| <= cap.chars ==>
              && Pushed(us, e, cap) == us[k..] + [e]
              && |us| - k + 1 <= cap.records && |Added(us[k..])| + |e.add| <= cap.chars
              && forall j :: 0 <= j < k ==> cap.records < |us| - j + 1 || cap.chars < |Added(us[j..])| + |e.add|
    ensures cap.chars < |e.add| ==> Pushed(us, e, cap) == []
  {
    hide Added, Kept;
    k := 0;
    if |e.add| <= cap.chars {
      k := KeptLongest(us, |e.add|, cap);
    }
  }

  // A record without characters costs no more than the oldest record.
  lemma PushedBare(us: seq<Edit>, e: Edit, cap: Capacity)
    requires |us| <= cap.records && 1 <= cap.records && |Added(us)| <= cap.chars && e.add == []
    ensures Pushed(us, e, cap) == us[if |us| == cap.records then 1 else 0..] + [e]
  {
    hide Added, Kept, Pushed;
    var k := PushedLongest(us, e, cap);
    var n := if |us| == cap.records then 1 else 0;
    assert us == us[0..];
    if us != [] {
      AddedSplit(us, 1);
    }
    assert us[n..] == us[k..];
  }

  // The oldest redo records go until at most n characters are left.
  ghost function Spared(rs: seq<Edit>, n: nat): seq<Edit> {
    if rs == [] || |Added(rs)| <= n then rs else Spared(rs[..|rs| - 1], n)
  }

  lemma {:induction false} SparedPrefix(rs: seq<Edit>, n: nat)
    ensures Spared(rs, n) <= rs
  {
    if rs != [] && n < |Added(rs)| {
      SparedPrefix(rs[..|rs| - 1], n);
    }
  }

  /** Of the redo records the longest beginning stays whose texts leave the room. */
  lemma {:induction false} SparedLongest(rs: seq<Edit>, n: nat) returns (k: nat)
    ensures k <= |rs| && Spared(rs, n) == rs[..k] && |Added(rs[..k])| <= n
    ensures forall j :: k < j <= |rs| ==> n < |Added(rs[..j])|
  {
    if rs == [] || |Added(rs)| <= n {
      k := |rs|;
      assert rs[..k] == rs;
    } else {
      k := SparedLongest(rs[..|rs| - 1], n);
      assert rs[..|rs| - 1][..k] == rs[..k];
      forall j | k < j <= |rs|
        ensures n < |Added(rs[..j])|
      {
        assert if j == |rs| then rs[..j] == rs else rs[..|rs| - 1][..j] == rs[..j];
      }
    }
  }

  // An undo finds room for the text it has to keep for redoing (lines 1319-1345).
  predicate FindsRoom(u: Edit, undoChars: int, redoChars: int, size: int) {
    u.remove == 0 || (undoChars + u.remove < size && undoChars + u.remove <= redoChars)
  }

  // It finds none even if every redo text goes.
  predicate NoSpace(u: Edit, undoChars: int, size: int) {
    0 < u.remove && size <= undoChars + u.remove
  }

  lemma {:induction false} SparedFits(rs: seq<Edit>, n: nat)
    ensures |Added(Spared(rs, n))| <= n && |Added(Spared(rs, n))| <= |Added(rs)|
  {
    if rs != [] && n < |Added(rs)| {
      SparedFits(rs[..|rs| - 1], n);
    }
  }

  // --- What edits mean --------------------------------------------------------------------------

  predicate Applies(e: Edit, t: string) {
    e.where + e.remove <= |t|
  }

  function Apply(e: Edit, t: string): string
    requires Applies(e, t)
  {
    t[..e.where] + e.add + t[e.where + e.remove..]
  }

  predicate Makes(e: Edit, t: string, t': string) {
    Applies(e, t) && Apply(e, t) == t'
  }

  // The edit that undoes e.
  function Inverse(e: Edit, t: string): Edit
    requires Applies(e, t)
  {
    Edit(e.where, |e.add|, t[e.where..e.where + e.remove])
  }

  // The redo record for u: its inverse, or what is left of it without space for its text.
  function RedoOwn(u: Edit, t: string, undoChars: int, size: int): Edit
    requires Applies(u, t)
  {
    if NoSpace(u, undoChars, size) then Edit(u.where, |u.add|, []) else Inverse(u, t)
  }

  // The redo records below it: those whose texts still fit.
  ghost function RedoRest(u: Edit, rs: seq<Edit>, undoChars: int, size: int): seq<Edit> {
    if u.remove == 0 || NoSpace(u, undoChars, size) then rs else Spared(rs, size - undoChars - u.remove)
  }

  // The edit whose position and lengths the topmost redo record carries. When redo records
  // had to be discarded it is still the old topmost one: line 1344 moves on to another slot
  // than the one written at 1315-1317.
  ghost function Described(u: Edit, t: string, rs: seq<Edit>, undoChars: int, redoChars: int, size: int): Edit
    requires Applies(u, t)
  {
    if FindsRoom(u, undoChars, redoChars, size) || NoSpace(u, undoChars, size) || rs == []
    then RedoOwn(u, t, undoChars, size) else rs[0]
  }

  // The edit the topmost redo record then stands for: its position and length of deletion, and
  // the characters stored last.
  ghost function RedoTop(u: Edit, t: string, rs: seq<Edit>, undoChars: int, redoChars: int, size: int): Edit
    requires Applies(u, t)
  {
    var first := Described(u, t, rs, undoChars, redoChars, size);
    Edit(first.where, first.remove, RedoOwn(u, t, undoChars, size).add)
  }

  // After undoing u, redoing has room if the topmost redo record e has the lengths it should.
  lemma RoomAfter(u: Edit, e: Edit, rs: seq<Edit>, undoChars: nat, redoChars: int, size: nat)
    requires |u.add| <= undoChars <= redoChars == size - |Added(rs)| && RoomAhead(undoChars, redoChars, rs)
    requires e.remove == |u.add| && |e.add| == if NoSpace(u, undoChars, size) then 0 else u.remove
    ensures
      var rest := RedoRest(u, rs, undoChars, size);
      RoomAhead(undoChars - |u.add|, size - |Added(rest)| - |e.add|, [e] + rest)
  {
    hide Added, Spared;
    var rest := RedoRest(u, rs, undoChars, size);
    assert ([e] + rest)[1..] == rest && ([e] + rest)[0] == e;
    if 0 < u.remove && !NoSpace(u, undoChars, size) {
      var n := size - undoChars - u.remove;
      SparedPrefix(rs, n);
      SparedFits(rs, n);
      assert rest == rs[..|rest|];
      RoomAheadWeaker(undoChars, redoChars, rs, undoChars, size - |Added(rest)|, |rest|);
    }
  }

  /** An edit's inverse takes the text back, and the inverse's inverse is the edit. */
  lemma InverseUndoes(e: Edit, t: string)
    requires Applies(e, t)
    ensures Applies(Inverse(e, t), Apply(e, t))
    ensures Apply(Inverse(e, t), Apply(e, t)) == t
    ensures Inverse(Inverse(e, t), Apply(e, t)) == e
  {
    var r := Apply(e, t);
    assert r[..e.where] == t[..e.where];
    assert r[e.where..e.where + |e.add|] == e.add;
    assert r[e.where + |e.add|..] == t[e.where + e.remove..];
    assert t == t[..e.where] + t[e.where..e.where + e.remove] + t[e.where + e.remove..];
  }

  // Applying the undo records newest to oldest to t reproduces past backwards.
  ghost predicate Rewinds(t: string, us: seq<Edit>, past: seq<string>)
    decreases us
  {
    && |us| == |past|
    && (us != [] ==>
          var n := |us| - 1;
          && Applies(us[n], t) && Apply(us[n], t) == past[n]
          && Rewinds(past[n], us[..n], past[..n]))
  }

  // Applying the redo records in order to t reproduces future.
  ghost predicate Replays(t: string, rs: seq<Edit>, future: seq<string>)
    decreases rs
  {
    && |rs| == |future|
    && (rs != [] ==>
          && Applies(rs[0], t) && Apply(rs[0], t) == future[0]
          && Replays(future[0], rs[1..], future[1..]))
  }

  lemma {:induction false} RewindsLess(t: string, us: seq<Edit>, past: seq<string>, k: nat)
    requires Rewinds(t, us, past) && k <= |us|
    ensures |us| == |past| && Rewinds(t, us[k..], past[k..])
    decreases us
  {
    if k < |us| {
      var n := |us| - 1;
      RewindsLess(past[n], us[..n], past[..n], k);
      assert us[k..][..n - k] == us[..n][k..] && past[k..][..n - k] == past[..n][k..];
    }
  }

  lemma RewindsLength(t: string, us: seq<Edit>, past: seq<string>)
    requires Rewinds(t, us, past)
    ensures |us| == |past|
  {
  }

  lemma NoHistory(t: string)
    ensures Rewinds(t, [], []) && Replays(t, [], [])
  {
  }

  lemma RewindsSnoc(t': string, e: Edit, t: string, us: seq<Edit>, past: seq<string>)
    requires Applies(e, t') && Apply(e, t') == t && Rewinds(t, us, past)
    ensures Rewinds(t', us + [e], past + [t])
  {
    hide Apply;
    assert (us + [e])[..|us|] == us && (past + [t])[..|past|] == past;
  }

  lemma {:induction false} ReplaysLess(t: string, rs: seq<Edit>, future: seq<string>, k: nat)
    requires Replays(t, rs, future) && k <= |rs|
    ensures Replays(t, rs[..k], future[..k])
    decreases k
  {
    if 0 < k {
      ReplaysLess(future[0], rs[1..], future[1..], k - 1);
      assert rs[..k][1..] == rs[1..][..k - 1] && future[..k][1..] == future[1..][..k - 1];
    }
  }

  // --- The history of texts ---------------------------------------------------------------------

  // The text, the two stacks, and the texts actually held before and after it.
  datatype Session = Session(text: string, undos: seq<Edit>, redos: seq<Edit>, past: seq<string>, future: seq<string>)

  // The undo records lead back through past, the redo records forth through future.
  ghost predicate Faithful(s: Session) {
    Rewinds(s.text, s.undos, s.past) && Replays(s.text, s.redos, s.future)
  }

  ghost function UndoChars(s: Session): nat {
    |Added(s.undos)|
  }

  ghost function RedoChars(s: Session, cap: Capacity): int {
    cap.chars - |Added(s.redos)|
  }

  // Both stacks fit, and redoing will find room all the way.
  ghost predicate Fits(s: Session, cap: Capacity) {
    && |s.undos| + |s.redos| <= cap.records && UndoChars(s) <= RedoChars(s, cap)
    && RoomAhead(UndoChars(s), RedoChars(s, cap), s.redos)
  }

  // A change of the text to t', undone by e.
  ghost function Recorded(s: Session, e: Edit, t': string, cap: Capacity): Session {
    var us := Pushed(s.undos, e, cap);
    var texts := s.past + [s.text];
    Session(t', us, [], if |us| <= |texts| then texts[|texts| - |us|..] else texts, [])
  }

  // The characters [a, b) are deleted, x is inserted at c, x takes the place of the character at
  // c; the record of the last takes x to be one character.
  ghost function Removed(s: Session, a: nat, b: nat, cap: Capacity): Session
    requires a <= b <= |s.text|
  {
    Recorded(s, Edit(a, 0, s.text[a..b]), s.text[..a] + s.text[b..], cap)
  }

  ghost function Inserted(s: Session, c: nat, x: string, cap: Capacity): Session
    requires c <= |s.text|
  {
    Recorded(s, Edit(c, |x|, []), s.text[..c] + x + s.text[c..], cap)
  }

  ghost function Replaced(s: Session, c: nat, x: string, cap: Capacity): Session
    requires c < |s.text|
  {
    Recorded(s, Edit(c, 1, [s.text[c]]), s.text[..c] + x + s.text[c + 1..], cap)
  }

  lemma RemovedFaithful(s: Session, a: nat, b: nat, cap: Capacity)
    requires Rewinds(s.text, s.undos, s.past) && |s.undos| <= cap.records && 1 <= cap.records && a <= b <= |s.text|
    ensures var s' := Removed(s, a, b, cap); Faithful(s') && Fits(s', cap)
  {
    var e, t' := Edit(a, 0, s.text[a..b]), s.text[..a] + s.text[b..];
    assert Apply(e, t') == s.text;
    RecordedFaithful(s, e, t', cap);
  }

  lemma InsertedFaithful(s: Session, c: nat, x: string, cap: Capacity)
    requires Rewinds(s.text, s.undos, s.past) && |s.undos| <= cap.records && 1 <= cap.records && c <= |s.text|
    ensures var s' := Inserted(s, c, x, cap); Faithful(s') && Fits(s', cap)
  {
    var e, t' := Edit(c, |x|, []), s.text[..c] + x + s.text[c..];
    assert Apply(e, t') == s.text;
    RecordedFaithful(s, e, t', cap);
  }

  /** The record of an overwriting leads back to the text before exactly if one character took
      the place of one. */
  lemma ReplacedFaithful(s: Session, c: nat, x: string, cap: Capacity)
    requires Rewinds(s.text, s.undos, s.past) && |s.undos| <= cap.records && 1 <= cap.records && c < |s.text|
    requires 1 <= |x| && 1 <= cap.chars
    ensures var s' := Replaced(s, c, x, cap); Rewinds(s'.text, s'.undos, s'.past) <==> |x| == 1
    ensures |x| == 1 ==> var s' := Replaced(s, c, x, cap); Faithful(s') && Fits(s', cap)
  {
    hide Kept, Rewinds, Replays, Added;
    var e, t' := Edit(c, 1, [s.text[c]]), s.text[..c] + x + s.text[c + 1..];
    if |x| == 1 {
      assert Apply(e, t') == s.text;
      RecordedFaithful(s, e, t', cap);
    } else {
      assert |Apply(e, t')| != |s.text|;
      NewestWrong(t', Kept(s.undos, 1, cap), e, Replaced(s, c, x, cap).past, s.text);
    }
  }

  lemma NewestWrong(t: string, us: seq<Edit>, e: Edit, past: seq<string>, was: string)
    requires Applies(e, t) && Apply(e, t) != was && (|past| == |us| + 1 ==> past[|us|] == was)
    ensures !Rewinds(t, us + [e], past)
  {
  }

  // Whatever the history, the change comes on top of it.
  ghost predicate OnTop(s: Session, s': Session, t': string, held: bool) {
    && s'.text == t' && s'.redos == [] && s'.future == [] && (s'.undos != [] <==> held)
    && (held ==> s'.past != [] && s'.past[|s'.past| - 1] == s.text)
    && (s.past != [] && 2 <= |s'.undos| ==> 2 <= |s'.past| && s'.past[|s'.past| - 2] == s.past[|s.past| - 1])
  }

  lemma RecordedOnTop(s: Session, e: Edit, t': string, cap: Capacity)
    requires |s.undos| <= cap.records && 1 <= cap.records
    ensures
      var s' := Recorded(s, e, t', cap);
      OnTop(s, s', t', |e.add| <= cap.chars) && (s'.undos != [] ==> s'.undos[|s'.undos| - 1] == e)
  {
    hide Added, Kept, Pushed;
    var k := PushedLongest(s.undos, e, cap);
  }

  lemma RemovedOnTop(s: Session, a: nat, b: nat, cap: Capacity)
    requires |s.undos| <= cap.records && 1 <= cap.records && a <= b <= |s.text|
    ensures OnTop(s, Removed(s, a, b, cap), s.text[..a] + s.text[b..], b - a <= cap.chars)
  {
    hide Recorded, OnTop;
    RecordedOnTop(s, Edit(a, 0, s.text[a..b]), s.text[..a] + s.text[b..], cap);
  }

  lemma InsertedOnTop(s: Session, c: nat, x: string, cap: Capacity)
    requires |s.undos| <= cap.records && 1 <= cap.records && c <= |s.text|
    ensures OnTop(s, Inserted(s, c, x, cap), s.text[..c] + x + s.text[c..], true)
  {
    hide Recorded, OnTop;
    RecordedOnTop(s, Edit(c, |x|, []), s.text[..c] + x + s.text[c..], cap);
  }

  lemma ReplacedOnTop(s: Session, c: nat, x: string, cap: Capacity)
    requires |s.undos| <= cap.records && 1 <= cap.records && 1 <= cap.chars && c < |s.text|
    ensures OnTop(s, Replaced(s, c, x, cap), s.text[..c] + x + s.text[c + 1..], true)
  {
    hide Recorded, OnTop;
    RecordedOnTop(s, Edit(c, 1, [s.text[c]]), s.text[..c] + x + s.text[c + 1..], cap);
  }

  // An insertion needs no characters: with two records the change before it stays undoable, too.
  lemma InsertedSecond(s: Session, c: nat, x: string, cap: Capacity)
    requires |s.undos| <= cap.records && 2 <= cap.records && |Added(s.undos)| <= cap.chars && c <= |s.text|
    requires s.undos != []
    ensures 2 <= |Inserted(s, c, x, cap).undos|
  {
    hide Added, Pushed;
    PushedBare(s.undos, Edit(c, |x|, []), cap);
  }

  // Undo and redo as steps of a history, with the inverse record pushed on the other stack.
  ghost function Undone(s: Session): Session {
    var n := |s.undos| - 1;
    if n < 0 || |s.past| != n + 1 || !Applies(s.undos[n], s.text) then s
    else Session(s.past[n], s.undos[..n], [Inverse(s.undos[n], s.text)] + s.redos, s.past[..n], [s.text] + s.future)
  }

  ghost function Redone(s: Session): Session {
    if s.redos == [] || s.future == [] || !Applies(s.redos[0], s.text) then s
    else Session(s.future[0], s.undos + [Inverse(s.redos[0], s.text)], s.redos[1..], s.past + [s.text], s.future[1..])
  }

  // The next undo finds room.
  ghost predicate RoomToUndo(s: Session, cap: Capacity) {
    s.undos != [] ==> FindsRoom(s.undos[|s.undos| - 1], UndoChars(s), RedoChars(s, cap), cap.chars)
  }

  /** After a recorded change every remaining undo record still leads back to a text that was
      really held: the newest to the text just left, the others as before. */
  lemma RecordedFaithful(s: Session, e: Edit, t': string, cap: Capacity)
    requires Rewinds(s.text, s.undos, s.past) && |s.undos| <= cap.records && 1 <= cap.records
    requires Applies(e, t') && Apply(e, t') == s.text
    ensures var s' := Recorded(s, e, t', cap); Faithful(s') && Fits(s', cap)
  {
    hide Added, Kept, Rewinds, Replays, Apply;
    EmptyStacks(0);
    NoHistory(t');
    if |e.add| <= cap.chars {
      var k := KeptLongest(s.undos, |e.add|, cap);
      UndoGrows(s.undos[k..], e);
      RewindsLess(s.text, s.undos, s.past, k);
      RewindsSnoc(t', e, s.text, s.undos[k..], s.past[k..]);
      var texts, us := s.past + [s.text], s.undos[k..] + [e];
      assert texts[|texts| - |us|..] == s.past[k..] + [s.text];
    }
  }

  lemma UndoneFaithful(s: Session, cap: Capacity)
    requires Faithful(s) && Fits(s, cap) && RoomToUndo(s, cap)
    ensures Faithful(Undone(s)) && Fits(Undone(s), cap)
    ensures s.undos != [] ==> Undone(s).text == s.past[|s.past| - 1]
  {
    hide Added;
    if s.undos != [] {
      var n := |s.undos| - 1;
      var u := s.undos[n];
      InverseUndoes(u, s.text);
      UndoGrows(s.undos[..n], u);
      RedoGrows(Inverse(u, s.text), s.redos, 0);
      assert s.undos == s.undos[..n] + [u];
      var s' := Undone(s);
      assert s'.redos[1..] == s.redos && s'.future[1..] == s.future;
    }
  }

  lemma RedoneFaithful(s: Session, cap: Capacity)
    requires Faithful(s) && Fits(s, cap)
    ensures Faithful(Redone(s)) && Fits(Redone(s), cap)
    ensures s.redos != [] ==> Redone(s).text == s.future[0]
  {
    hide Added, Apply, Rewinds;
    if s.redos != [] {
      var e := s.redos[0];
      InverseUndoes(e, s.text);
      UndoGrows(s.undos, Inverse(e, s.text));
      RedoGrows(e, s.redos[1..], 0);
      assert s.redos == [e] + s.redos[1..];
      RewindsSnoc(Redone(s).text, Inverse(e, s.text), s.text, s.undos, s.past);
    }
  }

  // What the two steps move from one side to the other.
  lemma StepsMove(s: Session)
    requires Faithful(s)
    ensures s.undos != [] ==>
              var n := |s.undos| - 1;
              var u := s.undos[n];
              && |s.past| == n + 1 && u.where + u.remove <= |s.text|
              && Undone(s) == Session(s.past[n], s.undos[..n],
                                      [Edit(u.where, |u.add|, s.text[u.where..u.where + u.remove])] + s.redos,
                                      s.past[..n], [s.text] + s.future)
    ensures s.redos != [] ==>
              var r := s.redos[0];
              && s.future != [] && r.where + r.remove <= |s.text|
              && Redone(s) == Session(s.future[0],
                                      s.undos + [Edit(r.where, |r.add|, s.text[r.where..r.where + r.remove])],
                                      s.redos[1..], s.past + [s.text], s.future[1..])
  {
  }

  /** Undo then redo, and redo then undo, give back the text and both stacks, hence all four
      pointers and the live contents of both buffers, which the stacks determine. */
  lemma UndoRedoInverse(s: Session)
    requires Faithful(s)
    ensures s.undos != [] ==> Redone(Undone(s)) == s
    ensures s.redos != [] ==> Undone(Redone(s)) == s
  {
    if s.undos != [] {
      UndoThenRedo(s);
    }
    if s.redos != [] {
      RedoThenUndo(s);
    }
  }

  lemma UndoThenRedo(s: Session)
    requires Faithful(s) && s.undos != []
    ensures Redone(Undone(s)) == s
  {
    var n := |s.undos| - 1;
    InverseUndoes(s.undos[n], s.text);
    var m := Undone(s);
    assert m.undos + [s.undos[n]] == s.undos && m.redos[1..] == s.redos;
    assert m.past + [s.past[n]] == s.past && m.future[1..] == s.future;
  }

  lemma RedoThenUndo(s: Session)
    requires Faithful(s) && s.redos != []
    ensures Undone(Redone(s)) == s
  {
    InverseUndoes(s.redos[0], s.text);
    var m := Redone(s);
    var n := |m.undos| - 1;
    assert m.undos[..n] == s.undos && [s.redos[0]] + m.redos == s.redos;
    assert m.past[..n] == s.past && [s.future[0]] + m.future == s.future;
  }

  // --- Undos that find no room ------------------------------------------------------------------

  // What stb_text_undo leads to when the redo side is in order, with room or without; the redo
  // stack is what the records left stand for.
  ghost function UndoneAnyway(s: Session, cap: Capacity): Session
    requires s.undos != [] && |s.past| == |s.undos| && Applies(s.undos[|s.undos| - 1], s.text)
  {
    var n := |s.undos| - 1;
    var u := s.undos[n];
    var rest := RedoRest(u, s.redos, UndoChars(s), cap.chars);
    var top := RedoTop(u, s.text, s.redos, UndoChars(s), RedoChars(s, cap), cap.chars);
    Session(s.past[n], s.undos[..n], [top] + rest, s.past[..n],
            [s.text] + if |rest| <= |s.future| then s.future[..|rest|] else [])
  }

  /** A change whose characters fit into the empty buffer can always be undone at once, however full
      both buffers were: the text is the one just left. */
  lemma ChangeThenUndo(s: Session, e: Edit, t': string, cap: Capacity)
    requires Rewinds(s.text, s.undos, s.past) && |s.undos| <= cap.records && 1 <= cap.records
    requires Applies(e, t') && Apply(e, t') == s.text && |e.add| <= cap.chars
    ensures
      var s' := Recorded(s, e, t', cap);
      && s'.undos != [] && |s'.past| == |s'.undos| && Applies(s'.undos[|s'.undos| - 1], s'.text)
      && UndoneAnyway(s', cap).text == s.text
  {
    hide Added, Pushed, Rewinds, Replays, RoomAhead, Apply, RedoTop, RedoRest;
    RecordedFaithful(s, e, t', cap);
    RecordedOnTop(s, e, t', cap);
    NewestApplied(Recorded(s, e, t', cap));
  }

  // The lengths of the redo records after the undo are those of their texts.
  ghost predicate LayoutSurvives(s: Session, cap: Capacity) {
    s.undos != [] ==>
      var u := s.undos[|s.undos| - 1];
      || RoomToUndo(s, cap) || NoSpace(u, UndoChars(s), cap.chars)
      || (s.redos != [] && |s.redos[0].add| == u.remove)
  }

  // Redoing still gives back the text just undone: the undo finds room, or the topmost redo
  // record, put to the text before and given the characters just removed, makes up for it.
  ghost predicate RedoSurvives(s: Session, cap: Capacity) {
    s.undos != [] ==>
      var u := s.undos[|s.undos| - 1];
      || RoomToUndo(s, cap)
      || (&& !NoSpace(u, UndoChars(s), cap.chars) && Applies(u, s.text)
          && s.redos != [] && |s.redos[0].add| == u.remove
          && Makes(Edit(s.redos[0].where, s.redos[0].remove, Inverse(u, s.text).add), Apply(u, s.text), s.text))
  }

  lemma {:induction false} SparedAll(rs: seq<Edit>, n: nat)
    requires |Added(rs)| <= n
    ensures Spared(rs, n) == rs
  {
  }

  lemma NewestApplied(s: Session)
    requires Rewinds(s.text, s.undos, s.past) && s.undos != []
    ensures |s.past| == |s.undos| && Applies(s.undos[|s.undos| - 1], s.text)
    ensures Apply(s.undos[|s.undos| - 1], s.text) == s.past[|s.past| - 1]
    ensures Rewinds(s.past[|s.past| - 1], s.undos[..|s.undos| - 1], s.past[..|s.past| - 1])
  {
  }

  lemma FutureLength(s: Session)
    requires Replays(s.text, s.redos, s.future)
    ensures |s.future| == |s.redos|
  {
  }

  // With room nothing is discarded and the step is that of a history.
  lemma RoomyUndo(s: Session, cap: Capacity)
    requires Faithful(s) && Fits(s, cap) && s.undos != [] && RoomToUndo(s, cap)
    ensures |s.past| == |s.undos| && Applies(s.undos[|s.undos| - 1], s.text)
    ensures UndoneAnyway(s, cap) == Undone(s)
  {
    hide Added;
    NewestApplied(s);
    FutureLength(s);
    var u := s.undos[|s.undos| - 1];
    if 0 < u.remove {
      SparedAll(s.redos, cap.chars - UndoChars(s) - u.remove);
    }
    assert s.future[..|s.redos|] == s.future;
  }

  // The redo records that are left lead on from the text just undone.
  lemma RestReplays(s: Session, cap: Capacity)
    requires Faithful(s) && s.undos != []
    ensures |s.past| == |s.undos| && Applies(s.undos[|s.undos| - 1], s.text)
    ensures var s' := UndoneAnyway(s, cap); Replays(s.text, s'.redos[1..], s'.future[1..])
  {
    hide Added, RedoTop;
    NewestApplied(s);
    FutureLength(s);
    var u := s.undos[|s.undos| - 1];
    var s' := UndoneAnyway(s, cap);
    var rest := s'.redos[1..];
    assert rest == RedoRest(u, s.redos, UndoChars(s), cap.chars);
    if 0 < u.remove && !NoSpace(u, UndoChars(s), cap.chars) {
      SparedPrefix(s.redos, cap.chars - UndoChars(s) - u.remove);
    }
    assert rest == s.redos[..|rest|] && s'.future[1..] == s.future[..|rest|];
    ReplaysLess(s.text, s.redos, s.future, |rest|);
  }

  /** After an undo on an orderly redo side, redoing leads through the texts it should and has
      the room for it if and only if the undo found room or its own characters make the stale
      record right. */
  lemma RedoSurvivesIff(s: Session, cap: Capacity)
    requires Faithful(s) && Fits(s, cap) && s.undos != []
    ensures |s.past| == |s.undos| && Applies(s.undos[|s.undos| - 1], s.text)
    ensures
      var s' := UndoneAnyway(s, cap);
      && Rewinds(s'.text, s'.undos, s'.past)
      && (LayoutSurvives(s, cap) && Replays(s'.text, s'.redos, s'.future) <==> RedoSurvives(s, cap))
      && (RedoSurvives(s, cap) ==> RoomAhead(UndoChars(s'), RedoChars(s', cap), s'.redos))
  {
    hide Added, Rewinds, RoomAhead, RedoRest, Apply, FindsRoom, NoSpace, Replays;
    NewestApplied(s);
    RestReplays(s, cap);
    var n := |s.undos| - 1;
    var u, s' := s.undos[n], UndoneAnyway(s, cap);
    assert s'.future[0] == s.text && s'.text == Apply(u, s.text);
    ReplaysFirst(s'.text, s'.redos, s'.future);
    InverseUndoes(u, s.text);
    UndoneTop(s, cap);
    if RedoSurvives(s, cap) {
      MakesLength(s'.redos[0], u, s.text);
      assert s.undos == s.undos[..n] + [u];
      UndoGrows(s.undos[..n], u);
      RedoGrows(s'.redos[0], s'.redos[1..], 0);
      assert s'.redos == [s'.redos[0]] + s'.redos[1..];
      RoomAfter(u, s'.redos[0], s.redos, UndoChars(s), RedoChars(s, cap), cap.chars);
    }
  }

  lemma ReplaysFirst(t: string, rs: seq<Edit>, future: seq<string>)
    requires rs != [] && future != [] && Replays(future[0], rs[1..], future[1..])
    ensures Replays(t, rs, future) <==> Makes(rs[0], t, future[0])
  {
  }

  // An edit that makes up for u has the lengths of its inverse, if it puts in as much.
  lemma MakesLength(e: Edit, u: Edit, t: string)
    requires Applies(u, t) && Makes(e, Apply(u, t), t) && |e.add| == u.remove
    ensures e.remove == |u.add|
  {
  }

  // What the topmost redo record does to the text before.
  lemma UndoneTop(s: Session, cap: Capacity)
    requires s.undos != [] && |s.past| == |s.undos| && Applies(s.undos[|s.undos| - 1], s.text)
    requires Apply(s.undos[|s.undos| - 1], s.text) == s.past[|s.past| - 1]
    requires Fits(s, cap)
    ensures
      var u, top := s.undos[|s.undos| - 1], UndoneAnyway(s, cap).redos[0];
      && (LayoutSurvives(s, cap) && Makes(top, Apply(u, s.text), s.text) <==> RedoSurvives(s, cap))
      && (RedoSurvives(s, cap) ==> |top.add| == u.remove && !NoSpace(u, UndoChars(s), cap.chars))
  {
    hide Added, RedoRest, RoomAhead;
    EmptyStacks(0);
    var u := s.undos[|s.undos| - 1];
    InverseUndoes(u, s.text);
    if NoSpace(u, UndoChars(s), cap.chars) {
      LossyUndo(u, s.text);
    }
  }

  /** Without room for the characters of an edit, its redo record never gives the text back. */
  lemma LossyUndo(u: Edit, t: string)
    requires Applies(u, t) && 0 < u.remove
    ensures !Makes(Edit(u.where, |u.add|, []), Apply(u, t), t)
  {
  }

  lemma LossyTop(u: Edit, t: string, rs: seq<Edit>, undoChars: int, redoChars: int, size: int)
    requires Applies(u, t) && 0 < u.remove && size <= undoChars + u.remove
    ensures RedoTop(u, t, rs, undoChars, redoChars, size) == Edit(u.where, |u.add|, [])
    ensures RedoRest(u, rs, undoChars, size) == rs
  {
  }

  /** An undo without space for the characters it takes out leaves a redo that takes the others out
      again and puts nothing in their place; the redo records below stay. */
  lemma LossyRedo(s: Session, cap: Capacity)
    requires Faithful(s) && s.undos != []
    requires var u := s.undos[|s.undos| - 1]; 0 < u.remove && cap.chars <= UndoChars(s) + u.remove
    ensures |s.past| == |s.undos| && Applies(s.undos[|s.undos| - 1], s.text)
    ensures
      var u, s' := s.undos[|s.undos| - 1], UndoneAnyway(s, cap);
      && s'.text == s.past[|s.past| - 1] && s'.redos[1..] == s.redos
      && Makes(s'.redos[0], s'.text, s.text[..u.where] + s.text[u.where + u.remove..])
  {
    hide Added, Rewinds, Replays, RedoTop, RedoRest;
    NewestApplied(s);
    var u := s.undos[|s.undos| - 1];
    LossyTop(u, s.text, s.redos, UndoChars(s), RedoChars(s, cap), cap.chars);
    var t := Apply(u, s.text);
    assert t[..u.where] == s.text[..u.where] && t[u.where + |u.add|..] == s.text[u.where + u.remove..];
  }

  // --- Whole runs -------------------------------------------------------------------------------

  // Something the user does: a change of the text to t' undone by e, an undo, a redo.
  datatype Act = Change(e: Edit, t': string) | Undo | Redo

  ghost predicate Step(s: Session, a: Act, s': Session, cap: Capacity) {
    match a
    case Change(e, t') => Applies(e, t') && Apply(e, t') == s.text && s' == Recorded(s, e, t', cap)
    case Undo =>
      if s.undos == [] then s' == s
      else
        && |s.past| == |s.undos| && Applies(s.undos[|s.undos| - 1], s.text)
        && RedoSurvives(s, cap) && s' == UndoneAnyway(s, cap)
    case Redo => s' == Redone(s)
  }

  ghost predicate Run(cap: Capacity, acts: seq<Act>, states: seq<Session>) {
    && |states| == |acts| + 1 && states[0] == Session(states[0].text, [], [], [], [])
    && forall i :: 0 <= i < |acts| ==> Step(states[i], acts[i], states[i + 1], cap)
  }

  lemma SurvivingUndo(s: Session, cap: Capacity)
    requires Faithful(s) && Fits(s, cap) && s.undos != [] && RedoSurvives(s, cap)
    ensures |s.past| == |s.undos| && Applies(s.undos[|s.undos| - 1], s.text)
    ensures Faithful(UndoneAnyway(s, cap)) && Fits(UndoneAnyway(s, cap), cap)
  {
    hide Added, Rewinds, Replays, RedoTop, RedoSurvives;
    RedoSurvivesIff(s, cap);
    RestShorter(s.undos[|s.undos| - 1], s.redos, UndoChars(s), cap.chars);
  }

  lemma RestShorter(u: Edit, rs: seq<Edit>, undoChars: int, size: int)
    ensures |RedoRest(u, rs, undoChars, size)| <= |rs|
  {
    if u.remove != 0 && !NoSpace(u, undoChars, size) {
      SparedPrefix(rs, size - undoChars - u.remove);
    }
  }

  /** In every state of every run of changes, redos and undos that find room or make up for it,
      the undo records lead back through texts really held, the redo records forth, and redo has
      room. */
  lemma {:induction false} RunFaithful(cap: Capacity, acts: seq<Act>, states: seq<Session>, i: nat)
    requires 1 <= cap.records && Run(cap, acts, states) && i <= |acts|
    ensures Faithful(states[i]) && Fits(states[i], cap)
  {
    if i == 0 {
      EmptyStacks(0);
    } else {
      RunFaithful(cap, acts, states, i - 1);
      var s := states[i - 1];
      assert Step(s, acts[i - 1], states[i - 1 + 1], cap);
      match acts[i - 1]
      case Change(e, t') => RecordedFaithful(s, e, t', cap);
      case Undo =>
        if s.undos != [] {
          SurvivingUndo(s, cap);
        }
      case Redo => RedoneFaithful(s, cap);
    }
  }
}
