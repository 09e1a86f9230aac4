/**
 doctest's String (third-party/argh/doctest.h): short texts in the object, long ones in a heap
 block, told apart by the top bit of the object's last byte.
 */
module SmallString {

  // len and last
  const LEN := 24
  const LAST := 23

  // The heap: which blocks are allocated, and which string each belongs to.
  class Heap {
    ghost var owner: map<array<char>, String>

    constructor ()
      ensures owner == map[]
    {
      owner := map[];
    }

    // new char[n]
    method New(n: nat, ghost s: String) returns (p: array<char>)
      modifies this
      ensures fresh(p) && p.Length == n && owner == old(owner)[p := s]
    {
      p := new char[n](i => '?');
      owner := owner[p := s];
    }

    // delete[]: only for a block that is allocated
    method Delete(p: array<char>)
      requires p in owner
      modifies this
      ensures owner == old(owner) - {p}
    {
      owner := owner - {p};
    }

    ghost method PassOn(p: array<char>, s: String)
      requires p in owner
      modifies this
      ensures owner == old(owner)[p := s]
    {
      owner := owner[p := s];
    }
  }

  // memcpy into a heap block
  method CopyInto(p: array<char>, at: nat, text: seq<char>)
    requires at + |text| <= p.Length
    modifies p
    ensures p[..at] == old(p[..at]) && p[at..at + |text|] == text
  {
    forall i | at <= i < at + |text| {
      p[i] := text[i - at];
    }
  }

  class String {
    const heap: Heap
    // The union: the bytes of buf, or ptr, size and capacity over its first 16 bytes.
    var buf: seq<char>
    var ptr: array?<char>
    var size: int
    var capacity: int
    // What the string stands for.
    ghost var text: seq<char>

    // isOnStack: bit 7 of the last byte is clear.
    predicate OnStack()
      requires |buf| == LEN
      reads this
    {
      buf[LAST] < 128 as char
    }

    // size()
    function Size(): int
      requires |buf| == LEN
      reads this
    {
      if OnStack() then LAST - (buf[LAST] as int % 32) else size
    }

    ghost predicate Valid()
      reads this, heap, Block()
    {
      && |buf| == LEN
      && (OnStack() ==> buf[LAST] <= 23 as char && buf[Size()] == '\0' && text == buf[..Size()])
      && (!OnStack() ==>
            && ptr != null && ptr in heap.owner && heap.owner[ptr] == this
            && 0 <= size < capacity == ptr.Length && ptr[size] == '\0' && text == ptr[..size])
    }

    // c_str() with the terminator
    function CStr(): (s: seq<char>)
      requires Valid()
      reads this, heap, Block()
      ensures s == text + ['\0']
    {
      if OnStack() then buf[..Size() + 1] else ptr[..size + 1]
    }

    // The heap block it uses, if any.
    ghost function Block(): set<array<char>>
      reads this
    {
      if |buf| != LEN || OnStack() || ptr == null then {} else {ptr}
    }

    // The ownership of that block.
    ghost function Claim(): map<array<char>, String>
      reads this
    {
      map p | p in Block() :: this
    }

    // setLast
    method SetLast(n: nat)
      requires |buf| == LEN && n <= LAST
      modifies this`buf
      ensures buf == old(buf)[LAST := n as char]
    {
      buf := buf[LAST := n as char];
    }

    // Writing data.* overwrites the first 16 bytes of buf; setOnHeap sets the flag.
    method SetHeap(p: array<char>, size: int, capacity: int)
      requires |buf| == LEN
      modifies this`buf, this`ptr, this`size, this`capacity
      ensures |buf| == LEN && !OnStack() && ptr == p && this.size == size && this.capacity == capacity
    {
      buf := seq(16, i => '?') + buf[16..LAST] + [128 as char];
      ptr, this.size, this.capacity := p, size, capacity;
    }

    // String(const char*, unsigned)
    constructor FromChars(heap: Heap, text: seq<char>)
      modifies heap
      ensures this.heap == heap && Valid() && this.text == text && fresh(Block())
      ensures if |text| <= 23 then Block() == {} else !OnStack() && capacity == |text| + 1
      ensures heap.owner == old(heap.owner) + Claim()
    {
      this.heap := heap;
      buf := seq(LEN, i => '\0');
      ptr, size, capacity, this.text := null, 0, 0, [];
      new;
      Init(text);
    }

    method Init(text: seq<char>)
      requires |buf| == LEN
      modifies this, heap
      ensures Valid() && this.text == text && fresh(Block())
      ensures if |text| <= 23 then Block() == {} else !OnStack() && capacity == |text| + 1
      ensures heap.owner == old(heap.owner) + Claim()
    {
      var n := |text|;
      if n <= LAST {
        buf := text + buf[n..];
        buf := buf[n := '\0'];
        SetLast(LAST - n);
      } else {
        var p := heap.New(n + 1, this);
        SetHeap(p, n, n + 1);
        CopyInto(p, 0, text);
        p[n] := '\0';
      }
      this.text := text;
    }

    // copy()
    method CopyFrom(other: String)
      requires |buf| == LEN && this != other && heap == other.heap && other.Valid()
      modifies this, heap
      ensures Valid() && text == old(other.text) && fresh(Block())
      ensures if old(other.Block()) == {} then Block() == {} else !OnStack() && capacity == |text| + 1
      ensures heap.owner == old(heap.owner) + Claim()
    {
      if other.OnStack() {
        buf := other.buf;
      } else {
        var n := other.size;
        var p := heap.New(n + 1, this);
        SetHeap(p, n, n + 1);
        CopyInto(p, 0, other.ptr[..n + 1]);
      }
      text := other.text;
    }

    // String(const String&)
    constructor Copy(other: String)
      requires other.Valid()
      modifies other.heap
      ensures heap == other.heap && Valid() && text == old(other.text) && fresh(Block())
      ensures if old(other.Block()) == {} then Block() == {} else !OnStack() && capacity == |text| + 1
      ensures heap.owner == old(other.heap.owner) + Claim()
    {
      heap := other.heap;
      buf := seq(LEN, i => '\0');
      ptr, size, capacity, this.text := null, 0, 0, [];
      new;
      CopyFrom(other);
    }

    // ~String, and the first half of the assignments
    method Release()
      requires Valid()
      modifies heap
      ensures heap.owner == old(heap.owner) - old(Block())
    {
      if !OnStack() {
        heap.Delete(ptr);
      }
    }

    // operator=(const String&)
    method Assign(other: String)
      requires Valid() && other.Valid() && heap == other.heap
      modifies this, heap
      ensures Valid() && text == old(other.text)
      ensures this == other ==> unchanged(this) && unchanged(heap)
      ensures this != other ==> heap.owner == old(heap.owner) - old(Block()) + Claim() && fresh(Block())
    {
      if this != other {
        Release();
        CopyFrom(other);
      }
    }

    // Takes over the other object's bytes and leaves it empty.
    method TakeFrom(other: String)
      requires |buf| == LEN && this != other && heap == other.heap && other.Valid()
      modifies this, other, heap
      ensures Valid() && other.Valid() && text == old(other.text) && other.text == []
      ensures Block() == old(other.Block()) && other.Block() == {}
      ensures heap.owner == old(heap.owner) + Claim()
    {
      buf, ptr, size, capacity := other.buf, other.ptr, other.size, other.capacity;
      if !OnStack() {
        heap.PassOn(ptr, this);
      }
      other.buf := other.buf[0 := '\0'];
      other.SetLast(LAST);
      text, other.text := other.text, [];
    }

    // String(String&&)
    constructor Move(other: String)
      requires other.Valid()
      modifies other, other.heap
      ensures heap == other.heap && Valid() && other.Valid() && text == old(other.text) && other.text == []
      ensures Block() == old(other.Block()) && other.Block() == {}
      ensures heap.owner == old(other.heap.owner) + Claim()
    {
      heap := other.heap;
      buf := seq(LEN, i => '\0');
      ptr, size, capacity, this.text := null, 0, 0, [];
      new;
      TakeFrom(other);
    }

    // operator=(String&&)
    method MoveAssign(other: String)
      requires Valid() && other.Valid() && heap == other.heap
      modifies this, other, heap
      ensures Valid() && text == old(other.text)
      ensures this == other ==> unchanged(this) && unchanged(heap)
      ensures this != other ==>
                && other.Valid() && other.text == []
                && Block() == old(other.Block()) && other.Block() == {}
                && heap.owner == old(heap.owner) - old(Block()) + Claim()
    {
      if this != other {
        Release();
        TakeFrom(other);
      }
    }

    // operator+=, for another object
    method Append(other: String)
      requires Valid() && other.Valid() && heap == other.heap && this != other
      modifies this, heap, Block()
      ensures Valid() && text == old(text + other.text)
      ensures heap.owner == old(heap.owner) - old(Block()) + Claim()
      ensures Block() == old(Block()) || fresh(Block())
      ensures
        var now := |text|;
        if old(Block()) == {} then Block() == {} <==> now <= 23
        else if now < old(capacity) then Block() == old(Block()) && capacity == old(capacity)
        else fresh(Block()) && capacity == if now < 2 * old(capacity) then 2 * old(capacity) else now + 1
    {
      AppendTail(other.CStr(), other.text);
    }

    // The three ways of finding room for the text and its terminator.
    method AppendTail(tail: seq<char>, ghost more: seq<char>)
      requires Valid() && tail == more + ['\0']
      modifies this, heap, Block()
      ensures Valid() && text == old(text) + more
      ensures heap.owner == old(heap.owner) - old(Block()) + Claim()
      ensures Block() == old(Block()) || fresh(Block())
      ensures
        var now := |text|;
        if old(Block()) == {} then Block() == {} <==> now <= 23
        else if now < old(capacity) then Block() == old(Block()) && capacity == old(capacity)
        else fresh(Block()) && capacity == if now < 2 * old(capacity) then 2 * old(capacity) else now + 1
    {
      var total := Size() + |tail| - 1;
      if OnStack() {
        if total < LEN {
          AppendShort(tail, more);
        } else {
          AppendToNewBlock(tail, more);
        }
      } else if capacity > total {
        AppendInPlace(tail, more);
      } else {
        Grow(tail, more);
      }
    }

    method AppendShort(tail: seq<char>, ghost more: seq<char>)
      requires Valid() && tail == more + ['\0'] && OnStack() && Size() + |more| < LEN
      modifies this`buf, this`text
      ensures Valid() && OnStack() && text == old(text) + more && Block() == {}
    {
      var mine := Size();
      var total := mine + |tail| - 1;
      buf := buf[..mine] + tail + buf[total + 1..];
      SetLast(LAST - total);
      text := text + more;
    }

    method AppendInPlace(tail: seq<char>, ghost more: seq<char>)
      requires Valid() && tail == more + ['\0'] && !OnStack() && size + |more| < capacity
      modifies this`size, this`text, Block()
      ensures Valid() && text == old(text) + more && Block() == old(Block())
    {
      var mine := size;
      size := size + |tail| - 1;
      CopyInto(ptr, mine, tail);
      assert ptr[..size + 1] == ptr[..mine] + ptr[mine..mine + |tail|];
      assert ptr[..size] == ptr[..size + 1][..size];
      text := text + more;
    }

    // The text no longer fits into the object.
    method AppendToNewBlock(tail: seq<char>, ghost more: seq<char>)
      requires Valid() && tail == more + ['\0'] && OnStack()
      modifies this, heap
      ensures Valid() && text == old(text) + more && fresh(Block()) && Block() != {}
      ensures heap.owner == old(heap.owner) + Claim()
    {
      var mine := Size();
      var total := mine + |tail| - 1;
      var p := heap.New(total + 1, this);
      CopyInto(p, 0, buf[..mine]);
      SetHeap(p, total, total + 1);
      CopyInto(p, mine, tail);
      assert p[..total + 1] == p[..mine] + p[mine..mine + |tail|];
      assert p[..total] == p[..total + 1][..total];
      text := text + more;
    }

    // A block with at least twice the capacity takes over the text without its terminator.
    method Resize(total: nat) returns (p: array<char>)
      requires Valid() && !OnStack() && capacity <= total
      modifies this`capacity, heap
      ensures fresh(p) && total < capacity == p.Length && p[..size] == old(ptr[..size])
      ensures capacity == if total < 2 * old(capacity) then 2 * old(capacity) else total + 1
      ensures heap.owner == old(heap.owner) - {ptr} + map[p := this]
    {
      capacity := capacity * 2;
      if capacity <= total {
        capacity := total + 1;
      }
      p := heap.New(capacity, this);
      CopyInto(p, 0, ptr[..size]);
      heap.Delete(ptr);
    }

    // The text no longer fits into its block.
    method Grow(tail: seq<char>, ghost more: seq<char>)
      requires Valid() && tail == more + ['\0'] && !OnStack() && capacity <= size + |more|
      modifies this, heap
      ensures Valid() && text == old(text) + more && fresh(Block())
      ensures capacity == if |text| < 2 * old(capacity) then 2 * old(capacity) else |text| + 1
      ensures heap.owner == old(heap.owner) - old(Block()) + Claim()
    {
      var mine, total := size, size + |tail| - 1;
      var p := Resize(total);
      size, ptr := total, p;
      CopyInto(p, mine, tail);
      assert p[..total + 1] == p[..mine] + p[mine..mine + |tail|];
      assert p[..total] == p[..total + 1][..total];
      text := text + more;
    }
  }

  // --- Any number of strings at once --------------------------------------------------------------

  // The string objects alive.
  class Pool {
    const heap: Heap
    var all: seq<String>

    static ghost predicate Apart(ss: seq<String>) {
      forall i, j :: 0 <= i < j < |ss| ==> ss[i] != ss[j]
    }

    ghost predicate Sits(s: String)
      reads heap, s, heap.owner.Keys
    {
      s.heap == heap && s.Block() <= heap.owner.Keys && s.Valid()
    }

    ghost predicate RightOwner(p: array<char>)
      requires p in heap.owner
      reads this, heap, all
    {
      heap.owner[p] in all && heap.owner[p].Block() == {p}
    }

    // Every block allocated belongs to exactly one of them, which points to it.
    ghost predicate Valid()
      reads this, heap, all, heap.owner.Keys
    {
      Apart(all) && (forall i :: 0 <= i < |all| ==> Sits(all[i])) && forall p :: p in heap.owner ==> RightOwner(p)
    }

    ghost function Texts(): (ts: seq<seq<char>>)
      reads this, all
    {
      seq(|all|, i requires 0 <= i < |all| reads this, all => all[i].text)
    }

    constructor ()
      ensures Valid() && all == [] && heap.owner == map[]
    {
      heap := new Heap();
      all := [];
    }

    // A string on the heap owns its block, so no two share one.
    lemma OwnBlocks()
      requires Valid()
      ensures forall k, p :: 0 <= k < |all| && p in all[k].Block() ==> p in heap.owner && heap.owner[p] == all[k]
    {
      forall k, p | 0 <= k < |all| && p in all[k].Block()
        ensures p in heap.owner && heap.owner[p] == all[k]
      {
        assert Sits(all[k]);
      }
    }

    lemma Distinct(i: nat, j: nat)
      requires Apart(all) && i < |all| && j < |all| && i != j
      ensures all[i] != all[j]
    {
    }

    // An object that was not written to, whose block is still its own.
    twostate predicate Kept(s: String)
      reads s, heap, s.Block()
    {
      && s.text == old(s.text) && s.buf == old(s.buf)
      && s.ptr == old(s.ptr) && s.size == old(s.size) && s.capacity == old(s.capacity)
      && (forall p :: p in s.Block() ==> p[..] == old(p[..]) && p in heap.owner && heap.owner[p] == s)
    }

    twostate lemma KeptSits(s: String)
      requires old(Sits(s)) && Kept(s)
      ensures Sits(s) && s.Block() == old(s.Block())
    {
    }

    lemma ValidSits(s: String)
      requires s.Valid() && s.heap == heap
      ensures Sits(s)
    {
    }

    twostate lemma KeptAll(new n: nat, new a: nat, new b: nat)
      requires old(Valid()) && n == |old(all)| <= |all| && all[..n] == old(all)
      requires forall k :: 0 <= k < n && k != a && k != b ==> Kept(old(all[k]))
      ensures forall k :: 0 <= k < n && k != a && k != b ==>
                            all[k] == old(all[k]) && Sits(all[k]) && all[k].Block() == old(all[k].Block())
    {
      hide String.Valid, Kept, Sits, RightOwner;
      forall k | 0 <= k < n && k != a && k != b
        ensures all[k] == old(all[k]) && Sits(all[k]) && all[k].Block() == old(all[k].Block())
      {
        assert all[..n][k] == old(all[k]);
        KeptSits(old(all[k]));
      }
    }

    // After an operation that wrote to all[a], and to all[b] if it took over its block.
    twostate lemma Rebound(new a: nat, new b: nat)
      requires old(Valid()) && all == old(all) && a < |all| && b < |all|
      requires forall k :: 0 <= k < |all| && k != a && k != b ==> Kept(old(all[k]))
      requires all[a].Valid() && all[b].Valid()
      requires heap.owner == old(heap.owner) - old(all[a].Block()) + all[a].Claim()
      requires a != b ==> all[a].Block() == old(all[b].Block()) && all[b].Block() == {}
      ensures Valid()
    {
      hide String.Valid, Kept, Sits, RightOwner;
      KeptAll(|all|, a, b);
      assert old(Sits(all[a])) && old(Sits(all[b]));
      SameHeap(a);
      SameHeap(b);
      ValidSits(all[a]);
      ValidSits(all[b]);
      forall p | p in heap.owner
        ensures RightOwner(p)
      {
        OwnerAfter(p, a, b);
      }
    }

    twostate lemma SameHeap(new k: nat)
      requires all == old(all) && k < |all| && old(Sits(all[k]))
      ensures all[k].heap == heap
    {
    }

    twostate lemma OwnerAfter(new p: array<char>, new a: nat, new b: nat)
      requires old(Valid()) && all == old(all) && a < |all| && b < |all| && p in heap.owner
      requires forall k :: 0 <= k < |all| && k != a && k != b ==> all[k].Block() == old(all[k].Block())
      requires heap.owner == old(heap.owner) - old(all[a].Block()) + all[a].Claim()
      requires a != b ==> all[a].Block() == old(all[b].Block()) && all[b].Block() == {}
      ensures RightOwner(p)
    {
      hide String.Valid, Sits, Apart;
      if p !in all[a].Block() {
        assert old(RightOwner(p));
        var s := old(heap.owner[p]);
        assert s in old(all) && old(s.Block()) == {p};
      }
    }

    // After an object s has been constructed, perhaps by taking over the block of all[b].
    twostate lemma Extended(new s: String, new b: nat)
      requires old(Valid()) && all == old(all) + [s] && fresh(s) && s.heap == heap && s.Valid()
      requires forall k :: 0 <= k < |old(all)| && k != b ==> Kept(old(all[k]))
      requires b < |old(all)| ==> all[b].Valid() && all[b].Block() == {} && s.Block() == old(all[b].Block())
      requires heap.owner == old(heap.owner) + s.Claim()
      ensures Valid()
    {
      hide String.Valid, Kept;
      KeptAll(|old(all)|, b, b);
      ValidSits(s);
      forall p | p in heap.owner && p !in s.Block()
        ensures RightOwner(p)
      {
        assert old(RightOwner(p));
      }
    }

    // The texts when all[i] has got x, all[j] y, and all other objects still have theirs.
    twostate lemma TextsAfter(new i: nat, new j: nat, new x: seq<char>, new y: seq<char>)
      requires all == old(all) && i < |all| && j < |all| && (i == j ==> x == y)
      requires forall k :: 0 <= k < |all| && k != i && k != j ==> all[k].text == old(all[k].text)
      requires all[i].text == x && all[j].text == y
      ensures Texts() == old(Texts())[i := x][j := y]
    {
    }

    // The same with one more object.
    twostate lemma TextsWith(new s: String, new i: nat)
      requires all == old(all) + [s] && i < |old(all)|
      requires forall k :: 0 <= k < |old(all)| && k != i ==> all[k].text == old(all[k].text)
      ensures Texts() == old(Texts())[i := all[i].text] + [s.text]
    {
    }

    /** Any sequence of these operations leaves every text what plain sequence operations make of
        it, every block with exactly one owner, and frees a block at most once. */
    method Construct(text: seq<char>)
      requires Valid()
      modifies this`all, heap
      ensures Valid() && Texts() == old(Texts()) + [text]
    {
      hide String.Valid, RightOwner;
      OwnBlocks();
      var s := new String.FromChars(heap, text);
      all := all + [s];
      Extended(s, |all| - 1);
    }

    method Copy(i: nat)
      requires Valid() && i < |all|
      modifies this`all, heap
      ensures Valid() && Texts() == old(Texts()) + [old(Texts()[i])]
    {
      hide String.Valid, RightOwner;
      OwnBlocks();
      var s := new String.Copy(all[i]);
      all := all + [s];
      Extended(s, |all| - 1);
    }

    method Move(i: nat)
      requires Valid() && i < |all|
      modifies this`all, heap, all
      ensures Valid() && Texts() == old(Texts())[i := []] + [old(Texts()[i])]
    {
      hide String.Valid, RightOwner;
      OwnBlocks();
      var s := new String.Move(all[i]);
      all := all + [s];
      Extended(s, i);
      TextsWith(s, i);
    }

    method Assign(i: nat, j: nat)
      requires Valid() && i < |all| && j < |all|
      modifies heap, all
      ensures Valid() && Texts() == old(Texts())[i := old(Texts()[j])]
    {
      hide String.Valid, RightOwner;
      OwnBlocks();
      all[i].Assign(all[j]);
      if all[i] != all[j] {
        Rebound(i, i);
      }
    }

    method MoveAssign(i: nat, j: nat)
      requires Valid() && i < |all| && j < |all|
      modifies heap, all
      ensures Valid() && Texts() == if i == j then old(Texts()) else old(Texts())[i := old(Texts()[j])][j := []]
    {
      hide String.Valid, RightOwner;
      OwnBlocks();
      all[i].MoveAssign(all[j]);
      if i == j {
        TextsAfter(i, i, old(all[i].text), old(all[i].text));
      } else {
        forall k | 0 <= k < |all| && k != i && k != j
          ensures Kept(old(all[k]))
        {
          Distinct(k, i);
          Distinct(k, j);
        }
        Rebound(i, j);
        TextsAfter(i, j, old(all[j].text), []);
      }
    }

    method Append(i: nat, j: nat)
      requires Valid() && i < |all| && j < |all| && i != j
      modifies heap, all, heap.owner.Keys
      ensures Valid() && Texts() == old(Texts())[i := old(Texts()[i] + Texts()[j])]
    {
      hide String.Valid, RightOwner;
      OwnBlocks();
      var s := all[i];
      s.Append(all[j]);
      forall k | 0 <= k < |all| && k != i
        ensures Kept(old(all[k]))
      {
        assert all[k] != s;
      }
      Rebound(i, i);
    }

    // The object's life ends.
    method Destroy(i: nat)
      requires Valid() && i < |all|
      modifies this`all, heap
      ensures Valid() && Texts() == old(Texts())[..i] + old(Texts())[i + 1..]
    {
      hide String.Valid, Sits, RightOwner, Apart;
      OwnBlocks();
      ghost var was := all;
      assert Sits(all[i]);
      ReleaseMay(all[i]);
      all[i].Release();
      Without(i);
      all := all[..i] + all[i + 1..];
      StillApart(was, i);
      assert forall k :: 0 <= k < |all| ==> all[k] == was[if k < i then k else k + 1];
      forall p | p in heap.owner
        ensures RightOwner(p)
      {
        OwnerLeft(was, i, p);
      }
    }

    lemma ReleaseMay(s: String)
      requires Sits(s)
      ensures s.Valid() && s.heap == heap
    {
    }

    lemma StillApart(was: seq<String>, i: nat)
      requires i < |was| && all == was[..i] + was[i + 1..] && Apart(was)
      ensures Apart(all)
    {
    }

    lemma OwnerLeft(was: seq<String>, i: nat, p: array<char>)
      requires i < |was| && all == was[..i] + was[i + 1..] && p in heap.owner
      requires heap.owner[p] in was && heap.owner[p] != was[i] && heap.owner[p].Block() == {p}
      ensures RightOwner(p)
    {
      var k :| 0 <= k < |was| && was[k] == heap.owner[p];
      assert k != i;
      assert all[if k < i then k else k - 1] == was[k];
    }

    // All other objects are as they were, and the block of all[i] is gone.
    twostate lemma Without(new i: nat)
      requires old(Valid()) && all == old(all) && i < |all| && unchanged(all)
      requires heap.owner == old(heap.owner) - all[i].Block()
      requires forall k, p :: 0 <= k < |all| && p in all[k].Block() ==>
                                p in old(heap.owner) && old(heap.owner[p]) == all[k]
      requires forall p :: p in heap.owner ==> p[..] == old(p[..])
      ensures forall k :: 0 <= k < |all| && k != i ==> Sits(all[k])
      ensures forall p :: p in heap.owner ==>
                            heap.owner[p] in all && heap.owner[p] != all[i] && heap.owner[p].Block() == {p}
    {
      hide String.Valid, Apart;
      forall k | 0 <= k < |all| && k != i
        ensures Sits(all[k])
      {
        Distinct(k, i);
        assert old(Sits(all[k]));
        KeptSits(all[k]);
      }
      forall p | p in heap.owner
        ensures old(RightOwner(p))
      {
      }
    }
  }
}
