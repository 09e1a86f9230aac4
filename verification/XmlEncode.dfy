/**
 XmlEncode::encodeTo of third-party/argh/doctest.h: bytes to XML text nodes and attributes.
 */
module XmlEncoding {

  type Byte = x: int | 0 <= x < 256
  type Bytes = seq<Byte>

  const LT := 0x3C
  const GT := 0x3E
  const AMP := 0x26
  const QUOTE := 0x22
  const BRACKET := 0x5D

  const AMP_LT: Bytes := [0x26, 0x6C, 0x74, 0x3B]
  const AMP_GT: Bytes := [0x26, 0x67, 0x74, 0x3B]
  const AMP_AMP: Bytes := [0x26, 0x61, 0x6D, 0x70, 0x3B]
  const AMP_QUOT: Bytes := [0x26, 0x71, 0x75, 0x6F, 0x74, 0x3B]

  // trailingBytes of a lead byte
  function TrailingBytes(c: Byte): nat {
    if c < 0xE0 then 2 else if c < 0xF0 then 3 else 4
  }

  // headerValue of a lead byte
  function HeaderValue(c: Byte): nat {
    if c < 0xE0 then c % 0x20 else if c < 0xF0 then c % 0x10 else c % 0x08
  }

  predicate Lead(c: Byte) {
    0xC0 <= c < 0xF8
  }

  predicate Continuation(c: Byte) {
    0x80 <= c < 0xC0
  }

  /** What the masks of lines 4699-4720 and 4805-4806 say of a byte are the ranges and remainders
      above. */
  lemma Masks(b: bv8)
    ensures
      var c: Byte := b as int;
      && (Lead(c) <==> (b & 0xE0) == 0xC0 || (b & 0xF0) == 0xE0 || (b & 0xF8) == 0xF0)
      && ((b & 0xE0) == 0xC0 ==> TrailingBytes(c) == 2 && HeaderValue(c) == (b & 0x1F) as int)
      && ((b & 0xF0) == 0xE0 ==> TrailingBytes(c) == 3 && HeaderValue(c) == (b & 0x0F) as int)
      && ((b & 0xF8) == 0xF0 ==> TrailingBytes(c) == 4 && HeaderValue(c) == (b & 0x07) as int)
      && (Continuation(c) <==> (b & 0xC0) == 0x80) && c % 0x40 == (b & 0x3F) as int
  {
    MaskRanges(b);
  }

  lemma MaskRanges(b: bv8)
    ensures (b & 0xE0) == 0xC0 <==> 0xC0 <= b < 0xE0
    ensures (b & 0xF0) == 0xE0 <==> 0xE0 <= b < 0xF0
    ensures (b & 0xF8) == 0xF0 <==> 0xF0 <= b < 0xF8
    ensures (b & 0xC0) == 0x80 <==> 0x80 <= b < 0xC0
    ensures (b & 0x1F) == b % 0x20 && (b & 0x0F) == b % 0x10 && (b & 0x07) == b % 0x08 && (b & 0x3F) == b % 0x40
  {
  }

  // The value of the first n bytes of the group at i.
  function Value(s: Bytes, i: nat, n: nat): nat
    requires 1 <= n && i + n <= |s|
  {
    if n == 1 then HeaderValue(s[i]) else Value(s, i, n - 1) * 64 + s[i + n - 1] % 64
  }

  // A lead byte with as many continuation bytes after it as it announces.
  predicate Group(s: Bytes, i: nat) {
    && i < |s| && Lead(s[i]) && i + TrailingBytes(s[i]) <= |s|
    && forall k :: i < k < i + TrailingBytes(s[i]) ==> Continuation(s[k])
  }

  // The range checks of lines 4809-4818.
  predicate Sane(value: nat, n: nat) {
    && !(value < 0x80) && !(value < 0x800 && n > 2)
    && !(0x800 < value < 0x10000 && n > 3) && !(value >= 0x110000)
  }

  predicate Accepted(s: Bytes, i: nat) {
    Group(s, i) && Sane(Value(s, i, TrailingBytes(s[i])), TrailingBytes(s[i]))
  }

  // The byte is written as \xHH.
  predicate Escaped(s: Bytes, i: nat)
    requires i < |s|
  {
    var c := s[i];
    c < 0x09 || 0x0D < c < 0x20 || c == 0x7F || (0x7F < c && !Accepted(s, i))
  }

  function HexDigit(n: nat): Byte
    requires n < 16
  {
    if n < 10 then 0x30 + n else 0x41 + n - 10
  }

  function HexEscape(c: Byte): Bytes {
    [0x5C, 0x78, HexDigit(c / 16), HexDigit(c % 16)]
  }

  // The bytes read at i in one go.
  function Step(s: Bytes, i: nat): (n: nat)
    requires i < |s|
    ensures 1 <= n && i + n <= |s|
  {
    if 0x7F < s[i] && Accepted(s, i) then TrailingBytes(s[i]) else 1
  }

  // What is written for them.
  function Piece(s: Bytes, i: nat, attribute: bool): Bytes
    requires i < |s|
  {
    var c := s[i];
    if c == LT then AMP_LT
    else if c == AMP then AMP_AMP
    else if c == GT && i > 2 && s[i - 1] == BRACKET && s[i - 2] == BRACKET then AMP_GT
    else if c == QUOTE && attribute then AMP_QUOT
    else if Escaped(s, i) then HexEscape(c)
    else s[i..i + Step(s, i)]
  }

  function Encode(s: Bytes, i: nat, attribute: bool): Bytes
    requires i <= |s|
    decreases |s| - i
  {
    if i == |s| then [] else Piece(s, i, attribute) + Encode(s, i + Step(s, i), attribute)
  }

  // How many bytes the table of section 3 of RFC 3629 gives a value, 0 if none.
  function BytesFor(value: int): nat {
    if value < 0x80 then 1 else if value < 0x800 then 2 else if value < 0x1_0000 then 3
    else if value < 0x11_0000 then 4 else 0
  }

  // The value n bytes stand for by the same table.
  function CodePoint(s: Bytes, i: nat, n: nat): int
    requires 2 <= n <= 4 && i + n <= |s|
  {
    var head: int, next: int := s[i], s[i + 1];
    if n == 2 then (head - 0xC0) * 64 + (next - 0x80)
    else
      var third: int := s[i + 2];
      if n == 3 then ((head - 0xE0) * 64 + (next - 0x80)) * 64 + (third - 0x80)
      else
        var last: int := s[i + 3];
        (((head - 0xF0) * 64 + (next - 0x80)) * 64 + (third - 0x80)) * 64 + (last - 0x80)
  }

  lemma Remainders(c: Byte)
    ensures 0x80 <= c < 0xC0 ==> c as int % 64 == c as int - 0x80
    ensures 0xC0 <= c < 0xE0 ==> HeaderValue(c) == c as int - 0xC0
    ensures 0xE0 <= c < 0xF0 ==> HeaderValue(c) == c as int - 0xE0
    ensures 0xF0 <= c < 0xF8 ==> HeaderValue(c) == c as int - 0xF0
  {
  }

  lemma CodePointIs(s: Bytes, i: nat)
    requires Group(s, i)
    ensures CodePoint(s, i, TrailingBytes(s[i])) == Value(s, i, TrailingBytes(s[i]))
  {
    hide HeaderValue;
    var n := TrailingBytes(s[i]);
    Remainders(s[i]);
    Remainders(s[i + 1]);
    assert Value(s, i, 1) == HeaderValue(s[i]);
    assert Value(s, i, 2) == Value(s, i, 1) * 64 + s[i + 1] as int % 64;
    if n >= 3 {
      Remainders(s[i + 2]);
      assert Value(s, i, 3) == Value(s, i, 2) * 64 + s[i + 2] as int % 64;
      if n == 4 {
        Remainders(s[i + 3]);
      }
    }
  }

  lemma CodePointRange(s: Bytes, i: nat)
    requires Group(s, i)
    ensures
      var n := TrailingBytes(s[i]);
      var v := CodePoint(s, i, n);
      0 <= v && (n == 2 ==> v < 0x800) && (n == 3 ==> v < 0x1_0000)
  {
  }

  /** Bytes are accepted at a place exactly if they are a lead byte and, still within the input, as many
      continuation bytes as it announces, and are the shortest form of their value, or 0x800 in four
      bytes, which the comparison of line 4815 lets through; surrogates are accepted. */
  lemma AcceptedIff(s: Bytes, i: nat)
    requires i < |s|
    ensures
      var n := if s[i] < 0xE0 then 2 else if s[i] < 0xF0 then 3 else 4;
      Accepted(s, i) <==>
      && 0xC0 <= s[i] < 0xF8 && i + n <= |s| && (forall k :: i < k < i + n ==> 0x80 <= s[k] < 0xC0)
      && (BytesFor(CodePoint(s, i, n)) == n || (n == 4 && CodePoint(s, i, n) == 0x800))
  {
    hide Value, CodePoint;
    var n := if s[i] < 0xE0 then 2 else if s[i] < 0xF0 then 3 else 4;
    assert Group(s, i) <==>
        0xC0 <= s[i] < 0xF8 && i + n <= |s| && forall k :: i < k < i + n ==> 0x80 <= s[k] < 0xC0;
    if Group(s, i) {
      CodePointIs(s, i);
      CodePointRange(s, i);
      SaneIff(CodePoint(s, i, n), n);
    }
  }

  lemma SaneIff(value: int, n: nat)
    requires 0 <= value && 2 <= n <= 4
    requires n == 2 ==> value < 0x800
    requires n == 3 ==> value < 0x1_0000
    ensures Sane(value, n) <==> BytesFor(value) == n || (n == 4 && value == 0x800)
  {
  }

  // --- Decoding the four entities ----------------------------------------------------------------

  predicate StartsWith(s: Bytes, e: Bytes) {
    |e| <= |s| && s[..|e|] == e
  }

  // The length of the entity the bytes start with, 0 if none.
  function Entity(s: Bytes): (n: nat)
    ensures n <= |s|
  {
    if StartsWith(s, AMP_LT) || StartsWith(s, AMP_GT) then 4
    else if StartsWith(s, AMP_AMP) then 5
    else if StartsWith(s, AMP_QUOT) then 6
    else 0
  }

  function Decode(s: Bytes): Bytes {
    if s == [] then []
    else if StartsWith(s, AMP_LT) then [LT] + Decode(s[4..])
    else if StartsWith(s, AMP_GT) then [GT] + Decode(s[4..])
    else if StartsWith(s, AMP_AMP) then [AMP] + Decode(s[5..])
    else if StartsWith(s, AMP_QUOT) then [QUOTE] + Decode(s[6..])
    else [s[0]] + Decode(s[1..])
  }

  lemma DecodeOther(c: Byte, rest: Bytes)
    requires c != AMP
    ensures Decode([c] + rest) == [c] + Decode(rest)
  {
    var t := [c] + rest;
    assert t[1..] == rest;
    assert forall n :: 1 <= n <= |t| ==> t[..n][0] == c;
  }

  lemma {:induction false} DecodePlain(p: Bytes, rest: Bytes)
    requires AMP !in p
    ensures Decode(p + rest) == p + Decode(rest)
  {
    hide Decode;
    if p == [] {
      assert p + rest == rest;
    } else {
      DecodePlain(p[1..], rest);
      DecodeOther(p[0], p[1..] + rest);
      assert p + rest == [p[0]] + (p[1..] + rest);
    }
  }

  lemma DecodeEntity(rest: Bytes)
    ensures Decode(AMP_LT + rest) == [LT] + Decode(rest)
    ensures Decode(AMP_GT + rest) == [GT] + Decode(rest)
    ensures Decode(AMP_AMP + rest) == [AMP] + Decode(rest)
    ensures Decode(AMP_QUOT + rest) == [QUOTE] + Decode(rest)
  {
    assert (AMP_LT + rest)[4..] == rest && (AMP_GT + rest)[4..] == rest;
    assert (AMP_AMP + rest)[5..] == rest && (AMP_QUOT + rest)[6..] == rest;
    assert (AMP_LT + rest)[..4] == AMP_LT && (AMP_GT + rest)[..4] == AMP_GT;
    assert (AMP_AMP + rest)[..5] == AMP_AMP && (AMP_QUOT + rest)[..6] == AMP_QUOT;
    assert (AMP_GT + rest)[..4][1] == 0x67 && (AMP_AMP + rest)[..4][1] == 0x61 && (AMP_QUOT + rest)[..4][1] == 0x71;
    assert (AMP_QUOT + rest)[..5][1] == 0x71;
  }

  // The input with every escaped byte spelled out as \xHH.
  ghost function SpelledOut(s: Bytes, i: nat): Bytes
    requires i <= |s|
    decreases |s| - i
  {
    if i == |s| then []
    else (if Escaped(s, i) then HexEscape(s[i]) else s[i..i + Step(s, i)]) + SpelledOut(s, i + Step(s, i))
  }

  lemma PieceDecoded(s: Bytes, i: nat, attribute: bool, rest: Bytes)
    requires i < |s|
    ensures Decode(Piece(s, i, attribute) + rest) ==
            (if Escaped(s, i) then HexEscape(s[i]) else s[i..i + Step(s, i)]) + Decode(rest)
  {
    DecodeEntity(rest);
    var p := Piece(s, i, attribute);
    if AMP !in p {
      DecodePlain(p, rest);
    }
    assert s[i] < 0x80 ==> s[i..i + Step(s, i)] == [s[i]];
  }

  /** Decoding gives the input back with the escaped bytes spelled out. */
  lemma {:induction false} DecodeEncode(s: Bytes, i: nat, attribute: bool)
    requires i <= |s|
    ensures Decode(Encode(s, i, attribute)) == SpelledOut(s, i)
    decreases |s| - i
  {
    hide Piece, Step, Escaped, HexEscape;
    if i < |s| {
      var next := i + Step(s, i);
      DecodeEncode(s, next, attribute);
      PieceDecoded(s, i, attribute, Encode(s, next, attribute));
    }
  }

  // No byte from i on takes the escape path.
  ghost predicate NoEscapes(s: Bytes, i: nat)
    requires i <= |s|
    decreases |s| - i
  {
    i == |s| || (!Escaped(s, i) && NoEscapes(s, i + Step(s, i)))
  }

  lemma {:induction false} SpelledOutLonger(s: Bytes, i: nat)
    requires i <= |s|
    ensures |s| - i <= |SpelledOut(s, i)|
    ensures |s| - i == |SpelledOut(s, i)| <==> NoEscapes(s, i)
    ensures NoEscapes(s, i) ==> SpelledOut(s, i) == s[i..]
    decreases |s| - i
  {
    if i < |s| {
      var next := i + Step(s, i);
      SpelledOutLonger(s, next);
      assert s[i..] == s[i..next] + s[next..];
    }
  }

  /** Decoding undoes encoding, in either mode, exactly for the inputs without escapes. */
  lemma RoundTripIff(s: Bytes, attribute: bool)
    ensures Decode(Encode(s, 0, attribute)) == s <==> NoEscapes(s, 0)
  {
    DecodeEncode(s, 0, attribute);
    SpelledOutLonger(s, 0);
    assert s[0..] == s;
  }

  // --- What the output looks like -------------------------------------------------------------------

  // A text made of entities, plain characters and complete groups only.
  ghost predicate Clean(t: Bytes, attribute: bool)
    decreases |t|
  {
    if t == [] then true
    else if t[0] == AMP then 0 < Entity(t) && Clean(t[Entity(t)..], attribute)
    else if t[0] < 0x80 then t[0] != LT && !(attribute && t[0] == QUOTE) && Clean(t[1..], attribute)
    else Group(t, 0) && Clean(t[TrailingBytes(t[0])..], attribute)
  }

  predicate Plain(p: Bytes, attribute: bool) {
    forall k :: 0 <= k < |p| ==> p[k] < 0x80 && p[k] != AMP && p[k] != LT && !(attribute && p[k] == QUOTE)
  }

  lemma {:induction false} CleanPlain(p: Bytes, rest: Bytes, attribute: bool)
    requires Clean(rest, attribute) && Plain(p, attribute)
    ensures Clean(p + rest, attribute)
  {
    if p == [] {
      assert p + rest == rest;
    } else {
      CleanPlain(p[1..], rest, attribute);
      assert (p + rest)[1..] == p[1..] + rest;
    }
  }

  lemma CleanEntity(e: Bytes, rest: Bytes, attribute: bool)
    requires Clean(rest, attribute) && e in {AMP_LT, AMP_GT, AMP_AMP, AMP_QUOT}
    ensures Clean(e + rest, attribute)
  {
    var t := e + rest;
    assert t[..|e|] == e && t[|e|..] == rest;
    assert e != AMP_LT && e != AMP_GT ==> t[..4][1] == e[1];
    assert e == AMP_QUOT ==> t[..5][1] == e[1];
  }

  lemma CleanGroup(s: Bytes, i: nat, rest: Bytes, attribute: bool)
    requires Clean(rest, attribute) && Group(s, i)
    ensures Clean(s[i..i + TrailingBytes(s[i])] + rest, attribute)
  {
    var n := TrailingBytes(s[i]);
    var t := s[i..i + n] + rest;
    assert t[n..] == rest && t[0] == s[i];
    forall k | 0 < k < n
      ensures Continuation(t[k])
    {
      assert t[k] == s[i + k];
    }
  }

  lemma PieceClean(s: Bytes, i: nat, rest: Bytes, attribute: bool)
    requires i < |s| && Clean(rest, attribute)
    ensures Clean(Piece(s, i, attribute) + rest, attribute)
  {
    hide Clean, Value, Sane;
    var p := Piece(s, i, attribute);
    if p in {AMP_LT, AMP_GT, AMP_AMP, AMP_QUOT} {
      CleanEntity(p, rest, attribute);
    } else if s[i] < 0x80 || Escaped(s, i) {
      CleanPlain(p, rest, attribute);
    } else {
      CleanGroup(s, i, rest, attribute);
    }
  }

  lemma {:induction false} EncodeClean(s: Bytes, i: nat, attribute: bool)
    requires i <= |s|
    ensures Clean(Encode(s, i, attribute), attribute)
    decreases |s| - i
  {
    hide Piece, Step;
    if i < |s| {
      EncodeClean(s, i + Step(s, i), attribute);
      PieceClean(s, i, Encode(s, i + Step(s, i), attribute), attribute);
    }
  }

  // Position k lies inside a complete group that starts at g.
  ghost predicate InGroup(t: Bytes, g: nat, k: nat) {
    Group(t, g) && g <= k < g + TrailingBytes(t[g])
  }

  lemma GroupShifts(t: Bytes, n: nat, g: nat, k: nat)
    requires n <= k && n <= |t| && InGroup(t[n..], g, k - n)
    ensures InGroup(t, g + n, k)
  {
    var u := t[n..];
    forall m | g + n < m < g + n + TrailingBytes(t[g + n])
      ensures Continuation(t[m])
    {
      assert t[m] == u[m - n];
    }
  }

  // The first unit of a clean text.
  lemma CleanUnit(t: Bytes, attribute: bool) returns (n: nat)
    requires Clean(t, attribute) && t != []
    ensures 1 <= n <= |t| && Clean(t[n..], attribute)
    ensures t[0] < 0x80 ==>
              forall k :: 0 <= k < n ==>
                            && t[k] < 0x80 && t[k] != LT && !(attribute && t[k] == QUOTE)
                            && (t[k] == AMP ==> k == 0 && 0 < Entity(t))
    ensures 0x80 <= t[0] ==> forall k :: 0 <= k < n ==> 0x80 <= t[k] && InGroup(t, 0, k)
  {
    n := if t[0] == AMP then Entity(t) else if t[0] < 0x80 then 1 else TrailingBytes(t[0]);
    assert forall k :: 0 <= k < n ==> t[k] == t[..n][k];
  }

  /** In a clean text there is no <, no quote in an attribute, every & starts an entity, and
      every byte above ASCII lies in a complete group (section 3 of RFC 3629). */
  lemma {:induction false} CleanMeans(t: Bytes, attribute: bool, k: nat)
    requires Clean(t, attribute) && k < |t|
    ensures t[k] != LT && !(attribute && t[k] == QUOTE)
    ensures t[k] == AMP ==> 0 < Entity(t[k..])
    ensures 0x80 <= t[k] ==> exists g: nat :: InGroup(t, g, k)
    decreases |t|
  {
    hide Clean, Entity, InGroup;
    var n := CleanUnit(t, attribute);
    assert t[0..] == t;
    if n <= k {
      CleanMeans(t[n..], attribute, k - n);
      assert t[n..][k - n..] == t[k..];
      if 0x80 <= t[k] {
        var g: nat :| InGroup(t[n..], g, k - n);
        GroupShifts(t, n, g, k);
      }
    }
  }

  // --- The end of a CDATA section --------------------------------------------------------------------

  predicate CdataEnd(t: Bytes, k: nat) {
    k + 3 <= |t| && t[k] == BRACKET && t[k + 1] == BRACKET && t[k + 2] == GT
  }

  // Only a bracket is written as a bracket, only some > as >.
  lemma PieceShape(s: Bytes, i: nat, attribute: bool)
    requires i < |s|
    ensures
      var p := Piece(s, i, attribute);
      && p != []
      && (forall k :: 0 <= k < |p| && p[k] == BRACKET ==> p == [BRACKET] && s[i] == BRACKET && Step(s, i) == 1)
      && (p[0] == GT ==> s[i] == GT && !(i > 2 && s[i - 1] == BRACKET && s[i - 2] == BRACKET))
  {
    hide Value, Sane;
  }

  lemma FirstByte(s: Bytes, i: nat, attribute: bool)
    requires i < |s|
    ensures
      var p, t := Piece(s, i, attribute), Encode(s, i, attribute);
      && p != [] && |p| <= |t| && t[0] == p[0] && t[|p|..] == Encode(s, i + Step(s, i), attribute)
      && (forall k :: 0 <= k < |p| && p[k] == BRACKET ==> p == [BRACKET] && s[i] == BRACKET && Step(s, i) == 1)
      && (p[0] == GT ==> s[i] == GT && !(i > 2 && s[i - 1] == BRACKET && s[i - 2] == BRACKET))
  {
    hide Piece, Step;
    PieceShape(s, i, attribute);
    var p, rest := Piece(s, i, attribute), Encode(s, i + Step(s, i), attribute);
    assert Encode(s, i, attribute) == p + rest && (p + rest)[|p|..] == rest;
  }

  lemma EndReadThere(s: Bytes, i: nat, attribute: bool, k: nat)
    requires i < |s| && k < |Piece(s, i, attribute)| && CdataEnd(Encode(s, i, attribute), k)
    ensures i == 0 && k == 0 && CdataEnd(s, 0)
  {
    hide Piece, Encode, Step;
    FirstByte(s, i, attribute);
    var t, p := Encode(s, i, attribute), Piece(s, i, attribute);
    var t1 := Encode(s, i + Step(s, i), attribute);
    PieceHolds(s, i, attribute, k);
    assert t[|p|..][0] == BRACKET && t[|p|..][1] == GT;
    NothingLeft(s, attribute);
    FirstByte(s, i + 1, attribute);
    assert t1[|Piece(s, i + 1, attribute)|..][0] == GT;
    FirstByte(s, i + 2, attribute);
  }

  lemma NothingLeft(s: Bytes, attribute: bool)
    ensures Encode(s, |s|, attribute) == []
  {
  }

  lemma PieceHolds(s: Bytes, i: nat, attribute: bool, k: nat)
    requires i < |s| && k < |Piece(s, i, attribute)|
    ensures k < |Encode(s, i, attribute)| && Encode(s, i, attribute)[k] == Piece(s, i, attribute)[k]
  {
  }

  lemma {:induction false} EndOnlyAtStart(s: Bytes, i: nat, attribute: bool, k: nat)
    requires i <= |s| && CdataEnd(Encode(s, i, attribute), k)
    ensures i == 0 && CdataEnd(s, 0)
    decreases |s| - i
  {
    hide Piece, Encode, Step;
    NothingLeft(s, attribute);
    if i < |s| {
      FirstByte(s, i, attribute);
      var p := Piece(s, i, attribute);
      if k < |p| {
        EndReadThere(s, i, attribute, k);
      } else {
        assert CdataEnd(Encode(s, i, attribute)[|p|..], k - |p|);
        EndOnlyAtStart(s, i + Step(s, i), attribute, k - |p|);
      }
    }
  }

  /** The XML syntax forbids ]]> in text (line 4750). It is kept out of the output except when the
      input starts with it: line 4751 compares the index with 2 where 1 is meant. */
  lemma CdataEndIff(s: Bytes, attribute: bool)
    ensures (exists k: nat :: CdataEnd(Encode(s, 0, attribute), k)) <==> CdataEnd(s, 0)
  {
    hide Piece, Encode, Step;
    if k: nat :| CdataEnd(Encode(s, 0, attribute), k) {
      EndOnlyAtStart(s, 0, attribute, k);
    }
    if CdataEnd(s, 0) {
      var t := Encode(s, 0, attribute);
      StartWritten(s, attribute);
      FirstByte(s, 0, attribute);
      FirstByte(s, 1, attribute);
      FirstByte(s, 2, attribute);
      assert t[1..] == Encode(s, 1, attribute) && t[1..][1..] == Encode(s, 2, attribute);
      assert CdataEnd(t, 0);
    }
  }

  lemma StartWritten(s: Bytes, attribute: bool)
    requires CdataEnd(s, 0)
    ensures Piece(s, 0, attribute) == Piece(s, 1, attribute) == [BRACKET] && Piece(s, 2, attribute) == [GT]
    ensures Step(s, 0) == Step(s, 1) == 1
  {
  }

  /** encodeTo */
  method EncodeTo(s: Bytes, attribute: bool) returns (os: Bytes)
    ensures os == Encode(s, 0, attribute)
  {
    hide Piece, Step;
    os := [];
    var i := 0;
    while i < |s|
      invariant 0 <= i <= |s| && os + Encode(s, i, attribute) == Encode(s, 0, attribute)
    {
      var piece, taken := EncodeAt(s, i, attribute);
      os := os + piece;
      i := i + taken;
    }
  }

  // The body of the loop: what is written for the byte at i and how many bytes it takes.
  method EncodeAt(s: Bytes, i: nat, attribute: bool) returns (piece: Bytes, taken: nat)
    requires i < |s|
    ensures piece == Piece(s, i, attribute) && taken == Step(s, i)
  {
    var c := s[i];
    piece, taken := [c], 1;
    if c == LT {
      piece := AMP_LT;
    } else if c == AMP {
      piece := AMP_AMP;
    } else if c == GT {
      if i > 2 && s[i - 1] == BRACKET && s[i - 2] == BRACKET {
        piece := AMP_GT;
      }
    } else if c == QUOTE {
      if attribute {
        piece := AMP_QUOT;
      }
    } else if c < 0x09 || (c > 0x0D && c < 0x20) || c == 0x7F {
      piece := HexEscape(c);
    } else if c >= 0x7F {
      piece, taken := EncodeHigh(s, i);
    }
  }

  // The UTF-8 territory of lines 4780-4828.
  method EncodeHigh(s: Bytes, i: nat) returns (piece: Bytes, taken: nat)
    requires i < |s| && 0x7F < s[i]
    ensures piece == (if Accepted(s, i) then s[i..i + TrailingBytes(s[i])] else HexEscape(s[i]))
    ensures taken == if Accepted(s, i) then TrailingBytes(s[i]) else 1
  {
    hide Value, Sane;
    var c := s[i];
    piece, taken := HexEscape(c), 1;
    if c < 0xC0 || c >= 0xF8 {
      return;
    }
    var n := TrailingBytes(c);
    if i + n - 1 >= |s| {
      return;
    }
    var valid, value := ReadGroup(s, i, n);
    if !valid || !Sane(value, n) {
      return;
    }
    piece, taken := s[i..i + n], n;
  }

  // The loop of lines 4803-4807.
  method ReadGroup(s: Bytes, i: nat, n: nat) returns (valid: bool, value: nat)
    requires i < |s| && Lead(s[i]) && n == TrailingBytes(s[i]) && i + n <= |s|
    ensures valid <==> Group(s, i)
    ensures value == Value(s, i, n)
  {
    valid, value := true, HeaderValue(s[i]);
    var k := 1;
    while k < n
      invariant 1 <= k <= n && value == Value(s, i, k)
      invariant valid <==> forall m :: i < m < i + k ==> Continuation(s[m])
    {
      valid := valid && Continuation(s[i + k]);
      value := value * 64 + s[i + k] % 64;
      k := k + 1;
    }
  }
}
