/**
 What the encoding of third-party/argh/doctest.h leaves as it is, and which characters it should
 have kept out of the text and does not.
 */
module XmlLegality {
  import opened XmlEncoding

  // A text of ASCII bytes and complete groups of the accepted kind.
  predicate Utf8(s: Bytes, i: nat)
    requires i <= |s|
    decreases |s| - i
  {
    i == |s|
    || (s[i] < 0x80 && Utf8(s, i + 1))
    || (0x80 <= s[i] && Accepted(s, i) && Utf8(s, i + TrailingBytes(s[i])))
  }

  // An ASCII byte that nothing has to be done about: no markup, no control character but the
  // five from tab to carriage return.
  predicate Harmless(s: Bytes, k: nat, attribute: bool)
    requires k < |s|
  {
    && s[k] != LT && s[k] != AMP && !(attribute && s[k] == QUOTE)
    && !(3 <= k && s[k - 2] == BRACKET && s[k - 1] == BRACKET && s[k] == GT)
    && (0x20 <= s[k] || 0x09 <= s[k] <= 0x0D) && s[k] != 0x7F
  }

  ghost predicate AllHarmless(s: Bytes, i: nat, attribute: bool) {
    forall k :: i <= k < |s| && s[k] < 0x80 ==> Harmless(s, k, attribute)
  }

  lemma PieceKept(s: Bytes, i: nat, attribute: bool)
    requires i < |s|
    ensures
      var n := Step(s, i);
      && n <= |Piece(s, i, attribute)|
      && (|Piece(s, i, attribute)| == n <==>
          if s[i] < 0x80 then Harmless(s, i, attribute) else Accepted(s, i))
      && (|Piece(s, i, attribute)| == n ==> Piece(s, i, attribute) == s[i..i + n])
      && (s[i] < 0x80 ==> n == 1)
      && (0x80 <= s[i] && Accepted(s, i) ==> n == TrailingBytes(s[i]) && forall k :: i <= k < i + n ==> 0x80 <= s[k])
  {
    hide Value, Sane;
  }

  lemma {:induction false} EncodeLonger(s: Bytes, i: nat, attribute: bool)
    requires i <= |s|
    ensures |s| - i <= |Encode(s, i, attribute)|
    ensures |s| - i == |Encode(s, i, attribute)| <==> Utf8(s, i) && AllHarmless(s, i, attribute)
    ensures |s| - i == |Encode(s, i, attribute)| ==> Encode(s, i, attribute) == s[i..]
    decreases |s| - i
  {
    hide Piece, Step, Accepted, Harmless;
    if i < |s| {
      var n := Step(s, i);
      PieceKept(s, i, attribute);
      EncodeLonger(s, i + n, attribute);
      assert s[i..] == s[i..i + n] + s[i + n..];
      if |s| - i == |Encode(s, i, attribute)| && 0x80 <= s[i] {
        assert forall k :: i <= k < |s| && s[k] < 0x80 ==> i + n <= k;
      }
    }
  }

  /** The text comes out unchanged exactly if it is UTF-8 as accepted and nothing in it is markup, the
      end of a CDATA section past the start, or a control character outside tab to carriage return. */
  lemma UnchangedIff(s: Bytes, attribute: bool)
    ensures Encode(s, 0, attribute) == s <==> Utf8(s, 0) && AllHarmless(s, 0, attribute)
  {
    EncodeLonger(s, 0, attribute);
    assert s[0..] == s;
  }

  // --- Escapes ----------------------------------------------------------------------------------------

  // The value of an upper-case hexadecimal digit.
  function DigitValue(d: Byte): int {
    if 0x30 <= d <= 0x39 then d - 0x30 else if 0x41 <= d <= 0x46 then d - 0x37 else -1
  }

  /** An escape is \x and the two upper-case hexadecimal digits of the byte. */
  lemma EscapeMeans(c: Byte)
    ensures
      var e := HexEscape(c);
      && |e| == 4 && e[0] == 0x5C && e[1] == 0x78
      && 0 <= DigitValue(e[2]) && 0 <= DigitValue(e[3]) && DigitValue(e[2]) * 16 + DigitValue(e[3]) == c
  {
  }

  // --- Characters XML does not allow ------------------------------------------------------------------

  // Below the space only tab, line feed and carriage return are characters of XML 1.0 (section 2.2).
  predicate Legal(c: Byte) {
    0x20 <= c || c == 0x09 || c == 0x0A || c == 0x0D
  }

  predicate AllLegal(t: Bytes) {
    forall k :: 0 <= k < |t| ==> Legal(t[k])
  }

  lemma LegalBoth(a: Bytes, b: Bytes)
    ensures AllLegal(a + b) <==> AllLegal(a) && AllLegal(b)
  {
    assert AllLegal(a + b) ==> forall k :: 0 <= k < |a| ==> (a + b)[k] == a[k];
    if AllLegal(a + b) {
      forall k | 0 <= k < |b|
        ensures Legal(b[k])
      {
        assert (a + b)[|a| + k] == b[k];
      }
    }
  }

  lemma PieceLegal(s: Bytes, i: nat, attribute: bool)
    requires i < |s|
    ensures AllLegal(Piece(s, i, attribute)) <==> s[i] != 0x0B && s[i] != 0x0C
    ensures forall k :: i < k < i + Step(s, i) ==> 0x80 <= s[k]
  {
    hide Value, Sane;
    EscapeMeans(s[i]);
    if s[i] < 0x80 && Piece(s, i, attribute) == s[i..i + 1] {
      assert s[i..i + 1] == [s[i]];
    }
  }

  /** Control characters that are illegal in XML 1.0 are escaped (line 4767) except vertical tab and
      form feed, which the test of line 4769 lets through: the output is legal exactly for the
      inputs without them. */
  lemma {:induction false} LegalIff(s: Bytes, i: nat, attribute: bool)
    requires i <= |s|
    ensures AllLegal(Encode(s, i, attribute)) <==> 0x0B !in s[i..] && 0x0C !in s[i..]
    decreases |s| - i
  {
    hide Piece, Step, AllLegal;
    if i == |s| {
      assert s[i..] == [];
      NothingIllegal();
    } else {
      var next := i + Step(s, i);
      PieceLegal(s, i, attribute);
      LegalIff(s, next, attribute);
      LegalBoth(Piece(s, i, attribute), Encode(s, next, attribute));
      forall c: Byte | c < 0x80
        ensures c in s[i..] <==> c == s[i] || c in s[next..]
      {
        assert s[i..] == s[i..next] + s[next..] && s[i..next][0] == s[i];
      }
    }
  }

  lemma NothingIllegal()
    ensures AllLegal([])
  {
  }
}
