/**
 The document a reader of the report of third-party/argh/doctest.h builds up: a tree of elements
 with their attributes, texts and children, against what each reporter event was told.
 */
module XmlDocuments {
  import opened XmlEncoding
  import opened XmlReporting
  import XmlReadBack

  // An element as read: values and texts are decoded.
  datatype Item = Item(element: Element, attributes: seq<(string, Bytes)>, text: Bytes, kids: seq<Item>)

  // The elements being read, outermost first; top is the innermost one.
  datatype Reader = Reader(below: seq<Item>, top: Item) {
    function Opening(e: Element): Reader {
      Reader(below + [top], Item(e, [], [], []))
    }

    function Closing(): Reader {
      if below == [] then this
      else
        var parent := below[|below| - 1];
        Reader(below[..|below| - 1], parent.(kids := parent.kids + [top]))
    }

    function With(its: seq<Item>): Reader {
      this.(top := top.(kids := top.kids + its))
    }

    function Having(attributes: seq<(string, Bytes)>): Reader {
      this.(top := top.(attributes := top.attributes + attributes))
    }

    function Saying(text: Bytes): Reader {
      this.(top := top.(text := top.text + text))
    }
  }

  // A reader at the start; the report's elements become children of this one.
  const BLANK: Reader := Reader([], Item(OtherElement(""), [], [], []))

  function ReadOne(r: Reader, m: Mark): Reader {
    match m
    case Start(e) => r.Opening(e)
    case Attr(n, v) => r.Having([(n, Decode(v))])
    case Chars(v) => r.Saying(Decode(v))
    case Finish => r.Closing()
  }

  function Read(r: Reader, ms: seq<Mark>): Reader {
    if ms == [] then r else ReadOne(Read(r, ms[..|ms| - 1]), ms[|ms| - 1])
  }

  // --- What the events were told --------------------------------------------------------------------

  // Empty names and empty values are left out; bytes that are no UTF-8 come back spelled out.
  ghost function Kept(attributes: Attributes): seq<(string, Bytes)> {
    if attributes == [] then []
    else
      var (name, value) := attributes[|attributes| - 1];
      Kept(attributes[..|attributes| - 1]) + if name == "" || value == [] then [] else [(name, SpelledOut(value, 0))]
  }

  ghost function Leaf(e: Element, text: Bytes): Item {
    Item(e, [], SpelledOut(text, 0), [])
  }

  ghost function Leaves(e: Element, texts: seq<Bytes>): (its: seq<Item>)
    ensures |its| == |texts| && forall k :: 0 <= k < |texts| ==> its[k] == Leaf(e, texts[k])
  {
    seq(|texts|, k requires 0 <= k < |texts| => Leaf(e, texts[k]))
  }

  ghost function Flat(e: Element, attributes: Attributes): Item {
    Item(e, Kept(attributes), [], [])
  }

  function Only(wanted: bool, text: Bytes): seq<Bytes> {
    if wanted then [text] else []
  }

  // The parts of an assertion that apply.
  ghost function Parts(d: AssertData): seq<Item> {
    [Leaf(OriginalElement, d.expr)]
    + Leaves(ExceptionElement, Only(d.threw, d.exception))
    + Leaves(ExpectedExceptionElement, Only(d.throwsAs, d.exceptionType))
    + Leaves(ExpectedExceptionStringElement, Only(d.throwsWith, d.exceptionString))
    + Leaves(ExpandedElement, Only(d.normal && !d.threw, d.decomp))
  }

  // The element for an assertion: its parts, then the contexts in order.
  ghost function Expression(d: AssertData, contexts: seq<Bytes>): Item {
    Item(ExpressionElement, Kept(d.attributes), [], Parts(d) + Leaves(InfoElement, contexts))
  }

  ghost function Message(attributes: Attributes, text: Bytes, contexts: seq<Bytes>): Item {
    Item(MessageElement, Kept(attributes), [], [Leaf(TextElement, text)] + Leaves(InfoElement, contexts))
  }

  // A case goes into the suite that is open if the last case was of the same suite, else into a
  // new one, before which that one is closed; names are the suites of the cases before.
  ghost function EnterCase(r: Reader, names: seq<Bytes>, suite: Bytes, attributes: Attributes): Reader {
    var inSuite :=
      if names != [] && names[|names| - 1] == suite then r
      else (if names == [] then r else r.Closing()).Opening(TestSuiteElement).Having(Kept([("name", suite)]));
    inSuite.Opening(TestCaseElement).Having(Kept(attributes))
  }

  // What an event adds to the document.
  ghost function Grow(r: Reader, names: seq<Bytes>, e: Event, opt: Options): Reader {
    match e
    case TestRunStart(attributes, options) =>
      r.Opening(DoctestElement).Having(Kept(attributes)).With([Flat(OptionsElement, options)])
    case TestCaseStart(suite, attributes) => EnterCase(r, names, suite, attributes)
    case TestCaseReenter => r
    case TestCaseSkipped(suite, attributes) =>
      if opt.noSkippedSummary then r else EnterCase(r, names, suite, attributes + [("skipped", TRUE)]).Closing()
    case SubcaseStart(attributes) => r.Opening(SubCaseElement).Having(Kept(attributes))
    case SubcaseEnd => r.Closing()
    case LogAssert(d, contexts) => if d.failed || opt.success then r.With([Expression(d, contexts)]) else r
    case LogMessage(attributes, text, contexts) => r.With([Message(attributes, text, contexts)])
    case TestCaseException(attributes, text) =>
      r.With([Item(ExceptionElement, Kept(attributes), SpelledOut(text, 0), [])])
    case TestCaseEnd(attributes) => r.With([Flat(OverallResultsAssertsElement, attributes)]).Closing()
    case TestRunEnd(asserts, cases) =>
      (if names == [] then r else r.Closing())
        .With([Flat(OverallResultsAssertsElement, asserts), Flat(OverallResultsTestCasesElement, cases)]).Closing()
  }

  // The document after the events.
  ghost function Document(es: seq<Event>, opt: Options): Reader {
    if es == [] then BLANK
    else
      var before := es[..|es| - 1];
      Grow(Document(before, opt), XmlReadBack.CaseSuites(before, opt), es[|es| - 1], opt)
  }

  // --- Reading marks --------------------------------------------------------------------------------

  lemma ReadSnoc(r: Reader, ms: seq<Mark>, m: Mark)
    ensures Read(r, ms + [m]) == ReadOne(Read(r, ms), m)
  {
    assert (ms + [m])[..|ms|] == ms;
  }

  lemma {:induction false} ReadBoth(r: Reader, a: seq<Mark>, b: seq<Mark>)
    ensures Read(r, a + b) == Read(Read(r, a), b)
    decreases |b|
  {
    hide ReadOne;
    if b == [] {
      assert a + b == a;
    } else {
      var n := |b| - 1;
      ReadBoth(r, a, b[..n]);
      ReadSnoc(r, a + b[..n], b[n]);
      assert a + b == a + b[..n] + [b[n]];
    }
  }

  lemma ReadMark(r: Reader, m: Mark)
    ensures Read(r, [m]) == ReadOne(r, m) && Read(r, []) == r
  {
    ReadSnoc(r, [], m);
    assert [] + [m] == [m];
  }

  lemma ReadAttribute(r: Reader, name: string, value: Bytes)
    ensures Read(r, AttrMarks(name, value)) ==
            r.Having(if name == "" || value == [] then [] else [(name, SpelledOut(value, 0))])
  {
    hide Read, Decode, Encode, SpelledOut;
    DecodeEncode(value, 0, true);
    ReadMark(r, Attr(name, Encode(value, 0, true)));
    assert r.top.attributes + [] == r.top.attributes;
  }

  lemma {:induction false} ReadAttributes(r: Reader, attributes: Attributes)
    ensures Read(r, AllAttrMarks(attributes)) == r.Having(Kept(attributes))
  {
    hide Read, AttrMarks, SpelledOut;
    if attributes == [] {
      ReadMark(r, Finish);
      assert r.top.attributes + [] == r.top.attributes;
    } else {
      var n := |attributes| - 1;
      var (name, value) := attributes[n];
      var rest := AllAttrMarks(attributes[..n]);
      ReadAttributes(r, attributes[..n]);
      ReadBoth(r, rest, AttrMarks(name, value));
      ReadAttribute(Read(r, rest), name, value);
      var one := if name == "" || value == [] then [] else [(name, SpelledOut(value, 0))];
      assert r.top.attributes + Kept(attributes[..n]) + one == r.top.attributes + (Kept(attributes[..n]) + one);
    }
  }

  lemma ReadText(r: Reader, text: Bytes)
    ensures Read(r, CharMarks(text)) == r.Saying(SpelledOut(text, 0))
  {
    hide Read, Decode, Encode;
    DecodeEncode(text, 0, false);
    ReadMark(r, Chars(Encode(text, 0, false)));
    assert r.top.text + [] == r.top.text;
  }

  lemma Closed(r: Reader, e: Element, attributes: seq<(string, Bytes)>, text: Bytes, kids: seq<Item>)
    ensures r.Opening(e).Having(attributes).Saying(text).With(kids).Closing() ==
            r.With([Item(e, attributes, text, kids)])
  {
    assert [] + attributes == attributes && [] + text == text && [] + kids == kids;
    assert (r.below + [r.top])[..|r.below|] == r.below;
  }

  lemma NoneAdded(r: Reader)
    ensures r.Having([]) == r && r.Saying([]) == r && r.With([]) == r
  {
    assert r.top.attributes + [] == r.top.attributes && r.top.text + [] == r.top.text && r.top.kids + [] == r.top.kids;
  }

  lemma TwoAdded(r: Reader, a: seq<Item>, b: seq<Item>)
    ensures r.With(a).With(b) == r.With(a + b)
  {
    assert r.top.kids + a + b == r.top.kids + (a + b);
  }

  lemma ReadLeaf(r: Reader, e: Element, text: Bytes)
    ensures Read(r, LeafMarks(e, text)) == r.With([Leaf(e, text)])
  {
    hide Read, CharMarks, SpelledOut;
    var begun := r.Opening(e);
    ReadMark(r, Start(e));
    ReadBoth(r, [Start(e)], CharMarks(text));
    ReadText(begun, text);
    ReadBoth(r, [Start(e)] + CharMarks(text), [Finish]);
    ReadMark(begun.Saying(SpelledOut(text, 0)), Finish);
    NoneAdded(begun);
    NoneAdded(begun.Saying(SpelledOut(text, 0)));
    Closed(r, e, [], SpelledOut(text, 0), []);
  }

  lemma ReadLeafIf(r: Reader, wanted: bool, e: Element, text: Bytes)
    ensures Read(r, if wanted then LeafMarks(e, text) else []) == r.With(Leaves(e, Only(wanted, text)))
  {
    hide Read, LeafMarks, Leaf;
    if wanted {
      ReadLeaf(r, e, text);
      assert Leaves(e, [text]) == [Leaf(e, text)];
    } else {
      ReadMark(r, Finish);
      NoneAdded(r);
      assert Leaves(e, []) == [];
    }
  }

  lemma ReadFlat(r: Reader, e: Element, attributes: Attributes)
    ensures Read(r, FlatMarks(e, attributes)) == r.With([Flat(e, attributes)])
  {
    hide Read, AllAttrMarks, Kept;
    var begun := r.Opening(e);
    ReadMark(r, Start(e));
    ReadBoth(r, [Start(e)], AllAttrMarks(attributes));
    ReadAttributes(begun, attributes);
    ReadBoth(r, [Start(e)] + AllAttrMarks(attributes), [Finish]);
    ReadMark(begun.Having(Kept(attributes)), Finish);
    NoneAdded(begun.Having(Kept(attributes)));
    Closed(r, e, Kept(attributes), [], []);
  }

  lemma {:induction false} ReadContexts(r: Reader, contexts: seq<Bytes>)
    ensures Read(r, ContextMarks(contexts)) == r.With(Leaves(InfoElement, contexts))
  {
    hide Read, LeafMarks, Leaf;
    if contexts == [] {
      ReadMark(r, Finish);
      NoneAdded(r);
      assert Leaves(InfoElement, []) == [];
    } else {
      var n := |contexts| - 1;
      ReadContexts(r, contexts[..n]);
      ReadBoth(r, ContextMarks(contexts[..n]), LeafMarks(InfoElement, contexts[n]));
      ReadLeaf(r.With(Leaves(InfoElement, contexts[..n])), InfoElement, contexts[n]);
      TwoAdded(r, Leaves(InfoElement, contexts[..n]), [Leaf(InfoElement, contexts[n])]);
      assert Leaves(InfoElement, contexts) == Leaves(InfoElement, contexts[..n]) + [Leaf(InfoElement, contexts[n])];
    }
  }

  // --- Reading events -------------------------------------------------------------------------------

  // Reading one piece after another, each of which adds children.
  lemma ReadTwo(r: Reader, a: seq<Mark>, x: seq<Item>, b: seq<Mark>, y: seq<Item>)
    requires Read(r, a) == r.With(x) && Read(r.With(x), b) == r.With(x).With(y)
    ensures Read(r, a + b) == r.With(x + y)
  {
    hide Read;
    ReadBoth(r, a, b);
    TwoAdded(r, x, y);
  }

  lemma ReadThrown(r: Reader, d: AssertData)
    ensures
      Read(r, ThrownMarks(d)) ==
      r.With([Leaf(OriginalElement, d.expr)] + Leaves(ExceptionElement, Only(d.threw, d.exception))
             + Leaves(ExpectedExceptionElement, Only(d.throwsAs, d.exceptionType)))
  {
    hide Read, LeafMarks, Leaf, Leaves, Only;
    var original, x := [Leaf(OriginalElement, d.expr)], Leaves(ExceptionElement, Only(d.threw, d.exception));
    var first := LeafMarks(OriginalElement, d.expr);
    var second := if d.threw then LeafMarks(ExceptionElement, d.exception) else [];
    ReadLeaf(r, OriginalElement, d.expr);
    ReadLeafIf(r.With(original), d.threw, ExceptionElement, d.exception);
    ReadTwo(r, first, original, second, x);
    ReadLeafIf(r.With(original + x), d.throwsAs, ExpectedExceptionElement, d.exceptionType);
    ReadTwo(r, first + second, original + x,
            if d.throwsAs then LeafMarks(ExpectedExceptionElement, d.exceptionType) else [],
            Leaves(ExpectedExceptionElement, Only(d.throwsAs, d.exceptionType)));
  }

  lemma ReadParts(r: Reader, d: AssertData)
    ensures Read(r, PartMarks(d)) == r.With(Parts(d))
  {
    hide Read, LeafMarks, ThrownMarks, Leaf, Leaves, Only;
    var thrown := [Leaf(OriginalElement, d.expr)] + Leaves(ExceptionElement, Only(d.threw, d.exception))
                  + Leaves(ExpectedExceptionElement, Only(d.throwsAs, d.exceptionType));
    var third := if d.throwsWith then LeafMarks(ExpectedExceptionStringElement, d.exceptionString) else [];
    var x := Leaves(ExpectedExceptionStringElement, Only(d.throwsWith, d.exceptionString));
    ReadThrown(r, d);
    ReadLeafIf(r.With(thrown), d.throwsWith, ExpectedExceptionStringElement, d.exceptionString);
    ReadTwo(r, ThrownMarks(d), thrown, third, x);
    ReadLeafIf(r.With(thrown + x), d.normal && !d.threw, ExpandedElement, d.decomp);
    ReadTwo(r, ThrownMarks(d) + third, thrown + x,
            if d.normal && !d.threw then LeafMarks(ExpandedElement, d.decomp) else [],
            Leaves(ExpandedElement, Only(d.normal && !d.threw, d.decomp)));
  }

  // An element with attributes and, as read, children.
  lemma ReadElement(r: Reader, e: Element, attributes: Attributes, inner: seq<Mark>, kids: seq<Item>)
    requires var begun := r.Opening(e).Having(Kept(attributes)); Read(begun, inner) == begun.With(kids)
    ensures
      Read(r, [Start(e)] + AllAttrMarks(attributes) + inner + [Finish]) == r.With([Item(e, Kept(attributes), [], kids)])
  {
    hide Read, AllAttrMarks, Kept;
    var begun := r.Opening(e);
    ReadMark(r, Start(e));
    ReadBoth(r, [Start(e)], AllAttrMarks(attributes));
    ReadAttributes(begun, attributes);
    ReadBoth(r, [Start(e)] + AllAttrMarks(attributes), inner);
    ReadBoth(r, [Start(e)] + AllAttrMarks(attributes) + inner, [Finish]);
    ReadMark(begun.Having(Kept(attributes)).With(kids), Finish);
    NoneAdded(begun.Having(Kept(attributes)));
    Closed(r, e, Kept(attributes), [], kids);
  }

  lemma ReadAssert(r: Reader, tc: Suite, d: AssertData, contexts: seq<Bytes>, opt: Options)
    ensures
      Read(r, Script(tc, LogAssert(d, contexts), opt)) ==
      if d.failed || opt.success then r.With([Expression(d, contexts)]) else r
  {
    hide Read, AllAttrMarks, PartMarks, ContextMarks, Kept, Leaf, Leaves, Only;
    if d.failed || opt.success {
      var begun := r.Opening(ExpressionElement).Having(Kept(d.attributes));
      ReadParts(begun, d);
      ReadContexts(begun.With(Parts(d)), contexts);
      ReadTwo(begun, PartMarks(d), Parts(d), ContextMarks(contexts), Leaves(InfoElement, contexts));
      ReadElement(r, ExpressionElement, d.attributes, PartMarks(d) + ContextMarks(contexts),
                  Parts(d) + Leaves(InfoElement, contexts));
      assert [Start(ExpressionElement)] + AllAttrMarks(d.attributes) + (PartMarks(d) + ContextMarks(contexts)) ==
             [Start(ExpressionElement)] + AllAttrMarks(d.attributes) + PartMarks(d) + ContextMarks(contexts);
    } else {
      ReadMark(r, Finish);
    }
  }

  lemma ReadMessage(r: Reader, tc: Suite, attributes: Attributes, text: Bytes, contexts: seq<Bytes>, opt: Options)
    ensures
      Read(r, Script(tc, LogMessage(attributes, text, contexts), opt)) ==
      r.With([Message(attributes, text, contexts)])
  {
    hide Read, AllAttrMarks, LeafMarks, ContextMarks, Kept, Leaf, Leaves;
    var begun, said := r.Opening(MessageElement).Having(Kept(attributes)), [Leaf(TextElement, text)];
    ReadLeaf(begun, TextElement, text);
    ReadContexts(begun.With(said), contexts);
    ReadTwo(begun, LeafMarks(TextElement, text), said, ContextMarks(contexts), Leaves(InfoElement, contexts));
    ReadElement(r, MessageElement, attributes, LeafMarks(TextElement, text) + ContextMarks(contexts),
                said + Leaves(InfoElement, contexts));
    assert [Start(MessageElement)] + AllAttrMarks(attributes) + (LeafMarks(TextElement, text) + ContextMarks(contexts))
        == [Start(MessageElement)] + AllAttrMarks(attributes) + LeafMarks(TextElement, text) + ContextMarks(contexts);
  }

  lemma ReadException(r: Reader, tc: Suite, attributes: Attributes, text: Bytes, opt: Options)
    ensures
      Read(r, Script(tc, TestCaseException(attributes, text), opt)) ==
      r.With([Item(ExceptionElement, Kept(attributes), SpelledOut(text, 0), [])])
  {
    hide Read, AllAttrMarks, CharMarks, Kept, SpelledOut;
    var begun := r.Opening(ExceptionElement);
    ReadMark(r, Start(ExceptionElement));
    ReadBoth(r, [Start(ExceptionElement)], AllAttrMarks(attributes));
    ReadAttributes(begun, attributes);
    ReadBoth(r, [Start(ExceptionElement)] + AllAttrMarks(attributes), CharMarks(text));
    ReadText(begun.Having(Kept(attributes)), text);
    ReadBoth(r, [Start(ExceptionElement)] + AllAttrMarks(attributes) + CharMarks(text), [Finish]);
    var all := begun.Having(Kept(attributes)).Saying(SpelledOut(text, 0));
    ReadMark(all, Finish);
    NoneAdded(all);
    Closed(r, ExceptionElement, Kept(attributes), SpelledOut(text, 0), []);
  }

  // The suite is known from the cases before.
  predicate LastSuite(tc: Suite, names: seq<Bytes>) {
    tc == if names == [] then NoSuite else Opened(names[|names| - 1])
  }

  lemma ReadSuite(r: Reader, tc: Suite, names: seq<Bytes>, suite: Bytes)
    requires LastSuite(tc, names)
    ensures
      Read(r, SuiteMarks(tc, suite)) ==
      if names != [] && names[|names| - 1] == suite then r
      else (if names == [] then r else r.Closing()).Opening(TestSuiteElement).Having(Kept([("name", suite)]))
  {
    hide Read, AttrMarks, SpelledOut;
    ReadMark(r, Finish);
    if tc != Opened(suite) {
      var s, ms := if names == [] then r else r.Closing(), if tc.Opened? then [Finish] else [];
      assert Read(r, ms) == s;
      ReadBoth(r, ms, [Start(TestSuiteElement)]);
      ReadMark(s, Start(TestSuiteElement));
      ReadBoth(r, ms + [Start(TestSuiteElement)], AttrMarks("name", suite));
      ReadAttribute(s.Opening(TestSuiteElement), "name", suite);
      KeptSnoc([], "name", suite);
      assert [] + [("name", suite)] == [("name", suite)];
    }
  }

  lemma KeptSnoc(attributes: Attributes, name: string, value: Bytes)
    ensures Kept(attributes + [(name, value)]) ==
            Kept(attributes) + if name == "" || value == [] then [] else [(name, SpelledOut(value, 0))]
  {
    hide SpelledOut;
    assert (attributes + [(name, value)])[..|attributes|] == attributes;
  }

  lemma ReadCase(r: Reader, tc: Suite, names: seq<Bytes>, suite: Bytes, attributes: Attributes)
    requires LastSuite(tc, names)
    ensures Read(r, CaseMarks(tc, suite, attributes)) == EnterCase(r, names, suite, attributes)
  {
    hide Read, SuiteMarks, AllAttrMarks, Kept;
    ReadSuite(r, tc, names, suite);
    var s := Read(r, SuiteMarks(tc, suite));
    ReadBoth(r, SuiteMarks(tc, suite), [Start(TestCaseElement)]);
    ReadMark(s, Start(TestCaseElement));
    ReadBoth(r, SuiteMarks(tc, suite) + [Start(TestCaseElement)], AllAttrMarks(attributes));
    ReadAttributes(s.Opening(TestCaseElement), attributes);
  }

  lemma ReadSkipped(r: Reader, tc: Suite, names: seq<Bytes>, suite: Bytes, attributes: Attributes)
    requires LastSuite(tc, names)
    ensures
      Read(r, CaseMarks(tc, suite, attributes) + AttrMarks("skipped", TRUE) + [Finish]) ==
      EnterCase(r, names, suite, attributes + [("skipped", TRUE)]).Closing()
  {
    hide Read, CaseMarks, AttrMarks, Kept, SpelledOut;
    ReadCase(r, tc, names, suite, attributes);
    var s := EnterCase(r, names, suite, attributes);
    ReadBoth(r, CaseMarks(tc, suite, attributes), AttrMarks("skipped", TRUE));
    ReadAttribute(s, "skipped", TRUE);
    ReadBoth(r, CaseMarks(tc, suite, attributes) + AttrMarks("skipped", TRUE), [Finish]);
    ReadMark(Read(s, AttrMarks("skipped", TRUE)), Finish);
    KeptSnoc(attributes, "skipped", TRUE);
    var one := if TRUE == [] then [] else [("skipped", SpelledOut(TRUE, 0))];
    assert [] + Kept(attributes) + one == [] + (Kept(attributes) + one);
  }

  lemma ReadRunEnd(r: Reader, tc: Suite, names: seq<Bytes>, asserts: Attributes, cases: Attributes, opt: Options)
    requires LastSuite(tc, names)
    ensures
      Read(r, Script(tc, TestRunEnd(asserts, cases), opt)) ==
      (if names == [] then r else r.Closing())
        .With([Flat(OverallResultsAssertsElement, asserts), Flat(OverallResultsTestCasesElement, cases)]).Closing()
  {
    hide Read, FlatMarks, Flat;
    ReadMark(r, Finish);
    var s, ms := if names == [] then r else r.Closing(), if tc.Opened? then [Finish] else [];
    var a, b := FlatMarks(OverallResultsAssertsElement, asserts), FlatMarks(OverallResultsTestCasesElement, cases);
    var x, y := [Flat(OverallResultsAssertsElement, asserts)], [Flat(OverallResultsTestCasesElement, cases)];
    assert Read(r, ms) == s;
    ReadBoth(r, ms, a);
    ReadFlat(s, OverallResultsAssertsElement, asserts);
    ReadBoth(r, ms + a, b);
    ReadFlat(s.With(x), OverallResultsTestCasesElement, cases);
    TwoAdded(s, x, y);
    assert x + y == [x[0], y[0]];
    ReadBoth(r, ms + a + b, [Finish]);
    ReadMark(s.With(x).With(y), Finish);
  }

  lemma ReadRunStart(r: Reader, tc: Suite, attributes: Attributes, options: Attributes, opt: Options)
    ensures
      Read(r, Script(tc, TestRunStart(attributes, options), opt)) ==
      r.Opening(DoctestElement).Having(Kept(attributes)).With([Flat(OptionsElement, options)])
  {
    hide Read, AllAttrMarks, FlatMarks, Kept, Flat;
    var begun := r.Opening(DoctestElement);
    ReadMark(r, Start(DoctestElement));
    ReadBoth(r, [Start(DoctestElement)], AllAttrMarks(attributes));
    ReadAttributes(begun, attributes);
    ReadBoth(r, [Start(DoctestElement)] + AllAttrMarks(attributes), FlatMarks(OptionsElement, options));
    ReadFlat(begun.Having(Kept(attributes)), OptionsElement, options);
  }

  lemma ReadEvent(r: Reader, tc: Suite, names: seq<Bytes>, e: Event, opt: Options)
    requires LastSuite(tc, names)
    ensures Read(r, Script(tc, e, opt)) == Grow(r, names, e, opt)
  {
    hide Read, AllAttrMarks, FlatMarks, CaseMarks, Kept, Flat, Expression, Message, EnterCase, SpelledOut, AttrMarks;
    ReadMark(r, Finish);
    match e
    case TestRunStart(attributes, options) => ReadRunStart(r, tc, attributes, options, opt);
    case TestCaseStart(suite, attributes) => ReadCase(r, tc, names, suite, attributes);
    case TestCaseReenter =>
    case TestCaseSkipped(suite, attributes) => ReadSkipped(r, tc, names, suite, attributes);
    case SubcaseStart(attributes) =>
      ReadMark(r, Start(SubCaseElement));
      ReadBoth(r, [Start(SubCaseElement)], AllAttrMarks(attributes));
      ReadAttributes(r.Opening(SubCaseElement), attributes);
    case SubcaseEnd =>
    case LogAssert(d, contexts) => ReadAssert(r, tc, d, contexts, opt);
    case LogMessage(attributes, text, contexts) => ReadMessage(r, tc, attributes, text, contexts, opt);
    case TestCaseException(attributes, text) => ReadException(r, tc, attributes, text, opt);
    case TestCaseEnd(attributes) =>
      ReadBoth(r, FlatMarks(OverallResultsAssertsElement, attributes), [Finish]);
      ReadFlat(r, OverallResultsAssertsElement, attributes);
      ReadMark(r.With([Flat(OverallResultsAssertsElement, attributes)]), Finish);
    case TestRunEnd(asserts, cases) => ReadRunEnd(r, tc, names, asserts, cases, opt);
  }

  /** Whatever events a report is written for, what a reader builds up from it is the document those
      events ask for. */
  lemma {:induction false} ReportRead(es: seq<Event>, opt: Options)
    ensures Read(BLANK, Transcript(es, opt)) == Document(es, opt)
  {
    hide Script, Grow;
    if es == [] {
      ReadMark(BLANK, Finish);
    } else {
      var before := es[..|es| - 1];
      ReportRead(before, opt);
      XmlReadBack.SuitesGrouped(before, opt);
      var tc, names := SuiteAfterAll(before, opt), XmlReadBack.CaseSuites(before, opt);
      ReadBoth(BLANK, Transcript(before, opt), Script(tc, es[|es| - 1], opt));
      ReadEvent(Document(before, opt), tc, names, es[|es| - 1], opt);
    }
  }

  // --- What that means for a reader -------------------------------------------------------------------

  // The texts of the children of a kind, in order.
  function Texts(its: seq<Item>, e: Element): seq<Bytes> {
    if its == [] then []
    else Texts(its[..|its| - 1], e) + if its[|its| - 1].element == e then [its[|its| - 1].text] else []
  }

  lemma {:induction false} TextsBoth(a: seq<Item>, b: seq<Item>, e: Element)
    ensures Texts(a + b, e) == Texts(a, e) + Texts(b, e)
    decreases |b|
  {
    if b == [] {
      assert a + b == a;
    } else {
      var n := |b| - 1;
      TextsBoth(a, b[..n], e);
      assert (a + b)[..|a| + n] == a + b[..n] && (a + b)[|a| + n] == b[n];
    }
  }

  ghost function AllSpelledOut(texts: seq<Bytes>): (r: seq<Bytes>)
    ensures |r| == |texts| && forall k :: 0 <= k < |texts| ==> r[k] == SpelledOut(texts[k], 0)
  {
    seq(|texts|, k requires 0 <= k < |texts| => SpelledOut(texts[k], 0))
  }

  lemma {:induction false} TextsOfLeaves(e: Element, texts: seq<Bytes>, wanted: Element)
    ensures Texts(Leaves(e, texts), wanted) == if e == wanted then AllSpelledOut(texts) else []
  {
    hide SpelledOut;
    if texts != [] {
      var n := |texts| - 1;
      TextsOfLeaves(e, texts[..n], wanted);
      assert Leaves(e, texts)[..n] == Leaves(e, texts[..n]);
      assert AllSpelledOut(texts) == AllSpelledOut(texts[..n]) + [SpelledOut(texts[n], 0)];
    }
  }

  lemma TextsOfOnly(e: Element, there: bool, text: Bytes, wanted: Element)
    ensures Texts(Leaves(e, Only(there, text)), wanted) == if there && e == wanted then [SpelledOut(text, 0)] else []
  {
    hide SpelledOut, Texts;
    TextsOfLeaves(e, Only(there, text), wanted);
    assert AllSpelledOut([text]) == [SpelledOut(text, 0)] && AllSpelledOut([]) == [];
  }

  lemma TextsOfOne(e: Element, text: Bytes, wanted: Element)
    ensures Texts([Leaf(e, text)], wanted) == if e == wanted then [SpelledOut(text, 0)] else []
  {
    hide SpelledOut, Texts;
    TextsOfOnly(e, true, text, wanted);
    assert Leaves(e, [text]) == [Leaf(e, text)];
  }

  lemma TextsOfParts(d: AssertData, contexts: seq<Bytes>, wanted: Element)
    ensures
      Texts(Parts(d) + Leaves(InfoElement, contexts), wanted) ==
      match wanted
      case OriginalElement => [SpelledOut(d.expr, 0)]
      case ExceptionElement => if d.threw then [SpelledOut(d.exception, 0)] else []
      case ExpectedExceptionElement => if d.throwsAs then [SpelledOut(d.exceptionType, 0)] else []
      case ExpectedExceptionStringElement => if d.throwsWith then [SpelledOut(d.exceptionString, 0)] else []
      case ExpandedElement => if d.normal && !d.threw then [SpelledOut(d.decomp, 0)] else []
      case InfoElement => AllSpelledOut(contexts)
      case _ => []
  {
    hide SpelledOut, Texts, Leaf, Leaves, Only, AllSpelledOut;
    var a, b := [Leaf(OriginalElement, d.expr)], Leaves(ExceptionElement, Only(d.threw, d.exception));
    var c := Leaves(ExpectedExceptionElement, Only(d.throwsAs, d.exceptionType));
    var f := Leaves(ExpectedExceptionStringElement, Only(d.throwsWith, d.exceptionString));
    var g := Leaves(ExpandedElement, Only(d.normal && !d.threw, d.decomp));
    TextsOfOne(OriginalElement, d.expr, wanted);
    TextsOfOnly(ExceptionElement, d.threw, d.exception, wanted);
    TextsOfOnly(ExpectedExceptionElement, d.throwsAs, d.exceptionType, wanted);
    TextsOfOnly(ExpectedExceptionStringElement, d.throwsWith, d.exceptionString, wanted);
    TextsOfOnly(ExpandedElement, d.normal && !d.threw, d.decomp, wanted);
    TextsOfLeaves(InfoElement, contexts, wanted);
    TextsOfSix(a, b, c, f, g, Leaves(InfoElement, contexts), wanted);
    OneOfSix(Texts(a, wanted), Texts(b, wanted), Texts(c, wanted), Texts(f, wanted), Texts(g, wanted),
             Texts(Leaves(InfoElement, contexts), wanted));
  }

  lemma OneOfSix(a: seq<Bytes>, b: seq<Bytes>, c: seq<Bytes>, d: seq<Bytes>, f: seq<Bytes>, g: seq<Bytes>)
    ensures b == c == d == f == g == [] ==> a + b + c + d + f + g == a
    ensures a == c == d == f == g == [] ==> a + b + c + d + f + g == b
    ensures a == b == d == f == g == [] ==> a + b + c + d + f + g == c
    ensures a == b == c == f == g == [] ==> a + b + c + d + f + g == d
    ensures a == b == c == d == g == [] ==> a + b + c + d + f + g == f
    ensures a == b == c == d == f == [] ==> a + b + c + d + f + g == g
  {
  }

  lemma TextsOfSix(a: seq<Item>, b: seq<Item>, c: seq<Item>, d: seq<Item>, f: seq<Item>, g: seq<Item>, wanted: Element)
    ensures Texts(a + b + c + d + f + g, wanted) ==
            Texts(a, wanted) + Texts(b, wanted) + Texts(c, wanted) + Texts(d, wanted) + Texts(f, wanted)
            + Texts(g, wanted)
  {
    hide Texts;
    TextsBoth(a, b, wanted);
    TextsBoth(a + b, c, wanted);
    TextsBoth(a + b + c, d, wanted);
    TextsBoth(a + b + c + d, f, wanted);
    TextsBoth(a + b + c + d + f, g, wanted);
  }

  /** A passed assertion leaves no trace unless successes are reported. Any other is read as one
      Expression in the element that is open: its expression is the Original, an Exception is there
      exactly if it threw, the expected type and text exactly for the kinds of assertion that expect
      them, the Expanded values exactly for a normal one that did not throw, then every context in
      order. */
  lemma AssertionRead(r: Reader, tc: Suite, d: AssertData, contexts: seq<Bytes>, opt: Options) returns (x: Item)
    ensures x.element == ExpressionElement && x.attributes == Kept(d.attributes) && x.text == []
    ensures
      Read(r, Script(tc, LogAssert(d, contexts), opt)) ==
      if !d.failed && !opt.success then r else r.(top := r.top.(kids := r.top.kids + [x]))
    ensures Texts(x.kids, OriginalElement) == [SpelledOut(d.expr, 0)]
    ensures Texts(x.kids, ExceptionElement) == if d.threw then [SpelledOut(d.exception, 0)] else []
    ensures Texts(x.kids, ExpectedExceptionElement) == if d.throwsAs then [SpelledOut(d.exceptionType, 0)] else []
    ensures
      Texts(x.kids, ExpectedExceptionStringElement) == if d.throwsWith then [SpelledOut(d.exceptionString, 0)] else []
    ensures
      Texts(x.kids, ExpandedElement) == if d.normal && !d.threw then [SpelledOut(d.decomp, 0)] else []
    ensures
      |Texts(x.kids, InfoElement)| == |contexts| &&
      forall k :: 0 <= k < |contexts| ==> Texts(x.kids, InfoElement)[k] == SpelledOut(contexts[k], 0)
  {
    hide Read, Script, Parts, Texts, SpelledOut, Kept;
    ReadAssert(r, tc, d, contexts, opt);
    x := Expression(d, contexts);
    TextsOfParts(d, contexts, OriginalElement);
    TextsOfParts(d, contexts, ExceptionElement);
    TextsOfParts(d, contexts, ExpectedExceptionElement);
    TextsOfParts(d, contexts, ExpectedExceptionStringElement);
    TextsOfParts(d, contexts, ExpandedElement);
    TextsOfParts(d, contexts, InfoElement);
  }

  lemma TextsOfMessage(text: Bytes, contexts: seq<Bytes>, wanted: Element)
    ensures
      Texts([Leaf(TextElement, text)] + Leaves(InfoElement, contexts), wanted) ==
      match wanted
      case TextElement => [SpelledOut(text, 0)]
      case InfoElement => AllSpelledOut(contexts)
      case _ => []
  {
    hide SpelledOut, Texts, Leaf, Leaves, AllSpelledOut;
    TextsOfOne(TextElement, text, wanted);
    TextsOfLeaves(InfoElement, contexts, wanted);
    TextsBoth([Leaf(TextElement, text)], Leaves(InfoElement, contexts), wanted);
  }

  /** A message is read as one Message in the element that is open, with its text and then every
      context in order. */
  lemma MessageRead(r: Reader, tc: Suite, attributes: Attributes, text: Bytes, contexts: seq<Bytes>, opt: Options)
      returns (x: Item)
    ensures x.element == MessageElement && x.attributes == Kept(attributes) && x.text == []
    ensures
      Read(r, Script(tc, LogMessage(attributes, text, contexts), opt)) == r.(top := r.top.(kids := r.top.kids + [x]))
    ensures Texts(x.kids, TextElement) == [SpelledOut(text, 0)]
    ensures
      |Texts(x.kids, InfoElement)| == |contexts| &&
      forall k :: 0 <= k < |contexts| ==> Texts(x.kids, InfoElement)[k] == SpelledOut(contexts[k], 0)
  {
    hide Read, Script, Texts, SpelledOut, Kept, Leaf, Leaves;
    ReadMessage(r, tc, attributes, text, contexts, opt);
    x := Message(attributes, text, contexts);
    TextsOfMessage(text, contexts, TextElement);
    TextsOfMessage(text, contexts, InfoElement);
  }

  /** With no empty name or value among them, all attributes are read, in order. */
  lemma {:induction false} AttributesRead(r: Reader, attributes: Attributes)
    requires forall k :: 0 <= k < |attributes| ==> attributes[k].0 != "" && attributes[k].1 != []
    ensures
      var r' := Read(r, AllAttrMarks(attributes));
      && r' == r.(top := r.top.(attributes := r'.top.attributes))
      && |r'.top.attributes| == |r.top.attributes| + |attributes| && r.top.attributes <= r'.top.attributes
      && forall k :: 0 <= k < |attributes| ==>
           r'.top.attributes[|r.top.attributes| + k] == (attributes[k].0, SpelledOut(attributes[k].1, 0))
  {
    hide Read, AllAttrMarks, SpelledOut;
    ReadAttributes(r, attributes);
    AllKept(attributes);
  }

  lemma {:induction false} AllKept(attributes: Attributes)
    requires forall k :: 0 <= k < |attributes| ==> attributes[k].0 != "" && attributes[k].1 != []
    ensures |Kept(attributes)| == |attributes|
    ensures forall k :: 0 <= k < |attributes| ==>
              Kept(attributes)[k] == (attributes[k].0, SpelledOut(attributes[k].1, 0))
  {
    hide SpelledOut;
    if attributes != [] {
      AllKept(attributes[..|attributes| - 1]);
    }
  }

  // --- Where the elements hang ------------------------------------------------------------------------

  // The elements open, outermost first, without the reader's own.
  function OpenIn(r: Reader): seq<Element> {
    if r.below == [] then []
    else seq(|r.below| - 1, k requires 0 <= k < |r.below| - 1 => r.below[k + 1].element) + [r.top.element]
  }

  // What the reader's own element holds.
  function Held(r: Reader): seq<Item> {
    if r.below == [] then r.top.kids else r.below[0].kids
  }

  lemma OpeningOpens(r: Reader, e: Element, attributes: seq<(string, Bytes)>, kids: seq<Item>)
    ensures OpenIn(r.Opening(e)) == OpenIn(r) + [e] && Held(r.Opening(e)) == Held(r)
    ensures OpenIn(r.Having(attributes)) == OpenIn(r) && Held(r.Having(attributes)) == Held(r)
    ensures OpenIn(r.With(kids)) == OpenIn(r) && (r.below != [] ==> Held(r.With(kids)) == Held(r))
  {
  }

  lemma ClosingCloses(r: Reader)
    requires r.below != []
    ensures OpenIn(r.Closing()) == OpenIn(r)[..|OpenIn(r)| - 1]
    ensures Held(r.Closing()) == if |OpenIn(r)| == 1 then Held(r) + [r.top] else Held(r)
  {
  }

  // After events that follow p: the reader's own element is empty until the document is complete.
  ghost predicate Shaped(r: Reader, p: Phase, suiteOpen: bool) {
    && OpenIn(r) == Elements(p, suiteOpen)
    && (p.InCase? ==> suiteOpen) && (p == Before ==> !suiteOpen)
    && if p == After then |Held(r)| == 1 && Held(r)[0].element == DoctestElement else Held(r) == []
  }

  lemma ElementOpens(r: Reader, e: Element, attributes: seq<(string, Bytes)>)
    ensures var s := r.Opening(e).Having(attributes); OpenIn(s) == OpenIn(r) + [e] && Held(s) == Held(r)
  {
    hide OpenIn, Held;
    OpeningOpens(r, e, [], []);
    OpeningOpens(r.Opening(e), e, attributes, []);
  }

  // Without the suite that is open, if any.
  lemma SuiteClosed(r: Reader, suiteOpen: bool)
    requires Shaped(r, Running, suiteOpen)
    ensures var s := if suiteOpen then r.Closing() else r; OpenIn(s) == [DoctestElement] && Held(s) == []
  {
    if suiteOpen {
      ClosingCloses(r);
    }
  }

  lemma CaseShaped(r: Reader, names: seq<Bytes>, suite: Bytes, attributes: Attributes)
    requires Shaped(r, Running, names != [])
    ensures Shaped(EnterCase(r, names, suite, attributes), InCase(0), true)
  {
    hide Kept, OpenIn, Held;
    var s := r;
    if names == [] || names[|names| - 1] != suite {
      SuiteClosed(r, names != []);
      s := if names == [] then r else r.Closing();
      ElementOpens(s, TestSuiteElement, Kept([("name", suite)]));
      s := s.Opening(TestSuiteElement).Having(Kept([("name", suite)]));
    }
    ElementOpens(s, TestCaseElement, Kept(attributes));
  }

  lemma EndShaped(r: Reader, names: seq<Bytes>, results: seq<Item>)
    requires Shaped(r, Running, names != [])
    ensures Shaped((if names == [] then r else r.Closing()).With(results).Closing(), After, names != [])
  {
    SuiteClosed(r, names != []);
    var s := if names == [] then r else r.Closing();
    OpeningOpens(s, DoctestElement, [], results);
    ClosingCloses(s.With(results));
  }

  // Something logged in a case.
  lemma LoggedShaped(r: Reader, p: Phase, kids: seq<Item>)
    requires Shaped(r, p, true) && p.InCase?
    ensures Shaped(r.With(kids), p, true)
  {
    InsideBelow(r);
    OpeningOpens(r, TestCaseElement, [], kids);
  }

  // The end of a subcase or a case.
  lemma LeftShaped(r: Reader, p: Phase)
    requires Shaped(r, p, true) && p.InCase?
    ensures Shaped(r.Closing(), if p.depth == 0 then Running else InCase(p.depth - 1), true)
  {
    InsideBelow(r);
    ClosingCloses(r);
  }

  lemma ShapedCase(r: Reader, p: Phase, suiteOpen: bool)
    requires Shaped(r, p, suiteOpen)
    ensures p.InCase? ==> suiteOpen
  {
  }

  lemma SubShaped(r: Reader, p: Phase, attributes: seq<(string, Bytes)>)
    requires Shaped(r, p, true) && p.InCase?
    ensures Shaped(r.Opening(SubCaseElement).Having(attributes), InCase(p.depth + 1), true)
  {
    ElementOpens(r, SubCaseElement, attributes);
  }

  lemma GrowShaped(r: Reader, p: Phase, names: seq<Bytes>, e: Event, opt: Options)
    requires Shaped(r, p, names != []) && Follow(p, e) != Wrong
    ensures
      Shaped(Grow(r, names, e, opt), Follow(p, e),
             names != [] || e.TestCaseStart? || (e.TestCaseSkipped? && !opt.noSkippedSummary))
  {
    if e.TestRunStart? {
      StartShaped(r, names, e, opt);
    } else {
      hide Kept, EnterCase, Expression, Message, Flat, SpelledOut, Shaped;
      ShapedCase(r, p, names != []);
      match e
      case TestCaseStart(suite, attributes) => CaseShaped(r, names, suite, attributes);
      case TestCaseSkipped(suite, attributes) =>
        if !opt.noSkippedSummary {
          CaseShaped(r, names, suite, attributes + [("skipped", TRUE)]);
          LeftShaped(EnterCase(r, names, suite, attributes + [("skipped", TRUE)]), InCase(0));
        }
      case SubcaseStart(attributes) => SubShaped(r, p, Kept(attributes));
      case SubcaseEnd => LeftShaped(r, p);
      case LogAssert(d, contexts) => LoggedShaped(r, p, [Expression(d, contexts)]);
      case LogMessage(attributes, text, contexts) => LoggedShaped(r, p, [Message(attributes, text, contexts)]);
      case TestCaseException(attributes, text) =>
        LoggedShaped(r, p, [Item(ExceptionElement, Kept(attributes), SpelledOut(text, 0), [])]);
      case TestCaseEnd(attributes) =>
        LoggedShaped(r, p, [Flat(OverallResultsAssertsElement, attributes)]);
        LeftShaped(r.With([Flat(OverallResultsAssertsElement, attributes)]), p);
      case TestRunEnd(asserts, cases) =>
        EndShaped(r, names, [Flat(OverallResultsAssertsElement, asserts), Flat(OverallResultsTestCasesElement, cases)]);
      case _ =>
    }
  }

  lemma StartShaped(r: Reader, names: seq<Bytes>, e: Event, opt: Options)
    requires Shaped(r, Before, names != []) && e.TestRunStart?
    ensures Shaped(Grow(r, names, e, opt), Running, false)
  {
    hide Kept, Flat, Held, OpenIn;
    ElementOpens(r, DoctestElement, Kept(e.attributes));
    var s := r.Opening(DoctestElement).Having(Kept(e.attributes));
    OpeningOpens(s, DoctestElement, [], [Flat(OptionsElement, e.options)]);
  }

  lemma InsideBelow(r: Reader)
    ensures OpenIn(r) != [] <==> r.below != []
  {
  }

  /** In every well-formed run of events the elements a reader has open are those of the phase, so
      whatever is logged hangs in the case or subcase it was logged in, and after test_run_end the
      report is one complete doctest element. */
  lemma {:induction false} DocumentShaped(es: seq<Event>, opt: Options)
    requires FollowAll(Before, es) != Wrong
    ensures
      var r, p := Document(es, opt), FollowAll(Before, es);
      && OpenIn(r) == Elements(p, XmlReadBack.CaseSuites(es, opt) != [])
      && if p == After then |Held(r)| == 1 && Held(r)[0].element == DoctestElement else Held(r) == []
    ensures Shaped(Document(es, opt), FollowAll(Before, es), XmlReadBack.CaseSuites(es, opt) != [])
  {
    hide Grow, Follow;
    if es != [] {
      var before := es[..|es| - 1];
      WrongStays(Before, es, |es| - 1);
      DocumentShaped(before, opt);
      GrowShaped(Document(before, opt), FollowAll(Before, before), XmlReadBack.CaseSuites(before, opt), es[|es| - 1],
                 opt);
    }
  }
}
