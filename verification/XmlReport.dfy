/**
 XmlWriter and XmlReporter of third-party/argh/doctest.h: the elements written for a run of
 reporter events, checked against a small reference parser that knows which element may
 stand in which.
 */
module XmlReporting {
  import opened XmlEncoding

  // The element names the reporter uses.
  datatype Element =
    | DoctestElement | OptionsElement | TestSuiteElement | TestCaseElement | SubCaseElement
    | OverallResultsAssertsElement | OverallResultsTestCasesElement
    | ExpressionElement | OriginalElement | ExceptionElement | ExpectedExceptionElement
    | ExpectedExceptionStringElement | ExpandedElement | InfoElement | MessageElement | TextElement
    | OtherElement(name: string)

  // The pieces of text the writer puts out.
  datatype Token =
    | Declaration
    | Open(element: Element)                  // <name
    | Attribute(name: string, value: Bytes)   //  name="value"
    | CloseTag                                // >
    | EmptyTag                                // />
    | End(element: Element)                   // </name>
    | Text(value: Bytes)
    | Blank(width: nat)
    | Newline

  // --- The reference parser -------------------------------------------------------------------------

  // The elements open, outermost first, whether the innermost one's start tag still is, and
  // whether all elements so far stand where the schema allows them.
  datatype Nest = Nest(open: seq<Element>, inTag: bool, placed: bool) | Broken

  // Which element may stand in which.
  predicate MayContain(parent: Element, name: Element) {
    match parent
    case DoctestElement =>
      name in {OptionsElement, TestSuiteElement, OverallResultsAssertsElement, OverallResultsTestCasesElement}
    case TestSuiteElement => name == TestCaseElement
    case TestCaseElement =>
      name in {SubCaseElement, ExpressionElement, MessageElement, ExceptionElement, OverallResultsAssertsElement}
    case SubCaseElement => name in {SubCaseElement, ExpressionElement, MessageElement, ExceptionElement}
    case ExpressionElement =>
      name in {OriginalElement, ExceptionElement, ExpectedExceptionElement, ExpectedExceptionStringElement,
               ExpandedElement, InfoElement}
    case MessageElement => name in {TextElement, InfoElement}
    case _ => false
  }

  predicate Allowed(open: seq<Element>, name: Element) {
    if open == [] then name == DoctestElement else MayContain(open[|open| - 1], name)
  }

  ghost function Next(n: Nest, t: Token): Nest {
    if n == Broken then Broken
    else match t
      case Declaration => if n == Nest([], false, true) then n else Broken
      case Open(name) =>
        if n.inTag then Broken else Nest(n.open + [name], true, n.placed && Allowed(n.open, name))
      case Attribute(_, v) => if n.inTag && Clean(v, true) then n else Broken
      case CloseTag => if n.inTag then n.(inTag := false) else Broken
      case EmptyTag => if n.inTag && n.open != [] then Nest(n.open[..|n.open| - 1], false, n.placed) else Broken
      case End(name) =>
        if !n.inTag && n.open != [] && n.open[|n.open| - 1] == name
        then Nest(n.open[..|n.open| - 1], false, n.placed) else Broken
      case Text(v) => if !n.inTag && n.open != [] && Clean(v, false) then n else Broken
      case Blank(_) => n
      case Newline => n
  }

  ghost function Parse(ts: seq<Token>): Nest {
    if ts == [] then Nest([], false, true) else Next(Parse(ts[..|ts| - 1]), ts[|ts| - 1])
  }

  lemma ParseSnoc(ts: seq<Token>, t: Token)
    ensures Parse(ts + [t]) == Next(Parse(ts), t)
  {
    assert (ts + [t])[..|ts|] == ts;
  }

  // Well nested, with every element where it may stand.
  ghost predicate Obeys(ts: seq<Token>) {
    Parse(ts) != Broken && Parse(ts).placed
  }

  /** Every prefix of a well nested text is well nested, and obeys the schema if the text does. */
  lemma {:induction false} PrefixParses(ts: seq<Token>, k: nat)
    requires Parse(ts) != Broken && k <= |ts|
    ensures Parse(ts[..k]) != Broken && (Obeys(ts) ==> Obeys(ts[..k]))
  {
    if k == |ts| {
      assert ts[..k] == ts;
    } else {
      PrefixParses(ts[..|ts| - 1], k);
      assert ts[..|ts| - 1][..k] == ts[..k];
    }
  }

  ghost predicate Chained(open: seq<Element>) {
    open == [] || (Chained(open[..|open| - 1]) && Allowed(open[..|open| - 1], open[|open| - 1]))
  }

  lemma {:induction false} OpenChained(ts: seq<Token>)
    requires Obeys(ts)
    ensures Chained(Parse(ts).open)
  {
    if ts != [] {
      var before, t := ts[..|ts| - 1], ts[|ts| - 1];
      OpenChained(before);
      if t.Open? {
        assert (Parse(before).open + [t.element])[..|Parse(before).open|] == Parse(before).open;
      }
    }
  }

  // A TestCase can only be opened in a TestSuite, that only in doctest, that only at the top.
  lemma OnlyPlace(open: seq<Element>)
    requires Chained(open) && Allowed(open, TestCaseElement)
    ensures open == [DoctestElement, TestSuiteElement]
  {
    var n := |open| - 1;
    assert open[n] == TestSuiteElement && Allowed(open[..n], TestSuiteElement);
    assert open[..n][n - 1] == open[n - 1] == DoctestElement;
    assert Allowed(open[..n][..n - 1], DoctestElement);
  }

  /** In a text that obeys the schema every TestCase stands in a TestSuite in doctest. */
  lemma TestCasePlaced(ts: seq<Token>, k: nat)
    requires Obeys(ts) && k < |ts| && ts[k] == Open(TestCaseElement)
    ensures Parse(ts[..k]) == Nest([DoctestElement, TestSuiteElement], false, true)
  {
    hide Parse, Chained, Allowed;
    PrefixParses(ts, k);
    PrefixParses(ts, k + 1);
    assert ts[..k + 1] == ts[..k] + [ts[k]];
    ParseSnoc(ts[..k], ts[k]);
    OpenChained(ts[..k]);
    OnlyPlace(Parse(ts[..k]).open);
  }

  // --- What the text says, without its layout ----------------------------------------------------------

  datatype Mark = Start(element: Element) | Attr(name: string, value: Bytes) | Chars(value: Bytes) | Finish

  ghost function MarksOf(t: Token): seq<Mark> {
    match t
    case Open(e) => [Start(e)]
    case Attribute(n, v) => [Attr(n, v)]
    case Text(v) => [Chars(v)]
    case EmptyTag => [Finish]
    case End(_) => [Finish]
    case _ => []
  }

  ghost function Marks(ts: seq<Token>): seq<Mark> {
    if ts == [] then [] else Marks(ts[..|ts| - 1]) + MarksOf(ts[|ts| - 1])
  }

  lemma MarksSnoc(ts: seq<Token>, t: Token)
    ensures Marks(ts + [t]) == Marks(ts) + MarksOf(t)
  {
    assert (ts + [t])[..|ts|] == ts;
  }

  // Empty attributes and empty texts are not written.
  ghost function AttrMarks(name: string, value: Bytes): seq<Mark> {
    if name == "" || value == [] then [] else [Attr(name, Encode(value, 0, true))]
  }

  ghost function AllAttrMarks(attributes: seq<(string, Bytes)>): seq<Mark> {
    if attributes == [] then []
    else
      var n := |attributes| - 1;
      AllAttrMarks(attributes[..n]) + AttrMarks(attributes[n].0, attributes[n].1)
  }

  ghost function CharMarks(text: Bytes): seq<Mark> {
    if text == [] then [] else [Chars(Encode(text, 0, false))]
  }

  lemma DeclarationParses()
    ensures Parse([Declaration]) == Nest([], false, true) && Marks([Declaration]) == []
  {
    ParseSnoc([], Declaration);
    MarksSnoc([], Declaration);
    assert [] + [Declaration] == [Declaration];
  }

  // --- XmlWriter ----------------------------------------------------------------------------------

  class XmlWriter {
    var tagIsOpen: bool
    var needsNewline: bool
    var tags: seq<Element>
    var indent: string
    // The stream written to.
    var os: seq<Token>
    ghost var marks: seq<Mark>
    // All elements written stand where the schema allows them.
    ghost var placed: bool

    ghost predicate Valid()
      reads this
    {
      && marks == Marks(os)
      && Parse(os) == Nest(tags, tagIsOpen, placed) && |indent| == 2 * |tags| && (tagIsOpen ==> tags != [])
    }

    ghost predicate Obedient()
      reads this
    {
      Valid() && placed
    }

    constructor ()
      ensures Obedient() && tags == [] && !tagIsOpen && os == [Declaration] && marks == []
    {
      tagIsOpen, needsNewline, tags, indent, placed := false, false, [], "", true;
      os, marks := [Declaration], [];
      new;
      hide Parse, Marks;
      DeclarationParses();
    }

    // m_os << t
    method Put(t: Token)
      requires marks == Marks(os)
      modifies this`os, this`marks
      ensures os == old(os) + [t] && Parse(os) == Next(Parse(old(os)), t)
      ensures marks == Marks(os) == old(marks) + MarksOf(t)
    {
      hide Parse, Next, Marks, MarksOf;
      ParseSnoc(os, t);
      MarksSnoc(os, t);
      os, marks := os + [t], marks + MarksOf(t);
    }

    method EnsureTagClosed()
      requires Valid()
      modifies this`os, this`marks, this`tagIsOpen
      ensures Valid() && !tagIsOpen && marks == old(marks)
      ensures os == old(os) + if old(tagIsOpen) then [CloseTag, Newline] else []
    {
      hide Parse, Marks;
      if tagIsOpen {
        Put(CloseTag);
        Put(Newline);
        tagIsOpen := false;
      }
    }

    method NewlineIfNecessary()
      requires Valid()
      modifies this`os, this`marks, this`needsNewline
      ensures Valid() && !needsNewline && marks == old(marks)
      ensures os == old(os) + if old(needsNewline) then [Newline] else []
    {
      hide Parse, Marks;
      if needsNewline {
        Put(Newline);
        needsNewline := false;
      }
    }

    method StartElement(name: Element)
      requires Valid()
      modifies this
      ensures Valid() && tags == old(tags) + [name] && tagIsOpen
      ensures placed <==> old(placed && Allowed(tags, name))
      ensures marks == old(marks) + [Start(name)] && !needsNewline
      ensures os == old(os) + (if old(tagIsOpen) then [CloseTag, Newline] else [])
                    + (if old(needsNewline) then [Newline] else []) + [Blank(2 * |old(tags)|), Open(name)]
    {
      hide Parse, Marks, Allowed;
      EnsureTagClosed();
      NewlineIfNecessary();
      Put(Blank(|indent|));
      Put(Open(name));
      placed := placed && Allowed(tags, name);
      tags := tags + [name];
      indent := indent + "  ";
      tagIsOpen := true;
    }

    method EndElement()
      requires Valid() && tags != []
      modifies this
      ensures Valid() && tags == old(tags)[..|old(tags)| - 1] && !tagIsOpen && marks == old(marks) + [Finish]
      ensures placed == old(placed) && !needsNewline
      ensures os == old(os) + (if old(needsNewline) then [Newline] else [])
                    + (if old(tagIsOpen) then [EmptyTag] else [Blank(2 * |tags|), End(old(tags)[|tags|])]) + [Newline]
    {
      hide Parse, Marks;
      NewlineIfNecessary();
      indent := indent[..|indent| - 2];
      if tagIsOpen {
        Put(EmptyTag);
        tagIsOpen := false;
      } else {
        Put(Blank(|indent|));
        Put(End(tags[|tags| - 1]));
      }
      Put(Newline);
      tags := tags[..|tags| - 1];
    }

    // writeAttribute for a string; for a bool the value is "true" or "false".
    method WriteAttribute(name: string, value: Bytes)
      requires Valid() && tagIsOpen
      modifies this`os, this`marks
      ensures Valid() && marks == old(marks) + AttrMarks(name, value)
      ensures os == old(os) + if name == "" || value == [] then [] else [Attribute(name, Encode(value, 0, true))]
    {
      hide Parse, Marks, Encode, Clean;
      if name != "" && value != [] {
        var encoded := EncodeTo(value, true);
        EncodeClean(value, 0, true);
        Put(Attribute(name, encoded));
      }
    }

    method WriteAttributes(attributes: seq<(string, Bytes)>)
      requires Valid() && tagIsOpen
      modifies this`os, this`marks
      ensures Valid() && marks == old(marks) + AllAttrMarks(attributes)
    {
      hide Parse, Marks, AttrMarks;
      for k := 0 to |attributes|
        invariant Valid() && marks == old(marks) + AllAttrMarks(attributes[..k])
      {
        assert attributes[..k + 1][..k] == attributes[..k];
        WriteAttribute(attributes[k].0, attributes[k].1);
      }
      assert attributes[..|attributes|] == attributes;
    }

    method WriteText(text: Bytes, indented: bool)
      requires Valid() && tags != []
      modifies this`os, this`marks, this`tagIsOpen, this`needsNewline
      ensures Valid() && marks == old(marks) + CharMarks(text)
      ensures text == [] ==> os == old(os) && tagIsOpen == old(tagIsOpen) && needsNewline == old(needsNewline)
      ensures text != [] ==>
                && !tagIsOpen && needsNewline
                && os == old(os) + (if old(tagIsOpen) then [CloseTag, Newline] else [])
                         + (if old(tagIsOpen) && indented then [Blank(2 * |tags|)] else [])
                         + [Text(Encode(text, 0, false))]
    {
      hide Parse, Marks, Encode, Clean;
      if text != [] {
        var tagWasOpen := tagIsOpen;
        EnsureTagClosed();
        if tagWasOpen && indented {
          Put(Blank(|indent|));
        }
        var encoded := EncodeTo(text, false);
        EncodeClean(text, 0, false);
        Put(Text(encoded));
        needsNewline := true;
      }
    }
  }

  // --- XmlReporter --------------------------------------------------------------------------------

  type Attributes = seq<(string, Bytes)>

  // What the reporter is told, with the attribute values already turned into text.
  datatype AssertData = AssertData(failed: bool, threw: bool, throwsAs: bool, throwsWith: bool, normal: bool,
                                   attributes: Attributes, expr: Bytes, exception: Bytes, exceptionType: Bytes,
                                   exceptionString: Bytes, decomp: Bytes)

  datatype Event =
    | TestRunStart(attributes: Attributes, options: Attributes)
    | TestCaseStart(suite: Bytes, attributes: Attributes)
    | TestCaseReenter
    | TestCaseSkipped(suite: Bytes, attributes: Attributes)
    | SubcaseStart(attributes: Attributes)
    | SubcaseEnd
    | LogAssert(data: AssertData, contexts: seq<Bytes>)
    | LogMessage(attributes: Attributes, text: Bytes, contexts: seq<Bytes>)
    | TestCaseException(attributes: Attributes, text: Bytes)
    | TestCaseEnd(attributes: Attributes)
    | TestRunEnd(asserts: Attributes, cases: Attributes)

  // Where a run of events stands.
  datatype Phase = Before | Running | InCase(depth: nat) | After | Wrong

  // The order in which the reporters are called: cases one after the other in one run, subcases
  // nested in a case, the rest inside a case.
  function Follow(p: Phase, e: Event): Phase {
    match e
    case TestRunStart(_, _) => if p == Before then Running else Wrong
    case TestCaseStart(_, _) => if p == Running then InCase(0) else Wrong
    case TestCaseSkipped(_, _) => if p == Running then Running else Wrong
    case TestRunEnd(_, _) => if p == Running then After else Wrong
    case SubcaseStart(_) => if p.InCase? then InCase(p.depth + 1) else Wrong
    case SubcaseEnd => if p.InCase? && 0 < p.depth then InCase(p.depth - 1) else Wrong
    case TestCaseEnd(_) => if p == InCase(0) then Running else Wrong
    case _ => if p.InCase? then p else Wrong
  }

  function FollowAll(p: Phase, es: seq<Event>): Phase {
    if es == [] then p else Follow(FollowAll(p, es[..|es| - 1]), es[|es| - 1])
  }

  lemma {:induction false} WrongStays(p: Phase, es: seq<Event>, k: nat)
    requires k <= |es| && FollowAll(p, es) != Wrong && p != Wrong
    ensures FollowAll(p, es[..k]) != Wrong
  {
    if k == |es| {
      assert es[..k] == es;
    } else {
      WrongStays(p, es[..|es| - 1], k);
      assert es[..|es| - 1][..k] == es[..k];
    }
  }

  // The elements open at a point of a run.
  function Elements(p: Phase, suiteOpen: bool): seq<Element>
    decreases if p.InCase? then p.depth + 1 else 0
  {
    match p
    case Running => if suiteOpen then [DoctestElement, TestSuiteElement] else [DoctestElement]
    case InCase(d) =>
      if d == 0 then [DoctestElement, TestSuiteElement, TestCaseElement]
      else Elements(InCase(d - 1), suiteOpen) + [SubCaseElement]
    case _ => []
  }

  lemma InsideCase(p: Phase, suiteOpen: bool)
    requires p.InCase?
    ensures var open := Elements(p, suiteOpen); open != [] && open[|open| - 1] in {TestCaseElement, SubCaseElement}
  {
  }

  datatype Suite = NoSuite | Opened(name: Bytes)

  // An element with a text and nothing else, and one with attributes and nothing else
  ghost function LeafMarks(e: Element, text: Bytes): seq<Mark> {
    [Start(e)] + CharMarks(text) + [Finish]
  }

  ghost function FlatMarks(e: Element, attributes: Attributes): seq<Mark> {
    [Start(e)] + AllAttrMarks(attributes) + [Finish]
  }

  ghost function ContextMarks(contexts: seq<Bytes>): seq<Mark> {
    if contexts == [] then []
    else ContextMarks(contexts[..|contexts| - 1]) + LeafMarks(InfoElement, contexts[|contexts| - 1])
  }

  // A change of test suite closes the old one and opens the new one.
  ghost function SuiteMarks(tc: Suite, suite: Bytes): seq<Mark> {
    if tc == Opened(suite) then []
    else (if tc.Opened? then [Finish] else []) + [Start(TestSuiteElement)] + AttrMarks("name", suite)
  }

  ghost function CaseMarks(tc: Suite, suite: Bytes, attributes: Attributes): seq<Mark> {
    SuiteMarks(tc, suite) + [Start(TestCaseElement)] + AllAttrMarks(attributes)
  }

  ghost function ThrownMarks(d: AssertData): seq<Mark> {
    LeafMarks(OriginalElement, d.expr)
    + (if d.threw then LeafMarks(ExceptionElement, d.exception) else [])
    + (if d.throwsAs then LeafMarks(ExpectedExceptionElement, d.exceptionType) else [])
  }

  ghost function PartMarks(d: AssertData): seq<Mark> {
    ThrownMarks(d)
    + (if d.throwsWith then LeafMarks(ExpectedExceptionStringElement, d.exceptionString) else [])
    + (if d.normal && !d.threw then LeafMarks(ExpandedElement, d.decomp) else [])
  }

  // The options that decide what is written.
  datatype Options = Options(success: bool, noSkippedSummary: bool)

  const TRUE: Bytes := [0x74, 0x72, 0x75, 0x65]

  // What an event adds to the text.
  ghost function Script(tc: Suite, e: Event, opt: Options): seq<Mark> {
    match e
    case TestRunStart(attributes, options) =>
      [Start(DoctestElement)] + AllAttrMarks(attributes) + FlatMarks(OptionsElement, options)
    case TestCaseStart(suite, attributes) => CaseMarks(tc, suite, attributes)
    case TestCaseReenter => []
    case TestCaseSkipped(suite, attributes) =>
      if opt.noSkippedSummary then [] else CaseMarks(tc, suite, attributes) + AttrMarks("skipped", TRUE) + [Finish]
    case SubcaseStart(attributes) => [Start(SubCaseElement)] + AllAttrMarks(attributes)
    case SubcaseEnd => [Finish]
    case LogAssert(d, contexts) =>
      if !d.failed && !opt.success then []
      else [Start(ExpressionElement)] + AllAttrMarks(d.attributes) + PartMarks(d) + ContextMarks(contexts) + [Finish]
    case LogMessage(attributes, text, contexts) =>
      [Start(MessageElement)] + AllAttrMarks(attributes) + LeafMarks(TextElement, text) + ContextMarks(contexts)
      + [Finish]
    case TestCaseException(attributes, text) =>
      [Start(ExceptionElement)] + AllAttrMarks(attributes) + CharMarks(text) + [Finish]
    case TestCaseEnd(attributes) => FlatMarks(OverallResultsAssertsElement, attributes) + [Finish]
    case TestRunEnd(asserts, cases) =>
      (if tc.Opened? then [Finish] else []) + FlatMarks(OverallResultsAssertsElement, asserts)
      + FlatMarks(OverallResultsTestCasesElement, cases) + [Finish]
  }

  // The last test case's suite after an event.
  ghost function SuiteAfter(tc: Suite, e: Event, opt: Options): Suite {
    match e
    case TestCaseStart(suite, _) => Opened(suite)
    case TestCaseSkipped(suite, _) => if opt.noSkippedSummary then tc else Opened(suite)
    case _ => tc
  }

  ghost function SuiteAfterAll(es: seq<Event>, opt: Options): Suite {
    if es == [] then NoSuite else SuiteAfter(SuiteAfterAll(es[..|es| - 1], opt), es[|es| - 1], opt)
  }

  // What a whole run of events writes.
  ghost function Transcript(es: seq<Event>, opt: Options): seq<Mark> {
    if es == [] then []
    else
      var before := es[..|es| - 1];
      Transcript(before, opt) + Script(SuiteAfterAll(before, opt), es[|es| - 1], opt)
  }

  class XmlReporter {
    const xml: XmlWriter
    const opt: Options
    // The test suite of tc, the last test case.
    var tc: Suite

    ghost predicate At(p: Phase)
      reads this, xml
    {
      && xml.Obedient() && xml.tags == Elements(p, tc.Opened?)
      && (p.InCase? ==> tc.Opened?) && (p == Before ==> tc == NoSuite)
    }

    constructor (opt: Options)
      ensures At(Before) && xml.marks == [] && this.opt == opt
    {
      xml := new XmlWriter();
      this.opt := opt;
      tc := NoSuite;
    }

    // An element with a text and nothing else: scopedElement(name).writeText(text)
    method Leaf(name: Element, text: Bytes)
      requires xml.Obedient() && Allowed(xml.tags, name)
      modifies xml
      ensures xml.Obedient() && xml.tags == old(xml.tags) && xml.marks == old(xml.marks) + LeafMarks(name, text)
    {
      hide Parse, Marks, Allowed, XmlWriter.Valid;
      xml.StartElement(name);
      xml.WriteText(text, true);
      xml.EndElement();
    }

    // An element with attributes and a text
    method WithText(name: Element, attributes: Attributes, text: Bytes)
      requires xml.Obedient() && Allowed(xml.tags, name)
      modifies xml
      ensures xml.Obedient() && xml.tags == old(xml.tags)
      ensures xml.marks == old(xml.marks) + ([Start(name)] + AllAttrMarks(attributes) + CharMarks(text) + [Finish])
    {
      hide Parse, Marks, Allowed, AllAttrMarks, CharMarks, XmlWriter.Valid;
      xml.StartElement(name);
      xml.WriteAttributes(attributes);
      xml.WriteText(text, true);
      xml.EndElement();
    }

    // An element with attributes and nothing else
    method Flat(name: Element, attributes: Attributes)
      requires xml.Obedient() && Allowed(xml.tags, name)
      modifies xml
      ensures xml.Obedient() && xml.tags == old(xml.tags) && xml.marks == old(xml.marks) + FlatMarks(name, attributes)
    {
      hide Parse, Marks, Allowed, XmlWriter.Valid;
      xml.StartElement(name);
      xml.WriteAttributes(attributes);
      xml.EndElement();
    }

    method LogContexts(contexts: seq<Bytes>)
      requires xml.Obedient() && Allowed(xml.tags, InfoElement)
      modifies xml
      ensures xml.Obedient() && xml.tags == old(xml.tags) && xml.marks == old(xml.marks) + ContextMarks(contexts)
    {
      hide Parse, Marks, Allowed, LeafMarks, XmlWriter.Valid;
      for k := 0 to |contexts|
        invariant xml.Obedient() && xml.tags == old(xml.tags)
        invariant xml.marks == old(xml.marks) + ContextMarks(contexts[..k])
      {
        assert contexts[..k + 1][..k] == contexts[..k];
        Leaf(InfoElement, contexts[k]);
      }
      assert contexts[..|contexts|] == contexts;
    }

    // Lines 5006-5020: the test suite is opened, and another one closed, if need be.
    method EnterSuite(suite: Bytes)
      requires At(Running)
      modifies xml
      ensures xml.Obedient() && xml.tags == [DoctestElement, TestSuiteElement]
      ensures xml.marks == old(xml.marks) + SuiteMarks(tc, suite)
    {
      hide Parse, Marks, AttrMarks, XmlWriter.Valid;
      var openSuite := false;
      if tc.Opened? {
        if tc.name != suite {
          xml.EndElement();
          openSuite := true;
        }
      } else {
        openSuite := true;
      }
      if openSuite {
        xml.StartElement(TestSuiteElement);
        xml.WriteAttribute("name", suite);
      }
    }

    method TestCaseStartImpl(suite: Bytes, attributes: Attributes)
      requires At(Running)
      modifies this`tc, xml
      ensures At(InCase(0)) && xml.tagIsOpen && tc == Opened(suite)
      ensures xml.marks == old(xml.marks) + CaseMarks(old(tc), suite, attributes)
    {
      hide Parse, Marks, SuiteMarks, AllAttrMarks, XmlWriter.Valid;
      EnterSuite(suite);
      tc := Opened(suite);
      xml.StartElement(TestCaseElement);
      xml.WriteAttributes(attributes);
    }

    method OnTestRunStart(attributes: Attributes, options: Attributes)
      requires At(Before)
      modifies xml
      ensures At(Running)
      ensures tc == SuiteAfter(old(tc), TestRunStart(attributes, options), opt)
      ensures xml.marks == old(xml.marks) + Script(old(tc), TestRunStart(attributes, options), opt)
    {
      hide Parse, Marks, FlatMarks, AllAttrMarks, XmlWriter.Valid;
      xml.StartElement(DoctestElement);
      xml.WriteAttributes(attributes);
      Flat(OptionsElement, options);
    }

    // Lines 5098-5099: the last test suite is closed if there was one.
    method LeaveSuite()
      requires At(Running)
      modifies xml
      ensures xml.Obedient() && xml.tags == [DoctestElement]
      ensures xml.marks == old(xml.marks) + if tc.Opened? then [Finish] else []
    {
      hide Parse, Marks, XmlWriter.Valid;
      if tc.Opened? {
        xml.EndElement();
      }
    }

    method CloseElement()
      requires xml.Obedient() && xml.tags != []
      modifies xml
      ensures xml.Obedient() && xml.tags == old(xml.tags)[..|old(xml.tags)| - 1] && !xml.tagIsOpen
      ensures xml.marks == old(xml.marks) + [Finish]
    {
      hide Parse, Marks, XmlWriter.Valid;
      xml.EndElement();
    }

    method OnTestRunEnd(asserts: Attributes, cases: Attributes)
      requires At(Running)
      modifies xml
      ensures At(After)
      ensures tc == SuiteAfter(old(tc), TestRunEnd(asserts, cases), opt)
      ensures xml.marks == old(xml.marks) + Script(old(tc), TestRunEnd(asserts, cases), opt)
    {
      hide Parse, Marks, FlatMarks, AllAttrMarks, XmlWriter.Obedient;
      ghost var ms := if tc.Opened? then [Finish] else [];
      LeaveSuite();
      assert xml.marks == old(xml.marks) + ms;
      Flat(OverallResultsAssertsElement, asserts);
      ms := ms + FlatMarks(OverallResultsAssertsElement, asserts);
      assert xml.marks == old(xml.marks) + ms;
      Flat(OverallResultsTestCasesElement, cases);
      ms := ms + FlatMarks(OverallResultsTestCasesElement, cases);
      assert xml.marks == old(xml.marks) + ms;
      CloseElement();
    }

    method OnTestCaseStart(suite: Bytes, attributes: Attributes)
      requires At(Running)
      modifies this`tc, xml
      ensures At(InCase(0))
      ensures tc == SuiteAfter(old(tc), TestCaseStart(suite, attributes), opt)
      ensures xml.marks == old(xml.marks) + Script(old(tc), TestCaseStart(suite, attributes), opt)
    {
      hide Parse, Marks, CaseMarks, XmlWriter.Valid;
      TestCaseStartImpl(suite, attributes);
      xml.EnsureTagClosed();
    }

    method OnTestCaseSkipped(suite: Bytes, attributes: Attributes)
      requires At(Running)
      modifies this`tc, xml
      ensures At(Running)
      ensures tc == SuiteAfter(old(tc), TestCaseSkipped(suite, attributes), opt)
      ensures xml.marks == old(xml.marks) + Script(old(tc), TestCaseSkipped(suite, attributes), opt)
    {
      hide Parse, Marks, AttrMarks, CaseMarks, XmlWriter.Valid;
      if !opt.noSkippedSummary {
        TestCaseStartImpl(suite, attributes);
        xml.WriteAttribute("skipped", TRUE);
        xml.EndElement();
      }
    }

    method OnTestCaseEnd(attributes: Attributes)
      requires At(InCase(0))
      modifies xml
      ensures At(Running)
      ensures tc == SuiteAfter(old(tc), TestCaseEnd(attributes), opt)
      ensures xml.marks == old(xml.marks) + Script(old(tc), TestCaseEnd(attributes), opt)
    {
      hide Parse, Marks, FlatMarks, AllAttrMarks, XmlWriter.Valid;
      Flat(OverallResultsAssertsElement, attributes);
      xml.EndElement();
    }

    method OnTestCaseException(attributes: Attributes, text: Bytes, ghost p: Phase)
      requires p.InCase? && At(p)
      modifies xml
      ensures At(p)
      ensures tc == SuiteAfter(old(tc), TestCaseException(attributes, text), opt)
      ensures xml.marks == old(xml.marks) + Script(old(tc), TestCaseException(attributes, text), opt)
    {
      hide Parse, Marks, AllAttrMarks, CharMarks, Elements, XmlWriter.Valid;
      InsideCase(p, true);
      WithText(ExceptionElement, attributes, text);
    }

    method OnSubcaseStart(attributes: Attributes, ghost p: Phase)
      requires p.InCase? && At(p)
      modifies xml
      ensures At(InCase(p.depth + 1))
      ensures tc == SuiteAfter(old(tc), SubcaseStart(attributes), opt)
      ensures xml.marks == old(xml.marks) + Script(old(tc), SubcaseStart(attributes), opt)
    {
      hide Parse, Marks, AllAttrMarks, AttrMarks, CharMarks, ContextMarks, XmlWriter.Valid;
      xml.StartElement(SubCaseElement);
      xml.WriteAttributes(attributes);
      xml.EnsureTagClosed();
    }

    method OnSubcaseEnd(ghost p: Phase)
      requires p.InCase? && 0 < p.depth && At(p)
      modifies xml
      ensures At(InCase(p.depth - 1))
      ensures tc == SuiteAfter(old(tc), SubcaseEnd, opt)
      ensures xml.marks == old(xml.marks) + Script(old(tc), SubcaseEnd, opt)
    {
      hide Parse, Marks, AllAttrMarks, AttrMarks, CharMarks, ContextMarks, XmlWriter.Valid;
      xml.EndElement();
    }

    method LeafIf(wanted: bool, name: Element, text: Bytes)
      requires xml.Obedient() && Allowed(xml.tags, name)
      modifies xml
      ensures xml.Obedient() && xml.tags == old(xml.tags)
      ensures xml.marks == old(xml.marks) + if wanted then LeafMarks(name, text) else []
    {
      hide XmlWriter.Obedient, LeafMarks, Allowed;
      if wanted {
        Leaf(name, text);
      }
    }

    lemma PartsAllowed(open: seq<Element>)
      requires open != [] && open[|open| - 1] == ExpressionElement
      ensures Allowed(open, OriginalElement) && Allowed(open, ExceptionElement) && Allowed(open, ExpandedElement)
      ensures Allowed(open, ExpectedExceptionElement) && Allowed(open, ExpectedExceptionStringElement)
    {
    }

    // The parts of a failed or reported assertion, up to the exceptions.
    method LogThrown(d: AssertData)
      requires xml.Obedient() && xml.tags != [] && xml.tags[|xml.tags| - 1] == ExpressionElement
      modifies xml
      ensures xml.Obedient() && xml.tags == old(xml.tags) && xml.marks == old(xml.marks) + ThrownMarks(d)
    {
      hide Parse, Marks, LeafMarks, Allowed, XmlWriter.Obedient;
      PartsAllowed(xml.tags);
      Leaf(OriginalElement, d.expr);
      ghost var ms := LeafMarks(OriginalElement, d.expr);
      LeafIf(d.threw, ExceptionElement, d.exception);
      ms := ms + if d.threw then LeafMarks(ExceptionElement, d.exception) else [];
      assert xml.marks == old(xml.marks) + ms;
      LeafIf(d.throwsAs, ExpectedExceptionElement, d.exceptionType);
    }

    method LogParts(d: AssertData)
      requires xml.Obedient() && xml.tags != [] && xml.tags[|xml.tags| - 1] == ExpressionElement
      modifies xml
      ensures xml.Obedient() && xml.tags == old(xml.tags) && xml.marks == old(xml.marks) + PartMarks(d)
    {
      hide Parse, Marks, LeafMarks, ThrownMarks, Allowed, XmlWriter.Obedient;
      PartsAllowed(xml.tags);
      LogThrown(d);
      LeafIf(d.throwsWith, ExpectedExceptionStringElement, d.exceptionString);
      assert xml.marks == old(xml.marks) +
        (ThrownMarks(d) + if d.throwsWith then LeafMarks(ExpectedExceptionStringElement, d.exceptionString) else []);
      LeafIf(d.normal && !d.threw, ExpandedElement, d.decomp);
    }

    method WriteExpression(d: AssertData, contexts: seq<Bytes>)
      requires xml.Obedient() && Allowed(xml.tags, ExpressionElement)
      modifies xml
      ensures xml.Obedient() && xml.tags == old(xml.tags)
      ensures xml.marks == old(xml.marks) +
        ([Start(ExpressionElement)] + AllAttrMarks(d.attributes) + PartMarks(d) + ContextMarks(contexts) + [Finish])
    {
      hide Parse, Marks, AllAttrMarks, LeafMarks, PartMarks, ContextMarks, XmlWriter.Valid;
      xml.StartElement(ExpressionElement);
      xml.WriteAttributes(d.attributes);
      LogParts(d);
      LogContexts(contexts);
      xml.EndElement();
    }

    method OnLogAssert(d: AssertData, contexts: seq<Bytes>, ghost p: Phase)
      requires p.InCase? && At(p)
      modifies xml
      ensures At(p)
      ensures tc == SuiteAfter(old(tc), LogAssert(d, contexts), opt)
      ensures xml.marks == old(xml.marks) + Script(old(tc), LogAssert(d, contexts), opt)
    {
      hide Parse, Marks, Elements, AllAttrMarks, LeafMarks, PartMarks, ContextMarks, XmlWriter.Valid;
      if !d.failed && !opt.success {
        return;
      }
      InsideCase(p, true);
      WriteExpression(d, contexts);
    }

    method WriteMessage(attributes: Attributes, text: Bytes, contexts: seq<Bytes>)
      requires xml.Obedient() && Allowed(xml.tags, MessageElement)
      modifies xml
      ensures xml.Obedient() && xml.tags == old(xml.tags)
      ensures xml.marks == old(xml.marks) +
        ([Start(MessageElement)] + AllAttrMarks(attributes) + LeafMarks(TextElement, text) + ContextMarks(contexts)
         + [Finish])
    {
      hide Parse, Marks, AllAttrMarks, LeafMarks, ContextMarks, XmlWriter.Valid;
      xml.StartElement(MessageElement);
      xml.WriteAttributes(attributes);
      Leaf(TextElement, text);
      LogContexts(contexts);
      xml.EndElement();
    }

    method OnLogMessage(attributes: Attributes, text: Bytes, contexts: seq<Bytes>, ghost p: Phase)
      requires p.InCase? && At(p)
      modifies xml
      ensures At(p)
      ensures tc == SuiteAfter(old(tc), LogMessage(attributes, text, contexts), opt)
      ensures xml.marks == old(xml.marks) + Script(old(tc), LogMessage(attributes, text, contexts), opt)
    {
      hide Parse, Marks, Elements, AllAttrMarks, LeafMarks, ContextMarks, XmlWriter.Valid;
      InsideCase(p, true);
      WriteMessage(attributes, text, contexts);
    }

    method Report(e: Event, ghost p: Phase)
      requires At(p) && Follow(p, e) != Wrong
      modifies this`tc, xml
      ensures At(Follow(p, e)) && tc == SuiteAfter(old(tc), e, opt)
      ensures xml.marks == old(xml.marks) + Script(old(tc), e, opt)
    {
      hide Parse, Marks, Elements, AllAttrMarks, FlatMarks, LeafMarks, CaseMarks, PartMarks, ContextMarks,
        XmlWriter.Valid;
      match e
      case TestRunStart(attributes, options) => OnTestRunStart(attributes, options);
      case TestCaseStart(suite, attributes) => OnTestCaseStart(suite, attributes);
      case TestCaseReenter =>
      case TestCaseSkipped(suite, attributes) => OnTestCaseSkipped(suite, attributes);
      case SubcaseStart(attributes) => OnSubcaseStart(attributes, p);
      case SubcaseEnd => OnSubcaseEnd(p);
      case LogAssert(d, contexts) => OnLogAssert(d, contexts, p);
      case LogMessage(attributes, text, contexts) => OnLogMessage(attributes, text, contexts, p);
      case TestCaseException(attributes, text) => OnTestCaseException(attributes, text, p);
      case TestCaseEnd(attributes) => OnTestCaseEnd(attributes);
      case TestRunEnd(asserts, cases) => OnTestRunEnd(asserts, cases);
    }

    /** Over every well-formed run of events the text stays well nested with every element where the
        schema allows it, the unclosed elements are exactly m_tags, the indentation fits, the text
        says what the events' scripts say, and nothing is open after test_run_end. */
    method ReportAll(es: seq<Event>)
      requires At(Before) && xml.marks == [] && FollowAll(Before, es) != Wrong
      modifies this`tc, xml
      ensures At(FollowAll(Before, es)) && xml.marks == Transcript(es, opt)
      ensures FollowAll(Before, es) == After ==> Parse(xml.os) == Nest([], false, true)
    {
      hide Parse, Marks, Script, SuiteAfter, Follow;
      assert es[..0] == [];
      for k := 0 to |es|
        invariant At(FollowAll(Before, es[..k])) && tc == SuiteAfterAll(es[..k], opt)
        invariant xml.marks == Transcript(es[..k], opt)
      {
        WrongStays(Before, es, k + 1);
        assert es[..k + 1][..k] == es[..k];
        Report(es[k], FollowAll(Before, es[..k]));
      }
      assert es[..|es|] == es;
    }
  }
}
