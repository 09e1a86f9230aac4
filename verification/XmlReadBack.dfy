/**
 What a reader of the report of third-party/argh/doctest.h gets back: its test suites, each with
 its name and the number of its test cases.
 */
module XmlReadBack {
  import opened XmlEncoding
  import opened XmlReporting

  // A TestSuite element: its name, still encoded, and how many TestCase elements it holds.
  datatype Group = Group(name: Bytes, cases: nat)

  function OneMore(gs: seq<Group>): seq<Group>
    requires gs != []
  {
    var n := |gs| - 1;
    gs[n := Group(gs[n].name, gs[n].cases + 1)]
  }

  // The TestSuite elements of a report in order.
  ghost function Groups(ms: seq<Mark>): seq<Group> {
    if ms == [] then []
    else
      var n := |ms| - 1;
      var gs := Groups(ms[..n]);
      if ms[n] == Start(TestSuiteElement) then gs + [Group([], 0)]
      else if gs == [] then []
      else if ms[n] == Start(TestCaseElement) then OneMore(gs)
      else if ms[n].Attr? && ms[n].name == "name" && 0 < n && ms[n - 1] == Start(TestSuiteElement)
      then gs[|gs| - 1 := Group(ms[n].value, gs[|gs| - 1].cases)]
      else gs
  }

  // The suites of the cases written, case by case.
  function CaseSuites(es: seq<Event>, opt: Options): seq<Bytes> {
    if es == [] then []
    else
      var before := CaseSuites(es[..|es| - 1], opt);
      match es[|es| - 1]
      case TestCaseStart(suite, _) => before + [suite]
      case TestCaseSkipped(suite, _) => if opt.noSkippedSummary then before else before + [suite]
      case _ => before
  }

  // Cases one after the other from the same suite make one group.
  ghost function Grouped(names: seq<Bytes>): (gs: seq<Group>)
    ensures gs == [] <==> names == []
  {
    if names == [] then []
    else
      var n := |names| - 1;
      var gs := Grouped(names[..n]);
      if 0 < n && names[n - 1] == names[n] then OneMore(gs) else gs + [Group(Encode(names[n], 0, true), 1)]
  }

  // --- Marks that neither open a suite nor a case -----------------------------------------------

  predicate Quiet(ms: seq<Mark>) {
    forall k :: 0 <= k < |ms| ==> ms[k] != Start(TestSuiteElement) && ms[k] != Start(TestCaseElement)
  }

  // The next attribute is not that of a suite.
  predicate Settled(ms: seq<Mark>) {
    ms != [] ==> ms[|ms| - 1] != Start(TestSuiteElement)
  }

  lemma GroupsSnoc(ms: seq<Mark>, m: Mark)
    ensures
      var gs := Groups(ms);
      Groups(ms + [m]) ==
      if m == Start(TestSuiteElement) then gs + [Group([], 0)]
      else if gs == [] then []
      else if m == Start(TestCaseElement) then OneMore(gs)
      else if m.Attr? && m.name == "name" && !Settled(ms)
      then gs[|gs| - 1 := Group(m.value, gs[|gs| - 1].cases)]
      else gs
  {
    assert (ms + [m])[..|ms|] == ms;
  }

  lemma {:induction false} GroupsQuiet(ms: seq<Mark>, more: seq<Mark>)
    requires Settled(ms) && Quiet(more)
    ensures Groups(ms + more) == Groups(ms) && Settled(ms + more)
    decreases |more|
  {
    hide Groups;
    if more == [] {
      assert ms + [] == ms;
    } else {
      var n := |more| - 1;
      GroupsQuiet(ms, more[..n]);
      GroupsSnoc(ms + more[..n], more[n]);
      assert ms + more == ms + more[..n] + [more[n]];
    }
  }

  lemma Both(a: seq<Mark>, b: seq<Mark>)
    requires Quiet(a) && Quiet(b)
    ensures Quiet(a + b)
  {
  }

  lemma All(a: seq<Mark>, b: seq<Mark>, c: seq<Mark>, d: seq<Mark>, e: seq<Mark>)
    requires Quiet(a) && Quiet(b) && Quiet(c) && Quiet(d) && Quiet(e)
    ensures Quiet(a + b + c + d + e)
  {
    hide Quiet;
    Both(a, b);
    Both(a + b, c);
    Both(a + b + c, d);
    Both(a + b + c + d, e);
  }

  lemma NoneQuiet()
    ensures Quiet([]) && Quiet([Finish])
  {
  }

  lemma StartQuiet(e: Element)
    requires e != TestSuiteElement && e != TestCaseElement
    ensures Quiet([Start(e)])
  {
  }

  lemma {:induction false} AttributesQuiet(attributes: seq<(string, Bytes)>)
    ensures Quiet(AllAttrMarks(attributes))
  {
    if attributes != [] {
      AttributesQuiet(attributes[..|attributes| - 1]);
    }
  }

  lemma CharsQuiet(text: Bytes)
    ensures Quiet(CharMarks(text))
  {
  }

  lemma LeafQuiet(e: Element, text: Bytes)
    requires e != TestSuiteElement && e != TestCaseElement
    ensures Quiet(LeafMarks(e, text))
  {
    CharsQuiet(text);
  }

  lemma FlatQuiet(e: Element, attributes: Attributes)
    requires e != TestSuiteElement && e != TestCaseElement
    ensures Quiet(FlatMarks(e, attributes))
  {
    AttributesQuiet(attributes);
  }

  lemma {:induction false} ContextsQuiet(contexts: seq<Bytes>)
    ensures Quiet(ContextMarks(contexts))
  {
    hide LeafMarks;
    if contexts != [] {
      var n := |contexts| - 1;
      ContextsQuiet(contexts[..n]);
      LeafQuiet(InfoElement, contexts[n]);
    }
  }

  lemma PartsQuiet(d: AssertData)
    ensures Quiet(PartMarks(d))
  {
    hide Quiet, LeafMarks;
    NoneQuiet();
    LeafQuiet(OriginalElement, d.expr);
    LeafQuiet(ExceptionElement, d.exception);
    LeafQuiet(ExpectedExceptionElement, d.exceptionType);
    LeafQuiet(ExpectedExceptionStringElement, d.exceptionString);
    LeafQuiet(ExpandedElement, d.decomp);
    All(LeafMarks(OriginalElement, d.expr),
        if d.threw then LeafMarks(ExceptionElement, d.exception) else [],
        if d.throwsAs then LeafMarks(ExpectedExceptionElement, d.exceptionType) else [],
        if d.throwsWith then LeafMarks(ExpectedExceptionStringElement, d.exceptionString) else [],
        if d.normal && !d.threw then LeafMarks(ExpandedElement, d.decomp) else []);
  }

  // An event that neither starts nor skips a case.
  lemma OthersQuiet(tc: Suite, e: Event, opt: Options)
    requires !e.TestCaseStart? && !e.TestCaseSkipped?
    ensures Quiet(Script(tc, e, opt))
  {
    hide Quiet, AllAttrMarks, ContextMarks, PartMarks, LeafMarks, FlatMarks, CharMarks;
    NoneQuiet();
    match e
    case TestRunStart(attributes, options) =>
      StartQuiet(DoctestElement);
      AttributesQuiet(attributes);
      FlatQuiet(OptionsElement, options);
      Both([Start(DoctestElement)], AllAttrMarks(attributes));
      Both([Start(DoctestElement)] + AllAttrMarks(attributes), FlatMarks(OptionsElement, options));
    case LogAssert(d, contexts) =>
      StartQuiet(ExpressionElement);
      AttributesQuiet(d.attributes);
      PartsQuiet(d);
      ContextsQuiet(contexts);
      All([Start(ExpressionElement)], AllAttrMarks(d.attributes), PartMarks(d), ContextMarks(contexts), [Finish]);
    case LogMessage(attributes, text, contexts) =>
      StartQuiet(MessageElement);
      AttributesQuiet(attributes);
      LeafQuiet(TextElement, text);
      ContextsQuiet(contexts);
      All([Start(MessageElement)], AllAttrMarks(attributes), LeafMarks(TextElement, text), ContextMarks(contexts),
          [Finish]);
    case SubcaseStart(attributes) =>
      StartQuiet(SubCaseElement);
      AttributesQuiet(attributes);
      Both([Start(SubCaseElement)], AllAttrMarks(attributes));
    case TestCaseException(attributes, text) =>
      StartQuiet(ExceptionElement);
      AttributesQuiet(attributes);
      CharsQuiet(text);
      Both([Start(ExceptionElement)], AllAttrMarks(attributes));
      Both([Start(ExceptionElement)] + AllAttrMarks(attributes), CharMarks(text));
      Both([Start(ExceptionElement)] + AllAttrMarks(attributes) + CharMarks(text), [Finish]);
    case TestCaseEnd(attributes) =>
      FlatQuiet(OverallResultsAssertsElement, attributes);
      Both(FlatMarks(OverallResultsAssertsElement, attributes), [Finish]);
    case TestRunEnd(asserts, cases) =>
      FlatQuiet(OverallResultsAssertsElement, asserts);
      FlatQuiet(OverallResultsTestCasesElement, cases);
      var first := if tc.Opened? then [Finish] else [];
      Both(first, FlatMarks(OverallResultsAssertsElement, asserts));
      Both(first + FlatMarks(OverallResultsAssertsElement, asserts), FlatMarks(OverallResultsTestCasesElement, cases));
      Both(first + FlatMarks(OverallResultsAssertsElement, asserts) + FlatMarks(OverallResultsTestCasesElement, cases),
           [Finish]);
    case _ =>
  }

  // --- Marks of a case --------------------------------------------------------------------------

  // What a case of the given suite does to the groups before.
  ghost function WithCase(gs: seq<Group>, tc: Suite, suite: Bytes): seq<Group> {
    if tc == Opened(suite) && gs != [] then OneMore(gs) else gs + [Group(Encode(suite, 0, true), 1)]
  }

  lemma SuiteGroups(ms: seq<Mark>, suite: Bytes)
    requires Settled(ms)
    ensures
      var t := ms + ([Start(TestSuiteElement)] + AttrMarks("name", suite));
      Groups(t) == Groups(ms) + [Group(Encode(suite, 0, true), 0)]
  {
    hide Groups, Encode;
    GroupsSnoc(ms, Start(TestSuiteElement));
    var begun := ms + [Start(TestSuiteElement)];
    if suite == [] {
      NothingEncoded();
      assert AttrMarks("name", suite) == [] && ms + ([Start(TestSuiteElement)] + []) == begun;
    } else {
      var name := Attr("name", Encode(suite, 0, true));
      GroupsSnoc(begun, name);
      assert ms + ([Start(TestSuiteElement)] + [name]) == begun + [name];
    }
  }

  lemma NothingEncoded()
    ensures Encode([], 0, true) == []
  {
  }

  lemma CaseGroups(ms: seq<Mark>, tc: Suite, suite: Bytes, attributes: Attributes)
    requires Settled(ms) && (tc.Opened? ==> Groups(ms) != [])
    ensures
      var t := ms + CaseMarks(tc, suite, attributes);
      Groups(t) == WithCase(Groups(ms), tc, suite) && Settled(t)
  {
    hide Groups, Encode, CaseMarks, AllAttrMarks, Quiet;
    AttributesQuiet(attributes);
    var before := BeforeCase(ms, tc, suite);
    BeforeCaseGroups(ms, tc, suite);
    CaseMarksSplit(ms, tc, suite, attributes);
    GroupsSnoc(before, Start(TestCaseElement));
    GroupsQuiet(before + [Start(TestCaseElement)], AllAttrMarks(attributes));
  }

  // The marks up to the start of the case.
  ghost function BeforeCase(ms: seq<Mark>, tc: Suite, suite: Bytes): seq<Mark> {
    if tc == Opened(suite) then ms
    else (if tc.Opened? then ms + [Finish] else ms) + ([Start(TestSuiteElement)] + AttrMarks("name", suite))
  }

  lemma BeforeCaseGroups(ms: seq<Mark>, tc: Suite, suite: Bytes)
    requires Settled(ms)
    ensures Groups(BeforeCase(ms, tc, suite)) ==
            Groups(ms) + if tc == Opened(suite) then [] else [Group(Encode(suite, 0, true), 0)]
  {
    hide Groups, Encode, AttrMarks;
    NoneQuiet();
    GroupsQuiet(ms, [Finish]);
    SuiteGroups(if tc.Opened? then ms + [Finish] else ms, suite);
  }

  lemma CaseMarksSplit(ms: seq<Mark>, tc: Suite, suite: Bytes, attributes: Attributes)
    ensures ms + CaseMarks(tc, suite, attributes) ==
            BeforeCase(ms, tc, suite) + [Start(TestCaseElement)] + AllAttrMarks(attributes)
  {
    hide AttrMarks, AllAttrMarks;
    var named, rest := [Start(TestSuiteElement)] + AttrMarks("name", suite), AllAttrMarks(attributes);
    if tc == Opened(suite) {
      Split(ms, [], [Start(TestCaseElement)], rest);
    } else if tc.Opened? {
      Split(ms, [Finish] + [Start(TestSuiteElement)] + AttrMarks("name", suite), [Start(TestCaseElement)], rest);
      assert ms + ([Finish] + [Start(TestSuiteElement)] + AttrMarks("name", suite)) == ms + [Finish] + named;
    } else {
      Split(ms, [] + [Start(TestSuiteElement)] + AttrMarks("name", suite), [Start(TestCaseElement)], rest);
      assert [] + [Start(TestSuiteElement)] == [Start(TestSuiteElement)];
    }
  }

  lemma Split(a: seq<Mark>, b: seq<Mark>, c: seq<Mark>, d: seq<Mark>)
    ensures a + (b + c + d) == a + b + c + d
    ensures b == [] ==> a + b == a
  {
  }

  // --- Whole runs -------------------------------------------------------------------------------

  lemma GroupedSnoc(names: seq<Bytes>, name: Bytes)
    ensures
      Grouped(names + [name]) ==
      WithCase(Grouped(names), if names == [] then NoSuite else Opened(names[|names| - 1]), name)
  {
    hide Encode, OneMore;
    var all, n := names + [name], |names|;
    assert all[..n] == names && all[n] == name && all != [];
    assert Grouped(all) == if 0 < n && all[n - 1] == all[n] then OneMore(Grouped(names))
                           else Grouped(names) + [Group(Encode(name, 0, true), 1)];
    if 0 < n {
      assert all[n - 1] == names[n - 1];
    }
  }

  lemma SkippedGroups(ms: seq<Mark>, tc: Suite, suite: Bytes, attributes: Attributes)
    requires Settled(ms) && (tc.Opened? ==> Groups(ms) != [])
    ensures
      var t := ms + (CaseMarks(tc, suite, attributes) + AttrMarks("skipped", TRUE) + [Finish]);
      Groups(t) == WithCase(Groups(ms), tc, suite) && Settled(t)
  {
    hide Groups, Encode, CaseMarks, WithCase;
    CaseGroups(ms, tc, suite, attributes);
    var skipped := AttrMarks("skipped", TRUE) + [Finish];
    GroupsQuiet(ms + CaseMarks(tc, suite, attributes), skipped);
    assert ms + (CaseMarks(tc, suite, attributes) + AttrMarks("skipped", TRUE) + [Finish]) ==
           ms + CaseMarks(tc, suite, attributes) + skipped;
  }

  /** Whatever events a report is written for, a reader finds the cases written grouped by runs of
      equal suite names: a TestSuite element opens exactly where the name changes, carries that
      name, and holds exactly the cases up to the next change. */
  lemma {:induction false} SuitesGrouped(es: seq<Event>, opt: Options)
    ensures Groups(Transcript(es, opt)) == Grouped(CaseSuites(es, opt)) && Settled(Transcript(es, opt))
    ensures
      var names := CaseSuites(es, opt);
      SuiteAfterAll(es, opt) == if names == [] then NoSuite else Opened(names[|names| - 1])
  {
    hide Groups, Grouped, Script, WithCase;
    if es == [] {
      NothingGrouped();
    } else {
      var n := |es| - 1;
      var before, tc := Transcript(es[..n], opt), SuiteAfterAll(es[..n], opt);
      SuitesGrouped(es[..n], opt);
      EventGroups(before, tc, es[n], opt);
      if es[n].TestCaseStart? || (es[n].TestCaseSkipped? && !opt.noSkippedSummary) {
        GroupedSnoc(CaseSuites(es[..n], opt), es[n].suite);
      }
    }
  }

  lemma NothingGrouped()
    ensures Groups([]) == [] && Grouped([]) == []
  {
  }

  lemma EventGroups(ms: seq<Mark>, tc: Suite, e: Event, opt: Options)
    requires Settled(ms) && (tc.Opened? ==> Groups(ms) != [])
    ensures
      var t := ms + Script(tc, e, opt);
      && Settled(t)
      && Groups(t) ==
         if e.TestCaseStart? || (e.TestCaseSkipped? && !opt.noSkippedSummary) then WithCase(Groups(ms), tc, e.suite)
         else Groups(ms)
  {
    hide Groups, WithCase, CaseMarks;
    match e
    case TestCaseStart(suite, attributes) => CaseGroups(ms, tc, suite, attributes);
    case TestCaseSkipped(suite, attributes) =>
      if opt.noSkippedSummary {
        assert ms + [] == ms;
      } else {
        SkippedGroups(ms, tc, suite, attributes);
      }
    case _ =>
      OthersQuiet(tc, e, opt);
      GroupsQuiet(ms, Script(tc, e, opt));
  }

  ghost function Cases(gs: seq<Group>): nat {
    if gs == [] then 0 else Cases(gs[..|gs| - 1]) + gs[|gs| - 1].cases
  }

  /** No case is lost or doubled: the groups hold as many as were written. */
  lemma {:induction false} GroupedCounts(names: seq<Bytes>)
    ensures Cases(Grouped(names)) == |names|
  {
    hide Encode;
    if names != [] {
      var n := |names| - 1;
      GroupedCounts(names[..n]);
      var gs := Grouped(names[..n]);
      if gs != [] {
        assert OneMore(gs)[..|gs| - 1] == gs[..|gs| - 1];
      }
      var one := Group(Encode(names[n], 0, true), 1);
      assert (gs + [one])[..|gs|] == gs;
    }
  }
}
