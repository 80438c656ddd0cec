/**
 * The browser tests of tests/test_fluent_selectors.py, each restated as a
 * lemma about a small hand-built page shaped by what the tests assert:
 * `div-1` inside `body` holds an h1 ("Hello, World!"), a p ("This is a test
 * page.") and two buttons, `button-1` enabled and `button-2` disabled; there
 * are two checkboxes, `checkbox-1` checked, and a p under `#div-2` that is
 * hidden. The page answers child locators by reading back their position, so
 * these lemmas also show `child` and `children` meeting a lookup service that
 * honours positions.
 */
module Scenarios {
  import opened Wrappers
  import opened Strings
  import opened Browser
  import opened Selectors
  import opened Accessors
  import opened Checks

  const Session: Driver := Driver(0)
  const Body: Elem := Elem(1)
  const Div1: Elem := Elem(2)
  const H1: Elem := Elem(3)
  const Para: Elem := Elem(4)
  const Button1: Elem := Elem(5)
  const Button2: Elem := Elem(6)
  const Checkbox1: Elem := Elem(7)
  const Checkbox2: Elem := Elem(8)
  const HiddenPara: Elem := Elem(9)
  const Kids: seq<Elem> := [H1, Para, Button1, Button2]

  const BodyTag: Locator := Locator(ByTagName, "body")
  const Div1Id: Locator := Locator(ById, "div-1")
  const H1Tag: Locator := Locator(ByTagName, "h1")
  const H2Tag: Locator := Locator(ByTagName, "h2")
  const Button1Id: Locator := Locator(ById, "button-1")
  const Button2Id: Locator := Locator(ById, "button-2")
  const Checkbox1Id: Locator := Locator(ById, "checkbox-1")
  const Checkbox2Id: Locator := Locator(ById, "checkbox-2")
  const HiddenCss: Locator := Locator(ByCssSelector, "#div-2 p")

  function Blank(tag: string, text: string): ElemState {
    ElemState(text, tag, "", "", "", true, true, false, map[])
  }

  function StateOf(e: Elem): ElemState {
    if e == Body then Blank("body", "")
    else if e == Div1 then Blank("div", "").(attributes := map["id" := "div-1"])
    else if e == H1 then Blank("h1", "Hello, World!")
    else if e == Para then Blank("p", "This is a test page.")
    else if e == Button2 then Blank("button", "").(enabled := false)
    else if e == Checkbox1 then Blank("input", "").(selected := true)
    else if e == Checkbox2 then Blank("input", "")
    else if e == HiddenPara then Blank("p", "").(displayed := false)
    else Blank("button", "")
  }

  /** Lookups from the driver: by id, by tag name, and the one CSS selector. */
  function AtRoot(l: Locator): Lookup {
    if l.strategy == ById then
      if l.query == "div-1" then Found(Div1)
      else if l.query == "button-1" then Found(Button1)
      else if l.query == "button-2" then Found(Button2)
      else if l.query == "checkbox-1" then Found(Checkbox1)
      else if l.query == "checkbox-2" then Found(Checkbox2)
      else NoSuchElement
    else if l.strategy == ByTagName then
      if l.query == "h1" then Found(H1)
      else if l.query == "body" then Found(Body)
      else NoSuchElement
    else if l == HiddenCss then Found(HiddenPara)
    else NoSuchElement
  }

  /** Lookups inside div-1: its h1 and its children by position. */
  function InDiv1(l: Locator): Lookup {
    if l.strategy == ByTagName then (if l.query == "h1" then Found(H1) else NoSuchElement)
    else if l.strategy != Xpath then NoSuchElement
    else if l.query == ChildrenLocator.query then Found(Kids[0])
    else match ChildPosition(l)
      case Some(k) => if 0 <= k < |Kids| then Found(Kids[k]) else NoSuchElement
      case None => NoSuchElement
  }

  function FindIn(c: Context, l: Locator): Lookup {
    match c
    case AtDriver(d) => if d == Session then AtRoot(l) else NoSuchElement
    case InElement(e) =>
      if e == Body then (if l.strategy == ById && l.query == "div-1" then Found(Div1) else NoSuchElement)
      else if e == Div1 then InDiv1(l)
      else NoSuchElement
  }

  function FindAllIn(c: Context, l: Locator): Outcome<seq<Elem>> {
    if c == InElement(Div1) && l == ChildrenLocator then Ok(Kids)
    else match FindIn(c, l)
      case Found(e) => Ok([e])
      case _ => Ok([])
  }

  const TestPage: Page :=
    Page(FindIn, FindAllIn, e => Ok(StateOf(e)), (d, e, name) => Ok(name in StateOf(e).attributes))

  /** A needle holding a character the haystack lacks is not a substring of it. */
  lemma MissingCharNotSubstring(t: string, x: string, k: nat)
    requires k < |t|
    requires forall m :: 0 <= m < |x| ==> x[m] != t[k]
    ensures !IsSubstring(t, x)
  {
    forall i, j | 0 <= i <= j <= |x| ensures x[i..j] != t {
      if j - i == |t| {
        assert x[i..j][k] == x[i + k];
      }
    }
  }

  /** The selectors the tests build, named so that each lemma below unfolds them only on demand. */
  const H1Sel: Selector := New(Session, [H1Tag])
  const H2Sel: Selector := New(Session, [H2Tag])
  const HiddenSel: Selector := New(Session, [HiddenCss])
  const Button1Sel: Selector := New(Session, [Button1Id])
  const Button2Sel: Selector := New(Session, [Button2Id])
  const Checkbox1Sel: Selector := New(Session, [Checkbox1Id])
  const Checkbox2Sel: Selector := New(Session, [Checkbox2Id])
  const DivSel: Selector := New(Session, [Div1Id])
  const NestedH1: Selector := New(Session, [BodyTag, Div1Id, H1Tag])

  /** A root selector resolves to what the driver finds for its one locator. */
  lemma RootResolves(s: Selector, l: Locator, e: Elem)
    requires s == New(Session, [l]) && AtRoot(l) == Found(e)
    ensures Resolves(TestPage, s, e)
  {
    ElementOfRoot(TestPage, s);
  }

  /** Every property accessor of a selector resolving to `e` reads `e`'s state. */
  lemma ReadsState(s: Selector, e: Elem, p: Property)
    requires Resolves(TestPage, s, e)
    ensures Accessor(TestPage, s, p) == Ok(Some(PropertyOf(StateOf(e), p)))
  {
  }

  /** Every flag check of a root selector reads the flag of the element the driver finds. */
  lemma RootFlag(s: Selector, l: Locator, e: Elem, f: Flag)
    requires s == New(Session, [l]) && AtRoot(l) == Found(e)
    ensures HasFlag(TestPage, s, f) == FlagOf(StateOf(e), f)
  {
    RootResolves(s, l, e);
  }

  /** `parents` of body > div-1 > h1 is [div-1 chain, body chain]; the parent resolves to div-1. */
  lemma ParentsScenario()
    ensures |Parents(NestedH1)| == 2 && Current(Parents(NestedH1)[0]) == Div1Id && Current(Parents(NestedH1)[1]) == BodyTag
      && Parent(NestedH1).Some? && Attribute(TestPage, Parent(NestedH1).value, "id") == Ok(Some("div-1"))
  {
    var p := Parent(NestedH1).value;
    assert p.locators == [BodyTag, Div1Id];
    assert p.locators[..1] == [BodyTag];
    var root := Parent(p).value;
    RootResolves(root, BodyTag, Body);
    ElementInParent(TestPage, p);
    assert FindIn(InElement(Body), Div1Id) == Found(Div1);
    assert Element(TestPage, p) == Ok(Some(Div1));
  }

  /** is_present holds for the h1. */
  lemma IsPresentScenario()
    ensures IsPresent(TestPage, H1Sel) == Ok(true)
  {
    RootResolves(H1Sel, H1Tag, H1);
  }

  /** is_present fails for the missing h2. */
  lemma IsNotPresentScenario()
    ensures IsPresent(TestPage, H2Sel) == Ok(false)
  {
    ElementOfRoot(TestPage, H2Sel);
    assert AtRoot(H2Tag) == NoSuchElement;
  }

  /** is_displayed holds for the h1. */
  lemma IsDisplayedScenario()
    ensures HasFlag(TestPage, H1Sel, Displayed)
  {
    RootFlag(H1Sel, H1Tag, H1, Displayed);
  }

  /** is_displayed fails for the hidden p under `#div-2`. */
  lemma IsNotDisplayedScenario()
    ensures !HasFlag(TestPage, HiddenSel, Displayed)
  {
    RootFlag(HiddenSel, HiddenCss, HiddenPara, Displayed);
  }

  /** is_enabled holds for button-1. */
  lemma IsEnabledScenario()
    ensures HasFlag(TestPage, Button1Sel, Enabled)
  {
    RootFlag(Button1Sel, Button1Id, Button1, Enabled);
  }

  /** is_enabled fails for the disabled button-2. */
  lemma IsNotEnabledScenario()
    ensures !HasFlag(TestPage, Button2Sel, Enabled)
  {
    RootFlag(Button2Sel, Button2Id, Button2, Enabled);
  }

  /** is_selected holds for the checked checkbox-1. */
  lemma IsSelectedScenario()
    ensures HasFlag(TestPage, Checkbox1Sel, Selected)
  {
    RootFlag(Checkbox1Sel, Checkbox1Id, Checkbox1, Selected);
  }

  /** is_selected fails for checkbox-2. */
  lemma IsNotSelectedScenario()
    ensures !HasFlag(TestPage, Checkbox2Sel, Selected)
  {
    RootFlag(Checkbox2Sel, Checkbox2Id, Checkbox2, Selected);
  }

  /** has_text("Hello") holds for the h1. */
  lemma HasTextScenario()
    ensures HasText(TestPage, H1Sel, "Hello")
  {
    var x := "Hello, World!";
    RootResolves(H1Sel, H1Tag, H1);
    ReadsState(H1Sel, H1, Text);
    assert x[0..5] == "Hello";
  }

  /** has_text("H2") fails for the h1: its text has no '2'. */
  lemma HasNoTextScenario()
    ensures !HasText(TestPage, H1Sel, "H2")
  {
    var x := "Hello, World!";
    RootResolves(H1Sel, H1Tag, H1);
    ReadsState(H1Sel, H1, Text);
    assert forall m :: 0 <= m < |x| ==> x[m] != '2';
    MissingCharNotSubstring("H2", x, 1);
  }

  /** has_exact_text("Hello, World!") holds for the h1. */
  lemma ExactTextScenario()
    ensures HasExactText(TestPage, H1Sel, "Hello, World!")
  {
    RootResolves(H1Sel, H1Tag, H1);
    ReadsState(H1Sel, H1, Text);
  }

  /** has_exact_text fails for "An H1", and for "Hello", which is only a part of the text. */
  lemma NotExactTextScenario()
    ensures !HasExactText(TestPage, H1Sel, "An H1") && !HasExactText(TestPage, H1Sel, "Hello")
  {
    RootResolves(H1Sel, H1Tag, H1);
    ReadsState(H1Sel, H1, Text);
  }

  /** has_attribute("id") holds for div-1. */
  lemma HasAttributeScenario()
    ensures HasAttribute(TestPage, DivSel, "id")
  {
    RootResolves(DivSel, Div1Id, Div1);
  }

  /** has_attribute("class") fails for the h1. */
  lemma HasNoAttributeScenario()
    ensures !HasAttribute(TestPage, H1Sel, "class")
  {
    RootResolves(H1Sel, H1Tag, H1);
  }

  /** select(h1) below div-1 resolves, and its text is "Hello, World!". */
  lemma SelectScenario()
    ensures Resolves(TestPage, Select(DivSel, H1Tag), H1)
    ensures Accessor(TestPage, Select(DivSel, H1Tag), Text) == Ok(Some("Hello, World!"))
  {
    RootResolves(DivSel, Div1Id, Div1);
    ElementOfSelect(TestPage, DivSel, H1Tag);
    assert InDiv1(H1Tag) == Found(H1);
    ReadsState(Select(DivSel, H1Tag), H1, Text);
  }

  /** child(k) of div-1 is the k-th child for the four positions there are, and absent otherwise. */
  lemma ChildResolves(k: int)
    ensures Element(TestPage, Child(DivSel, k)) == if 0 <= k < |Kids| then Ok(Some(Kids[k])) else Ok(None)
  {
    RootResolves(DivSel, Div1Id, Div1);
    ElementOfSelect(TestPage, DivSel, ChildLocator(k));
    ChildPositionRoundTrip(k);
    var l := ChildLocator(k);
    assert l.strategy == Xpath && |l.query| > |ChildrenLocator.query|;
  }

  /** child(4) asks for the fifth child: position 5 of the children query. */
  lemma FifthChildQuery()
    ensures Current(Child(DivSel, 4)) == Locator(Xpath, "(./*)[5]")
  {
    assert DecimalString(5) == "5";
  }

  /** child(0) is the h1, child(1) the p, and child(4) is absent; child(4) asks for position 5. */
  lemma ChildScenario()
    ensures Accessor(TestPage, Child(DivSel, 0), TagName) == Ok(Some("h1"))
    ensures Accessor(TestPage, Child(DivSel, 0), Text) == Ok(Some("Hello, World!"))
    ensures Accessor(TestPage, Child(DivSel, 1), TagName) == Ok(Some("p"))
    ensures Accessor(TestPage, Child(DivSel, 1), Text) == Ok(Some("This is a test page."))
    ensures Element(TestPage, Child(DivSel, 4)) == Ok(None)
    ensures Current(Child(DivSel, 4)) == Locator(Xpath, "(./*)[5]")
  {
    ChildResolves(0);
    ChildResolves(1);
    ChildResolves(4);
    FifthChildQuery();
    ReadsState(Child(DivSel, 0), H1, TagName);
    ReadsState(Child(DivSel, 0), H1, Text);
    ReadsState(Child(DivSel, 1), Para, TagName);
    ReadsState(Child(DivSel, 1), Para, Text);
  }

  /** children() of div-1 gives four selectors whose tag names are h1, p, button, button. */
  lemma ChildrenScenario()
    ensures Children(TestPage, DivSel).Ok? && |Children(TestPage, DivSel).value| == 4
    ensures forall k :: 0 <= k < 4 ==>
      Accessor(TestPage, Children(TestPage, DivSel).value[k], TagName) == Ok(Some(StateOf(Kids[k]).tagName))
  {
    RootResolves(DivSel, Div1Id, Div1);
    ChildrenOfResolved(TestPage, DivSel);
    ChildrenPositions(TestPage, DivSel);
    assert FindAllIn(InElement(Div1), ChildrenLocator) == Ok(Kids);
    forall k | 0 <= k < 4
      ensures Accessor(TestPage, Children(TestPage, DivSel).value[k], TagName) == Ok(Some(StateOf(Kids[k]).tagName))
    {
      ChildResolves(k);
      ReadsState(Child(DivSel, k), Kids[k], TagName);
    }
  }

  /** The test page answers `find_element` with the first of `find_elements`, as a driver does. */
  lemma TestPageCoherent()
    ensures Coherent(TestPage)
  {
    forall c, l ensures TestPage.find(c, l) == FirstOf(TestPage.findAll(c, l)) {
      if c == InElement(Div1) && l == ChildrenLocator {
        assert InDiv1(l) == Found(H1);
        assert FindAllIn(c, l) == Ok(Kids);
      }
    }
  }
}
