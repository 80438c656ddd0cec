/**
 * The condition checks of fluent_selectors, each modelled as one evaluation
 * of its predicate against the page as it is at that moment (what boolean
 * coercion of a `Check` does). Polling and the boolean combinators belong to
 * the external check library and are not modelled.
 */
module Checks {
  import opened Wrappers
  import opened Strings
  import opened Browser
  import opened Selectors
  import opened Accessors

  /**
   * `IsPresentCheck`: `element is not None`. Unlike every other check it does
   * not catch a stale reference, so that outcome reaches the caller.
   */
  function IsPresent(page: Page, s: Selector): (r: Outcome<bool>)
    ensures r == StaleRaised <==> Element(page, s) == StaleRaised
    ensures r == Ok(false) <==> Element(page, s) == Ok(None)
    ensures forall e :: Resolves(page, s, e) ==> r == Ok(true)
    ensures r == Ok(true) ==> Resolves(page, s, Element(page, s).value.value)
  {
    match Element(page, s)
    case StaleRaised => StaleRaised
    case Ok(found) => Ok(found.Some?)
  }

  /** The boolean states read by `IsDisplayedCheck`, `IsEnabledCheck` and `IsSelectedCheck`. */
  datatype Flag = Displayed | Enabled | Selected

  function FlagOf(st: ElemState, f: Flag): bool {
    match f
    case Displayed => st.displayed
    case Enabled => st.enabled
    case Selected => st.selected
  }

  /** `IsDisplayedCheck`, `IsEnabledCheck`, `IsSelectedCheck`: false when absent or stale, else the flag. */
  function HasFlag(page: Page, s: Selector, f: Flag): (r: bool)
    ensures r <==> Inspect(page, s).Ok? && Inspect(page, s).value.Some? && FlagOf(Inspect(page, s).value.value, f)
    ensures Element(page, s) == Ok(None) || Element(page, s) == StaleRaised ==> !r
    ensures forall e :: Resolves(page, s, e) && page.inspect(e) == StaleRaised ==> !r
  {
    match Element(page, s)
    case StaleRaised => false
    case Ok(None) => false
    case Ok(Some(e)) =>
      match page.inspect(e)
      case StaleRaised => false
      case Ok(st) => FlagOf(st, f)
  }

  /** `HasTextCheck`: the element's text contains `text`. */
  function HasText(page: Page, s: Selector, text: string): (r: bool)
    ensures r <==> Accessor(page, s, Text).Ok? && Accessor(page, s, Text).value.Some?
                   && IsSubstring(text, Accessor(page, s, Text).value.value)
    ensures Element(page, s) == Ok(None) || Element(page, s) == StaleRaised ==> !r
  {
    match Element(page, s)
    case StaleRaised => false
    case Ok(None) => false
    case Ok(Some(e)) =>
      match page.inspect(e)
      case StaleRaised => false
      case Ok(st) => Contains(st.text, text)
  }

  /** `HasExactTextCheck`: the element's text is exactly `text`. */
  function HasExactText(page: Page, s: Selector, text: string): (r: bool)
    ensures r <==> Accessor(page, s, Text) == Ok(Some(text))
    ensures Element(page, s) == Ok(None) || Element(page, s) == StaleRaised ==> !r
  {
    match Element(page, s)
    case StaleRaised => false
    case Ok(None) => false
    case Ok(Some(e)) =>
      match page.inspect(e)
      case StaleRaised => false
      case Ok(st) => text == st.text
  }

  /**
   * `HasAttributeCheck`: asks the browser, through `execute_script` on the
   * selector's driver, whether the element has the attribute at all.
   */
  function HasAttribute(page: Page, s: Selector, name: string): (r: bool)
    ensures Element(page, s) == Ok(None) || Element(page, s) == StaleRaised ==> !r
    ensures forall e :: Resolves(page, s, e) ==> (r <==> page.hasAttributeScript(s.driver, e, name) == Ok(true))
  {
    match Element(page, s)
    case StaleRaised => false
    case Ok(None) => false
    case Ok(Some(e)) =>
      match page.hasAttributeScript(s.driver, e, name)
      case StaleRaised => false
      case Ok(b) => b
  }

  /** `HasAttributeValueCheck`: `get_attribute(name)` equals `value`; a missing attribute never does. */
  function HasAttributeValue(page: Page, s: Selector, name: string, value: string): (r: bool)
    ensures r <==> Attribute(page, s, name) == Ok(Some(value))
    ensures Element(page, s) == Ok(None) || Element(page, s) == StaleRaised ==> !r
  {
    match Element(page, s)
    case StaleRaised => false
    case Ok(None) => false
    case Ok(Some(e)) =>
      match page.inspect(e)
      case StaleRaised => false
      case Ok(st) => GetAttribute(st, name) == Some(value)
  }

  /** Every check that holds implies `is_present`. */
  lemma ChecksImplyPresent(page: Page, s: Selector, f: Flag, text: string, name: string, value: string)
    requires HasFlag(page, s, f) || HasText(page, s, text) || HasExactText(page, s, text)
          || HasAttribute(page, s, name) || HasAttributeValue(page, s, name, value)
    ensures IsPresent(page, s) == Ok(true)
  {
  }

  /** On a coherent page, `is_present` holds exactly when `elements` is non-empty. */
  lemma PresentIffElementsNonEmpty(page: Page, s: Selector)
    requires Coherent(page)
    ensures IsPresent(page, s) == Ok(true) <==> Elements(page, s).Ok? && |Elements(page, s).value| > 0
  {
  }

  /** `has_exact_text(t)` implies `has_text(t)`. */
  lemma ExactTextImpliesText(page: Page, s: Selector, text: string)
    requires HasExactText(page, s, text)
    ensures HasText(page, s, text)
  {
  }

  /** `has_text("")` holds exactly when the element resolves and is not stale. */
  lemma EmptyTextIsLive(page: Page, s: Selector)
    ensures HasText(page, s, "") <==> Inspect(page, s).Ok? && Inspect(page, s).value.Some?
  {
  }

  /** A piece of a text that `has_text` finds is found as well. */
  lemma TextPieceFound(page: Page, s: Selector, text: string, i: nat, j: nat)
    requires HasText(page, s, text)
    requires i <= j <= |text|
    ensures HasText(page, s, text[i..j])
  {
    var x := Accessor(page, s, Text).value.value;
    var a, b :| 0 <= a <= b <= |x| && x[a..b] == text;
    assert x[a + i..a + j] == text[i..j];
  }
}
