/**
 * What a `Selector` reads from, or does to, its element. Each call resolves
 * `element` afresh; an absent element makes a read `None` and an action a
 * no-op. A stale reference is not caught here: it escapes to the caller.
 */
module Accessors {
  import opened Wrappers
  import opened Browser
  import opened Selectors

  /** The string properties read by `text`, `tag_name`, `accessible_name`, `aria_role` and `id`. */
  datatype Property = Text | TagName | AccessibleName | AriaRole | Id

  function PropertyOf(st: ElemState, p: Property): string {
    match p
    case Text => st.text
    case TagName => st.tagName
    case AccessibleName => st.accessibleName
    case AriaRole => st.ariaRole
    case Id => st.id
  }

  /** Resolve and read the element's state: the one step every accessor and check shares. */
  function Inspect(page: Page, s: Selector): (r: Outcome<Option<ElemState>>)
    ensures r == Ok(None) <==> Element(page, s) == Ok(None)
    ensures Element(page, s) == StaleRaised ==> r == StaleRaised
    ensures forall e :: Resolves(page, s, e) ==> r == (if page.inspect(e).Ok? then Ok(Some(page.inspect(e).value)) else StaleRaised)
  {
    match Element(page, s)
    case StaleRaised => StaleRaised
    case Ok(None) => Ok(None)
    case Ok(Some(e)) =>
      match page.inspect(e)
      case StaleRaised => StaleRaised
      case Ok(st) => Ok(Some(st))
  }

  /** `text`, `tag_name`, `accessible_name`, `aria_role`, `id`. */
  function Accessor(page: Page, s: Selector, p: Property): (r: Outcome<Option<string>>)
    ensures r == Ok(None) <==> Element(page, s) == Ok(None)
    ensures r == StaleRaised <==> Inspect(page, s) == StaleRaised
    ensures forall e :: Resolves(page, s, e) && page.inspect(e).Ok? ==> r == Ok(Some(PropertyOf(page.inspect(e).value, p)))
  {
    match Inspect(page, s)
    case StaleRaised => StaleRaised
    case Ok(None) => Ok(None)
    case Ok(Some(st)) => Ok(Some(PropertyOf(st, p)))
  }

  /** `attribute(name)`: `None` both when the element is absent and when it lacks the attribute. */
  function Attribute(page: Page, s: Selector, name: string): (r: Outcome<Option<string>>)
    ensures r == StaleRaised <==> Inspect(page, s) == StaleRaised
    ensures Element(page, s) == Ok(None) ==> r == Ok(None)
    ensures forall e :: Resolves(page, s, e) && page.inspect(e).Ok? ==>
      (r == Ok(None) <==> name !in page.inspect(e).value.attributes)
    ensures forall v :: r == Ok(Some(v)) ==>
      Inspect(page, s).Ok? && Inspect(page, s).value.Some? &&
      name in Inspect(page, s).value.value.attributes && Inspect(page, s).value.value.attributes[name] == v
  {
    match Inspect(page, s)
    case StaleRaised => StaleRaised
    case Ok(None) => Ok(None)
    case Ok(Some(st)) => Ok(GetAttribute(st, name))
  }

  /** A command issued to an element handle (or, for scrolling, to the driver). */
  datatype Command =
    | Clicked(elem: Elem)
    | KeysSent(elem: Elem, text: string)
    | Cleared(elem: Elem)
    | ScrolledIntoView(driver: Driver, elem: Elem)

  /** The commands a call issued, and whether a stale reference escaped from it. */
  datatype Run = Run(commands: seq<Command>, raisedStale: bool)

  datatype Action = Click | TypeText(text: string) | Clear | ScrollIntoView

  function CommandFor(s: Selector, a: Action, e: Elem): Command {
    match a
    case Click => Clicked(e)
    case TypeText(text) => KeysSent(e, text)
    case Clear => Cleared(e)
    case ScrollIntoView => ScrolledIntoView(s.driver, e)
  }

  /** `click`, `type_text`, `clear`, `scroll_into_view`: act on the element only if it resolves. */
  function Perform(page: Page, s: Selector, a: Action): (r: Run)
    ensures Element(page, s) == Ok(None) ==> r == Run([], false)
    ensures Element(page, s) == StaleRaised ==> r == Run([], true)
    ensures forall e :: Resolves(page, s, e) ==> r == Run([CommandFor(s, a, e)], false)
    ensures |r.commands| <= 1 && (r.raisedStale ==> r.commands == [])
  {
    match Element(page, s)
    case StaleRaised => Run([], true)
    case Ok(None) => Run([], false)
    case Ok(Some(e)) => Run([CommandFor(s, a, e)], false)
  }

  /**
   * `set_text`: `clear` then `type_text`. Each resolves on its own, so the
   * page may differ between the two: `atClear` and `atType`.
   */
  function SetText(atClear: Page, atType: Page, s: Selector, text: string): (r: Run)
    ensures Element(atClear, s) == StaleRaised ==> r == Run([], true)
    ensures Element(atClear, s) == Ok(None) ==> r == Perform(atType, s, TypeText(text))
    ensures forall e1, e2 :: Resolves(atClear, s, e1) && Resolves(atType, s, e2) ==>
      r == Run([Cleared(e1), KeysSent(e2, text)], false)
    ensures forall e :: Resolves(atClear, s, e) && Element(atType, s) == StaleRaised ==>
      r == Run([Cleared(e)], true)
    ensures Element(atClear, s) == Ok(None) && Element(atType, s) == Ok(None) ==> r == Run([], false)
    ensures forall e :: Resolves(atClear, s, e) && Element(atType, s) == Ok(None) ==> r == Run([Cleared(e)], false)
  {
    var cleared := Perform(atClear, s, Clear);
    if cleared.raisedStale then
      cleared
    else
      var typed := Perform(atType, s, TypeText(text));
      Run(cleared.commands + typed.commands, typed.raisedStale)
  }
}
