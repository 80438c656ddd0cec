/**
 * The driver session as the selector code sees it: an uninterpreted lookup
 * service and element handles whose properties can be read, any of which may
 * fail because the node was detached ("stale"). Nothing here models XPath,
 * CSS or the document tree; one `Page` is what the browser would answer at
 * one moment.
 */
module Browser {
  import opened Wrappers

  /** A (strategy, query) pair, e.g. ("id", "div-1"); the query is opaque. */
  datatype Locator = Locator(strategy: string, query: string)

  /** Strategy names as the driver defines them. */
  const Xpath: string := "xpath"
  const ById: string := "id"
  const ByTagName: string := "tag name"
  const ByCssSelector: string := "css selector"

  /** A driver session handle. */
  datatype Driver = Driver(session: nat)

  /** A live element handle returned by the driver. */
  datatype Elem = Elem(handle: nat)

  /** Where a lookup starts: the whole page of a driver, or inside an element. */
  datatype Context = AtDriver(driver: Driver) | InElement(elem: Elem)

  /** What a call into the driver yields, when the only failure is staleness. */
  datatype Outcome<+T> = Ok(value: T) | StaleRaised

  /** Result of `find_element`: an element, "no such element", or "stale reference". */
  datatype Lookup = Found(elem: Elem) | NoSuchElement | StaleReference

  /** The readable properties of an element at one moment. */
  datatype ElemState = ElemState(
    text: string,
    tagName: string,
    accessibleName: string,
    ariaRole: string,
    id: string,
    displayed: bool,
    enabled: bool,
    selected: bool,
    attributes: map<string, string>)

  /** Everything the driver would answer at one moment. */
  datatype Page = Page(
    find: (Context, Locator) -> Lookup,
    findAll: (Context, Locator) -> Outcome<seq<Elem>>,
    inspect: Elem -> Outcome<ElemState>,
    hasAttributeScript: (Driver, Elem, string) -> Outcome<bool>)

  /**
   * The driver's `get_attribute(name)` on a state read by `inspect`: the value,
   * or `None` when the attribute is missing. Part of the driver abstraction.
   */
  function GetAttribute(st: ElemState, name: string): Option<string> {
    if name in st.attributes then Some(st.attributes[name]) else None
  }

  /** The single-element answer a driver derives from the list of all matches. */
  function FirstOf(all: Outcome<seq<Elem>>): Lookup {
    match all
    case StaleRaised => StaleReference
    case Ok(es) => if |es| == 0 then NoSuchElement else Found(es[0])
  }

  /**
   * A page whose `find_element` is the first match of `find_elements`, as a
   * WebDriver implementation provides; the selector code itself does not depend on it.
   */
  ghost predicate Coherent(page: Page) {
    forall c, l :: page.find(c, l) == FirstOf(page.findAll(c, l))
  }
}
