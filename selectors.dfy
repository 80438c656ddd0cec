/**
 * The `Selector` of fluent_selectors: an immutable, never-empty chain of
 * locators from a driver down to an element, resolved afresh from the
 * chain every time it is asked for an element.
 */
module Selectors {
  import opened Wrappers
  import opened Strings
  import opened Browser

  /** A locator sequence, root first; never empty. */
  type Chain = s: seq<Locator> | |s| > 0 witness [Locator("xpath", ".")]

  datatype Selector = Selector(driver: Driver, locators: Chain)

  /** `_SELF_LOCATOR`: the context itself. */
  const SelfLocator: Locator := Locator(Xpath, ".")

  /** `_CHILDREN_LOCATOR`: every direct child of the context. */
  const ChildrenLocator: Locator := Locator(Xpath, "./*")

  /** `_locator`: the innermost locator of the chain. */
  function Current(s: Selector): (l: Locator)
    ensures s.locators == s.locators[..|s.locators| - 1] + [l]
  {
    s.locators[|s.locators| - 1]
  }

  // ---------------------------------------------------------------------
  // Locator-chain algebra
  // ---------------------------------------------------------------------

  /** `Selector(driver, *locators)`: no locators means the self locator. */
  function New(driver: Driver, locators: seq<Locator>): (s: Selector)
    ensures s.driver == driver
    ensures |s.locators| > 0
    ensures locators == [] ==> s.locators == [SelfLocator]
    ensures locators != [] ==> s.locators == locators
    ensures Current(s) == if locators == [] then SelfLocator else locators[|locators| - 1]
  {
    if locators == [] then Selector(driver, [SelfLocator]) else Selector(driver, locators)
  }

  /** `parent`: the chain without its last locator, absent for a one-locator chain. */
  function Parent(s: Selector): (p: Option<Selector>)
    ensures p.None? <==> |s.locators| == 1
    ensures p.Some? ==> p.value.driver == s.driver
    ensures p.Some? ==> p.value.locators == s.locators[..|s.locators| - 1]
    ensures p.Some? ==> |p.value.locators| == |s.locators| - 1
  {
    if |s.locators| > 1 then Some(New(s.driver, s.locators[..|s.locators| - 1])) else None
  }

  /** `parents`: every ancestor, nearest first, by repeated `parent`. */
  function Parents(s: Selector): (ps: seq<Selector>)
    ensures |ps| == |s.locators| - 1
    ensures forall k :: 0 <= k < |ps| ==> ps[k].driver == s.driver
    ensures forall k :: 0 <= k < |ps| ==> ps[k].locators == s.locators[..|s.locators| - 1 - k]
    decreases |s.locators|
  {
    match Parent(s)
    case None => []
    case Some(p) => [p] + Parents(p)
  }

  /** `parent` applied `n` times; absent once the root has been passed. */
  function Ancestor(s: Selector, n: nat): Option<Selector>
    decreases n
  {
    if n == 0 then Some(s)
    else match Parent(s)
      case None => None
      case Some(p) => Ancestor(p, n - 1)
  }

  /** `select(locator)`: the chain extended by one locator. */
  function Select(s: Selector, locator: Locator): (r: Selector)
    ensures r.driver == s.driver
    ensures r.locators == s.locators + [locator]
    ensures Current(r) == locator
    ensures Parent(r) == Some(s)
  {
    var r := New(s.driver, s.locators + [locator]);
    assert r.locators[..|r.locators| - 1] == s.locators;
    r
  }

  /** The XPath of the (index)-th direct child, counted from 0: the children query wrapped in parentheses and indexed by index + 1. */
  function ChildLocator(index: int): (l: Locator)
    ensures l.strategy == Xpath
    ensures |l.query| > |ChildPrefix| && l.query[..|ChildPrefix|] == ChildPrefix && l.query[|l.query| - 1] == ']'
    ensures l.query[|ChildPrefix|..|l.query| - 1] == DecimalString(index + 1)
  {
    var digits := DecimalString(index + 1);
    var q := ChildPrefix + digits + "]";
    assert q[..|ChildPrefix|] == ChildPrefix;
    assert q[|ChildPrefix|..|q| - 1] == digits;
    Locator(Xpath, q)
  }

  /** The children query in parentheses, opening the 1-based position. */
  const ChildPrefix: string := "(" + ChildrenLocator.query + ")["

  /** Reads back the 0-based position a child locator names, if it is one. */
  function ChildPosition(l: Locator): Option<int> {
    var q := l.query;
    if l.strategy == Xpath && |q| > |ChildPrefix| && q[..|ChildPrefix|] == ChildPrefix && q[|q| - 1] == ']' then
      match ParseDecimal(q[|ChildPrefix|..|q| - 1])
      case None => None
      case Some(n) => Some(n - 1)
    else
      None
  }

  /** `child(index)`: no bounds check; the index is only written into the locator. */
  function Child(s: Selector, index: int): (r: Selector)
    ensures r.driver == s.driver
    ensures r.locators == s.locators + [ChildLocator(index)]
    ensures Parent(r) == Some(s)
    ensures ChildPosition(Current(r)) == Some(index)
  {
    ChildPositionRoundTrip(index);
    Select(s, ChildLocator(index))
  }

  lemma ChildPositionRoundTrip(index: int)
    ensures ChildPosition(ChildLocator(index)) == Some(index)
  {
    DecimalRoundTrip(index + 1);
  }

  // ---------------------------------------------------------------------
  // Resolution
  // ---------------------------------------------------------------------

  /** `find_element` with "no such element" turned into `None`. */
  function FindOne(page: Page, c: Context, l: Locator): (r: Outcome<Option<Elem>>)
    ensures r == Ok(None) <==> page.find(c, l) == NoSuchElement
    ensures r == StaleRaised <==> page.find(c, l) == StaleReference
    ensures forall e :: r == Ok(Some(e)) <==> page.find(c, l) == Found(e)
  {
    match page.find(c, l)
    case Found(e) => Ok(Some(e))
    case NoSuchElement => Ok(None)
    case StaleReference => StaleRaised
  }

  /** `_context`: the driver for a root selector, else the parent's element. */
  function ContextOf(page: Page, s: Selector): (r: Outcome<Option<Context>>)
    ensures r == Ok(Some(AtDriver(s.driver))) <==> |s.locators| == 1
    ensures forall c: Context :: r == Ok(Some(c)) && |s.locators| > 1 ==> c.InElement? && Element(page, Parent(s).value) == Ok(Some(c.elem))
    ensures r == StaleRaised ==> StaleLookup(page)
    decreases |s.locators|, 0
  {
    match Parent(s)
    case None => Ok(Some(AtDriver(s.driver)))
    case Some(p) =>
      match Element(page, p)
      case StaleRaised => StaleRaised
      case Ok(None) => Ok(None)
      case Ok(Some(e)) => Ok(Some(InElement(e)))
  }

  /** `element`: the current locator looked up in the context; not-found is `None`. */
  function Element(page: Page, s: Selector): (r: Outcome<Option<Elem>>)
    ensures |s.locators| == 1 ==> r == FindOne(page, AtDriver(s.driver), Current(s))
    ensures forall e: Elem :: r == Ok(Some(e)) ==> exists c: Context :: page.find(c, Current(s)) == Found(e)
    ensures r == StaleRaised ==> StaleLookup(page)
    decreases |s.locators|, 1
  {
    match ContextOf(page, s)
    case StaleRaised => StaleRaised
    case Ok(None) => Ok(None)
    case Ok(Some(c)) => FindOne(page, c, Current(s))
  }

  /** `elements`: every match of the current locator in the context; `[]` when there is none. */
  function Elements(page: Page, s: Selector): (r: Outcome<seq<Elem>>)
    ensures |s.locators| == 1 ==> r == page.findAll(AtDriver(s.driver), Current(s))
    ensures |s.locators| > 1 && Element(page, Parent(s).value) == Ok(None) ==> r == Ok([])
    ensures r == StaleRaised ==> StaleLookup(page) || exists c: Context :: page.findAll(c, Current(s)) == StaleRaised
  {
    match ContextOf(page, s)
    case StaleRaised => StaleRaised
    case Ok(None) => Ok([])
    case Ok(Some(c)) => page.findAll(c, Current(s))
  }

  /** Some lookup of the page answers "stale reference". */
  ghost predicate StaleLookup(page: Page) {
    exists c, l :: page.find(c, l) == StaleReference
  }

  predicate Resolves(page: Page, s: Selector, e: Elem) {
    Element(page, s) == Ok(Some(e))
  }

  /** One more lookup step below an already resolved element. */
  function Then(r: Outcome<Option<Elem>>, page: Page, l: Locator): Outcome<Option<Elem>> {
    match r
    case StaleRaised => StaleRaised
    case Ok(None) => Ok(None)
    case Ok(Some(e)) => FindOne(page, InElement(e), l)
  }

  /** Reference resolution: descend from `c` through `locs`, root to leaf. */
  function Walk(page: Page, c: Context, locs: seq<Locator>): Outcome<Option<Elem>>
    requires |locs| > 0
    decreases |locs|
  {
    match FindOne(page, c, locs[0])
    case StaleRaised => StaleRaised
    case Ok(None) => Ok(None)
    case Ok(Some(e)) => if |locs| == 1 then Ok(Some(e)) else Walk(page, InElement(e), locs[1..])
  }

  /** The chain `s` followed by `ls`. */
  function Extend(s: Selector, ls: seq<Locator>): (r: Selector)
    ensures r.driver == s.driver && r.locators == s.locators + ls
  {
    Selector(s.driver, s.locators + ls)
  }

  lemma {:induction false} WalkSnoc(page: Page, c: Context, a: seq<Locator>, l: Locator)
    requires |a| > 0
    ensures Walk(page, c, a + [l]) == Then(Walk(page, c, a), page, l)
    decreases |a|
  {
    match FindOne(page, c, a[0])
    case StaleRaised =>
    case Ok(None) =>
    case Ok(Some(e)) =>
      if |a| > 1 {
        assert (a + [l])[1..] == a[1..] + [l];
        WalkSnoc(page, InElement(e), a[1..], l);
      } else {
        assert (a + [l])[1..] == [l];
      }
  }

  /** Resolving from the leaf through `_context` equals descending from the driver. */
  lemma {:induction false} ElementIsWalk(page: Page, s: Selector)
    ensures Element(page, s) == Walk(page, AtDriver(s.driver), s.locators)
    decreases |s.locators|
  {
    match Parent(s)
    case None =>
    case Some(p) =>
      ElementIsWalk(page, p);
      assert s.locators == p.locators + [Current(s)];
      WalkSnoc(page, AtDriver(s.driver), p.locators, Current(s));
  }

  /** A one-locator selector asks the driver itself. */
  lemma ElementOfRoot(page: Page, s: Selector)
    requires |s.locators| == 1
    ensures Element(page, s) == FindOne(page, AtDriver(s.driver), s.locators[0])
    ensures Elements(page, s) == page.findAll(AtDriver(s.driver), s.locators[0])
  {
  }

  /** A longer selector looks its last locator up inside its parent's element. */
  lemma ElementInParent(page: Page, s: Selector)
    requires |s.locators| > 1
    ensures Parent(s).Some?
    ensures Element(page, s) == Then(Element(page, Parent(s).value), page, Current(s))
    ensures Element(page, Parent(s).value) == Ok(None) ==> Elements(page, s) == Ok([])
    ensures Element(page, Parent(s).value) == StaleRaised ==> Elements(page, s) == StaleRaised
    ensures forall e :: Resolves(page, Parent(s).value, e) ==> Elements(page, s) == page.findAll(InElement(e), Current(s))
  {
  }

  /** `select(l).element` is `l` looked up inside `element`. */
  lemma ElementOfSelect(page: Page, s: Selector, l: Locator)
    ensures Element(page, Select(s, l)) == Then(Element(page, s), page, l)
  {
  }

  /** An absent or stale ancestor decides the outcome of every descendant. */
  lemma {:induction false} UnresolvedPropagates(page: Page, s: Selector, ls: seq<Locator>)
    requires Element(page, s) == Ok(None) || Element(page, s) == StaleRaised
    ensures Element(page, Extend(s, ls)) == Element(page, s)
    decreases |ls|
  {
    if |ls| > 0 {
      var shorter := Extend(s, ls[..|ls| - 1]);
      UnresolvedPropagates(page, s, ls[..|ls| - 1]);
      assert Extend(s, ls) == Select(shorter, ls[|ls| - 1]) by {
        assert s.locators + ls == shorter.locators + [ls[|ls| - 1]];
      }
      ElementOfSelect(page, shorter, ls[|ls| - 1]);
    } else {
      assert Extend(s, ls) == s;
    }
  }

  /** A resolved selector has every ancestor resolved. */
  lemma ResolvedAncestors(page: Page, s: Selector, e: Elem, k: nat)
    requires Resolves(page, s, e)
    requires k < |Parents(s)|
    ensures exists a :: Resolves(page, Parents(s)[k], a)
  {
    var anc := Parents(s)[k];
    var n := |s.locators|;
    var tail := s.locators[n - 1 - k..];
    assert Extend(anc, tail) == s by {
      assert anc.locators + tail == s.locators;
    }
    if !(Element(page, anc).Ok? && Element(page, anc).value.Some?) {
      UnresolvedPropagates(page, anc, tail);
      assert false;
    }
    assert Resolves(page, anc, Element(page, anc).value.value);
  }

  /** On a coherent page `element` is the first of `elements`. */
  lemma ElementIsFirstOfElements(page: Page, s: Selector)
    requires Coherent(page)
    ensures Element(page, s) == StaleRaised <==> Elements(page, s) == StaleRaised
    ensures Element(page, s) == Ok(None) <==> Elements(page, s) == Ok([])
    ensures forall e :: Resolves(page, s, e) <==> (Elements(page, s).Ok? && |Elements(page, s).value| > 0 && Elements(page, s).value[0] == e)
  {
  }

  /** `children()`: as many `child(k)` selectors as the children locator has elements now. */
  function Children(page: Page, s: Selector): (r: Outcome<seq<Selector>>)
    ensures r == StaleRaised <==> Elements(page, Select(s, ChildrenLocator)) == StaleRaised
    ensures r.Ok? ==> |r.value| == |Elements(page, Select(s, ChildrenLocator)).value|
    ensures r.Ok? ==> forall k :: 0 <= k < |r.value| ==> r.value[k] == Child(s, k)
  {
    match Elements(page, Select(s, ChildrenLocator))
    case StaleRaised => StaleRaised
    case Ok(all) => Ok(seq(|all|, k requires 0 <= k => Child(s, k)))
  }

  /** The children count is taken inside `element`: none when it is absent. */
  lemma ChildrenOfResolved(page: Page, s: Selector)
    ensures Element(page, s) == Ok(None) ==> Children(page, s) == Ok([])
    ensures Element(page, s) == StaleRaised ==> Children(page, s) == StaleRaised
    ensures forall e :: Resolves(page, s, e) && page.findAll(InElement(e), ChildrenLocator).Ok? ==>
      Children(page, s).Ok? && |Children(page, s).value| == |page.findAll(InElement(e), ChildrenLocator).value|
  {
  }

  /** Entry k of `children()` is a child of `s` naming position k: all are distinct. */
  lemma ChildrenPositions(page: Page, s: Selector)
    requires Children(page, s).Ok?
    ensures forall k :: 0 <= k < |Children(page, s).value| ==>
      Parent(Children(page, s).value[k]) == Some(s) && ChildPosition(Current(Children(page, s).value[k])) == Some(k)
    ensures forall j, k :: 0 <= j < k < |Children(page, s).value| ==> Children(page, s).value[j] != Children(page, s).value[k]
  {
  }

  // ---------------------------------------------------------------------
  // Chain lemmas
  // ---------------------------------------------------------------------

  /** `select` then `parent` is the identity; `parent` then `select` of the last locator too. */
  lemma SelectParentInverse(s: Selector, l: Locator)
    ensures Parent(Select(s, l)) == Some(s)
    ensures forall p :: Parent(s) == Some(p) ==> Select(p, Current(s)) == s
  {
  }

  /** Entry k of `parents` is `parent` applied k + 1 times. */
  lemma {:induction false} ParentsAreAncestors(s: Selector, k: nat)
    requires k < |Parents(s)|
    ensures Ancestor(s, k + 1) == Some(Parents(s)[k])
    decreases k
  {
    var p := Parent(s).value;
    assert Parents(s) == [p] + Parents(p);
    if k > 0 {
      ParentsAreAncestors(p, k - 1);
    }
  }

  /** `parent` n - 1 times reaches the single root locator; once more is absent. */
  lemma {:induction false} AncestorReachesRoot(s: Selector)
    ensures Ancestor(s, |s.locators| - 1) == Some(Selector(s.driver, [s.locators[0]]))
    ensures Ancestor(s, |s.locators|) == None
    decreases |s.locators|
  {
    match Parent(s)
    case None =>
      assert s.locators == [s.locators[0]];
    case Some(p) =>
      AncestorReachesRoot(p);
  }
}
