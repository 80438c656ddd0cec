# fluent-selectors in Dafny

A model of the `Selector` class of fluent-selectors and of its condition
checks. A `Selector` is an immutable, never-empty chain of (strategy, query)
locators that leads from a WebDriver session down to an element. It resolves
that chain again on every access. An element that cannot be found is a normal
result: `None` for one element, `[]` for all of them, `False` for a check and
a no-op for an action.

The browser is kept abstract. The `Page` datatype (`browser.dfy`) stands for
what a driver session would answer at one moment:

- `find` models `find_element` and yields an element, `NoSuchElement` or `StaleReference`;
- `findAll` models `find_elements`;
- `inspect` reads an element's text, tag name, flags and attributes, or fails as stale;
- `hasAttributeScript` gives the answer of the in-page `hasAttribute` script.

`GetAttribute` stands for the driver's `get_attribute` on a state read by
`inspect`: the attribute's value, or `None` when it is missing.

XPath, CSS and the document tree are not modelled. Locator queries are opaque
strings. The only query the model looks inside is the child locator that
`child` builds.

Files and modules:

- `wrappers.dfy` (`Wrappers`): `Option`.
- `strings.dfy` (`Strings`): Python's substring test `t in s`, `str(int)` and its inverse.
- `browser.dfy` (`Browser`): locators, driver, elements, element state, `Page`.
- `selectors.dfy` (`Selectors`): the locator-chain algebra (constructor,
  `parent`, `parents`, `select`, `child`, `children`) and resolution
  (`_context`, `element`, `elements`). It also holds `Walk`, a reference
  resolution that descends from the driver root to leaf. It is proved equal
  to the source's leaf-to-root recursion through `_context`.
- `accessors.dfy` (`Accessors`): the reading accessors and the actions. An
  action is modelled as the list of commands it issues to element handles,
  plus whether a stale-reference exception escaped.
- `checks.dfy` (`Checks`): `IsPresentCheck` … `HasAttributeValueCheck`. Each
  is one evaluation of its predicate, which is what boolean coercion of a
  `Check` does.
- `scenarios.dfy` (`Scenarios`): the browser tests of
  `tests/test_fluent_selectors.py`, each restated as a lemma about a small
  hand-built page that has the elements those tests assert about. Every test
  has a counterpart. The page answers `find_element` with the first element
  `find_elements` gives, as a driver does (`Scenarios.TestPageCoherent`).

Three details of the code that the model keeps exactly:

- `IsPresentCheck` (src/fluent_selectors/__init__.py:188-191) does not catch
  `StaleElementReferenceException`, unlike the other checks.
  `Checks.IsPresent` therefore returns `Outcome<bool>`, and a stale reference
  reaches its caller.
- `element`, `elements`, the accessors and the actions catch only
  `NoSuchElementException`. A stale reference met while resolving the parent
  chain escapes from them. In the model this shows up as `StaleRaised` and
  `raisedStale`.
- `elements` takes its context from the parent's single `element`, not from
  the parent's `elements` (lines 68-76).

## Model

| member | source | states |
|---|---|---|
| `Selectors.New` | src/fluent_selectors/__init__.py:35-39 | the chain is never empty; with no locators it is exactly the self locator `(xpath, ".")`; otherwise it is the given locators; `_locator` is the last one; the driver is kept |
| `Selectors.Current` | src/fluent_selectors/__init__.py:39 | `_locator`: the chain is its prefix followed by this locator, so it is the last one |
| `Selectors.Parent` | src/fluent_selectors/__init__.py:41-44 | absent iff the chain has one locator; otherwise the chain without its last locator, on the same driver |
| `Selectors.Parents` | src/fluent_selectors/__init__.py:46-50 | terminates; has `|locators| - 1` entries; entry k is on the same driver and holds the prefix of length `|locators| - 1 - k` (nearest first, root last) |
| `Selectors.ParentsAreAncestors` | src/fluent_selectors/__init__.py:46-50 | entry k of `parents` is `parent` applied k + 1 times |
| `Selectors.AncestorReachesRoot` | src/fluent_selectors/__init__.py:42-44 | `parent` applied `n - 1` times to an n-locator selector gives the single root locator; once more gives absent |
| `Selectors.Select` | src/fluent_selectors/__init__.py:78-79 | the chain is the old chain plus the locator, which becomes `_locator`; its `parent` is the original selector |
| `Selectors.SelectParentInverse` | src/fluent_selectors/__init__.py:78-79 | `select` then `parent` is the identity; `parent` then `select` of the last locator gives back the selector |
| `Selectors.ChildLocator` | src/fluent_selectors/__init__.py:82 | an XPath locator whose query is `(./*)[`, then `str(index + 1)`, then `]` |
| `Selectors.Child` | src/fluent_selectors/__init__.py:81-83 | appends `ChildLocator(index)`, the XPath `(./*)[index+1]`, with no bounds check; the parent is the original; the locator reads back as position `index` |
| `Selectors.ChildPositionRoundTrip` | src/fluent_selectors/__init__.py:82 | the query `(./*)[str(index+1)]` determines `index`: reading back the 1-based number and subtracting one gives it exactly, for every integer the model's `Child` accepts (all of them) |
| `Selectors.FindOne` | src/fluent_selectors/__init__.py:63-66 | `find_element` with "no such element" caught as `None`; a stale reference stays an error; a found element is returned |
| `Selectors.ContextOf` | src/fluent_selectors/__init__.py:52-56 | `_context`: the driver exactly when the chain has one locator; otherwise, when present, the element the parent resolves to; stale only if some lookup of the page is stale |
| `Selectors.Element` | src/fluent_selectors/__init__.py:58-66 | `element`: for a root selector the driver's answer for the locator; a returned element was found by a lookup of the current locator; stale only if some lookup of the page is stale (full behaviour in `ElementIsWalk`, `ElementOfRoot`, `ElementInParent`) |
| `Selectors.Elements` | src/fluent_selectors/__init__.py:68-76 | `elements`: for a root selector the driver's matches; `[]` when the parent is absent; stale only if a lookup is stale (full behaviour in `ElementOfRoot`, `ElementInParent`, `ElementIsFirstOfElements`) |
| `Selectors.ElementIsWalk` | src/fluent_selectors/__init__.py:52-66 | resolving through `_context` (the parent's element, or the driver for a root selector) equals descending from the driver through every locator in order |
| `Selectors.ElementOfRoot` | src/fluent_selectors/__init__.py:52-56 | a one-locator selector looks its locator up in the driver, for `element` and `elements` |
| `Selectors.ElementInParent` | src/fluent_selectors/__init__.py:52-76 | a longer selector looks its locator up inside the parent's element; an absent parent gives `None`/`[]`, a stale one escapes |
| `Selectors.ElementOfSelect` | src/fluent_selectors/__init__.py:58-66 | `select(l).element` is `l` looked up inside `element` |
| `Selectors.UnresolvedPropagates` | src/fluent_selectors/__init__.py:52-66 | once an ancestor is absent (or stale), every extension of its chain resolves to that same outcome |
| `Selectors.ResolvedAncestors` | src/fluent_selectors/__init__.py:52-66 | a selector whose element resolves has every entry of `parents` resolved |
| `Selectors.ElementIsFirstOfElements` | src/fluent_selectors/__init__.py:58-76 | when the driver's `find_element` is the first of `find_elements`, `element` is absent iff `elements` is empty, stale iff stale, and otherwise the first of `elements` |
| `Selectors.Children` | src/fluent_selectors/__init__.py:85-87 | stale iff counting the children is stale; otherwise as many selectors as `select(./*).elements` has, entry k being `child(k)` |
| `Selectors.ChildrenOfResolved` | src/fluent_selectors/__init__.py:85-87 | children of an absent element are `[]`; otherwise their number is the number of `./*` matches inside the resolved element |
| `Selectors.ChildrenPositions` | src/fluent_selectors/__init__.py:85-87 | every entry of `children()` is a child of the selector naming its own position k, so the entries are pairwise distinct |
| `Accessors.Inspect` | src/fluent_selectors/__init__.py:108-111 | resolving then reading the element's state: `None` iff the element is absent; stale if resolution or the read is stale; the live state otherwise |
| `Accessors.Accessor` | src/fluent_selectors/__init__.py:108-131 | `text`, `tag_name`, `accessible_name`, `aria_role`, `id`: `None` iff the element is absent; stale iff the resolve-and-read is stale; otherwise the element's property |
| `Accessors.Attribute` | src/fluent_selectors/__init__.py:149-151 | `None` when the element is absent or lacks the attribute (iff, for a resolved live element); a returned value is the element's value for that attribute |
| `Accessors.Perform` | src/fluent_selectors/__init__.py:89-99 | `click`, `type_text`, `clear` (and `scroll_into_view`, lines 145-147): no command when the element is absent; exactly the one command to the resolved element otherwise; nothing issued when a stale reference escapes |
| `Accessors.SetText` | src/fluent_selectors/__init__.py:101-103 | `clear` then `type_text`, each resolving afresh: the commands are `Cleared(e1)` then `KeysSent(e2, text)`; nothing when both are absent; `type_text` is skipped when `clear` raised |
| `Checks.IsPresent` | src/fluent_selectors/__init__.py:188-191 | true iff `element` resolves, false iff it is absent; a stale reference is not caught |
| `Checks.HasFlag` | src/fluent_selectors/__init__.py:194-230 | `IsDisplayedCheck` / `IsEnabledCheck` / `IsSelectedCheck`: true iff the element resolves, its state reads live and its flag is set; false when absent or stale |
| `Checks.HasText` | src/fluent_selectors/__init__.py:233-244 | true iff the `text` accessor yields a text containing the given text; false when absent or stale |
| `Checks.HasExactText` | src/fluent_selectors/__init__.py:247-258 | true iff the `text` accessor yields exactly the given text; false when absent or stale |
| `Checks.HasAttribute` | src/fluent_selectors/__init__.py:261-276 | false when absent or stale; for a resolved element, true iff the in-page script on the selector's driver answers true |
| `Checks.HasAttributeValue` | src/fluent_selectors/__init__.py:279-290 | true iff `attribute(name)` yields exactly the value; a missing attribute, an absent or a stale element give false |
| `Checks.ChecksImplyPresent` | src/fluent_selectors/__init__.py:188-290 | any check that holds implies `is_present` |
| `Checks.PresentIffElementsNonEmpty` | src/fluent_selectors/__init__.py:188-191 | when `find_element` is the first of `find_elements`, `is_present` holds iff `elements` is non-empty |
| `Checks.ExactTextImpliesText` | src/fluent_selectors/__init__.py:233-258 | `has_exact_text(t)` implies `has_text(t)` |
| `Checks.EmptyTextIsLive` | src/fluent_selectors/__init__.py:233-244 | `has_text("")` holds iff the element resolves and is not stale |
| `Checks.TextPieceFound` | src/fluent_selectors/__init__.py:233-244 | if `has_text(t)` holds, then so does `has_text` of every piece of `t` |
| `Strings.Contains` | src/fluent_selectors/__init__.py:238 | Python's `t in s` on strings: true iff `t` is a contiguous piece of `s` |
| `Strings.NatString` | src/fluent_selectors/__init__.py:82 | `str(n)` of a non-negative integer: a non-empty digit string, no leading zero |
| `Strings.DecimalString` | src/fluent_selectors/__init__.py:82 | `str(i)`: non-empty, with a leading `-` iff `i` is negative |
| `Strings.NatStringRoundTrip` | src/fluent_selectors/__init__.py:82 | reading `str(n)` back as digits gives `n` |
| `Strings.DecimalRoundTrip` | src/fluent_selectors/__init__.py:82 | reading `str(i)` back gives `i`, negative numbers included |
| `Strings.DecimalStringInjective` | src/fluent_selectors/__init__.py:82 | distinct integers print differently, so distinct indices give distinct child locators |
| `Scenarios.ParentsScenario` | tests/test_fluent_selectors.py:91-110 | `parents` of body > div-1 > h1 has two entries, `div-1` then `body`; the parent resolves to the element whose id is `div-1` |
| `Scenarios.IsPresentScenario` | tests/test_fluent_selectors.py:7-10 | `is_present` holds for the h1 |
| `Scenarios.IsNotPresentScenario` | tests/test_fluent_selectors.py:13-16 | `is_present` fails for the missing h2 |
| `Scenarios.HasTextScenario` | tests/test_fluent_selectors.py:55-58 | `has_text("Hello")` holds for the h1 |
| `Scenarios.HasNoTextScenario` | tests/test_fluent_selectors.py:61-64 | `has_text("H2")` fails for the h1 |
| `Scenarios.ExactTextScenario` | tests/test_fluent_selectors.py:67-70 | `has_exact_text("Hello, World!")` holds for the h1 |
| `Scenarios.NotExactTextScenario` | tests/test_fluent_selectors.py:73-76 | `has_exact_text("An H1")` fails, and so does `has_exact_text("Hello")`, a mere part of the text |
| `Scenarios.IsDisplayedScenario` | tests/test_fluent_selectors.py:19-22 | `is_displayed` holds for the h1 |
| `Scenarios.IsNotDisplayedScenario` | tests/test_fluent_selectors.py:25-28 | `is_displayed` fails for the hidden `#div-2 p` |
| `Scenarios.IsEnabledScenario` | tests/test_fluent_selectors.py:31-34 | `is_enabled` holds for `button-1` |
| `Scenarios.IsNotEnabledScenario` | tests/test_fluent_selectors.py:37-40 | `is_enabled` fails for `button-2` |
| `Scenarios.IsSelectedScenario` | tests/test_fluent_selectors.py:43-46 | `is_selected` holds for `checkbox-1` |
| `Scenarios.IsNotSelectedScenario` | tests/test_fluent_selectors.py:49-52 | `is_selected` fails for `checkbox-2` |
| `Scenarios.HasAttributeScenario` | tests/test_fluent_selectors.py:79-82 | `has_attribute("id")` holds for div-1 |
| `Scenarios.HasNoAttributeScenario` | tests/test_fluent_selectors.py:85-88 | `has_attribute("class")` fails for the h1 |
| `Scenarios.SelectScenario` | tests/test_fluent_selectors.py:113-118 | `select(h1)` below div-1 resolves, and its text is "Hello, World!" |
| `Scenarios.ChildScenario` | tests/test_fluent_selectors.py:121-139 | `child(0)` is the h1, `child(1)` the p with their texts; `child(4)` asks for `(./*)[5]` and is absent |
| `Scenarios.ChildrenScenario` | tests/test_fluent_selectors.py:142-152 | `children()` of div-1 has four entries with tag names h1, p, button, button |

## Left out

- `is_stale` (src/fluent_selectors/__init__.py:169-173): its meaning comes from `.raises(...)`, which belongs to the external check library; not modelled.
- The `Check` base class, its boolean combinators, `wait` and polling: external library and wall-clock time. Each check is modelled as a single evaluation against one `Page`.
- `upload_file` (src/fluent_selectors/__init__.py:105-106): it depends on `os.path.abspath`, a filesystem call. Apart from that it is `SetText`.
- `location`, `size` and the `Location`/`Size` records (src/fluent_selectors/__init__.py:17-26, 133-143): plain carriers, and `Size` holds floats.
- The JavaScript behind `HasAttributeCheck` and `scroll_into_view`: the script answer is the uninterpreted `hasAttributeScript` oracle, and scrolling is only recorded as a command.
- Selenium itself (real `find_element` semantics, XPath and CSS evaluation, the effect of a click or of typed keys on the page): uninterpreted lookups in `Page`.
- Driver failures other than "no such element" and "stale reference" (invalid selector, lost session): the code does not handle them and they are not modelled.
- `Perform`: the command is recorded as issued to the resolved handle. A stale-reference exception raised by the handle during the click/typing itself is not modelled, only staleness during resolution.
- Two Python runtime failures are not modelled. First, `child` formats `index + 1` with an f-string (src/fluent_selectors/__init__.py:82). The `type` statement at line 14 needs Python 3.12 or later, where by default that conversion raises `ValueError` once the number has more than 4300 digits; the model's `Child` and `DecimalString` never fail. Second, `parents` and `element` (lines 46-63) recurse once per locator and raise `RecursionError` beyond the interpreter's recursion limit; the model's `Parents`, `Element` and `Elements` never fail.
- The `_selector`, `_text` and `_name` fields that the check objects keep: stored for inspection only, with no logic.
