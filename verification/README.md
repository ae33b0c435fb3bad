# elm-spec native engine, modelled in Dafny

This project models the browser-side engine of the elm-spec UI test runner
(`source/Native/Spec.js`). The engine evaluates a test's assertions and
interactions against the page and gives `Pass`, `Fail` or `Error` with an
ANSI-highlighted message. It intercepts HTTP requests against a per-test
queue of expectations. It can also override the page's geometry with a
list of (selector, rectangle) entries.

The page is modelled as an abstract document (`Dom.Document`). It has element
records (text, attributes, classes, value, disabled and checked flags,
computed and inline style, parent, measured rectangle). It also has the
outcome of every selector lookup, given as data: the element
`querySelector` returns, or `null`, or the error a malformed selector
throws. The engine's own decisions are modelled on that document, branch for
branch; what the model does not capture is listed under "Left out".

Modules, one per component:

- `Protocol`: the outcome type, `bold`/`boldString`, `ansiToHtml`.
- `Text`: `indexOf`, and the decimal spelling used in the z-index message.
- `Dom` and `Resolver`: the document, `querySelector`, `matches`, `withElement`.
- `Visibility`: `testVisibility`, a walk up the parent chain.
- `Assertions`: every check, `getAttribute`, `click`, `logBody`.
- `Interactions`: class `Page`, whose document `setValue`/`clearValue*` change in place.
- `Layout`: class `Window`, which holds the layout `setLayout` replaces, and
  the overridden `getBoundingClientRect` (a search loop) and `elementFromPoint` (filter, stable sort, head).
- `HttpMock`: class `MockServer`. It holds the queue and the result maps, and
  its invariant ties its state to a replay of the requests seen since
  `mockHttpRequests`.
- `Invocations`: class `InvocationCounter`.

Behaviour the code has and the model keeps:

- The hit test's horizontal bound compares `left` with `y` (`Spec.js:22`).
  `Layout.HitBoundsQuirk` shows a point inside a rectangle that is missed, and a point outside one that is hit.
- On every request, the matcher removes the queue head whether it matches or
  not, so request i only ever faces expectation i (`HttpMock.ReplayIsPositional`).
- `elementPresent`, `elementDisabled` and `checkboxChecked` do their own lookup.
  They report a missing element as `Fail`. Every other element check reports
  it as `Error` (`Assertions.MissingElementVerdicts`).
- `bold` closes with `ESC[0m` and `ansiToHtml` looks for `ESC[21m`, so a
  message built with `bold` passes through `ansiToHtml` unchanged
  (`Protocol.BoldPassesThroughAnsiToHtml`).
- The visibility message for `visibility: hidden` is spelled `visiblity: hidden`, as in the code.

## Model

| member | source | states |
|---|---|---|
| `Text.IndexOf` | source/Native/Spec.js:112 | `indexOf` gives the first occurrence or -1, and `indexOf(v) >= 0` holds exactly when `v` is a substring |
| `Text.NatToStringRoundTrip` | source/Native/Spec.js:242 | the decimal spelling of a z-index reads back as the same number |
| `Protocol.Bold` | source/Native/Spec.js:83-85 | the result splits into `ESC[1m`, the message itself, and `ESC[0m` |
| `Protocol.BoldString` | source/Native/Spec.js:87-89 | the result splits into `ESC[1m`, the message in double quotes, and `ESC[0m` |
| `Protocol.BoldNamesItsText` | source/Native/Spec.js:83-85 | a bold-marked value still contains the value itself |
| `Protocol.BoldAddsNoBoldOff` | source/Native/Spec.js:83-85 | `bold` closes with `ESC[0m`, so it adds no `ESC[21m` to text that has none |
| `Protocol.AnsiToHtmlIdentity` | source/Native/Spec.js:575-577 | text without `ESC[21m` is returned unchanged by the rewrite |
| `Protocol.BoldPassesThroughAnsiToHtml` | source/Native/Spec.js:575-577 | a `bold` message (without `ESC[21m` inside) passes through `ansiToHtml` unchanged |
| `Protocol.AnsiToHtmlMarksSpan` | source/Native/Spec.js:575-577 | `ESC[1m` text `ESC[21m`, with no line terminator or closing marker in the text, becomes `<b>` text `</b>` |
| `Protocol.LazyClose` | source/Native/Spec.js:576 | the lazy `(.*?)` stops at the first closing marker and crosses no line terminator; it finds nothing only when every closing marker has a line terminator before it |
| `Protocol.AnsiToHtml` | source/Native/Spec.js:575-577 | the rewrite never lengthens the text (each span trades 9 marker characters for 7 tag characters); its behaviour on spans is stated by the lemmas below |
| `Dom.QuerySelector` | source/Native/Spec.js:93 | a lookup throws exactly for a malformed selector; a found element is in the document and matches the selector; otherwise `null` |
| `Dom.Matches` | source/Native/Spec.js:48 | `matches` throws exactly for a malformed selector |
| `Dom.WithValue` | source/Native/Spec.js:359 | assigning `value` stores the string as that element's value, as a text input or a textarea does, and changes no other part of the document (what other elements do with `value` is under Left out) |
| `Resolver.NotFoundMessage` | source/Native/Spec.js:97 | the "not found" message names the selector, in bold |
| `Resolver.WithElement` | source/Native/Spec.js:91-102 | resolves to an element of the document, or fails with `Error`: "Element not found" for `null`, the thrown description for a throwing lookup |
| `Visibility.HidingReason` | source/Native/Spec.js:235-242 | none exactly when no rule applies; otherwise the first rule in the order `display: none`, opacity 0, `visibility: hidden` (spelled `visiblity`), negative z-index with its value |
| `Visibility.Ancestry` | source/Native/Spec.js:243 | the element followed by its ancestors: each entry's parent is the next one and the last has no parent |
| `Visibility.TestVisibility` | source/Native/Spec.js:230-248 | `null` for no element; otherwise only ever `Fail`, `null` exactly when no element on the ancestor chain meets a hiding rule, a local reason wins over the parent's, and a hidden parent is reported as such |
| `Assertions.AttributeText` | source/Native/Spec.js:122 | definition: the attribute, or the empty string when it is missing (used by the attribute checks below) |
| `Assertions.ValueText` | source/Native/Spec.js:296 | definition: the value, or the empty string when it is missing (used by the value checks below) |
| `Assertions.ContainsText` | source/Native/Spec.js:110-118 | the resolver's error, or `Pass` exactly when the text content contains the value, else `Fail` |
| `Assertions.AttributeContains` | source/Native/Spec.js:120-129 | as above, on the attribute read with a missing attribute as `''` |
| `Assertions.AttributeEquals` | source/Native/Spec.js:131-140 | `Pass` exactly when the attribute (missing as `''`) equals the value |
| `Assertions.ClassPresent` | source/Native/Spec.js:142-150 | `Pass` exactly when the element has the class |
| `Assertions.ClassAbsentNamesSelectorAndClass` | source/Native/Spec.js:147 | a missing class fails with a message naming the selector and the class |
| `Assertions.CompareStyle` | source/Native/Spec.js:154-160 | a missing style property throws (an `Error`); otherwise `Pass` exactly when the value is equal |
| `Assertions.StyleEquals` | source/Native/Spec.js:152-161 | the comparison above on the computed style, after the resolver |
| `Assertions.InlineStyleEquals` | source/Native/Spec.js:163-172 | the comparison above on the inline style, after the resolver |
| `Assertions.ElementDisabled` | source/Native/Spec.js:174-187 | `Error` for a throwing lookup; otherwise `Pass` exactly when an element is found and is disabled |
| `Assertions.ElementPresent` | source/Native/Spec.js:189-202 | `Error` for a throwing lookup; otherwise `Pass` exactly when an element is found |
| `Assertions.CheckboxChecked` | source/Native/Spec.js:215-228 | `Error` for a throwing lookup; otherwise `Pass` exactly when an element is found and is checked |
| `Assertions.ElementVisible` | source/Native/Spec.js:204-213 | the resolver's error, or `Pass` exactly when the whole ancestor chain is shown; `display: none` always fails |
| `Assertions.TitleContains` | source/Native/Spec.js:250-259 | `Pass` exactly when the title contains the text |
| `Assertions.TitleEquals` | source/Native/Spec.js:261-270 | `Pass` exactly when the title equals the text |
| `Assertions.UrlContains` | source/Native/Spec.js:272-281 | `Pass` exactly when the URL contains the text |
| `Assertions.BodyContains` | source/Native/Spec.js:283-292 | `Pass` exactly when the body HTML contains the text |
| `Assertions.ValueContains` | source/Native/Spec.js:294-303 | the resolver's error, or `Pass` exactly when the value (missing as `''`) contains the text |
| `Assertions.ValueEquals` | source/Native/Spec.js:305-314 | the resolver's error, or `Pass` exactly when the value (missing as `''`) equals the text |
| `Assertions.UrlEquals` | source/Native/Spec.js:316-325 | `Pass` exactly when the URL equals the text |
| `Assertions.LogBody` | source/Native/Spec.js:327-330 | always `Pass`, with the body HTML in the message |
| `Assertions.GetAttribute` | source/Native/Spec.js:332-336 | the resolver's error, or the attribute, or `null` when the element lacks it |
| `Assertions.Click` | source/Native/Spec.js:338-345 | `Pass` exactly when the element resolves, the resolver's error otherwise |
| `Assertions.MissingElementVerdicts` | source/Native/Spec.js:91-102 | for a selector matching nothing, the resolver-based checks give `Error`, and presence, disabled and checked give `Fail` |
| `Interactions.Page.Assign` | source/Native/Spec.js:357-362 | the resolver's error and no change, or `Pass` with the resolved element's value assigned |
| `Interactions.Page.SetValue` | source/Native/Spec.js:357-362 | assigns the value to the resolved element, or reports the resolver's error and changes nothing |
| `Interactions.Page.SetValueAndDispatch` | source/Native/Spec.js:364-371 | the same assignment (the event is not modelled) |
| `Interactions.Page.ClearValue` | source/Native/Spec.js:373-378 | assigns `''` to the resolved element, or reports the resolver's error and changes nothing |
| `Interactions.Page.ClearValueAndDispatch` | source/Native/Spec.js:380-387 | the same clearing (the event is not modelled) |
| `Interactions.SetValueThenValueEquals` | source/Native/Spec.js:357-362 | for a text-like field that stores its value as given, `valueEquals` after setting a value passes with that value and fails with any other |
| `Interactions.SetValueLeavesOthers` | source/Native/Spec.js:359 | setting one element's value leaves the value checks on other elements as they were |
| `Layout.Window.SetLayout` | source/Native/Spec.js:522-527 | the layout is replaced wholesale by the new entries |
| `Layout.FirstCovering` | source/Native/Spec.js:45-51 | a throw comes from the first entry whose selector is malformed, reached after entries that neither cover the element nor throw, with that selector's error |
| `Layout.FirstCoveringFindsFirst` | source/Native/Spec.js:45-51 | the scan returns the rectangle of the first entry, in list order, whose selector the element matches |
| `Layout.FirstCoveringSound` | source/Native/Spec.js:45-51 | a rectangle the scan returns is the first covering entry's, and "none" means no entry covers the element |
| `Layout.Window.ElementRect` | source/Native/Spec.js:43-55 | the search loop returns the installed rectangle of the first covering entry, the measured one when no entry covers the element or there is no layout, or the error a malformed selector throws |
| `Layout.BoxOf` | source/Native/Spec.js:43-55 | the measured rectangle without a layout or when no entry covers the element (and only then); an installed rectangle only from the first covering entry; a throw only from a malformed selector reached first |
| `Layout.InstalledRectWins` | source/Native/Spec.js:43-55 | a covered element gets the installed rectangle, whatever its measured geometry |
| `Layout.Window.GetBoundingClientRect` | source/Native/Spec.js:561-567 | the element's rectangle, or all zeroes when the lookup throws, finds nothing, or the scan throws |
| `Layout.InHitBounds` | source/Native/Spec.js:19-23 | definition: the bounds check as written, with `left <= y` |
| `Layout.HitCandidates` | source/Native/Spec.js:16-26 | the candidates lie inside the bounds as written and their selectors designate their elements; the filter throws exactly when an in-bounds entry has a malformed selector |
| `Layout.HitCandidatesComplete` | source/Native/Spec.js:16-26 | every in-bounds entry whose selector designates an element yields a candidate |
| `Layout.InsertByZ` | source/Native/Spec.js:27-29 | one insertion step keeps the length and the multiset of candidates; the new candidate comes first exactly when the head's z-index is not above its own |
| `Layout.InsertByZPlacement` | source/Native/Spec.js:27-29 | stable insertion: the new candidate lands after every candidate with a higher z-index and before the first one that is not higher, and the others keep their order (`InsertPosition` gives that index) |
| `Layout.SortByZ` | source/Native/Spec.js:27-29 | the sort is a permutation of the candidates in descending z-index order |
| `Layout.FirstHighest` | source/Native/Spec.js:27-33 | the first candidate with the greatest z-index |
| `Layout.SortHeadIsFirstHighest` | source/Native/Spec.js:27-33 | the head of the stable descending sort is the first candidate with the greatest z-index |
| `Layout.HitTest` | source/Native/Spec.js:13-41 | a hit is always an element of the document |
| `Layout.HitTestPicksFirstHighest` | source/Native/Spec.js:13-41 | with candidates, the hit is the element of the first candidate with the greatest z-index |
| `Layout.FirstHighestCandidateIsFirstHighestEntry` | source/Native/Spec.js:16-33 | that candidate comes from the first hittable entry with the greatest z-index: no hittable entry is higher and every earlier hittable entry is strictly lower |
| `Layout.HitTestPicksHighestEntry` | source/Native/Spec.js:13-41 | over the whole layout: throws exactly when an in-bounds entry has a malformed selector; the browser's hit when no entry is hittable; otherwise the element of the first hittable entry with the greatest z-index |
| `Layout.Window.ElementFromPoint` | source/Native/Spec.js:568-574 | `Nothing` when the hit test throws; with hittable entries, the tag of the element of the first hittable entry with the greatest z-index; without a layout or candidates, the tag of the browser's own hit, or `Nothing` when nothing is hit |
| `Layout.HitBoundsQuirk` | source/Native/Spec.js:19-23 | the bounds check as written misses a point inside a rectangle and accepts one outside |
| `HttpMock.GetTestId` | source/Native/Spec.js:465-471 | `Just(id - 1)` exactly when the id is truthy (present and not 0) |
| `HttpMock.Satisfies` | source/Native/Spec.js:488-496 | definition: method and URL equal and, for POST/PUT, a falsy expected entity or one equal to the body (used by the rows below) |
| `HttpMock.Replay` | source/Native/Spec.js:484-509 | definition: the handler applied to each request in turn; its properties are the Replay lemmas below |
| `HttpMock.Handle` | source/Native/Spec.js:485-496 | the head is always removed; a match needs method and URL equal and, for POST/PUT, a falsy or equal entity |
| `HttpMock.ReplayConsumesOnePerRequest` | source/Native/Spec.js:485 | n requests remove the first n entries of the queue and leave n records |
| `HttpMock.ReplayIsPositional` | source/Native/Spec.js:484-509 | the i-th request is called exactly when it satisfies the i-th expectation, unhandled otherwise |
| `HttpMock.ReplayInOrder` | source/Native/Spec.js:484-509 | requests in the expected order are all called, in that order, and none is unhandled |
| `HttpMock.SwappedPairBothUnhandled` | source/Native/Spec.js:484-509 | two expected requests arriving swapped are both unhandled |
| `HttpMock.MockServer.MockHttpRequests` | source/Native/Spec.js:473-483 | installs the queue for the test and creates its result lists only when absent; the replay starts afresh from that queue and those lists |
| `HttpMock.MockServer.Intercept` | source/Native/Spec.js:484-510 | one request: the head is shifted off; a match answers with the canned response and is appended to `called`; anything else appends a 200/empty record to `unhandled`; the queue and lists the replay started from stay as they were, so the invariant carries from call to call |
| `HttpMock.MockServer.GetMockResults` | source/Native/Spec.js:515-520 | the recorded lists in arrival order, or empty lists for an unknown test |
| `Invocations.Bump` | source/Native/Spec.js:351 | one call raises that key's count by one and leaves the other keys' counts as they were |
| `Invocations.CountIsNumberOfCalls` | source/Native/Spec.js:347-355 | every key's count is the number of calls made for it, so the n-th call returns n |
| `Invocations.InvocationCounter.UnsafeInvocationCount` | source/Native/Spec.js:349-355 | returns 1 on a key's first call and the previous count plus one after that, and stores it |

## Left out

- The Elm runtime plumbing (`task`, `succeed`, the callbacks, `F2`/`F3`, `fromArray`/`toArray`, `Spec.js:63-69`, `104-108`) is not modelled: results are plain values.
- Installing the interception (`HttpMock.setup` and `HttpMock.mock`) is outside the model, and so are real request and response objects. A new `mockHttpRequests` is taken to replace the previous handler. A request that is let through is not modelled beyond "no canned response".
- The unhandled record's entity is taken to be the same request body that the entity comparison reads.
- Synthetic events are not modelled: the mouse events of `click`, the event of the `AndDispatch` variants, and `dispatchEvent` with its property copying (`Spec.js:57-61`, `389-424`). Any effect an event handler could have on the page is not modelled either.
- `inputViaPort` (`Spec.js:426-439`) is host integration: it sends to an Elm port of the running application and reports `Pass`, `Fail` "Cannot find port" or `Error`; ports are outside the model. `raf` and `report` talk to the host. The plain reads `getTitle`/`getBody`/`getUrl` only return document state.
- Selector matching, computed styles, `classList` and `textContent` are inputs of the document, not computed. The visibility fields and the computed-style map are independent inputs, so a model document may give them different values.
- `parseFloat(style.opacity) === 0` is an input flag, and `parseInt(style.zIndex)` is an integer or `auto`. Geometry is in integers rather than floating point.
- Each node's `depth` exists only so that the parent walk provably ends. A browser's tree has this property anyway.
- Result maps are keyed by an integer test id. In JavaScript the key is the id converted to a string, which for integers makes no difference.
- `Assertions.ReadOfUndefined` stands for the `TypeError` that a missing style property throws. Its exact wording belongs to the JavaScript engine.
- Invocations.InvocationCounter.UnsafeInvocationCount: the counts live in a plain object `{}` (`Spec.js:347`), so a key naming an inherited member (`toString`, `constructor`, `__proto__`) already reads as truthy: the first call returns a string such as `"function toString() { [native code] }1"`, and `__proto__` always yields `Object.prototype`. The model's map has no inherited keys and returns 1 for them. Counts are also unbounded, while JavaScript numbers lose precision above 2^53.
- Invocations.Bump: the same inherited-key behaviour is not modelled.
- Layout.SortByZ: stability (equal z-indexes keep list order) is stated for each insertion step (`Layout.InsertByZPlacement`) and for the head, the one element `.shift()` reads (`Layout.SortHeadIsFirstHighest`), but not as one property of the whole sorted list.
- Dom.WithValue: `value` is modelled as a plain stored string, kept apart from the attributes, as text inputs and textareas have it. The model leaves out three browser behaviours. First, reflection to the `value` attribute on `button`, `option`, `data`, `param`, `li`, `meter` and `progress`. Second, sanitization by number, email, range and color inputs, and by a `select` without a matching option. Third, the `InvalidStateError` a file input throws on a non-empty value, which `withElement` would report as `Error`. `Interactions.SetValueThenValueEquals` therefore speaks only for text-like fields.
- `querySelector` returning the first match in document order is not modelled: the document records which element each selector's lookup gives.
- Assertions.ContainsText: this contract and those of the other assertions (`AttributeContains`, `AttributeEquals`, `ClassPresent`, `StyleEquals`, `InlineStyleEquals`, `ElementDisabled`, `ElementPresent`, `CheckboxChecked`, `ElementVisible`, `TitleContains`, `TitleEquals`, `UrlContains`, `UrlEquals`, `BodyContains`, `ValueContains`, `ValueEquals`, `Click`) state the verdict, not the message text. The message texts are in the function bodies, character for character as in the source.
- Interactions.Page.SetValue: this contract and those of `SetValueAndDispatch`, `ClearValue` and `ClearValueAndDispatch` say `Pass` without giving the message text.
