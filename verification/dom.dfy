/** The abstract document the engine inspects: element records instead of
    live DOM nodes, and the outcome of every selector lookup given as data
    instead of computed by a CSS engine. */
module Dom {
  import opened Wrappers

  type Selector = string
  type ElementId = nat

  /** The computed `z-index`: `auto` or an integer. */
  datatype ZIndex = Auto | Level(n: int)

  /** The parts of the computed style that decide visibility. `opacityZero`
      stands for `parseFloat(style.opacity) === 0`. */
  datatype VisibilityStyle = VisibilityStyle(display: string, opacityZero: bool, visibility: string, zIndex: ZIndex)

  /** What the browser's own `getBoundingClientRect` reports. */
  datatype DomRect = DomRect(top: int, left: int, right: int, bottom: int, width: int, height: int)

  /** One element. `depth` is its distance from the root of the tree: the
      parent chain is finite, and a parent is always one level higher. */
  datatype Node = Node(
    tagName: string,
    textContent: string,
    attributes: map<string, string>,
    classes: set<string>,
    value: Option<string>,
    disabled: bool,
    checked: bool,
    style: VisibilityStyle,
    computedStyle: map<string, string>,
    inlineStyle: map<string, string>,
    parent: Option<ElementId>,
    depth: nat,
    nativeRect: DomRect)

  /** The document and the window state the assertions read.
      - `query[s]` is what `document.querySelector(s)` returns; no entry means `null`;
      - `malformed[s]` is the description of the error the lookup of `s` throws;
      - `matching` holds the pairs for which `element.matches(s)` is true;
      - `nativeHits[(x, y)]` is the browser's own `elementFromPoint(x, y)`. */
  datatype Document = Document(
    nodes: map<ElementId, Node>,
    query: map<Selector, ElementId>,
    malformed: map<Selector, string>,
    matching: set<(ElementId, Selector)>,
    nativeHits: map<(int, int), ElementId>,
    title: string,
    url: string,
    body: string)

  /** What a lookup gives: an element, `null`, or a thrown error. */
  datatype Lookup = Found(id: ElementId) | NotFound | Threw(description: string)

  /** The consistency the model relies on: lookups land on elements of the
      document that match the selector, browser hits are elements of the
      document, and parents are elements one level up. It is weaker than a
      real document: it does not require an element matching a selector to
      make that selector's lookup succeed, nor the lookup to give the first
      match in document order. */
  ghost predicate WellFormed(d: Document)
  {
    && (forall s :: s in d.query ==> d.query[s] in d.nodes && (d.query[s], s) in d.matching)
    && (forall p :: p in d.nativeHits ==> d.nativeHits[p] in d.nodes)
    && (forall id :: id in d.nodes && d.nodes[id].parent.Some? ==>
          d.nodes[id].parent.value in d.nodes && d.nodes[d.nodes[id].parent.value].depth < d.nodes[id].depth)
  }

  /** `document.querySelector(selector)`: a malformed selector throws,
      otherwise the first element that matches, or `null`. */
  function QuerySelector(d: Document, selector: Selector): (r: Lookup)
    requires WellFormed(d)
    ensures r.Threw? <==> selector in d.malformed
    ensures r.Found? ==> r.id in d.nodes && (r.id, selector) in d.matching
    ensures r.NotFound? <==> selector !in d.malformed && selector !in d.query
  {
    if selector in d.malformed then Threw(d.malformed[selector])
    else if selector in d.query then Found(d.query[selector])
    else NotFound
  }

  /** `element.matches(selector)`: throws for a malformed selector. */
  function Matches(d: Document, id: ElementId, selector: Selector): (r: Result<bool, string>)
    ensures r.Failure? <==> selector in d.malformed
  {
    if selector in d.malformed then Failure(d.malformed[selector]) else Success((id, selector) in d.matching)
  }

  /** The document after `element.value = value` on element `id`, for an
      element that stores its value as given (a text input or a textarea):
      no attribute reflection, no sanitization, no file-input throw. */
  function WithValue(d: Document, id: ElementId, value: string): (r: Document)
    requires id in d.nodes
    ensures r.nodes.Keys == d.nodes.Keys
    ensures r.nodes[id].value == Some(value)
    ensures r.nodes[id] == d.nodes[id].(value := Some(value))
    ensures forall other :: other in d.nodes && other != id ==> r.nodes[other] == d.nodes[other]
    ensures r == d.(nodes := r.nodes)
  {
    d.(nodes := d.nodes[id := d.nodes[id].(value := Some(value))])
  }

  /** Assigning a value changes no lookup, parent or depth, so the document stays well formed. */
  lemma WithValueWellFormed(d: Document, id: ElementId, value: string)
    requires WellFormed(d) && id in d.nodes
    ensures WellFormed(WithValue(d, id, value))
  {
  }
}
