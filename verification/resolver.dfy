/** The element resolver (`withElement`): one lookup, with "not found" and a
    thrown lookup both turned into an `Error` outcome. */
module Resolver {
  import opened Wrappers
  import opened Text
  import opened Protocol
  import opened Dom

  function NotFoundMessage(selector: Selector): (r: string)
    ensures Contains(r, Bold(selector)) && Contains(r, selector)
  {
    BoldNamesItsText(selector);
    ContainsSelf(Bold(selector));
    ContainsInMiddle("Element not found: ", Bold(selector), "", Bold(selector));
    ContainsInMiddle("Element not found: ", Bold(selector), "", selector);
    assert "Element not found: " + Bold(selector) + "" == "Element not found: " + Bold(selector);
    "Element not found: " + Bold(selector)
  }

  /** The element `selector` designates, or the `Error` outcome that replaces it. */
  function WithElement(d: Document, selector: Selector): (r: Result<ElementId, Outcome>)
    requires WellFormed(d)
    ensures r.Success? <==> QuerySelector(d, selector).Found?
    ensures r.Success? ==> r.value in d.nodes && QuerySelector(d, selector) == Found(r.value)
    ensures r.Failure? ==> r.error.Error?
    ensures QuerySelector(d, selector).NotFound? ==> r == Failure(Error(NotFoundMessage(selector)))
    ensures selector in d.malformed ==> r == Failure(Error(d.malformed[selector]))
  {
    match QuerySelector(d, selector)
    case Found(id) => Success(id)
    case NotFound => Failure(Error(NotFoundMessage(selector)))
    case Threw(description) => Failure(Error(description))
  }

  /** The record of the element `selector` resolves to. */
  function ElementOf(d: Document, selector: Selector): Node
    requires WellFormed(d) && WithElement(d, selector).Success?
  {
    d.nodes[WithElement(d, selector).value]
  }

  /** An element-scoped check hands the resolver's error on unchanged. */
  predicate ReportsResolverError(d: Document, selector: Selector, r: Outcome)
    requires WellFormed(d)
  {
    WithElement(d, selector).Failure? ==> r == WithElement(d, selector).error
  }

  /** `r` is `Pass` exactly when `holds`, and otherwise `Fail`, never `Error`. */
  predicate Decides(r: Outcome, holds: bool)
  {
    (r.Pass? <==> holds) && (r.Fail? <==> !holds)
  }
}
