/** The value-changing interactions: `setValue`, `setValueAndDispatch`,
    `clearValue` and `clearValueAndDispatch` assign `element.value` on the
    resolved element of the page's document. */
module Interactions {
  import opened Wrappers
  import opened Protocol
  import opened Dom
  import opened Resolver
  import opened Assertions

  /** The document of the page under test, changed in place by the interactions. */
  class Page {
    var document: Document

    constructor (initial: Document)
      requires WellFormed(initial)
      ensures document == initial
    {
      document := initial;
    }

    /** Assign `value` to the element `selector` designates, if it does; the
        outcome says which. */
    method Assign(value: string, selector: Selector, passMessage: string) returns (r: Outcome)
      requires WellFormed(document)
      modifies this
      ensures WellFormed(document)
      ensures WithElement(old(document), selector).Failure? ==>
                r == WithElement(old(document), selector).error && document == old(document)
      ensures WithElement(old(document), selector).Success? ==>
                r == Pass(passMessage) &&
                document == WithValue(old(document), WithElement(old(document), selector).value, value)
    {
      match WithElement(document, selector)
      case Failure(e) =>
        r := e;
      case Success(id) =>
        WithValueWellFormed(document, id, value);
        document := WithValue(document, id, value);
        r := Pass(passMessage);
    }

    /** `setValue(value, selector)`. */
    method SetValue(value: string, selector: Selector) returns (r: Outcome)
      requires WellFormed(document)
      modifies this
      ensures WellFormed(document)
      ensures WithElement(old(document), selector).Failure? ==>
                r == WithElement(old(document), selector).error && document == old(document)
      ensures WithElement(old(document), selector).Success? ==>
                r.Pass? && document == WithValue(old(document), WithElement(old(document), selector).value, value)
    {
      r := Assign(value, selector, "Set value to " + BoldString(value) + " of " + Bold(selector));
    }

    /** `setValueAndDispatch(value, selector, eventName)`; the event itself is not modelled. */
    method SetValueAndDispatch(value: string, selector: Selector, eventName: string) returns (r: Outcome)
      requires WellFormed(document)
      modifies this
      ensures WellFormed(document)
      ensures WithElement(old(document), selector).Failure? ==>
                r == WithElement(old(document), selector).error && document == old(document)
      ensures WithElement(old(document), selector).Success? ==>
                r.Pass? && document == WithValue(old(document), WithElement(old(document), selector).value, value)
    {
      r := Assign(value, selector,
        "Set value to " + BoldString(value) + " of " + Bold(selector) + "; dispatching event " + BoldString(eventName));
    }

    /** `clearValue(selector)`: assigns the empty string. */
    method ClearValue(selector: Selector) returns (r: Outcome)
      requires WellFormed(document)
      modifies this
      ensures WellFormed(document)
      ensures WithElement(old(document), selector).Failure? ==>
                r == WithElement(old(document), selector).error && document == old(document)
      ensures WithElement(old(document), selector).Success? ==>
                r.Pass? && document == WithValue(old(document), WithElement(old(document), selector).value, "")
    {
      r := Assign("", selector, "Cleared value of " + Bold(selector));
    }

    /** `clearValueAndDispatch(selector, eventName)`; the event itself is not modelled. */
    method ClearValueAndDispatch(selector: Selector, eventName: string) returns (r: Outcome)
      requires WellFormed(document)
      modifies this
      ensures WellFormed(document)
      ensures WithElement(old(document), selector).Failure? ==>
                r == WithElement(old(document), selector).error && document == old(document)
      ensures WithElement(old(document), selector).Success? ==>
                r.Pass? && document == WithValue(old(document), WithElement(old(document), selector).value, "")
    {
      r := Assign("", selector, "Cleared value of " + Bold(selector) + "; dispatching event " + BoldString(eventName));
    }
  }

  /** Setting a value and then asserting it, on a field that stores its value
      as given: the assertion passes, and it fails for every other text. */
  lemma SetValueThenValueEquals(d: Document, selector: Selector, value: string, other: string)
    requires WellFormed(d) && WithElement(d, selector).Success?
    ensures WellFormed(WithValue(d, WithElement(d, selector).value, value))
    ensures ValueEquals(WithValue(d, WithElement(d, selector).value, value), value, selector).Pass?
    ensures other != value ==> ValueEquals(WithValue(d, WithElement(d, selector).value, value), other, selector).Fail?
  {
    var id := WithElement(d, selector).value;
    WithValueWellFormed(d, id, value);
    var e := WithValue(d, id, value);
    assert QuerySelector(e, selector) == QuerySelector(d, selector);
    assert ElementOf(e, selector) == e.nodes[id];
  }

  /** Setting a value leaves every other element, and the value checks on
      selectors that designate other elements, as they were. */
  lemma SetValueLeavesOthers(d: Document, selector: Selector, elsewhere: Selector, value: string, text: string)
    requires WellFormed(d) && WithElement(d, selector).Success?
    requires WithElement(d, elsewhere).Success? && WithElement(d, elsewhere).value != WithElement(d, selector).value
    ensures WellFormed(WithValue(d, WithElement(d, selector).value, value))
    ensures ValueEquals(WithValue(d, WithElement(d, selector).value, value), text, elsewhere)
         == ValueEquals(d, text, elsewhere)
  {
    var id := WithElement(d, selector).value;
    WithValueWellFormed(d, id, value);
    var e := WithValue(d, id, value);
    assert QuerySelector(e, elsewhere) == QuerySelector(d, elsewhere);
  }
}
