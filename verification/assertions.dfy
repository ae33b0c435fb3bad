/** The catalogue of DOM and document assertions. Element-scoped checks go
    through the resolver, so a missing element or a throwing lookup gives
    `Error`; the check itself only ever gives `Pass` or `Fail`, except where
    reading the element throws. */
module Assertions {
  import opened Wrappers
  import opened Text
  import opened Protocol
  import opened Dom
  import opened Resolver
  import opened Visibility

  /** `element.getAttribute(name) || ''`: a missing attribute reads as the empty string. */
  function AttributeText(n: Node, name: string): string
  {
    if name in n.attributes then n.attributes[name] else ""
  }

  /** `(element.value || '').toString()`: a missing value reads as the empty string. */
  function ValueText(n: Node): string
  {
    match n.value
    case Some(v) => v
    case None => ""
  }

  /** What calling `toString()` on a style property the declaration lacks throws. */
  const ReadOfUndefined: string := "TypeError: Cannot read properties of undefined (reading 'toString')"

  /** `containsText(value, selector)`. */
  function ContainsText(d: Document, value: string, selector: Selector): (r: Outcome)
    requires WellFormed(d)
    ensures ReportsResolverError(d, selector, r)
    ensures WithElement(d, selector).Success? ==> Decides(r, Contains(ElementOf(d, selector).textContent, value))
  {
    match WithElement(d, selector)
    case Failure(e) => e
    case Success(id) =>
      var text := d.nodes[id].textContent;
      if IndexOf(text, value) >= 0 then
        Pass("Element " + Bold(selector) + " contains text " + BoldString(value))
      else
        Fail("Elements " + Bold(selector) + " text " + BoldString(text) + " does not contain " + BoldString(value))
  }

  /** `attributeContains(attribute, value, selector)`. */
  function AttributeContains(d: Document, attribute: string, value: string, selector: Selector): (r: Outcome)
    requires WellFormed(d)
    ensures ReportsResolverError(d, selector, r)
    ensures WithElement(d, selector).Success? ==> Decides(r, Contains(AttributeText(ElementOf(d, selector), attribute), value))
  {
    match WithElement(d, selector)
    case Failure(e) => e
    case Success(id) =>
      if IndexOf(AttributeText(d.nodes[id], attribute), value) >= 0 then
        Pass("Attribute " + Bold(attribute) + " of element " + Bold(selector) + " contains text " + BoldString(value))
      else
        Fail("Attribute " + Bold(attribute) + " of element " + Bold(selector) + " does not contain text " + BoldString(value))
  }

  /** `attributeEquals(attribute, value, selector)`. */
  function AttributeEquals(d: Document, attribute: string, value: string, selector: Selector): (r: Outcome)
    requires WellFormed(d)
    ensures ReportsResolverError(d, selector, r)
    ensures WithElement(d, selector).Success? ==> Decides(r, AttributeText(ElementOf(d, selector), attribute) == value)
  {
    match WithElement(d, selector)
    case Failure(e) => e
    case Success(id) =>
      if AttributeText(d.nodes[id], attribute) == value then
        Pass("Attribute " + Bold(attribute) + " of element " + Bold(selector) + " equals " + BoldString(value))
      else
        Fail("Attribute " + Bold(attribute) + " of element " + Bold(selector) + " does not equal " + BoldString(value))
  }

  /** `classPresent(klass, selector)`. */
  function ClassPresent(d: Document, klass: string, selector: Selector): (r: Outcome)
    requires WellFormed(d)
    ensures ReportsResolverError(d, selector, r)
    ensures WithElement(d, selector).Success? ==> Decides(r, klass in ElementOf(d, selector).classes)
  {
    match WithElement(d, selector)
    case Failure(e) => e
    case Success(id) =>
      if klass in d.nodes[id].classes then
        Pass("Element " + Bold(selector) + " has class " + Bold(klass))
      else
        Fail("Element " + Bold(selector) + " does not have class " + Bold(klass))
  }

  /** A missing class fails with a message naming both the selector and the class. */
  lemma ClassAbsentNamesSelectorAndClass(d: Document, klass: string, selector: Selector)
    requires WellFormed(d)
    requires WithElement(d, selector).Success? && klass !in ElementOf(d, selector).classes
    ensures ClassPresent(d, klass, selector).Fail?
    ensures Contains(ClassPresent(d, klass, selector).message, Bold(selector))
    ensures Contains(ClassPresent(d, klass, selector).message, Bold(klass))
  {
    ContainsSelf(Bold(selector));
    ContainsInMiddle("Element ", Bold(selector), " does not have class " + Bold(klass), Bold(selector));
    assert "Element " + Bold(selector) + (" does not have class " + Bold(klass))
        == "Element " + Bold(selector) + " does not have class " + Bold(klass);
    ContainsSelf(Bold(klass));
    ContainsInMiddle("Element " + Bold(selector) + " does not have class ", Bold(klass), "", Bold(klass));
    assert "Element " + Bold(selector) + " does not have class " + Bold(klass) + ""
        == "Element " + Bold(selector) + " does not have class " + Bold(klass);
  }

  /** The shared body of `styleEquals` and `inlineStyleEquals`, over the
      style declaration each of them reads. */
  function CompareStyle(declaration: map<string, string>, style: string, value: string, selector: Selector): (r: Outcome)
    ensures style !in declaration ==> r == Error(ReadOfUndefined)
    ensures style in declaration ==> Decides(r, declaration[style] == value)
  {
    if style !in declaration then Error(ReadOfUndefined)
    else
      var val := declaration[style];
      if val == value then
        Pass("Element " + Bold(selector) + " has style " + Bold(style) + " with value " + BoldString(value))
      else
        Fail("Element " + Bold(selector) + " does not have style " + Bold(style) + ": " + Bold(val) + " with value " + BoldString(value))
  }

  /** `styleEquals(style, value, selector)`, against the computed style. */
  function StyleEquals(d: Document, style: string, value: string, selector: Selector): (r: Outcome)
    requires WellFormed(d)
    ensures ReportsResolverError(d, selector, r)
    ensures WithElement(d, selector).Success? && style !in ElementOf(d, selector).computedStyle ==> r == Error(ReadOfUndefined)
    ensures WithElement(d, selector).Success? && style in ElementOf(d, selector).computedStyle ==>
              Decides(r, ElementOf(d, selector).computedStyle[style] == value)
  {
    match WithElement(d, selector)
    case Failure(e) => e
    case Success(id) => CompareStyle(d.nodes[id].computedStyle, style, value, selector)
  }

  /** `inlineStyleEquals(style, value, selector)`, against the element's own `style` attribute. */
  function InlineStyleEquals(d: Document, style: string, value: string, selector: Selector): (r: Outcome)
    requires WellFormed(d)
    ensures ReportsResolverError(d, selector, r)
    ensures WithElement(d, selector).Success? && style !in ElementOf(d, selector).inlineStyle ==> r == Error(ReadOfUndefined)
    ensures WithElement(d, selector).Success? && style in ElementOf(d, selector).inlineStyle ==>
              Decides(r, ElementOf(d, selector).inlineStyle[style] == value)
  {
    match WithElement(d, selector)
    case Failure(e) => e
    case Success(id) => CompareStyle(d.nodes[id].inlineStyle, style, value, selector)
  }

  /** `elementDisabled(selector)`: a missing element is reported as not disabled. */
  function ElementDisabled(d: Document, selector: Selector): (r: Outcome)
    requires WellFormed(d)
    ensures selector in d.malformed ==> r == Error(d.malformed[selector])
    ensures selector !in d.malformed ==>
              Decides(r, QuerySelector(d, selector).Found? && d.nodes[QuerySelector(d, selector).id].disabled)
  {
    match QuerySelector(d, selector)
    case Threw(description) => Error(description)
    case Found(id) =>
      if d.nodes[id].disabled then Pass("Element " + Bold(selector) + " is disabled")
      else Fail("Element " + Bold(selector) + " is not disabled")
    case NotFound => Fail("Element " + Bold(selector) + " is not disabled")
  }

  /** `elementPresent(selector)`: a missing element is a `Fail`, not an `Error`. */
  function ElementPresent(d: Document, selector: Selector): (r: Outcome)
    requires WellFormed(d)
    ensures selector in d.malformed ==> r == Error(d.malformed[selector])
    ensures selector !in d.malformed ==> Decides(r, selector in d.query)
  {
    match QuerySelector(d, selector)
    case Threw(description) => Error(description)
    case Found(_) => Pass("Element " + Bold(selector) + " is present")
    case NotFound => Fail("Element " + Bold(selector) + " is not present")
  }

  /** `checkboxChecked(selector)`: a missing element is reported as unchecked. */
  function CheckboxChecked(d: Document, selector: Selector): (r: Outcome)
    requires WellFormed(d)
    ensures selector in d.malformed ==> r == Error(d.malformed[selector])
    ensures selector !in d.malformed ==>
              Decides(r, QuerySelector(d, selector).Found? && d.nodes[QuerySelector(d, selector).id].checked)
  {
    match QuerySelector(d, selector)
    case Threw(description) => Error(description)
    case Found(id) =>
      if d.nodes[id].checked then Pass("Element " + Bold(selector) + " is checked")
      else Fail("Element " + Bold(selector) + " is unchecked")
    case NotFound => Fail("Element " + Bold(selector) + " is unchecked")
  }

  /** `elementVisible(selector)`: passes exactly when neither the element nor
      any ancestor meets a hiding rule. */
  function ElementVisible(d: Document, selector: Selector): (r: Outcome)
    requires WellFormed(d)
    ensures ReportsResolverError(d, selector, r)
    ensures WithElement(d, selector).Success? ==> Decides(r, ChainShown(d, WithElement(d, selector).value))
    ensures WithElement(d, selector).Success? && ElementOf(d, selector).style.display == "none" ==> r.Fail?
  {
    match WithElement(d, selector)
    case Failure(e) => e
    case Success(id) =>
      match TestVisibility(d, Some(id), selector)
      case Some(result) => result
      case None => Pass("Element " + Bold(selector) + " should be visible (no CSS used to hide it)")
  }

  /** `titleContains(text)`. */
  function TitleContains(d: Document, text: string): (r: Outcome)
    ensures Decides(r, Contains(d.title, text))
  {
    if IndexOf(d.title, text) >= 0 then
      Pass("Title " + BoldString(d.title) + " contains text " + BoldString(text))
    else
      Fail("Title " + BoldString(d.title) + " does not contain text " + BoldString(text))
  }

  /** `titleEquals(text)`. */
  function TitleEquals(d: Document, text: string): (r: Outcome)
    ensures Decides(r, d.title == text)
  {
    if d.title == text then Pass("Title equals " + BoldString(text))
    else Fail("Title " + BoldString(d.title) + " does not equal " + BoldString(text))
  }

  /** `urlContains(text)`. */
  function UrlContains(d: Document, text: string): (r: Outcome)
    ensures Decides(r, Contains(d.url, text))
  {
    if IndexOf(d.url, text) >= 0 then
      Pass("URL " + BoldString(d.url) + " contains text " + BoldString(text))
    else
      Fail("URL " + BoldString(d.url) + " does not contain text " + BoldString(text))
  }

  /** `urlEquals(text)`; unlike the other messages, the failing one does not quote the URL. */
  function UrlEquals(d: Document, text: string): (r: Outcome)
    ensures Decides(r, d.url == text)
  {
    if d.url == text then Pass("URL equals " + BoldString(text))
    else Fail("URL " + Bold(d.url) + " does not equal " + BoldString(text))
  }

  /** `bodyContains(text)`, against the body's HTML. */
  function BodyContains(d: Document, text: string): (r: Outcome)
    ensures Decides(r, Contains(d.body, text))
  {
    if IndexOf(d.body, text) >= 0 then
      Pass("Body " + BoldString(d.body) + " contains text " + BoldString(text))
    else
      Fail("Body " + BoldString(d.body) + " does not contain text " + BoldString(text))
  }

  /** `valueContains(text, selector)`. */
  function ValueContains(d: Document, text: string, selector: Selector): (r: Outcome)
    requires WellFormed(d)
    ensures ReportsResolverError(d, selector, r)
    ensures WithElement(d, selector).Success? ==> Decides(r, Contains(ValueText(ElementOf(d, selector)), text))
  {
    match WithElement(d, selector)
    case Failure(e) => e
    case Success(id) =>
      var value := ValueText(d.nodes[id]);
      if IndexOf(value, text) >= 0 then
        Pass("Value " + BoldString(value) + " of element " + Bold(selector) + " contains text " + BoldString(text))
      else
        Fail("Value " + BoldString(value) + " of element " + Bold(selector) + " does not contain text " + BoldString(text))
  }

  /** `valueEquals(text, selector)`. */
  function ValueEquals(d: Document, text: string, selector: Selector): (r: Outcome)
    requires WellFormed(d)
    ensures ReportsResolverError(d, selector, r)
    ensures WithElement(d, selector).Success? ==> Decides(r, ValueText(ElementOf(d, selector)) == text)
  {
    match WithElement(d, selector)
    case Failure(e) => e
    case Success(id) =>
      var value := ValueText(d.nodes[id]);
      if value == text then
        Pass("Value of element " + Bold(selector) + " equals " + BoldString(text))
      else
        Fail("Value " + BoldString(value) + " of element " + Bold(selector) + " does not equal " + BoldString(text))
  }

  /** `logBody`: always passes, and its message carries the body's HTML. */
  function LogBody(d: Document): (r: Outcome)
    ensures r.Pass?
    ensures Contains(r.message, d.body)
  {
    ContainsSelf(d.body);
    ContainsInMiddle(BoldOn + "\"", d.body, "\"" + Reset, d.body);
    assert BoldOn + "\"" + d.body + ("\"" + Reset) == BoldString(d.body);
    ContainsInMiddle("Body: ", BoldString(d.body), "", d.body);
    assert "Body: " + BoldString(d.body) + "" == "Body: " + BoldString(d.body);
    Pass("Body: " + BoldString(d.body))
  }

  /** `getAttribute(attribute, selector)`: the attribute, `null` when the
      element lacks it, or the resolver's `Error`. */
  function GetAttribute(d: Document, attribute: string, selector: Selector): (r: Result<Option<string>, Outcome>)
    requires WellFormed(d)
    ensures WithElement(d, selector).Failure? ==> r == Failure(WithElement(d, selector).error)
    ensures WithElement(d, selector).Success? ==> r.Success?
    ensures WithElement(d, selector).Success? && attribute in ElementOf(d, selector).attributes ==>
              r.value == Some(ElementOf(d, selector).attributes[attribute])
    ensures WithElement(d, selector).Success? && attribute !in ElementOf(d, selector).attributes ==> r.value.None?
  {
    match WithElement(d, selector)
    case Failure(e) => Failure(e)
    case Success(id) =>
      var attributes := d.nodes[id].attributes;
      Success(if attribute in attributes then Some(attributes[attribute]) else None)
  }

  /** `click(selector)`: passes whenever the element resolves; the mouse
      events themselves are not modelled. */
  function Click(d: Document, selector: Selector): (r: Outcome)
    requires WellFormed(d)
    ensures ReportsResolverError(d, selector, r)
    ensures r.Pass? <==> WithElement(d, selector).Success?
  {
    match WithElement(d, selector)
    case Failure(e) => e
    case Success(_) => Pass("Clicked: " + Bold(selector))
  }

  /** For a selector that matches nothing, the element-scoped checks give
      `Error`, while presence, disabled and checked give `Fail`. */
  lemma MissingElementVerdicts(d: Document, selector: Selector, name: string, text: string)
    requires WellFormed(d)
    requires QuerySelector(d, selector).NotFound?
    ensures ContainsText(d, text, selector) == Error(NotFoundMessage(selector))
    ensures AttributeContains(d, name, text, selector).Error? && AttributeEquals(d, name, text, selector).Error?
    ensures ClassPresent(d, name, selector).Error? && ElementVisible(d, selector).Error?
    ensures StyleEquals(d, name, text, selector).Error? && InlineStyleEquals(d, name, text, selector).Error?
    ensures ValueContains(d, text, selector).Error? && ValueEquals(d, text, selector).Error?
    ensures Click(d, selector).Error?
    ensures ElementPresent(d, selector).Fail? && ElementDisabled(d, selector).Fail? && CheckboxChecked(d, selector).Fail?
  {
  }
}
