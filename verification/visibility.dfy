/** The visibility evaluator (`testVisibility`): the element's own computed
    style is checked against four hiding rules in a fixed order, then the
    parent chain is walked. */
module Visibility {
  import opened Wrappers
  import opened Text
  import opened Protocol
  import opened Dom

  /** The first hiding rule the style meets, as the message spells it:
      `display: none`, then opacity 0, then `visibility: hidden`, then a
      negative z-index other than `auto`. */
  function HidingReason(s: VisibilityStyle): (r: Option<string>)
    ensures r.None? <==> s.display != "none" && !s.opacityZero && s.visibility != "hidden" && !(s.zIndex.Level? && s.zIndex.n < 0)
    ensures s.display == "none" ==> r == Some("display: none")
    ensures s.display != "none" && s.opacityZero ==> r == Some("opacity: 0")
    ensures s.display != "none" && !s.opacityZero && s.visibility == "hidden" ==> r == Some("visiblity: hidden")
    ensures s.display != "none" && !s.opacityZero && s.visibility != "hidden" && s.zIndex.Level? && s.zIndex.n < 0 ==>
              r == Some("z-index: " + IntToString(s.zIndex.n))
  {
    if s.display == "none" then Some("display: none")
    else if s.opacityZero then Some("opacity: 0")
    else if s.visibility == "hidden" then Some("visiblity: hidden")
    else if s.zIndex.Level? && s.zIndex.n < 0 then Some("z-index: " + IntToString(s.zIndex.n))
    else None
  }

  function HiddenByMessage(selector: Selector, reason: string): string
  {
    "Element " + Bold(selector) + " is hidden by " + Bold(reason)
  }

  function HiddenByParentMessage(selector: Selector): string
  {
    "Element " + Bold(selector) + " is hidden by parent element."
  }

  /** The element followed by its ancestors, nearest first. */
  function Ancestry(d: Document, id: ElementId): (r: seq<ElementId>)
    requires WellFormed(d) && id in d.nodes
    ensures |r| >= 1 && r[0] == id
    ensures forall i :: 0 <= i < |r| ==> r[i] in d.nodes
    ensures forall i :: 0 <= i < |r| - 1 ==> d.nodes[r[i]].parent == Some(r[i + 1])
    ensures d.nodes[r[|r| - 1]].parent.None?
    decreases d.nodes[id].depth
  {
    match d.nodes[id].parent
    case None => [id]
    case Some(p) => [id] + Ancestry(d, p)
  }

  /** No element on the chain meets a hiding rule of its own. */
  ghost predicate ChainShown(d: Document, id: ElementId)
    requires WellFormed(d) && id in d.nodes
  {
    forall i :: 0 <= i < |Ancestry(d, id)| ==> HidingReason(d.nodes[Ancestry(d, id)[i]].style).None?
  }

  /** Below an element that meets no hiding rule, the chain is shown exactly
      when its parent's chain is. */
  lemma ChainShownStep(d: Document, id: ElementId)
    requires WellFormed(d) && id in d.nodes
    requires HidingReason(d.nodes[id].style).None?
    ensures d.nodes[id].parent.None? ==> ChainShown(d, id)
    ensures d.nodes[id].parent.Some? ==> (ChainShown(d, id) <==> ChainShown(d, d.nodes[id].parent.value))
  {
    var chain := Ancestry(d, id);
    match d.nodes[id].parent
    case None =>
    case Some(p) =>
      var rest := Ancestry(d, p);
      assert chain == [id] + rest;
      if ChainShown(d, id) {
        forall i | 0 <= i < |rest|
          ensures HidingReason(d.nodes[rest[i]].style).None?
        {
          assert rest[i] == chain[i + 1];
        }
      }
  }

  /** `testVisibility(element, selector)`: `None` stands for JavaScript's
      `null` (visible), and the selector only appears in messages. */
  function TestVisibility(d: Document, element: Option<ElementId>, selector: Selector): (r: Option<Outcome>)
    requires WellFormed(d)
    requires element.Some? ==> element.value in d.nodes
    ensures element.None? ==> r.None?
    ensures r.Some? ==> r.value.Fail?
    ensures element.Some? ==> (r.None? <==> ChainShown(d, element.value))
    ensures element.Some? && HidingReason(d.nodes[element.value].style).Some? ==>
              r == Some(Fail(HiddenByMessage(selector, HidingReason(d.nodes[element.value].style).value)))
    ensures element.Some? && HidingReason(d.nodes[element.value].style).None? && r.Some? ==>
              r == Some(Fail(HiddenByParentMessage(selector)))
    decreases if element.Some? then d.nodes[element.value].depth + 1 else 0
  {
    match element
    case None => None
    case Some(id) =>
      var node := d.nodes[id];
      match HidingReason(node.style)
      case Some(reason) =>
        assert !ChainShown(d, id) by { assert Ancestry(d, id)[0] == id; }
        Some(Fail(HiddenByMessage(selector, reason)))
      case None =>
        ChainShownStep(d, id);
        if TestVisibility(d, node.parent, "").Some? then Some(Fail(HiddenByParentMessage(selector)))
        else None
  }
}
