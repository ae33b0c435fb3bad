/** Layout virtualisation: a list of (selector, rectangle) overrides installed
    by `setLayout`, consulted first by the element bounding-rectangle query
    and by the point hit test. */
module Layout {
  import opened Wrappers
  import opened Dom

  /** The rectangle a test installs for a selector; `zIndex` orders overlapping ones. */
  datatype LayoutRect = LayoutRect(top: int, left: int, width: int, height: int, zIndex: int)

  /** One `(selector, rectangle)` pair of the installed layout. */
  datatype Override = Override(selector: Selector, rect: LayoutRect)

  /** What a bounding-rectangle query gives: an installed rectangle, or a
      measured one (the browser's, or the all-zero fallback). */
  datatype Box = Installed(installed: LayoutRect) | Measured(measured: DomRect)

  /** What the exported query returns when the lookup fails. */
  const ZeroBox: Box := Measured(DomRect(0, 0, 0, 0, 0, 0))

  /** The element matches the entry's selector, and that selector does not throw. */
  predicate Covers(d: Document, entry: Override, id: ElementId)
  {
    entry.selector !in d.malformed && (id, entry.selector) in d.matching
  }

  /** The `for…of` scan: the rectangle of the first entry whose selector the
      element matches, `None` when no entry does, or the error thrown by the
      first malformed selector reached before a match. */
  function FirstCovering(d: Document, entries: seq<Override>, id: ElementId): (r: Result<Option<LayoutRect>, string>)
    ensures r.Failure? ==> exists k :: 0 <= k < |entries| && PassedOver(d, entries, id, k)
                                      && entries[k].selector in d.malformed && r.error == d.malformed[entries[k].selector]
  {
    if entries == [] then Success(None)
    else
      match Matches(d, id, entries[0].selector)
      case Failure(e) => assert PassedOver(d, entries, id, 0); Failure(e)
      case Success(true) => Success(Some(entries[0].rect))
      case Success(false) =>
        var rest := FirstCovering(d, entries[1..], id);
        PassedOverCons(d, entries, id);
        rest
  }

  /** Passing over the first entry and then `k` entries of the rest is
      passing over `k + 1` entries. */
  lemma PassedOverCons(d: Document, entries: seq<Override>, id: ElementId)
    requires entries != [] && entries[0].selector !in d.malformed && !Covers(d, entries[0], id)
    ensures forall k :: 0 <= k < |entries| - 1 && PassedOver(d, entries[1..], id, k) ==>
              PassedOver(d, entries, id, k + 1) && entries[1..][k] == entries[k + 1]
  {
    assert forall j :: 0 < j < |entries| ==> entries[1..][j - 1] == entries[j];
  }

  /** No entry before `k` covers the element or throws. */
  predicate PassedOver(d: Document, entries: seq<Override>, id: ElementId, k: nat)
    requires k <= |entries|
  {
    forall j :: 0 <= j < k ==> entries[j].selector !in d.malformed && !Covers(d, entries[j], id)
  }

  /** The scan returns the first covering entry's rectangle. */
  lemma {:induction false} FirstCoveringFindsFirst(d: Document, entries: seq<Override>, id: ElementId, k: nat)
    requires k < |entries| && Covers(d, entries[k], id) && PassedOver(d, entries, id, k)
    ensures FirstCovering(d, entries, id) == Success(Some(entries[k].rect))
  {
    if k > 0 {
      assert PassedOver(d, entries[1..], id, k - 1) by {
        forall j | 0 <= j < k - 1
          ensures entries[1..][j].selector !in d.malformed && !Covers(d, entries[1..][j], id)
        {
          assert entries[1..][j] == entries[j + 1];
        }
      }
      FirstCoveringFindsFirst(d, entries[1..], id, k - 1);
    }
  }

  /** Conversely, a rectangle the scan returns belongs to the first covering
      entry, and `None` means that no entry covers the element. */
  lemma {:induction false} FirstCoveringSound(d: Document, entries: seq<Override>, id: ElementId)
    ensures FirstCovering(d, entries, id) == Success(None) <==> PassedOver(d, entries, id, |entries|)
    ensures FirstCovering(d, entries, id).Success? && FirstCovering(d, entries, id).value.Some? ==>
              exists k :: 0 <= k < |entries| && Covers(d, entries[k], id) && PassedOver(d, entries, id, k)
                          && FirstCovering(d, entries, id).value.value == entries[k].rect
    decreases |entries|
  {
    if entries != [] {
      var rest := entries[1..];
      FirstCoveringSound(d, rest, id);
      forall j | 0 <= j < |rest| ensures rest[j] == entries[j + 1] { }
      if FirstCovering(d, entries, id).Success? && FirstCovering(d, entries, id).value.Some? {
        if !Covers(d, entries[0], id) {
          var k :| 0 <= k < |rest| && Covers(d, rest[k], id) && PassedOver(d, rest, id, k)
                   && FirstCovering(d, rest, id).value.value == rest[k].rect;
          assert PassedOver(d, entries, id, k + 1);
        }
      }
    }
  }

  /** `element.getBoundingClientRect()` as overridden: with a layout
      installed, the first covering entry's rectangle, else the browser's. */
  function BoxOf(d: Document, layout: Option<seq<Override>>, id: ElementId): (r: Result<Box, string>)
    requires id in d.nodes
    ensures layout.None? ==> r == Success(Measured(d.nodes[id].nativeRect))
    ensures r.Success? && r.value.Measured? ==> r.value.measured == d.nodes[id].nativeRect
    ensures layout.Some? ==> (r == Success(Measured(d.nodes[id].nativeRect)) <==> PassedOver(d, layout.value, id, |layout.value|))
    ensures layout.Some? && r.Success? && r.value.Installed? ==>
              exists k :: 0 <= k < |layout.value| && Covers(d, layout.value[k], id) && PassedOver(d, layout.value, id, k)
                          && layout.value[k].rect == r.value.installed
    ensures r.Failure? ==> layout.Some? && exists k :: 0 <= k < |layout.value| && PassedOver(d, layout.value, id, k)
                                                     && layout.value[k].selector in d.malformed
  {
    match layout
    case None => Success(Measured(d.nodes[id].nativeRect))
    case Some(entries) =>
      FirstCoveringSound(d, entries, id);
      match FirstCovering(d, entries, id)
      case Failure(e) => Failure(e)
      case Success(None) => Success(Measured(d.nodes[id].nativeRect))
      case Success(Some(rect)) => Success(Installed(rect))
  }

  /** The hit test's bounds check, exactly as the source writes it: the
      horizontal lower bound compares `left` with `y`, not `x`. */
  predicate InHitBounds(r: LayoutRect, x: int, y: int)
  {
    r.top <= y && r.top + r.height >= y && r.left <= y && r.left + r.width >= x
  }

  /** An entry that survived the filter, with the element its selector designates. */
  datatype Candidate = Candidate(entry: Override, element: ElementId)

  /** The filter keeps an entry: the point is inside its bounds (as written)
      and its selector designates an element. */
  predicate Hittable(d: Document, entry: Override, x: int, y: int)
    requires WellFormed(d)
  {
    InHitBounds(entry.rect, x, y) && QuerySelector(d, entry.selector).Found?
  }

  /** The `filter` step: entries whose bounds contain the point and whose
      selector designates an element, in list order; a malformed selector
      reached by the filter throws. */
  function HitCandidates(d: Document, entries: seq<Override>, x: int, y: int): (r: Result<seq<Candidate>, string>)
    requires WellFormed(d)
    ensures r.Success? ==> forall i :: 0 <= i < |r.value| ==>
              r.value[i].entry in entries && InHitBounds(r.value[i].entry.rect, x, y)
              && QuerySelector(d, r.value[i].entry.selector) == Found(r.value[i].element)
              && r.value[i].element in d.nodes
    ensures r.Failure? <==> exists k :: 0 <= k < |entries| && InHitBounds(entries[k].rect, x, y) && entries[k].selector in d.malformed
  {
    if entries == [] then Success([])
    else
      var entry := entries[0];
      var rest := HitCandidates(d, entries[1..], x, y);
      assert forall k :: 0 < k < |entries| ==> entries[k] == entries[1..][k - 1];
      if !InHitBounds(entry.rect, x, y) then rest
      else
        match QuerySelector(d, entry.selector)
        case Threw(e) => Failure(e)
        case NotFound => rest
        case Found(id) =>
          match rest
          case Failure(e) => Failure(e)
          case Success(cs) =>
            Success([Candidate(entry, id)] + cs)
  }

  /** The candidate a hittable entry contributes. */
  function CandidateOf(d: Document, entry: Override): Candidate
    requires WellFormed(d) && QuerySelector(d, entry.selector).Found?
  {
    Candidate(entry, QuerySelector(d, entry.selector).id)
  }

  /** One filter step: a successful run over `entries` is the contribution of
      the first entry followed by a successful run over the rest. */
  lemma HitCandidatesCons(d: Document, entries: seq<Override>, x: int, y: int)
    requires WellFormed(d) && entries != []
    requires HitCandidates(d, entries, x, y).Success?
    ensures HitCandidates(d, entries[1..], x, y).Success?
    ensures HitCandidates(d, entries, x, y).value ==
              (if Hittable(d, entries[0], x, y) then [CandidateOf(d, entries[0])] else [])
              + HitCandidates(d, entries[1..], x, y).value
  {
  }

  /** A hittable entry at index `k` yields a candidate. */
  lemma {:induction false} HittableEntryYieldsCandidate(d: Document, entries: seq<Override>, x: int, y: int, k: nat)
    requires WellFormed(d) && HitCandidates(d, entries, x, y).Success?
    requires k < |entries| && Hittable(d, entries[k], x, y)
    ensures exists i :: 0 <= i < |HitCandidates(d, entries, x, y).value| && HitCandidates(d, entries, x, y).value[i].entry == entries[k]
    decreases k
  {
    var all := HitCandidates(d, entries, x, y).value;
    var rest := entries[1..];
    HitCandidatesCons(d, entries, x, y);
    var cs := HitCandidates(d, rest, x, y).value;
    var head := if Hittable(d, entries[0], x, y) then [CandidateOf(d, entries[0])] else [];
    assert all == head + cs;
    if k == 0 {
      assert all[0].entry == entries[0];
    } else {
      assert entries[k] == rest[k - 1];
      HittableEntryYieldsCandidate(d, rest, x, y, k - 1);
      var i :| 0 <= i < |cs| && cs[i].entry == rest[k - 1];
      assert all[|head| + i] == cs[i];
    }
  }

  /** The filter drops no entry it should keep: every hittable entry yields
      a candidate. */
  lemma HitCandidatesComplete(d: Document, entries: seq<Override>, x: int, y: int)
    requires WellFormed(d)
    ensures var r := HitCandidates(d, entries, x, y);
            r.Success? ==> forall k :: 0 <= k < |entries| && Hittable(d, entries[k], x, y) ==>
              exists i :: 0 <= i < |r.value| && r.value[i].entry == entries[k]
  {
    if HitCandidates(d, entries, x, y).Success? {
      forall k | 0 <= k < |entries| && Hittable(d, entries[k], x, y)
        ensures exists i :: 0 <= i < |HitCandidates(d, entries, x, y).value| && HitCandidates(d, entries, x, y).value[i].entry == entries[k]
      {
        HittableEntryYieldsCandidate(d, entries, x, y, k);
      }
    }
  }

  function Z(c: Candidate): int
  {
    c.entry.rect.zIndex
  }

  /** Each candidate's z-index is at most its predecessor's. */
  predicate DescendingByZ(cs: seq<Candidate>)
  {
    forall i :: 0 < i < |cs| ==> Z(cs[i]) <= Z(cs[i - 1])
  }

  /** Stable insertion of `c` into a list sorted by descending z-index: it
      goes before the first element whose z-index is not above its own. */
  function InsertByZ(c: Candidate, sorted: seq<Candidate>): (r: seq<Candidate>)
    ensures |r| == |sorted| + 1
    ensures multiset(r) == multiset(sorted) + multiset{c}
    ensures r[0] == c || (sorted != [] && r[0] == sorted[0])
    ensures sorted == [] || Z(sorted[0]) <= Z(c) ==> r[0] == c
    ensures sorted != [] && Z(sorted[0]) > Z(c) ==> r[0] == sorted[0]
  {
    if sorted == [] || Z(sorted[0]) <= Z(c) then [c] + sorted
    else
      assert sorted == [sorted[0]] + sorted[1..];
      [sorted[0]] + InsertByZ(c, sorted[1..])
  }

  /** Where `InsertByZ` puts `c`: the number of leading elements whose
      z-index is above its own. */
  function InsertPosition(c: Candidate, sorted: seq<Candidate>): (i: nat)
    ensures i <= |sorted|
    ensures forall j :: 0 <= j < i ==> Z(sorted[j]) > Z(c)
    ensures i < |sorted| ==> Z(sorted[i]) <= Z(c)
  {
    if sorted == [] || Z(sorted[0]) <= Z(c) then 0
    else 1 + InsertPosition(c, sorted[1..])
  }

  /** Splicing `c` into the tail at `i` is splicing it into the whole list
      at `i + 1`. */
  lemma SpliceCons<T>(x: T, rest: seq<T>, i: nat, c: T)
    requires i <= |rest|
    ensures [x] + (rest[..i] + [c] + rest[i..]) == ([x] + rest)[..i + 1] + [c] + ([x] + rest)[i + 1..]
  {
    assert ([x] + rest)[..i + 1] == [x] + rest[..i];
    assert ([x] + rest)[i + 1..] == rest[i..];
  }

  /** The insertion places `c` before the first element whose z-index is not
      above its own, after every element above it, and keeps the rest in
      order. */
  lemma {:induction false} InsertByZPlacement(c: Candidate, sorted: seq<Candidate>)
    ensures var i := InsertPosition(c, sorted);
            InsertByZ(c, sorted) == sorted[..i] + [c] + sorted[i..]
    decreases |sorted|
  {
    if sorted == [] || Z(sorted[0]) <= Z(c) {
      assert sorted[..0] + [c] + sorted[0..] == [c] + sorted;
    } else {
      var rest := sorted[1..];
      InsertByZPlacement(c, rest);
      SpliceCons(sorted[0], rest, InsertPosition(c, rest), c);
      assert [sorted[0]] + rest == sorted;
    }
  }

  /** Inserting into a descending list keeps it descending. */
  lemma {:induction false} InsertByZKeepsOrder(c: Candidate, sorted: seq<Candidate>)
    requires DescendingByZ(sorted)
    ensures DescendingByZ(InsertByZ(c, sorted))
    decreases |sorted|
  {
    if sorted != [] && Z(sorted[0]) > Z(c) {
      var rest := sorted[1..];
      assert DescendingByZ(rest) by {
        forall i | 0 < i < |rest| ensures Z(rest[i]) <= Z(rest[i - 1]) {
          assert rest[i] == sorted[i + 1] && rest[i - 1] == sorted[i];
        }
      }
      InsertByZKeepsOrder(c, rest);
      var tail := InsertByZ(c, rest);
      var r := InsertByZ(c, sorted);
      assert r == [sorted[0]] + tail;
      forall i | 0 < i < |r| ensures Z(r[i]) <= Z(r[i - 1]) {
        if i == 1 {
          assert r[1] == tail[0];
          assert tail[0] == c || tail[0] == rest[0];
        } else {
          assert r[i] == tail[i - 1] && r[i - 1] == tail[i - 2];
        }
      }
    }
  }

  /** `sort((a, b) => b.zIndex - a.zIndex)` with JavaScript's stable sort:
      descending z-index, equal z-indexes in list order. */
  function SortByZ(cs: seq<Candidate>): (r: seq<Candidate>)
    ensures |r| == |cs|
    ensures multiset(r) == multiset(cs)
    ensures DescendingByZ(r)
  {
    if cs == [] then [] else
    assert cs == [cs[0]] + cs[1..];
    InsertByZKeepsOrder(cs[0], SortByZ(cs[1..]));
    InsertByZ(cs[0], SortByZ(cs[1..]))
  }

  /** The first candidate, in list order, with the greatest z-index. */
  function FirstHighest(cs: seq<Candidate>): (i: nat)
    requires |cs| > 0
    ensures i < |cs|
    ensures forall j :: 0 <= j < |cs| ==> Z(cs[j]) <= Z(cs[i])
    ensures forall j :: 0 <= j < i ==> Z(cs[j]) < Z(cs[i])
  {
    if |cs| == 1 then 0
    else
      var k := FirstHighest(cs[1..]) + 1;
      assert cs[k] == cs[1..][k - 1];
      assert forall j :: 1 <= j < |cs| ==> cs[j] == cs[1..][j - 1];
      if Z(cs[0]) >= Z(cs[k]) then 0 else k
  }

  /** The head of the stable descending sort is the first candidate with the
      greatest z-index: the highest wins, and a tie goes to the earlier entry. */
  lemma {:induction false} SortHeadIsFirstHighest(cs: seq<Candidate>)
    requires |cs| > 0
    ensures SortByZ(cs)[0] == cs[FirstHighest(cs)]
  {
    if |cs| > 1 {
      SortHeadIsFirstHighest(cs[1..]);
      var k := FirstHighest(cs[1..]) + 1;
      assert cs[k] == cs[1..][k - 1];
    }
  }

  /** Entry `k` is the first hittable entry with the greatest z-index. */
  predicate IsFirstHighestEntry(d: Document, entries: seq<Override>, x: int, y: int, k: nat)
    requires WellFormed(d)
  {
    && k < |entries| && Hittable(d, entries[k], x, y)
    && (forall j :: 0 <= j < |entries| && Hittable(d, entries[j], x, y) ==> entries[j].rect.zIndex <= entries[k].rect.zIndex)
    && (forall j :: 0 <= j < k && Hittable(d, entries[j], x, y) ==> entries[j].rect.zIndex < entries[k].rect.zIndex)
  }

  /** A non-hittable entry in front shifts the first highest entry by one. */
  lemma FirstHighestEntryBehindSkipped(d: Document, entries: seq<Override>, x: int, y: int, k: nat)
    requires WellFormed(d) && entries != [] && !Hittable(d, entries[0], x, y)
    requires IsFirstHighestEntry(d, entries[1..], x, y, k)
    ensures IsFirstHighestEntry(d, entries, x, y, k + 1)
  {
    assert forall j :: 0 < j < |entries| ==> entries[j] == entries[1..][j - 1];
  }

  /** A hittable entry in front that no later hittable entry exceeds is the
      first highest. */
  lemma FirstHighestEntryAtFront(d: Document, entries: seq<Override>, x: int, y: int)
    requires WellFormed(d) && entries != [] && Hittable(d, entries[0], x, y)
    requires forall j :: 0 <= j < |entries| - 1 && Hittable(d, entries[1..][j], x, y) ==>
               entries[1..][j].rect.zIndex <= entries[0].rect.zIndex
    ensures IsFirstHighestEntry(d, entries, x, y, 0)
  {
    assert forall j :: 0 < j < |entries| ==> entries[j] == entries[1..][j - 1];
  }

  /** A hittable entry in front that is strictly lower than the first highest
      of the rest shifts it by one. */
  lemma FirstHighestEntryBehindLower(d: Document, entries: seq<Override>, x: int, y: int, k: nat)
    requires WellFormed(d) && entries != [] && Hittable(d, entries[0], x, y)
    requires IsFirstHighestEntry(d, entries[1..], x, y, k)
    requires entries[0].rect.zIndex < entries[1..][k].rect.zIndex
    ensures IsFirstHighestEntry(d, entries, x, y, k + 1)
  {
    assert forall j :: 0 < j < |entries| ==> entries[j] == entries[1..][j - 1];
  }

  /** `FirstHighest` of a list with a head: the head unless the first highest
      of the rest is strictly higher. */
  lemma FirstHighestCons(c: Candidate, rs: seq<Candidate>)
    requires rs != []
    ensures FirstHighest([c] + rs) == if Z(c) >= Z(rs[FirstHighest(rs)]) then 0 else FirstHighest(rs) + 1
  {
    assert ([c] + rs)[1..] == rs;
  }

  /** The first highest candidate comes from the first hittable entry with the
      greatest z-index: no hittable entry is higher, and every earlier
      hittable entry is strictly lower. */
  lemma {:induction false} FirstHighestCandidateIsFirstHighestEntry(d: Document, entries: seq<Override>, x: int, y: int)
    requires WellFormed(d)
    requires HitCandidates(d, entries, x, y).Success? && HitCandidates(d, entries, x, y).value != []
    ensures var cs := HitCandidates(d, entries, x, y).value;
            exists k: nat :: IsFirstHighestEntry(d, entries, x, y, k) && entries[k] == cs[FirstHighest(cs)].entry
    decreases |entries|
  {
    var cs := HitCandidates(d, entries, x, y).value;
    var rest := entries[1..];
    HitCandidatesCons(d, entries, x, y);
    var rs := HitCandidates(d, rest, x, y).value;
    if !Hittable(d, entries[0], x, y) {
      assert cs == rs;
      FirstHighestCandidateIsFirstHighestEntry(d, rest, x, y);
      var k: nat :| IsFirstHighestEntry(d, rest, x, y, k) && rest[k] == rs[FirstHighest(rs)].entry;
      FirstHighestEntryBehindSkipped(d, entries, x, y, k);
      assert entries[k + 1] == rest[k];
    } else if rs == [] {
      assert cs == [CandidateOf(d, entries[0])];
      HitCandidatesComplete(d, rest, x, y);
      FirstHighestEntryAtFront(d, entries, x, y);
    } else {
      var c := CandidateOf(d, entries[0]);
      assert cs == [c] + rs;
      FirstHighestCandidateIsFirstHighestEntry(d, rest, x, y);
      var k: nat :| IsFirstHighestEntry(d, rest, x, y, k) && rest[k] == rs[FirstHighest(rs)].entry;
      FirstHighestCons(c, rs);
      if Z(c) >= Z(rs[FirstHighest(rs)]) {
        FirstHighestEntryAtFront(d, entries, x, y);
      } else {
        FirstHighestEntryBehindLower(d, entries, x, y, k);
        assert cs[FirstHighest(rs) + 1] == rs[FirstHighest(rs)];
        assert entries[k + 1] == rest[k];
      }
    }
  }

  /** The browser's own `elementFromPoint(x, y)`. */
  function NativeHit(d: Document, x: int, y: int): Option<ElementId>
  {
    if (x, y) in d.nativeHits then Some(d.nativeHits[(x, y)]) else None
  }

  /** `document.elementFromPoint(x, y)` as overridden: the filter, sort, map
      and shift pipeline, falling back to the browser when it yields nothing.
      The `map` step repeats each candidate's lookup on the same document, so
      it yields the element the filter found. */
  function HitTest(d: Document, layout: Option<seq<Override>>, x: int, y: int): (r: Result<Option<ElementId>, string>)
    requires WellFormed(d)
    ensures r.Success? && r.value.Some? ==> r.value.value in d.nodes
  {
    match layout
    case None => Success(NativeHit(d, x, y))
    case Some(entries) =>
      match HitCandidates(d, entries, x, y)
      case Failure(e) => Failure(e)
      case Success(cs) =>
        if cs == [] then Success(NativeHit(d, x, y))
        else
          SortHeadIsFirstHighest(cs);
          Success(Some(SortByZ(cs)[0].element))
  }

  /** With candidates, the hit test returns the element of the first
      candidate with the greatest z-index. */
  lemma HitTestPicksFirstHighest(d: Document, layout: Option<seq<Override>>, x: int, y: int)
    requires WellFormed(d)
    ensures layout.Some? && HitCandidates(d, layout.value, x, y).Success? && HitCandidates(d, layout.value, x, y).value != [] ==>
              var cs := HitCandidates(d, layout.value, x, y).value;
              HitTest(d, layout, x, y) == Success(Some(cs[FirstHighest(cs)].element))
  {
    if layout.Some? && HitCandidates(d, layout.value, x, y).Success? && HitCandidates(d, layout.value, x, y).value != [] {
      SortHeadIsFirstHighest(HitCandidates(d, layout.value, x, y).value);
    }
  }

  /** A candidate can only come from a hittable entry. */
  lemma CandidatesNeedHittable(d: Document, entries: seq<Override>, x: int, y: int)
    requires WellFormed(d) && HitCandidates(d, entries, x, y).Success?
    ensures HitCandidates(d, entries, x, y).value != [] ==> exists k :: 0 <= k < |entries| && Hittable(d, entries[k], x, y)
  {
    var cs := HitCandidates(d, entries, x, y).value;
    if cs != [] {
      var k :| 0 <= k < |entries| && entries[k] == cs[0].entry;
    }
  }

  /** The hit test over the whole layout: it throws exactly when an entry
      whose bounds contain the point has a malformed selector; otherwise it
      falls back to the browser when no entry is hittable, and else hits the
      element of the first hittable entry with the greatest z-index. */
  lemma HitTestPicksHighestEntry(d: Document, entries: seq<Override>, x: int, y: int)
    requires WellFormed(d)
    ensures HitTest(d, Some(entries), x, y).Failure? <==>
              exists k :: 0 <= k < |entries| && InHitBounds(entries[k].rect, x, y) && entries[k].selector in d.malformed
    ensures HitTest(d, Some(entries), x, y).Success? && (forall k :: 0 <= k < |entries| ==> !Hittable(d, entries[k], x, y)) ==>
              HitTest(d, Some(entries), x, y) == Success(NativeHit(d, x, y))
    ensures HitTest(d, Some(entries), x, y).Success? && (exists k :: 0 <= k < |entries| && Hittable(d, entries[k], x, y)) ==>
              exists k: nat :: IsFirstHighestEntry(d, entries, x, y, k)
                          && HitTest(d, Some(entries), x, y) == Success(Some(QuerySelector(d, entries[k].selector).id))
  {
    var r := HitCandidates(d, entries, x, y);
    var h := HitTest(d, Some(entries), x, y);
    if r.Failure? {
      assert h == Failure(r.error);
    } else if r.value == [] {
      assert h == Success(NativeHit(d, x, y));
      HitCandidatesComplete(d, entries, x, y);
    } else {
      var cs := r.value;
      SortHeadIsFirstHighest(cs);
      assert h == Success(Some(cs[FirstHighest(cs)].element));
      CandidatesNeedHittable(d, entries, x, y);
      FirstHighestCandidateIsFirstHighestEntry(d, entries, x, y);
      var k: nat :| IsFirstHighestEntry(d, entries, x, y, k) && entries[k] == cs[FirstHighest(cs)].entry;
      assert QuerySelector(d, entries[k].selector) == Found(cs[FirstHighest(cs)].element);
    }
  }

  /** Process-wide geometry state: the installed layout, if any. */
  class Window {
    var layout: Option<seq<Override>>

    constructor ()
      ensures layout.None?
    {
      layout := None;
    }

    /** `setLayout(entries)`: replaces the whole layout; nothing is merged. */
    method SetLayout(entries: seq<Override>)
      modifies this
      ensures layout == Some(entries)
    {
      layout := Some(entries);
    }

    /** The overridden `getBoundingClientRect` of element `id`, searching the
        layout front to back and stopping at the first match. */
    method ElementRect(d: Document, id: ElementId) returns (r: Result<Box, string>)
      requires id in d.nodes
      ensures r == BoxOf(d, layout, id)
    {
      if layout.Some? {
        var entries := layout.value;
        for i := 0 to |entries|
          invariant FirstCovering(d, entries, id) == FirstCovering(d, entries[i..], id)
        {
          assert entries[i..][1..] == entries[i + 1..];
          var entry := entries[i];
          var matched := Matches(d, id, entry.selector);
          if matched.Failure? {
            return Failure(matched.error);
          }
          if matched.value {
            return Success(Installed(entry.rect));
          }
        }
      }
      return Success(Measured(d.nodes[id].nativeRect));
    }

    /** The exported `getBoundingClientRect(selector)`: the element's rectangle,
        or all zeroes when the lookup throws, finds nothing, or the scan throws. */
    method GetBoundingClientRect(d: Document, selector: Selector) returns (r: Box)
      requires WellFormed(d)
      ensures QuerySelector(d, selector).Found? && BoxOf(d, layout, QuerySelector(d, selector).id).Success? ==>
                r == BoxOf(d, layout, QuerySelector(d, selector).id).value
      ensures !QuerySelector(d, selector).Found? ==> r == ZeroBox
      ensures QuerySelector(d, selector).Found? && BoxOf(d, layout, QuerySelector(d, selector).id).Failure? ==> r == ZeroBox
    {
      match QuerySelector(d, selector)
      case Found(id) =>
        var box := ElementRect(d, id);
        r := if box.Success? then box.value else ZeroBox;
      case NotFound =>
        r := ZeroBox;
      case Threw(_) =>
        r := ZeroBox;
    }

    /** The exported `elementFromPoint(x, y)`: the tag name of the element hit,
        `Nothing` when the test throws or nothing is hit. With a layout, the
        element is that of the first highest candidate; without a layout or
        candidates, the browser's. */
    function ElementFromPoint(d: Document, x: int, y: int): (r: Option<string>)
      requires WellFormed(d)
      reads this
      ensures HitTest(d, layout, x, y).Failure? ==> r.None?
      ensures layout.Some? && HitCandidates(d, layout.value, x, y).Success? && HitCandidates(d, layout.value, x, y).value != [] ==>
                var cs := HitCandidates(d, layout.value, x, y).value;
                r == Some(d.nodes[cs[FirstHighest(cs)].element].tagName)
      ensures (layout.None? || HitCandidates(d, layout.value, x, y) == Success([])) ==>
                r == (if NativeHit(d, x, y).Some? then Some(d.nodes[NativeHit(d, x, y).value].tagName) else None)
      ensures layout.Some? && HitTest(d, layout, x, y).Success? && (exists k :: 0 <= k < |layout.value| && Hittable(d, layout.value[k], x, y)) ==>
                exists k: nat :: IsFirstHighestEntry(d, layout.value, x, y, k)
                            && r == Some(d.nodes[QuerySelector(d, layout.value[k].selector).id].tagName)
    {
      HitTestPicksFirstHighest(d, layout, x, y);
      HitTestPicksHighestEntry(d, if layout.Some? then layout.value else [], x, y);
      match HitTest(d, layout, x, y)
      case Failure(_) => None
      case Success(None) => None
      case Success(Some(id)) => Some(d.nodes[id].tagName)
    }
  }

  /** With a layout installed, a selector designating an element that the
      first entry covers gets that entry's rectangle, whatever the element's
      measured geometry. */
  lemma InstalledRectWins(d: Document, entries: seq<Override>, id: ElementId, k: nat)
    requires id in d.nodes
    requires k < |entries| && Covers(d, entries[k], id) && PassedOver(d, entries, id, k)
    ensures BoxOf(d, Some(entries), id) == Success(Installed(entries[k].rect))
  {
    FirstCoveringFindsFirst(d, entries, id, k);
  }

  /** The bounds check as written: a point inside a rectangle can be missed,
      and a point outside it can be hit. */
  lemma HitBoundsQuirk()
    ensures !InHitBounds(LayoutRect(0, 10, 10, 100, 0), 15, 5)
    ensures InHitBounds(LayoutRect(0, 10, 10, 100, 0), 0, 15)
  {
  }
}
