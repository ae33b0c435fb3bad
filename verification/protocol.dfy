/** The assertion protocol: the three-valued outcome every check returns, the
    ANSI "bold" marking of literal values inside messages, and the rewrite of
    bold spans into HTML (`ansiToHtml`). */
module Protocol {
  import opened Wrappers
  import opened Text

  /** Result of one assertion or interaction. */
  datatype Outcome = Pass(message: string) | Fail(message: string) | Error(message: string)

  /** `ESC[1m`: switches bold on. */
  const BoldOn: string := "\U{1B}[1m"
  /** `ESC[0m`: resets all attributes; this is what `bold` closes with. */
  const Reset: string := "\U{1B}[0m"
  /** `ESC[21m`: the closing marker `ansiToHtml` looks for. */
  const BoldOff: string := "\U{1B}[21m"

  /** `bold(message)`. */
  function Bold(message: string): (r: string)
    ensures |r| == |BoldOn| + |message| + |Reset|
    ensures r[..|BoldOn|] == BoldOn && r[|r| - |Reset|..] == Reset
    ensures r[|BoldOn|..|r| - |Reset|] == message
  {
    BoldOn + message + Reset
  }

  /** `boldString(message)`: the message in double quotes, then bold. */
  function BoldString(message: string): (r: string)
    ensures |r| == |BoldOn| + |message| + 2 + |Reset|
    ensures r[..|BoldOn|] == BoldOn && r[|r| - |Reset|..] == Reset
    ensures r[|BoldOn|..|r| - |Reset|] == "\"" + message + "\""
  {
    Bold("\"" + message + "\"")
  }

  /** The bold marking keeps the marked text visible in the message. */
  lemma BoldNamesItsText(message: string)
    ensures Contains(Bold(message), message)
  {
    ContainsSelf(message);
    ContainsInMiddle(BoldOn, message, Reset, message);
  }

  /** Characters that JavaScript's `.` in a regular expression refuses to match. */
  predicate IsLineTerminator(c: char)
  {
    c == '\n' || c == '\r' || c == '\U{2028}' || c == '\U{2029}'
  }

  /** The lazy `(.*?)ESC[21m` part of the pattern, tried from index `k` of
      `t`: the least index at or after `k` where `ESC[21m` starts, provided no
      line terminator lies before it. */
  function LazyCloseFrom(t: string, k: nat): (r: Option<nat>)
    requires k <= |t|
    requires forall j :: 0 <= j < k ==> !IsLineTerminator(t[j]) && !OccursAt(t, BoldOff, j)
    ensures r.Some? ==> k <= r.value && OccursAt(t, BoldOff, r.value)
    ensures r.Some? ==> forall j :: 0 <= j < r.value ==> !IsLineTerminator(t[j]) && !OccursAt(t, BoldOff, j)
    ensures r.None? ==> forall i: nat :: OccursAt(t, BoldOff, i) ==> exists j :: 0 <= j < i && IsLineTerminator(t[j])
    decreases |t| - k
  {
    if OccursAt(t, BoldOff, k) then Some(k)
    else if k == |t| || IsLineTerminator(t[k]) then None
    else LazyCloseFrom(t, k + 1)
  }

  /** Where the lazily matched bold span of `t` ends, if it does. */
  function LazyClose(t: string): (r: Option<nat>)
    ensures r.Some? ==> OccursAt(t, BoldOff, r.value)
    ensures r.Some? ==> forall j :: 0 <= j < r.value ==> !IsLineTerminator(t[j]) && !OccursAt(t, BoldOff, j)
    ensures r.None? ==> forall i: nat :: OccursAt(t, BoldOff, i) ==> exists j :: 0 <= j < i && IsLineTerminator(t[j])
  {
    LazyCloseFrom(t, 0)
  }

  /** `value.replace(/\x1b\[1m(.*?)\x1b\[21m/g, '<b>$1</b>')`: scanning left
      to right, every `ESC[1m` that is followed, on the same line, by an
      `ESC[21m` becomes `<b>`, the text up to the first such `ESC[21m` is
      kept and that `ESC[21m` becomes `</b>`; scanning resumes after it. */
  function AnsiToHtml(s: string): (r: string)
    ensures |r| <= |s|
    decreases |s|
  {
    if s == [] then ""
    else if OccursAt(s, BoldOn, 0) && LazyClose(s[|BoldOn|..]).Some? then
      var t := s[|BoldOn|..];
      var k := LazyClose(t).value;
      "<b>" + t[..k] + "</b>" + AnsiToHtml(t[k + |BoldOff|..])
    else
      [s[0]] + AnsiToHtml(s[1..])
  }

  /** A string with no `ESC[21m` is left exactly as it is. */
  lemma {:induction false} AnsiToHtmlIdentity(s: string)
    requires !Contains(s, BoldOff)
    ensures AnsiToHtml(s) == s
    decreases |s|
  {
    if s != [] {
      if OccursAt(s, BoldOn, 0) && LazyClose(s[|BoldOn|..]).Some? {
        var t := s[|BoldOn|..];
        var k := LazyClose(t).value;
        assert s[|BoldOn| + k..|BoldOn| + k + |BoldOff|] == t[k..k + |BoldOff|];
        assert OccursAt(s, BoldOff, |BoldOn| + k);
        assert false;
      } else {
        var u := s[1..];
        if Contains(u, BoldOff) {
          var i: nat :| i <= |u| && OccursAt(u, BoldOff, i);
          assert s[i + 1..i + 1 + |BoldOff|] == u[i..i + |BoldOff|];
          assert OccursAt(s, BoldOff, i + 1);
          assert false;
        }
        AnsiToHtmlIdentity(u);
        assert s == [s[0]] + u;
      }
    }
  }

  /** `bold` closes with `ESC[0m`, so it never introduces an `ESC[21m`. */
  lemma BoldAddsNoBoldOff(message: string)
    requires !Contains(message, BoldOff)
    ensures !Contains(Bold(message), BoldOff)
  {
    var b := Bold(message);
    var n := |message|;
    assert |b| == n + 8;
    assert b[..4] == BoldOn && b[n + 4..] == Reset;
    forall i: nat | i <= |b|
      ensures !OccursAt(b, BoldOff, i)
    {
      if i + |BoldOff| > |b| {
      } else if i < 4 {
        // inside the opening marker: no ESC there is followed by "[2"
        assert b[i] != BoldOff[0] || b[i + 2] != BoldOff[2];
      } else if i + |BoldOff| <= n + 4 {
        assert b[i..i + |BoldOff|] == message[i - 4..i - 4 + |BoldOff|];
        assert !OccursAt(message, BoldOff, i - 4);
      } else {
        // the window reaches the ESC that starts the reset marker, at offset 1..4
        var d := n + 4 - i;
        assert b[i + d] == '\U{1B}' != BoldOff[d];
      }
    }
  }

  /** Hence any bold-marked text without `ESC[21m` passes through `ansiToHtml` unchanged. */
  lemma BoldPassesThroughAnsiToHtml(message: string)
    requires !Contains(message, BoldOff)
    ensures AnsiToHtml(Bold(message)) == Bold(message)
  {
    BoldAddsNoBoldOff(message);
    AnsiToHtmlIdentity(Bold(message));
  }

  /** A span opened with `ESC[1m` and closed with `ESC[21m`, holding no line
      terminator and no other `ESC[21m`, becomes a `<b>` element. */
  lemma AnsiToHtmlMarksSpan(text: string)
    requires forall j :: 0 <= j < |text| ==> !IsLineTerminator(text[j])
    requires !Contains(text, BoldOff)
    ensures AnsiToHtml(BoldOn + text + BoldOff) == "<b>" + text + "</b>"
  {
    MarksSpanAt(BoldOn + text + BoldOff, text);
  }

  /** The same, for a string given as the span. */
  lemma MarksSpanAt(s: string, text: string)
    requires forall j :: 0 <= j < |text| ==> !IsLineTerminator(text[j])
    requires !Contains(text, BoldOff)
    requires s == BoldOn + text + BoldOff
    ensures AnsiToHtml(s) == "<b>" + text + "</b>"
  {
    var t := text + BoldOff;
    var h := AnsiToHtml(s);
    assert h == "<b>" + t[..|text|] + "</b>" + AnsiToHtml(t[|text| + |BoldOff|..]) by {
      assert s[|BoldOn|..] == t;
      assert s[0..|BoldOn|] == BoldOn;
      SpanClosesAtEnd(text);
      UnfoldSpan(s, |text|);
    }
    assert t[..|text|] == text;
    assert t[|text| + |BoldOff|..] == [];
    assert h == "<b>" + text + "</b>" + AnsiToHtml([]);
    assert h == "<b>" + text + "</b>";
  }

  /** One step of the rewrite at a span that starts at the beginning of `s`. */
  lemma UnfoldSpan(s: string, k: nat)
    requires OccursAt(s, BoldOn, 0)
    requires LazyClose(s[|BoldOn|..]) == Some(k)
    ensures AnsiToHtml(s) == "<b>" + s[|BoldOn|..][..k] + "</b>" + AnsiToHtml(s[|BoldOn|..][k + |BoldOff|..])
  {
  }

  /** In `text + ESC[21m`, the lazy search finds the appended marker. */
  lemma SpanClosesAtEnd(text: string)
    requires forall j :: 0 <= j < |text| ==> !IsLineTerminator(text[j])
    requires !Contains(text, BoldOff)
    ensures LazyClose(text + BoldOff) == Some(|text|)
  {
    var t := text + BoldOff;
    forall j | 0 <= j < |text|
      ensures !IsLineTerminator(t[j]) && !OccursAt(t, BoldOff, j)
    {
      assert t[j] == text[j];
      if j + |BoldOff| <= |text| {
        assert t[j..j + |BoldOff|] == text[j..j + |BoldOff|];
        assert !OccursAt(text, BoldOff, j);
      } else {
        // the window reaches the ESC that starts the appended marker
        var d := |text| - j;
        assert t[j + d] == '\U{1B}' != BoldOff[d];
      }
    }
    assert t[|text|..|text| + |BoldOff|] == BoldOff;
    LazyCloseMinimal(t, 0, |text|);
  }

  /** The lazy search stops at the first closing marker it reaches. */
  lemma {:induction false} LazyCloseMinimal(t: string, k: nat, m: nat)
    requires k <= m <= |t|
    requires OccursAt(t, BoldOff, m)
    requires forall j :: 0 <= j < m ==> !IsLineTerminator(t[j]) && !OccursAt(t, BoldOff, j)
    ensures LazyCloseFrom(t, k) == Some(m)
    decreases m - k
  {
    if k < m {
      LazyCloseMinimal(t, k + 1, m);
    }
  }
}
