/** The first stage of get_rate: scrape the Trading Economics page and read
    the number shown in the element marked `id="market_last"`, by plain text
    search rather than HTML parsing. The HTTP request is an input (`None`
    when it raised), and so is Python's `float` (`parse`, `None` when it
    raises). */
module TradingEconomics {
  import opened Options
  import opened PyStr

  /** The attribute that marks the element holding the quoted yield. */
  const Marker: string := "id=\"market_last\""

  /** What `requests.get` hands back: the status code and the decoded body. */
  datatype Response = Response(status: int, text: string)

  /** The three positions get_rate computes on the page text: the marker
      (`start`), one past the first `>` from there (`start_val`) and the
      first `<` from there (`end_val`). Each is whatever `str.find` said,
      -1 included. */
  datatype Window = Window(markerAt: int, startVal: int, endVal: int)

  /** No character of the marker is a tag bracket. */
  lemma MarkerHasNoBrackets()
    ensures forall k :: 0 <= k < |Marker| ==> Marker[k] != '>' && Marker[k] != '<'
  {
  }

  /** The three `find` calls, exactly as written: a missing `>` makes
      `start_val` 0 (the -1 plus one), and a missing `<` leaves `end_val`
      at -1. */
  function Locate(text: string): (w: Window)
    ensures -1 <= w.markerAt < |text|
    ensures w.markerAt == -1 <==> !Contains(text, Marker)
    ensures w.markerAt >= 0 ==>
              && OccursAt(text, Marker, w.markerAt)
              && forall j :: 0 <= j < w.markerAt ==> !OccursAt(text, Marker, j)
    ensures 0 <= w.startVal <= |text|
    ensures w.startVal > 0 ==>
              FindStart(w.markerAt, |text|) < w.startVal && text[w.startVal - 1] == '>'
    ensures forall j ::
              FindStart(w.markerAt, |text|) <= j < |text| && (w.startVal == 0 || j < w.startVal - 1)
              ==> text[j] != '>'
    ensures -1 <= w.endVal < |text|
    ensures w.endVal >= 0 ==> w.startVal <= w.endVal && text[w.endVal] == '<'
    ensures forall j ::
              w.startVal <= j < |text| && (w.endVal == -1 || j < w.endVal)
              ==> text[j] != '<'
  {
    var start := Find(text, Marker, 0);
    FindCharacter(text, '>', start);
    var startVal := Find(text, ">", start) + 1;
    FindCharacter(text, '<', startVal);
    var endVal := Find(text, "<", startVal);
    Window(start, startVal, endVal)
  }

  /** `text[start_val:end_val].strip()`: the string handed to `float`.
      When a `<` follows `start_val` it is the stripped text between the
      brackets. As written, when none does, `end_val` is -1 and the slice
      runs to the last character of the page but leaves it out. */
  function MarkerValue(text: string): (v: string)
    ensures Trimmed(v)
    ensures var w := Locate(text);
            w.endVal >= 0 ==> v == Strip(text[w.startVal..w.endVal])
    ensures var w := Locate(text);
            w.endVal == -1 && w.startVal < |text| ==> v == Strip(text[w.startVal..|text| - 1])
    ensures var w := Locate(text);
            w.endVal == -1 && w.startVal == |text| ==> v == []
  {
    var w := Locate(text);
    WindowSlice(text, w);
    Strip(Slice(text, w.startVal, w.endVal))
  }

  /** The Python slice of the window, as a Dafny subsequence. */
  lemma WindowSlice(text: string, w: Window)
    requires w == Locate(text)
    ensures w.endVal >= 0 ==> Slice(text, w.startVal, w.endVal) == text[w.startVal..w.endVal]
    ensures w.endVal == -1 && w.startVal < |text| ==>
              Slice(text, w.startVal, w.endVal) == text[w.startVal..|text| - 1]
    ensures w.endVal == -1 && w.startVal == |text| ==> Slice(text, w.startVal, w.endVal) == []
  {
    if w.endVal >= 0 {
      SliceInRange(text, w.startVal, w.endVal);
    } else if w.startVal < |text| {
      SliceToMinusOne(text, w.startVal);
    } else {
      SliceFromEndToMinusOne(text);
    }
  }

  /** The text after the marker holds a `>`. */
  predicate ClosesAfterMarker(text: string) {
    var m := Locate(text).markerAt;
    exists j | 0 <= m <= j < |text| :: text[j] == '>'
  }

  /** When the marker is found and a `>` follows it, the value starts after
      the whole marker and just after the first `>` that follows it: the
      marker itself contains no `>`. */
  lemma ValueStartsPastMarker(text: string)
    requires Contains(text, Marker) && ClosesAfterMarker(text)
    ensures var w := Locate(text);
            && w.startVal >= w.markerAt + |Marker| + 1
            && text[w.startVal - 1] == '>'
            && forall j :: w.markerAt <= j < w.startVal - 1 ==> text[j] != '>'
  {
    var w := Locate(text);
    var m := w.markerAt;
    assert m >= 0 && FindStart(m, |text|) == m;
    var j :| 0 <= m <= j < |text| && text[j] == '>';
    // a `>` at j rules out start_val == 0
    assert w.startVal > 0;
    var b := w.startVal - 1;
    assert m <= b && text[b] == '>';
    assert OccursAt(text, Marker, m);
    MarkerHasNoBrackets();
    forall k | m <= k < m + |Marker|
      ensures text[k] != '>'
    {
      assert text[k] == text[m..m + |Marker|][k - m];
    }
  }

  /** As written, a marker with no `>` after it does not make the stage
      fail: `find` answers -1, so `start_val` is 0 and the window opens at
      the very start of the page. */
  lemma UnclosedMarkerRestartsAtZero(text: string)
    requires Contains(text, Marker) && !ClosesAfterMarker(text)
    ensures Locate(text).startVal == 0
  {
  }

  /** When a `<` follows `start_val`, the value is the stripped text between
      the `>` and that `<`: a window of it, free of `<`, and with no
      whitespace at either end. */
  lemma ValueBetweenBrackets(text: string)
    requires Locate(text).endVal >= 0
    ensures var w := Locate(text);
            var v := MarkerValue(text);
            && w.startVal <= w.endVal
            && v == Strip(text[w.startVal..w.endVal])
            && (exists i :: CutAt(text[w.startVal..w.endVal], v, i))
            && (forall k :: 0 <= k < |v| ==> v[k] != '<')
            && Trimmed(v)
  {
    var w := Locate(text);
    var between := text[w.startVal..w.endVal];
    assert forall k :: 0 <= k < |between| ==> between[k] == text[w.startVal + k];
    StripKeepsOut(between, '<');
    var v := MarkerValue(text);
    var i :| CutAt(between, v, i);
  }

  /** The layout the scraper was written for: `<div id="market_last" ... >3.86</div>`. */
  const ExamplePage: string := "<div " + Marker + " ... >3.86</div>"

  /** The middle part of a concatenation sits right after the first part. */
  lemma ConcatMiddle(a: string, b: string, c: string)
    ensures (a + b + c)[|a|..|a| + |b|] == b
  {
    var s := a + b + c;
    forall k | 0 <= k < |b|
      ensures s[|a| + k] == b[k]
    {
    }
  }

  /** On that layout the marker sits at 5, the value opens at 27 and
      closes at 31. */
  lemma ExampleWindow()
    ensures Locate(ExamplePage) == Window(5, 27, 31)
  {
    ExampleMarker();
    ExampleBrackets();
    var w := Locate(ExamplePage);
    assert w.startVal == 27;
  }

  /** The marker's first occurrence on that layout. */
  lemma ExampleMarker()
    ensures Locate(ExamplePage).markerAt == 5
  {
    var text := ExamplePage;
    ConcatMiddle("<div ", Marker, " ... >3.86</div>");
    assert OccursAt(text, Marker, 5);
    forall j | 0 <= j < 5
      ensures !OccursAt(text, Marker, j)
    {
      assert text[j] != Marker[0] || text[j + 1] != Marker[1];
    }
    assert Contains(text, Marker);
  }

  /** Where the brackets of that layout stand. */
  lemma ExampleBrackets()
    ensures forall k :: 5 <= k < 26 ==> ExamplePage[k] != '>'
    ensures ExamplePage[26] == '>'
    ensures forall k :: 27 <= k < 31 ==> ExamplePage[k] != '<'
    ensures ExamplePage[31] == '<'
  {
  }

  /** On that layout the scraper reads the text `3.86`. */
  lemma ExampleValue()
    ensures MarkerValue(ExamplePage) == "3.86"
  {
    ExampleWindow();
    var between := ExamplePage[27..31];
    assert between == "3.86";
    assert Slice(ExamplePage, 27, 31) == between;
    assert CutAt(between, between, 0);
    StripUnique(between, between, 0);
  }

  /** The scrape stage: the parsed marker value of a 200 response whose
      body holds the marker; nothing when the request raised, the status is
      not 200, the marker is missing, or `float` rejects the text. */
  function Stage(response: Option<Response>, parse: string -> Option<real>): (r: Option<real>)
    ensures response.None? ==> r.None?
    ensures response.Some? && response.value.status != 200 ==> r.None?
    ensures response.Some? && !Contains(response.value.text, Marker) ==> r.None?
    ensures response.Some? && response.value.status == 200 && Contains(response.value.text, Marker) ==>
              r == parse(MarkerValue(response.value.text))
  {
    match response
    case None => None
    case Some(resp) =>
      if resp.status == 200 && Contains(resp.text, Marker) then parse(MarkerValue(resp.text))
      else None
  }
}
