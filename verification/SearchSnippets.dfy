/** From a search hit to the text shown for it: marker parsing and the tight snippet window. */
module SearchSnippets {
  import opened Basics
  import opened PythonText

  /** A stretch of plain text that matched. */
  datatype Span = Span(start: nat, end: nat)

  datatype Markers = Markers(start: string, end: string)

  // ----- Markers -----

  /**
   The two markers of a search: private-use brackets around one random hexadecimal name.
   No bracket occurs inside a marker, which is what keeps them apart from the text.
   */
  function MarkersFor(name: string): Markers {
    Markers(['\U{e000}'] + name + ['\U{e001}'], ['\U{e002}'] + name + ['\U{e003}'])
  }

  predicate IsHex(name: string) {
    forall c :: c in name ==> '0' <= c <= '9' || 'a' <= c <= 'f'
  }

  /** The first character of either marker occurs nowhere else in the two. */
  predicate Distinct(m: Markers) {
    && |m.start| > 0 && |m.end| > 0 && m.start[0] != m.end[0]
    && (forall k :: 1 <= k < |m.start| ==> m.start[k] != m.start[0] && m.start[k] != m.end[0])
    && forall k :: 1 <= k < |m.end| ==> m.end[k] != m.start[0] && m.end[k] != m.end[0]
  }

  lemma {:induction false} SearchMarkersDistinct(name: string)
    requires IsHex(name)
    ensures Distinct(MarkersFor(name))
  {
    var m := MarkersFor(name);
    forall k | 1 <= k < |m.start|
      ensures m.start[k] != m.start[0] && m.start[k] != m.end[0] && m.end[k] != m.start[0] && m.end[k] != m.end[0]
    {
      if k <= |name| {
        assert m.start[k] == name[k - 1] && m.end[k] == name[k - 1];
        assert name[k - 1] in name;
      }
    }
  }

  /** Spans in order and disjoint from position `from` on. */
  predicate SpansFrom(spans: seq<Span>, k: nat, from: nat, length: nat)
    requires k <= |spans|
    decreases |spans| - k
  {
    if k == |spans| then from <= length
    else from <= spans[k].start <= spans[k].end && SpansFrom(spans, k + 1, spans[k].end, length)
  }

  lemma {:induction false} SpansWithin(spans: seq<Span>, k: nat, from: nat, length: nat)
    requires k <= |spans| && SpansFrom(spans, k, from, length)
    ensures from <= length
    decreases |spans| - k
  {
    if k < |spans| {
      SpansWithin(spans, k + 1, spans[k].end, length);
    }
  }

  /** Marking: the text from `from` on, with the markers put around spans `k` and later. */
  function Marked(m: Markers, text: string, spans: seq<Span>, k: nat, from: nat): string
    requires k <= |spans| && SpansFrom(spans, k, from, |text|)
    decreases |spans| - k
  {
    SpansWithin(spans, k, from, |text|);
    if k == |spans| then text[from..]
    else
      SpansWithin(spans, k + 1, spans[k].end, |text|);
      text[from..spans[k].start] + m.start + Closing(m, text, spans, k, spans[k].start)
  }

  /** The rest of a marking from inside span `k`. */
  function Closing(m: Markers, text: string, spans: seq<Span>, k: nat, from: nat): string
    requires k < |spans| && from <= spans[k].end && SpansFrom(spans, k + 1, spans[k].end, |text|)
    decreases |spans| - k, 0
  {
    SpansWithin(spans, k + 1, spans[k].end, |text|);
    text[from..spans[k].end] + m.end + Marked(m, text, spans, k + 1, spans[k].end)
  }

  // ----- Parsing -----

  /** The parser's state: plain text so far, finished spans, and the start of an open one. */
  datatype State = State(plain: string, matches: seq<Span>, open: Option<nat>)

  /** The parser on what is left of the marked text; `None` for invalid markers. */
  function Parse(m: Markers, rest: string, s: State): Option<State>
    requires |m.start| > 0 && |m.end| > 0
    decreases |rest|
  {
    if rest == [] then (if s.open.Some? || s.matches == [] then None else Some(s))
    else if m.start <= rest then
      if s.open.Some? then None
      else Parse(m, rest[|m.start|..], s.(open := Some(|s.plain|)))
    else if m.end <= rest then
      if s.open.None? then None
      else Parse(m, rest[|m.end|..], State(s.plain, s.matches + [Span(s.open.value, |s.plain|)], None))
    else Parse(m, rest[1..], s.(plain := s.plain + [rest[0]]))
  }

  const FRESH: State := State([], [], None)

  /** `_marked_fragment`: one pass over the marked text. */
  method MarkedFragment(marked: string, m: Markers) returns (r: Option<(string, Span)>)
    requires |m.start| > 0 && |m.end| > 0
    ensures r.None? <==> Parse(m, marked, FRESH).None?
    ensures r.Some? ==>
      var s := Parse(m, marked, FRESH).value;
      |s.matches| > 0 && r.value == (s.plain, Span(s.matches[0].start, s.matches[|s.matches| - 1].end))
  {
    var plain: string := [];
    var matches: seq<Span> := [];
    var matchStart: Option<nat> := None;
    var cursor := 0;
    while cursor < |marked|
      invariant cursor <= |marked|
      invariant Parse(m, marked, FRESH) == Parse(m, marked[cursor..], State(plain, matches, matchStart))
    {
      if StartsWith(marked, m.start, cursor) {
        if matchStart.Some? {
          return None;
        }
        matchStart := Some(|plain|);
        DropDrop(marked, cursor, |m.start|);
        cursor := cursor + |m.start|;
      } else if StartsWith(marked, m.end, cursor) {
        if matchStart.None? {
          return None;
        }
        matches := matches + [Span(matchStart.value, |plain|)];
        matchStart := None;
        DropDrop(marked, cursor, |m.end|);
        cursor := cursor + |m.end|;
      } else {
        plain := plain + [marked[cursor]];
        DropDrop(marked, cursor, 1);
        cursor := cursor + 1;
      }
    }
    assert marked[cursor..] == [];
    if matchStart.Some? || matches == [] {
      return None;
    }
    r := Some((plain, Span(matches[0].start, matches[|matches| - 1].end)));
  }

  /** `marked.startswith(prefix, at)`. */
  predicate StartsWith(text: string, prefix: string, at: nat)
    requires at <= |text|
  {
    prefix <= text[at..]
  }

  // ----- Parsing undoes marking -----

  /** The text holds neither marker. */
  predicate Free(m: Markers, text: string) {
    forall k :: 0 <= k < |text| ==> !(m.start <= text[k..]) && !(m.end <= text[k..])
  }

  /** What may follow a plain stretch: nothing, or a marker. */
  predicate AtMarker(m: Markers, rest: string) {
    rest == [] || (|m.start| > 0 && m.start <= rest) || (|m.end| > 0 && m.end <= rest)
  }

  lemma {:induction false} PrefixInside(text: string, a: nat, b: nat, rest: string, marker: string)
    requires a <= b <= |text| && |marker| <= b - a && marker <= text[a..b] + rest
    ensures marker <= text[a..]
  {
    assert forall k :: 0 <= k < |marker| ==> text[a..][k] == (text[a..b] + rest)[k];
  }

  lemma {:induction false} PrefixOver(text: string, a: nat, b: nat, rest: string, marker: string)
    requires a <= b <= |text| && b - a < |marker| && marker <= text[a..b] + rest
    ensures rest != [] && marker[b - a] == rest[0]
  {
  }

  /** No marker begins inside a plain stretch, not even one that would run over its edge. */
  lemma {:induction false} NoMarkerInside(m: Markers, text: string, a: nat, b: nat, rest: string, marker: string)
    requires Distinct(m) && a < b <= |text| && Free(m, text) && AtMarker(m, rest)
    requires marker == m.start || marker == m.end
    ensures !(marker <= text[a..b] + rest)
  {
    if marker <= text[a..b] + rest {
      if |marker| <= b - a {
        PrefixInside(text, a, b, rest, marker);
      } else {
        PrefixOver(text, a, b, rest, marker);
      }
    }
  }

  /** A plain stretch is copied through. */
  lemma {:induction false} ParsePlain(m: Markers, text: string, a: nat, b: nat, rest: string, s: State)
    requires Distinct(m) && a <= b <= |text| && Free(m, text) && AtMarker(m, rest)
    ensures Parse(m, text[a..b] + rest, s) == Parse(m, rest, s.(plain := s.plain + text[a..b]))
    decreases b - a
  {
    if a == b {
      assert text[a..b] + rest == rest;
      assert s.plain + text[a..b] == s.plain;
    } else {
      NoMarkerInside(m, text, a, b, rest, m.start);
      NoMarkerInside(m, text, a, b, rest, m.end);
      ParsePlain(m, text, a + 1, b, rest, s.(plain := s.plain + [text[a]]));
      assert (text[a..b] + rest)[1..] == text[a + 1..b] + rest;
      assert s.plain + [text[a]] + text[a + 1..b] == s.plain + text[a..b];
    }
  }

  lemma {:induction false} ParseStart(m: Markers, rest: string, s: State)
    requires Distinct(m) && s.open.None?
    ensures Parse(m, m.start + rest, s) == Parse(m, rest, s.(open := Some(|s.plain|)))
  {
    assert (m.start + rest)[|m.start|..] == rest;
  }

  lemma {:induction false} ParseEnd(m: Markers, rest: string, s: State)
    requires Distinct(m) && s.open.Some?
    ensures Parse(m, m.end + rest, s)
      == Parse(m, rest, State(s.plain, s.matches + [Span(s.open.value, |s.plain|)], None))
  {
    var whole := m.end + rest;
    assert whole[|m.end|..] == rest;
    assert !(m.start <= whole) by { assert whole[0] == m.end[0]; }
  }

  lemma {:induction false} BeginsAtMarker(m: Markers, rest: string)
    requires Distinct(m)
    ensures AtMarker(m, m.start + rest) && AtMarker(m, m.end + rest)
  {
    assert m.start <= m.start + rest && m.end <= m.end + rest;
  }

  /** One marked span: the text up to it, the span, and its two markers. */
  lemma {:induction false} ParseSpan(m: Markers, text: string, from: nat, span: Span, after: string, matches: seq<Span>)
    requires Distinct(m) && Free(m, text) && from <= span.start <= span.end <= |text|
    ensures
      Parse(m, text[from..span.start] + (m.start + (text[span.start..span.end] + (m.end + after))),
        State(text[..from], matches, None))
      == Parse(m, after, State(text[..span.end], matches + [span], None))
  {
    var a, b := span.start, span.end;
    ParseToStart(m, text, from, a, text[a..b] + (m.end + after), matches);
    ParseToEnd(m, text, a, b, after, matches);
  }

  lemma {:induction false} ParseToStart(m: Markers, text: string, from: nat, a: nat, inner: string, matches: seq<Span>)
    requires Distinct(m) && Free(m, text) && from <= a <= |text|
    ensures Parse(m, text[from..a] + (m.start + inner), State(text[..from], matches, None))
         == Parse(m, inner, State(text[..a], matches, Some(a)))
  {
    BeginsAtMarker(m, inner);
    ParsePlain(m, text, from, a, m.start + inner, State(text[..from], matches, None));
    assert text[..from] + text[from..a] == text[..a];
    ParseStart(m, inner, State(text[..a], matches, None));
  }

  lemma {:induction false} ParseToEnd(m: Markers, text: string, a: nat, b: nat, after: string, matches: seq<Span>)
    requires Distinct(m) && Free(m, text) && a <= b <= |text|
    ensures Parse(m, text[a..b] + (m.end + after), State(text[..a], matches, Some(a)))
         == Parse(m, after, State(text[..b], matches + [Span(a, b)], None))
  {
    BeginsAtMarker(m, after);
    ParsePlain(m, text, a, b, m.end + after, State(text[..a], matches, Some(a)));
    assert text[..a] + text[a..b] == text[..b];
    ParseEnd(m, after, State(text[..b], matches, Some(a)));
  }

  lemma {:induction false} MarkedSpan(m: Markers, text: string, spans: seq<Span>, k: nat, from: nat)
    requires k < |spans| && SpansFrom(spans, k, from, |text|)
    ensures from <= spans[k].start <= spans[k].end <= |text|
    ensures Marked(m, text, spans, k, from)
      == text[from..spans[k].start] + (m.start + (text[spans[k].start..spans[k].end]
        + (m.end + Marked(m, text, spans, k + 1, spans[k].end))))
  {
    SpansWithin(spans, k + 1, spans[k].end, |text|);
    Regroup(text[from..spans[k].start], m.start, text[spans[k].start..spans[k].end], m.end,
      Marked(m, text, spans, k + 1, spans[k].end));
  }

  lemma {:induction false} Regroup(a: string, b: string, c: string, d: string, e: string)
    ensures a + b + (c + d + e) == a + (b + (c + (d + e)))
  {
  }

  lemma {:induction false} ParseLastPlain(m: Markers, text: string, spans: seq<Span>, from: nat)
    requires Distinct(m) && Free(m, text) && spans != [] && from <= |text|
    ensures Parse(m, text[from..], State(text[..from], spans, None)) == Some(State(text, spans, None))
  {
    ParsePlain(m, text, from, |text|, [], State(text[..from], spans, None));
    assert text[from..|text|] + [] == text[from..];
    assert text[..from] + text[from..|text|] == text;
  }

  lemma {:induction false} ParseOneSpan(m: Markers, text: string, spans: seq<Span>, k: nat, from: nat)
    requires Distinct(m) && Free(m, text) && k < |spans| && SpansFrom(spans, k, from, |text|)
    ensures from <= spans[k].start <= spans[k].end <= |text|
    ensures Parse(m, Marked(m, text, spans, k, from), State(text[..from], spans[..k], None))
      == Parse(m, Marked(m, text, spans, k + 1, spans[k].end), State(text[..spans[k].end], spans[..k + 1], None))
  {
    SpansWithin(spans, k + 1, spans[k].end, |text|);
    var span, after := spans[k], Marked(m, text, spans, k + 1, spans[k].end);
    MarkedSpan(m, text, spans, k, from);
    assert spans[..k] + [span] == spans[..k + 1];
    ParseSpan(m, text, from, span, after, spans[..k]);
  }

  lemma {:induction false} ParseMarked(m: Markers, text: string, spans: seq<Span>, k: nat, from: nat)
    requires Distinct(m) && Free(m, text)
    requires k <= |spans| && spans != [] && SpansFrom(spans, k, from, |text|)
    ensures from <= |text|
    ensures Parse(m, Marked(m, text, spans, k, from), State(text[..from], spans[..k], None))
      == Some(State(text, spans, None))
    decreases |spans| - k
  {
    SpansWithin(spans, k, from, |text|);
    if k == |spans| {
      ParseLastPlain(m, text, spans, from);
      assert spans[..k] == spans;
    } else {
      ParseOneSpan(m, text, spans, k, from);
      ParseMarked(m, text, spans, k + 1, spans[k].end);
    }
  }

  /** Parsing a marking of text free of the markers gives back the text and its spans. */
  lemma {:induction false} ParsingUndoesMarking(m: Markers, text: string, spans: seq<Span>)
    requires Distinct(m) && Free(m, text) && spans != [] && SpansFrom(spans, 0, 0, |text|)
    ensures Parse(m, Marked(m, text, spans, 0, 0), FRESH) == Some(State(text, spans, None))
  {
    ParseMarked(m, text, spans, 0, 0);
    assert text[..0] == [] && spans[..0] == [];
  }

  /** `rest` is what remains of a marking of `r.plain` with `r.matches` once the parser is in state `s`. */
  ghost predicate IsRest(m: Markers, rest: string, s: State, r: State) {
    var k, from := |s.matches|, |s.plain|;
    && s.plain <= r.plain && s.matches <= r.matches
    && (s.open.None? ==> SpansFrom(r.matches, k, from, |r.plain|) && rest == Marked(m, r.plain, r.matches, k, from))
    && (s.open.Some? ==>
      && s.open.value <= from && k < |r.matches| && r.matches[k].start == s.open.value && from <= r.matches[k].end
      && SpansFrom(r.matches, k + 1, r.matches[k].end, |r.plain|)
      && rest == Closing(m, r.plain, r.matches, k, from))
  }

  lemma {:induction false} RestBeforeStart(m: Markers, rest: string, s: State, r: State)
    requires s.open.None? && IsRest(m, rest, s.(open := Some(|s.plain|)), r)
    ensures IsRest(m, m.start + rest, s, r)
  {
    var k, from := |s.matches|, |s.plain|;
    SpansWithin(r.matches, k + 1, r.matches[k].end, |r.plain|);
    assert r.plain[from..from] == [];
    assert [] + m.start == m.start;
  }

  lemma {:induction false} RestBeforeEnd(m: Markers, rest: string, s: State, r: State)
    requires s.open.Some? && s.open.value <= |s.plain|
    requires IsRest(m, rest, State(s.plain, s.matches + [Span(s.open.value, |s.plain|)], None), r)
    ensures IsRest(m, m.end + rest, s, r)
  {
    var k, from := |s.matches|, |s.plain|;
    assert r.matches[k] == (s.matches + [Span(s.open.value, from)])[k];
    assert s.matches <= r.matches;
    SpansWithin(r.matches, k + 1, from, |r.plain|);
    assert r.plain[from..from] == [];
    assert [] + m.end == m.end;
  }

  lemma {:induction false} RestBeforeChar(m: Markers, c: char, rest: string, s: State, r: State)
    requires s.open.Some? ==> s.open.value <= |s.plain|
    requires IsRest(m, rest, s.(plain := s.plain + [c]), r)
    ensures IsRest(m, [c] + rest, s, r)
  {
    var k, from := |s.matches|, |s.plain|;
    assert r.plain[from] == (s.plain + [c])[from] == c;
    assert s.plain <= r.plain;
    if s.open.None? {
      SpansWithin(r.matches, k, from + 1, |r.plain|);
      if k == |r.matches| {
        assert r.plain[from..] == [c] + r.plain[from + 1..];
      } else {
        SpansWithin(r.matches, k + 1, r.matches[k].end, |r.plain|);
        SliceCons(r.plain, from, r.matches[k].start, m.start, Closing(m, r.plain, r.matches, k, r.matches[k].start));
      }
    } else {
      var stop := r.matches[k].end;
      SpansWithin(r.matches, k + 1, stop, |r.plain|);
      SliceCons(r.plain, from, stop, m.end, Marked(m, r.plain, r.matches, k + 1, stop));
    }
  }

  lemma {:induction false} SliceCons(text: string, from: nat, stop: nat, marker: string, after: string)
    requires from < stop <= |text|
    ensures text[from..stop] + marker + after == [text[from]] + (text[from + 1..stop] + marker + after)
  {
    assert text[from..stop] == [text[from]] + text[from + 1..stop];
  }

  /** What the parser accepts is a marking: markers alternate, all are closed, there is one at least. */
  lemma {:induction false} ParsedIsMarking(m: Markers, rest: string, s: State, r: State)
    requires |m.start| > 0 && |m.end| > 0 && Parse(m, rest, s) == Some(r)
    requires s.open.Some? ==> s.open.value <= |s.plain|
    ensures r.open.None? && r.matches != [] && IsRest(m, rest, s, r)
    decreases |rest|, 1
  {
    if rest == [] {
      NothingLeft(m, s);
    } else if m.start <= rest {
      ParsedAtStart(m, rest, s, r);
    } else if m.end <= rest {
      ParsedAtEnd(m, rest, s, r);
    } else {
      ParsedAtChar(m, rest, s, r);
    }
  }

  lemma {:induction false} ParsedAtStart(m: Markers, rest: string, s: State, r: State)
    requires |m.start| > 0 && |m.end| > 0 && m.start <= rest
    requires Parse(m, rest, s) == Some(r)
    ensures r.open.None? && r.matches != [] && IsRest(m, rest, s, r)
    decreases |rest|, 0
  {
    var after := rest[|m.start|..];
    ParsedIsMarking(m, after, s.(open := Some(|s.plain|)), r);
    RestBeforeStart(m, after, s, r);
    SplitAt(rest, |m.start|);
  }

  lemma {:induction false} ParsedAtEnd(m: Markers, rest: string, s: State, r: State)
    requires |m.start| > 0 && |m.end| > 0 && !(m.start <= rest) && m.end <= rest
    requires Parse(m, rest, s) == Some(r)
    requires s.open.Some? ==> s.open.value <= |s.plain|
    ensures r.open.None? && r.matches != [] && IsRest(m, rest, s, r)
    decreases |rest|, 0
  {
    var after := rest[|m.end|..];
    ParsedIsMarking(m, after, State(s.plain, s.matches + [Span(s.open.value, |s.plain|)], None), r);
    RestBeforeEnd(m, after, s, r);
    SplitAt(rest, |m.end|);
  }

  lemma {:induction false} ParsedAtChar(m: Markers, rest: string, s: State, r: State)
    requires |m.start| > 0 && |m.end| > 0 && rest != [] && !(m.start <= rest) && !(m.end <= rest)
    requires Parse(m, rest, s) == Some(r)
    requires s.open.Some? ==> s.open.value <= |s.plain|
    ensures r.open.None? && r.matches != [] && IsRest(m, rest, s, r)
    decreases |rest|, 0
  {
    ParsedIsMarking(m, rest[1..], s.(plain := s.plain + [rest[0]]), r);
    RestBeforeChar(m, rest[0], rest[1..], s, r);
    assert rest == [rest[0]] + rest[1..];
  }

  lemma {:induction false} NothingLeft(m: Markers, s: State)
    requires s.open.None?
    ensures IsRest(m, [], s, s)
  {
  }

  /** The parser accepts markings only: nested, unbalanced or absent markers are always rejected. */
  lemma {:induction false} OnlyMarkingsParse(m: Markers, marked: string)
    requires |m.start| > 0 && |m.end| > 0 && Parse(m, marked, FRESH).Some?
    ensures
      var r := Parse(m, marked, FRESH).value;
      && r.matches != [] && SpansFrom(r.matches, 0, 0, |r.plain|)
      && marked == Marked(m, r.plain, r.matches, 0, 0)
  {
    ParsedIsMarking(m, marked, FRESH, Parse(m, marked, FRESH).value);
  }

  // ----- The snippet window -----

  const ELLIPSIS: string := ['\U{2026}']

  /** `_character_boundary` forward: the first white space at or after `offset`, or the end. */
  method BoundaryAfter(text: string, from: nat) returns (offset: nat)
    requires from <= |text|
    ensures from <= offset <= |text|
    ensures offset == |text| || IsSpace(text[offset]) || from == 0
    ensures forall k :: from <= k < offset ==> !IsSpace(text[k])
    ensures from == 0 ==> offset == 0
  {
    offset := from;
    if offset == 0 || offset == |text| {
      return;
    }
    while offset < |text| && !IsSpace(text[offset])
      invariant from <= offset <= |text|
      invariant forall k :: from <= k < offset ==> !IsSpace(text[k])
    {
      offset := offset + 1;
    }
  }

  /** `_character_boundary` backward: just after the last white space before `from`, or the start. */
  method BoundaryBefore(text: string, from: nat) returns (offset: nat)
    requires from <= |text|
    ensures offset <= from
    ensures offset == 0 || IsSpace(text[offset - 1]) || from == |text|
    ensures forall k :: offset <= k < from ==> !IsSpace(text[k])
    ensures from == |text| ==> offset == from
  {
    offset := from;
    if offset == 0 || offset == |text| {
      return;
    }
    while offset > 0 && !IsSpace(text[offset - 1])
      invariant offset <= from
      invariant forall k :: offset <= k < from ==> !IsSpace(text[k])
    {
      offset := offset - 1;
    }
  }

  /** A snippet of a text that is too long: one slice, with an ellipsis wherever text was dropped. */
  ghost predicate IsSlice(text: string, a: nat, b: nat, snippet: string) {
    && a <= b <= |text|
    && snippet == (if a > 0 then ELLIPSIS else []) + text[a..b] + (if b < |text| then ELLIPSIS else [])
  }

  /** The slice does not cut a word between its edges and the match. */
  predicate KeepsWords(text: string, a: nat, b: nat, start: nat, end: nat)
    requires a <= b <= |text| && start <= end <= |text|
  {
    && (a == 0 || a == |text| || IsSpace(text[a]) || forall k :: a <= k < start ==> !IsSpace(text[k]))
    && (b == |text| || b == 0 || IsSpace(text[b - 1]) || forall k :: end <= k < b ==> !IsSpace(text[k]))
  }

  function Clamp(n: int, limit: nat): (r: nat)
    ensures r == 0 || r == limit || r == n
    ensures n <= 0 ==> r == 0
    ensures n >= limit ==> r == limit
    ensures 0 <= n <= limit ==> r == n
  {
    Max(0, Min(limit, n))
  }

  /**
   The window around the match before it is moved to white space. A third of the room that the
   match leaves lies before it, as far as the text reaches; the window ends the text, or has
   the length that the limit leaves beside the ellipses. Of a match that leaves no room the
   window shows the last `limit - 2` characters.
   */
  predicate IsWindow(n: nat, start: nat, end: nat, limit: nat, a: nat, b: nat) {
    var room := limit - 2 - (end - start);
    if room < 0 then a == end - (limit - 2) && b == end
    else
      && a == Max(0, start - room / 3)
      && (b == n <==> n <= a + limit - 2)
      && (b < n ==> b == a + limit - 1 - if a > 0 then 1 else 0)
  }

  method RawWindow(n: nat, start: nat, end: nat, limit: nat) returns (a: nat, b: nat)
    requires 3 <= limit < n && start <= end <= n
    ensures a <= end <= b <= n
    ensures b - a + (if a > 0 then 1 else 0) + (if b < n then 1 else 0) <= limit
    ensures a <= start <==> end - start <= limit - 2
    ensures IsWindow(n, start, end, limit, a, b)
  {
    var contentLimit := limit - 2;
    var matchLength := end - start;
    var context := Max(0, contentLimit - matchLength);
    a := Max(0, start - context / 3);
    b := Min(n, a + contentLimit);
    if b < end {
      b := end;
      a := Max(0, b - contentLimit);
    }
    var prefix := if a > 0 then 1 else 0;
    var suffix := if b < n then 1 else 0;
    contentLimit := limit - prefix - suffix;
    b := Min(n, a + contentLimit);
    if b < end {
      // The second clamp of the window: it is never needed.
      assert false;
    }
  }

  predicate NoSpace(text: string, from: nat, to: nat) {
    forall k :: from <= k < to && k < |text| ==> !IsSpace(text[k])
  }

  /** The front edge moves to the next white space, unless that lies behind the start of the match. */
  predicate IsFrontEdge(text: string, raw: nat, start: nat, a: nat) {
    if raw == 0 || (NoSpace(text, raw, start + 1) && start < |text|) then a == raw
    else raw <= a <= start && a <= |text| && NoSpace(text, raw, a) && (a == |text| || IsSpace(text[a]))
  }

  /** The back edge moves to just after the white space before it, unless that lies before the end of the match. */
  predicate IsBackEdge(text: string, raw: nat, end: nat, b: nat) {
    if raw == |text| || (end > 0 && NoSpace(text, end - 1, raw)) then b == raw
    else end <= b <= raw && b <= |text| && NoSpace(text, b, raw) && (b == 0 || IsSpace(text[b - 1]))
  }

  method FrontEdge(text: string, raw: nat, start: nat) returns (a: nat)
    requires raw <= |text| && start <= |text|
    ensures IsFrontEdge(text, raw, start, a) && raw <= a <= |text|
    ensures a <= start || a == raw
  {
    var bounded := BoundaryAfter(text, raw);
    a := if bounded <= start then bounded else raw;
  }

  method BackEdge(text: string, raw: nat, end: nat) returns (b: nat)
    requires end <= raw <= |text|
    ensures IsBackEdge(text, raw, end, b) && end <= b <= raw
  {
    var bounded := BoundaryBefore(text, raw);
    b := if bounded >= end then bounded else raw;
  }

  /** The window of `rawA..rawB`, moved to `a..b`, is what the snippet shows. */
  ghost predicate IsCut(
    text: string, start: nat, end: nat, limit: nat, rawA: nat, rawB: nat, a: nat, b: nat, snippet: string)
    requires start <= end <= |text|
  {
    && rawA <= |text| && rawB <= |text| && IsWindow(|text|, start, end, limit, rawA, rawB)
    && IsSlice(text, a, b, snippet)
    && IsFrontEdge(text, rawA, start, a) && IsBackEdge(text, rawB, end, b)
    && (a <= start && end <= b <==> end - start <= limit - 2)
    && KeepsWords(text, a, b, start, end)
  }

  /** The snippet of a text for a match in it: the whole text when it fits, or else the window around the match. */
  ghost predicate IsSnippet(text: string, matchStart: int, matchEnd: int, limit: nat, snippet: string) {
    && |snippet| <= limit
    && (|text| <= limit ==> snippet == text)
    && (limit < 3 && limit < |text| ==> snippet == text[..limit])
    && (3 <= limit < |text| ==>
      var start := Clamp(matchStart, |text|);
      var end := Max(start, Clamp(matchEnd, |text|));
      exists rawA, rawB, a, b :: IsCut(text, start, end, limit, rawA, rawB, a, b, snippet))
  }

  /** `_bounded_snippet`. */
  method BoundedSnippet(text: string, matchStart: int, matchEnd: int, limit: nat)
    returns (snippet: string, ghost a: nat, ghost b: nat)
    ensures IsSnippet(text, matchStart, matchEnd, limit, snippet)
    ensures 3 <= limit < |text| ==>
      var start := Clamp(matchStart, |text|);
      var end := Max(start, Clamp(matchEnd, |text|));
      && IsSlice(text, a, b, snippet)
      && (a <= start && end <= b <==> end - start <= limit - 2)
    ensures |text| <= limit ==> a == 0 && b == |text|
  {
    a, b := 0, |text|;
    if |text| <= limit {
      return text, a, b;
    }
    if limit < 3 {
      return text[..limit], a, b;
    }
    var start := Max(0, Min(|text|, matchStart));
    var end := Max(start, Min(|text|, matchEnd));
    var snippetStart, snippetEnd := RawWindow(|text|, start, end, limit);
    ghost var rawA, rawB := snippetStart, snippetEnd;
    var prefix := if snippetStart > 0 then ELLIPSIS else [];
    var suffix := if snippetEnd < |text| then ELLIPSIS else [];
    snippetStart := FrontEdge(text, snippetStart, start);
    snippetEnd := BackEdge(text, snippetEnd, end);
    snippet := prefix + text[snippetStart..snippetEnd] + suffix;
    a, b := snippetStart, snippetEnd;
    CutIsSnippet(text, matchStart, matchEnd, limit, rawA, rawB, a, b, snippet);
  }

  /** The edges keep what the window shows of the match and of the words beside it. */
  lemma {:induction false} EdgesCut(text: string, start: nat, end: nat, limit: nat, rawA: nat, rawB: nat, a: nat,
      b: nat, snippet: string)
    requires start <= end <= |text| && 3 <= limit < |text| && rawA <= end <= rawB <= |text|
    requires IsWindow(|text|, start, end, limit, rawA, rawB) && IsSlice(text, a, b, snippet)
    requires IsFrontEdge(text, rawA, start, a) && IsBackEdge(text, rawB, end, b)
    ensures IsCut(text, start, end, limit, rawA, rawB, a, b, snippet)
  {
  }

  lemma {:induction false} CutIsSnippet(text: string, matchStart: int, matchEnd: int, limit: nat, rawA: nat,
      rawB: nat, a: nat, b: nat,
      snippet: string)
    requires 3 <= limit < |text| && |snippet| <= limit
    requires
      var start := Clamp(matchStart, |text|);
      var end := Max(start, Clamp(matchEnd, |text|));
      && rawA <= end <= rawB <= |text|
      && IsWindow(|text|, start, end, limit, rawA, rawB) && IsSlice(text, a, b, snippet)
      && IsFrontEdge(text, rawA, start, a) && IsBackEdge(text, rawB, end, b)
    ensures IsSnippet(text, matchStart, matchEnd, limit, snippet)
    ensures
      var start := Clamp(matchStart, |text|);
      var end := Max(start, Clamp(matchEnd, |text|));
      a <= start && end <= b <==> end - start <= limit - 2
  {
    var start := Clamp(matchStart, |text|);
    var end := Max(start, Clamp(matchEnd, |text|));
    EdgesCut(text, start, end, limit, rawA, rawB, a, b, snippet);
  }

  /** `part` can be read in `whole`. */
  ghost predicate Shows(whole: string, part: string) {
    exists at: nat :: OccursAt(whole, part, at)
  }

  lemma {:induction false} LastEnd(spans: seq<Span>, k: nat, from: nat, length: nat)
    requires k < |spans| && SpansFrom(spans, k, from, length)
    ensures spans[k].start <= spans[|spans| - 1].end <= length
    decreases |spans| - k
  {
    if k + 1 < |spans| {
      LastEnd(spans, k + 1, spans[k].end, length);
    }
  }

  lemma {:induction false} MatchInFragment(m: Markers, marked: string)
    requires |m.start| > 0 && |m.end| > 0 && Parse(m, marked, FRESH).Some?
    ensures
      var s := Parse(m, marked, FRESH).value;
      |s.matches| > 0 && s.matches[0].start <= s.matches[|s.matches| - 1].end <= |s.plain|
  {
    OnlyMarkingsParse(m, marked);
    var s := Parse(m, marked, FRESH).value;
    LastEnd(s.matches, 0, 0, |s.plain|);
  }

  /** A slice that spans the match shows it. */
  lemma {:induction false} SliceShows(text: string, start: nat, end: nat, a: nat, b: nat, snippet: string)
    requires a <= start <= end <= b <= |text| && IsSlice(text, a, b, snippet)
    ensures Shows(snippet, text[start..end])
  {
    var before, after := if a > 0 then ELLIPSIS else [], if b < |text| then ELLIPSIS else [];
    var inner := text[a..b];
    NestedSlice(text, a, b, start, end);
    SliceInside(before, inner, after, start - a, end - a);
    assert OccursAt(snippet, text[start..end], |before| + (start - a));
  }

  lemma {:induction false} SliceInside(before: string, inner: string, after: string, i: nat, j: nat)
    requires i <= j <= |inner|
    ensures |before| + j <= |before + inner + after|
    ensures (before + inner + after)[|before| + i..|before| + j] == inner[i..j]
  {
  }

  /** The snippet shows the match whenever that leaves room for two ellipses. */
  ghost predicate ShowsMatch(text: string, start: nat, end: nat, limit: nat, snippet: string)
    requires start <= end <= |text|
  {
    limit >= 3 && end - start <= limit - 2 ==> Shows(snippet, text[start..end])
  }

  method SnippetAround(text: string, start: nat, end: nat, limit: nat) returns (snippet: string)
    requires start <= end <= |text|
    ensures IsSnippet(text, start, end, limit, snippet)
    ensures ShowsMatch(text, start, end, limit, snippet)
  {
    ghost var a, b;
    snippet, a, b := BoundedSnippet(text, start, end, limit);
    if limit >= 3 && end - start <= limit - 2 {
      SliceShows(text, start, end, a, b, snippet);
    }
  }

  /** The first place where the fragment can be read. */
  ghost predicate FirstAt(text: string, fragment: string, at: nat) {
    OccursAt(text, fragment, at) && forall k: nat :: k < at ==> !OccursAt(text, fragment, k)
  }

  /**
   The snippet of a hit: of the text around the first place of the fragment, or of the fragment
   when it is nowhere in the text. It shows the match whenever that leaves room for two ellipses.
   */
  ghost predicate IsHitSnippet(text: string, fragment: string, match_: Span, limit: nat, snippet: string) {
    && |snippet| <= limit && match_.start <= match_.end <= |fragment|
    && ShowsMatch(fragment, match_.start, match_.end, limit, snippet)
    && (forall at: nat :: FirstAt(text, fragment, at) ==>
      IsSnippet(text, at + match_.start, at + match_.end, limit, snippet))
    && (!Shows(text, fragment) ==> IsSnippet(fragment, match_.start, match_.end, limit, snippet))
  }

  method SnippetOfFragment(text: string, fragment: string, match_: Span, limit: nat) returns (snippet: string)
    requires match_.start <= match_.end <= |fragment|
    ensures IsHitSnippet(text, fragment, match_, limit, snippet)
  {
    var offset := Find(text, fragment, 0);
    if offset.None? {
      snippet := SnippetAround(fragment, match_.start, match_.end, limit);
      HitAlone(text, fragment, match_, limit, snippet);
    } else {
      snippet := SnippetInText(text, fragment, match_, limit, offset.value);
    }
  }

  method SnippetInText(text: string, fragment: string, match_: Span, limit: nat, at: nat) returns (snippet: string)
    requires match_.start <= match_.end <= |fragment| && Find(text, fragment, 0) == Some(at)
    ensures IsHitSnippet(text, fragment, match_, limit, snippet)
  {
    SameMatch(text, fragment, match_, at);
    snippet := SnippetAround(text, at + match_.start, at + match_.end, limit);
    HitInText(text, fragment, match_, limit, snippet, at);
  }

  lemma {:induction false} HitInText(text: string, fragment: string, match_: Span, limit: nat, snippet: string, at: nat)
    requires match_.start <= match_.end <= |fragment| && Find(text, fragment, 0) == Some(at)
    requires IsSnippet(text, at + match_.start, at + match_.end, limit, snippet)
    requires ShowsMatch(text, at + match_.start, at + match_.end, limit, snippet)
    ensures IsHitSnippet(text, fragment, match_, limit, snippet)
  {
    SameMatch(text, fragment, match_, at);
    FindsFirst(text, fragment, at);
    AtEveryFirst(text, fragment, match_, limit, snippet, at);
  }

  lemma {:induction false} SameMatch(text: string, fragment: string, match_: Span, at: nat)
    requires match_.start <= match_.end <= |fragment| && OccursAt(text, fragment, at)
    ensures at + match_.end <= |text|
    ensures text[at + match_.start..at + match_.end] == fragment[match_.start..match_.end]
  {
    NestedSlice(text, at, at + |fragment|, at + match_.start, at + match_.end);
  }

  lemma {:induction false} AtEveryFirst(text: string, fragment: string, match_: Span, limit: nat, snippet: string,
      at: nat)
    requires FirstAt(text, fragment, at)
    requires IsSnippet(text, at + match_.start, at + match_.end, limit, snippet)
    ensures Shows(text, fragment) && |snippet| <= limit
    ensures forall k: nat :: FirstAt(text, fragment, k) ==>
      IsSnippet(text, k + match_.start, k + match_.end, limit, snippet)
  {
    OneFirst(text, fragment, at);
    forall k: nat | FirstAt(text, fragment, k)
      ensures IsSnippet(text, k + match_.start, k + match_.end, limit, snippet)
    {
      assert k == at;
    }
  }

  lemma {:induction false} FindsFirst(text: string, fragment: string, at: nat)
    requires Find(text, fragment, 0) == Some(at)
    ensures FirstAt(text, fragment, at)
  {
  }

  lemma {:induction false} HitAlone(text: string, fragment: string, match_: Span, limit: nat, snippet: string)
    requires match_.start <= match_.end <= |fragment| && Find(text, fragment, 0).None?
    requires IsSnippet(fragment, match_.start, match_.end, limit, snippet)
    requires ShowsMatch(fragment, match_.start, match_.end, limit, snippet)
    ensures IsHitSnippet(text, fragment, match_, limit, snippet)
  {
  }

  lemma {:induction false} OneFirst(text: string, fragment: string, at: nat)
    requires FirstAt(text, fragment, at)
    ensures Shows(text, fragment) && forall k: nat :: FirstAt(text, fragment, k) ==> k == at
  {
  }

  /** `_fts_snippet`: the snippet of a hit for the match from the first to the last marked one. */
  method FtsSnippet(text: string, marked: string, m: Markers, limit: nat) returns (r: Option<string>)
    requires |m.start| > 0 && |m.end| > 0
    ensures r.None? <==> Parse(m, marked, FRESH).None?
    ensures r.Some? ==>
      var s := Parse(m, marked, FRESH).value;
      && |s.matches| > 0
      && IsHitSnippet(text, s.plain, Span(s.matches[0].start, s.matches[|s.matches| - 1].end), limit, r.value)
  {
    var parsed := MarkedFragment(marked, m);
    if parsed.None? {
      return None;
    }
    var (fragment, match_) := parsed.value;
    MatchInFragment(m, marked);
    var snippet := SnippetOfFragment(text, fragment, match_, limit);
    r := Some(snippet);
  }
}
