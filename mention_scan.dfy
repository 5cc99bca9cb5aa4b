/**
 * The two regular expressions with which `getEmployee` finds mention spans
 * in serialized editor HTML, as left-to-right scanners over suffixes:
 *
 *   mentionReg = /data-w-e-type="mention".[\s\S]*?data-info="(.*?)"/gm
 *   infoReg    = /data-info="(.*?)"/
 *
 * `.` is any character but a line terminator, `[\s\S]*?` and `(.*?)` are lazy,
 * so a match of `mentionReg` is the marker, one more character, and then the
 * nearest `data-info="…"` whose value reaches a `"` before any line terminator.
 * The global `match` tries every start position from the left and resumes
 * after each match.
 */
module MentionScan {
  import opened Wrappers
  import opened JsText

  const MARKER: string := "data-w-e-type=\"mention\""
  const INFO: string := "data-info=\""

  /** A value captured by `(.*?)"`: no quote and no line terminator. */
  predicate IsAttributeValue(v: string) {
    forall i :: 0 <= i < |v| ==> v[i] != '"' && !IsLineTerminator(v[i])
  }

  /** Where `(.*?)"` stops in `u`: the first `"`, provided no line terminator comes before it. */
  function QuoteEnd(u: string): (r: Option<nat>)
    ensures r.Some? ==> r.value < |u| && u[r.value] == '"' && IsAttributeValue(u[..r.value])
    decreases |u|
  {
    if u == [] || IsLineTerminator(u[0]) then None
    else if u[0] == '"' then Some(0)
    else match QuoteEnd(u[1..])
      case Some(j) =>
        assert u[..j + 1] == [u[0]] + u[1..][..j];
        Some(j + 1)
      case None => None
  }

  /** A value followed by its closing quote is captured whole. */
  lemma {:induction false} QuoteEndValue(v: string, rest: string)
    requires IsAttributeValue(v)
    ensures QuoteEnd(v + "\"" + rest) == Some(|v|)
    decreases |v|
  {
    if v != [] {
      assert (v + "\"" + rest)[1..] == v[1..] + "\"" + rest;
      QuoteEndValue(v[1..], rest);
    }
  }

  /** `data-info="(.*?)"` matched at the very start of `t`: the captured value. */
  function InfoAt(t: string): (r: Option<string>)
    ensures r.Some? ==> StartsWith(t, INFO + r.value + "\"") && IsAttributeValue(r.value)
  {
    if StartsWith(t, INFO) then
      var u := t[|INFO|..];
      match QuoteEnd(u)
      case Some(j) =>
        assert t[..|INFO| + j + 1] == INFO + u[..j] + "\"";
        Some(u[..j])
      case None => None
    else None
  }

  /**
   * The leftmost match of `infoReg` in `t` (a non-global `match`): its offset
   * and its captured value.
   */
  function SearchInfo(t: string): (r: Option<(nat, string)>)
    ensures r.Some? ==> r.value.0 < |t| && StartsWith(t[r.value.0..], INFO + r.value.1 + "\"") && IsAttributeValue(r.value.1)
    decreases |t|
  {
    if t == [] then None
    else match InfoAt(t)
      case Some(v) =>
        assert t[0..] == t;
        Some((0, v))
      case None =>
        match SearchInfo(t[1..])
        case Some((k, v)) =>
          assert t[1..][k..] == t[k + 1..];
          Some((k + 1, v))
        case None => None
  }

  /** The value `SearchInfo` reports is what `infoReg` captures at the position it reports. */
  lemma {:induction false} SearchInfoFound(t: string)
    requires SearchInfo(t).Some?
    ensures InfoAt(t[SearchInfo(t).value.0..]) == Some(SearchInfo(t).value.1)
    decreases |t|
  {
    if InfoAt(t).Some? {
      assert t[0..] == t;
    } else {
      SearchInfoFound(t[1..]);
      assert t[1..][SearchInfo(t[1..]).value.0..] == t[SearchInfo(t[1..]).value.0 + 1..];
    }
  }

  /** `SearchInfo` is leftmost: it finds a match at or before every position where one starts. */
  lemma {:induction false} SearchInfoLeftmost(t: string, p: nat)
    requires p < |t| && InfoAt(t[p..]).Some?
    ensures SearchInfo(t).Some? && SearchInfo(t).value.0 <= p
    decreases p
  {
    if p == 0 {
      assert t[0..] == t;
    } else if InfoAt(t).None? {
      assert t[1..][p - 1..] == t[p..];
      SearchInfoLeftmost(t[1..], p - 1);
    }
  }

  /** The length of the match of `mentionReg` that starts at `s[0]`, if one does. */
  function MatchLen(s: string): (r: Option<nat>)
    ensures r.Some? ==> StartsWith(s, MARKER) && |MARKER| + 1 + |INFO| + 1 <= r.value <= |s|
    ensures r.Some? ==> s[r.value - 1] == '"'
  {
    if StartsWith(s, MARKER) && |s| > |MARKER| && !IsLineTerminator(s[|MARKER|]) then
      var tail := s[|MARKER| + 1..];
      match SearchInfo(tail)
      case Some((k, v)) =>
        StartsWithThen(tail[k..], INFO + v, '"');
        assert tail[k..][|INFO + v|] == s[|MARKER| + 1 + k + |INFO| + |v|];
        Some(|MARKER| + 1 + k + |INFO| + |v| + 1)
      case None => None
    else None
  }

  /**
   * `html.match(mentionReg)` with the `g` flag: every matched text, left to
   * right and not overlapping (the empty sequence stands for `null`).
   */
  function Matches(s: string): (r: seq<string>)
    decreases |s|
  {
    if s == [] then []
    else match MatchLen(s)
      case Some(n) => [s[..n]] + Matches(s[n..])
      case None => Matches(s[1..])
  }

  // ---------------------------------------------------------------------------
  // What the scan finds.

  /** Without the marker anywhere in the HTML, `match` returns `null`. */
  lemma {:induction false} NoMarkerNoMatches(s: string)
    requires !Includes(s, MARKER)
    ensures Matches(s) == []
    decreases |s|
  {
    if s != [] {
      NoMarkerNoMatches(s[1..]);
    }
  }

  /**
   * `infoReg` always matches inside a text that `mentionReg` matched, so the
   * `!infoMatch` early return of `getEmployee` is never taken.
   */
  lemma MatchHasInfo(s: string)
    requires MatchLen(s).Some?
    ensures SearchInfo(s[..MatchLen(s).value]).Some?
  {
    var n := MatchLen(s).value;
    var tail := s[|MARKER| + 1..];
    var (k, v) := SearchInfo(tail).value;
    var p := |MARKER| + 1 + k;
    var item := s[..n];
    assert item[p..] == INFO + v + "\"" by {
      assert StartsWith(tail[k..], INFO + v + "\"");
      assert tail[k..] == s[p..];
    }
    QuoteEndValue(v, []);
    assert item[p..] == INFO + v + "\"" + [];
    InfoAtValue(v, []);
    SearchInfoLeftmost(item, p);
  }

  /** Every text returned by the global match yields a capture of `infoReg`. */
  lemma {:induction false} MatchesHaveInfo(s: string)
    ensures forall k :: 0 <= k < |Matches(s)| ==> SearchInfo(Matches(s)[k]).Some?
    decreases |s|
  {
    if s != [] {
      match MatchLen(s)
      case Some(n) =>
        MatchHasInfo(s);
        MatchesHaveInfo(s[n..]);
      case None =>
        MatchesHaveInfo(s[1..]);
    }
  }

  // ---------------------------------------------------------------------------
  // The wire format: documents made of well-formed mention spans.

  /** No match of `lit` can start in `g`, whatever text follows it. */
  predicate Inert(g: string, lit: string) {
    forall i :: 0 <= i < |g| ==> !StartsWith(g[i..], lit) && !StartsWith(lit, g[i..])
  }

  /** Text without the first character of `lit` cannot hold the start of a match of `lit`. */
  lemma InertWithoutFirst(g: string, lit: string)
    requires lit != [] && forall i :: 0 <= i < |g| ==> g[i] != lit[0]
    ensures Inert(g, lit)
  {
    forall i | 0 <= i < |g| ensures !StartsWith(g[i..], lit) && !StartsWith(lit, g[i..]) {
      assert g[i..][0] == g[i];
    }
  }

  /** The opening of a span as the editor writes it: marker, one separator, other attributes, then `data-info`. */
  function SpanHead(attrs: string, code: string): string {
    MARKER + " " + attrs + INFO + code + "\""
  }

  /** One mention span: the text `gap` in front of it, its other attributes, its encoded payload. */
  datatype MentionSpan = MentionSpan(gap: string, attrs: string, code: string)

  predicate WellFormedSpan(m: MentionSpan) {
    Inert(m.gap, MARKER) && Inert(m.attrs, INFO) && IsAttributeValue(m.code)
  }

  function Document(spans: seq<MentionSpan>, tail: string): string
    decreases |spans|
  {
    if spans == [] then tail
    else spans[0].gap + SpanHead(spans[0].attrs, spans[0].code) + Document(spans[1..], tail)
  }

  lemma InertPrefix(g: string, rest: string, lit: string, i: nat)
    requires Inert(g, lit) && i < |g|
    ensures !StartsWith((g + rest)[i..], lit)
  {
    var x := (g + rest)[i..];
    if |g| - i >= |lit| {
      assert x[..|lit|] == g[i..][..|lit|];
    } else {
      assert x[..|g| - i] == g[i..];
    }
  }

  lemma {:induction false} MatchesSkipInert(g: string, rest: string)
    requires Inert(g, MARKER)
    ensures Matches(g + rest) == Matches(rest)
    decreases |g|
  {
    if g != [] {
      InertPrefix(g, rest, MARKER, 0);
      assert (g + rest)[0..] == g + rest;
      assert (g + rest)[1..] == g[1..] + rest;
      assert Inert(g[1..], MARKER) by {
        forall i | 0 <= i < |g[1..]| ensures g[1..][i..] == g[i + 1..] { }
      }
      MatchesSkipInert(g[1..], rest);
    }
  }

  lemma {:induction false} SearchInfoSkipInert(a: string, rest: string)
    requires Inert(a, INFO)
    requires SearchInfo(rest).Some?
    ensures SearchInfo(a + rest) == Some((|a| + SearchInfo(rest).value.0, SearchInfo(rest).value.1))
    decreases |a|
  {
    if a != [] {
      InertPrefix(a, rest, INFO, 0);
      assert (a + rest)[0..] == a + rest;
      assert (a + rest)[1..] == a[1..] + rest;
      assert Inert(a[1..], INFO) by {
        forall i | 0 <= i < |a[1..]| ensures a[1..][i..] == a[i + 1..] { }
      }
      SearchInfoSkipInert(a[1..], rest);
    }
  }

  lemma InfoAtValue(code: string, rest: string)
    requires IsAttributeValue(code)
    ensures InfoAt(INFO + code + "\"" + rest) == Some(code)
  {
    var t := INFO + code + "\"" + rest;
    assert t[..|INFO|] == INFO;
    assert t[|INFO|..] == code + "\"" + rest;
    QuoteEndValue(code, rest);
    assert t[|INFO|..][..|code|] == code;
  }

  /** The separator and the marker itself hold no `data-info="` of their own. */
  lemma MarkerIsInfoInert()
    ensures Inert(MARKER + " ", INFO)
  {
    var x := MARKER + " ";
    forall i | 0 <= i < |x| ensures !StartsWith(x[i..], INFO) && !StartsWith(INFO, x[i..]) {
      if i > 0 {
        assert x[i..][0] != 'd';
      } else {
        assert x[5] != INFO[5];
      }
    }
  }

  lemma SearchInfoAtStart(code: string, rest: string)
    requires IsAttributeValue(code)
    ensures SearchInfo(INFO + code + "\"" + rest) == Some((0, code))
  {
    InfoAtValue(code, rest);
  }

  lemma SearchInfoAfterMarker(x: string)
    requires SearchInfo(x).Some?
    ensures SearchInfo(MARKER + " " + x) == Some((|MARKER| + 1 + SearchInfo(x).value.0, SearchInfo(x).value.1))
  {
    MarkerIsInfoInert();
    SearchInfoSkipInert(MARKER + " ", x);
  }

  lemma SpanHeadSplit(attrs: string, code: string, rest: string)
    ensures SpanHead(attrs, code) + rest == MARKER + " " + (attrs + (INFO + code + "\"" + rest))
    ensures |SpanHead(attrs, code)| == |MARKER| + 1 + |attrs| + |INFO| + |code| + 1
  {
  }

  lemma SearchInfoAttrs(attrs: string, code: string, rest: string)
    requires Inert(attrs, INFO) && IsAttributeValue(code)
    ensures SearchInfo(attrs + (INFO + code + "\"" + rest)) == Some((|attrs|, code))
  {
    SearchInfoAtStart(code, rest);
    SearchInfoSkipInert(attrs, INFO + code + "\"" + rest);
  }

  /** `infoReg` applied to the text of a well-formed span captures exactly its payload. */
  lemma SearchInfoSpanHead(attrs: string, code: string, rest: string)
    requires Inert(attrs, INFO) && IsAttributeValue(code)
    ensures SearchInfo(SpanHead(attrs, code) + rest) == Some((|MARKER| + 1 + |attrs|, code))
  {
    SearchInfoAttrs(attrs, code, rest);
    SearchInfoAfterMarker(attrs + (INFO + code + "\"" + rest));
    SpanHeadSplit(attrs, code, rest);
  }

  lemma MatchLenUnfold(s: string, k: nat, v: string)
    requires StartsWith(s, MARKER) && |s| > |MARKER| && !IsLineTerminator(s[|MARKER|])
    requires SearchInfo(s[|MARKER| + 1..]) == Some((k, v))
    ensures MatchLen(s) == Some(|MARKER| + 1 + k + |INFO| + |v| + 1)
  {
  }

  lemma MatchLenAfterMarker(s: string, x: string, k: nat, v: string)
    requires s == MARKER + " " + x
    requires SearchInfo(x) == Some((k, v))
    ensures MatchLen(s) == Some(|MARKER| + 1 + k + |INFO| + |v| + 1)
  {
    SplitAfter(s, MARKER, ' ', x);
    MatchLenUnfold(s, k, v);
  }

  /** `mentionReg` matches a well-formed span from its marker up to the quote closing its payload. */
  lemma MatchLenSpanHead(attrs: string, code: string, rest: string)
    requires Inert(attrs, INFO) && IsAttributeValue(code)
    ensures MatchLen(SpanHead(attrs, code) + rest) == Some(|SpanHead(attrs, code)|)
  {
    var x := attrs + (INFO + code + "\"" + rest);
    SpanHeadSplit(attrs, code, rest);
    SearchInfoAttrs(attrs, code, rest);
    MatchLenAfterMarker(SpanHead(attrs, code) + rest, x, |attrs|, code);
  }

  lemma MatchesSpanHead(attrs: string, code: string, rest: string)
    requires Inert(attrs, INFO) && IsAttributeValue(code)
    ensures Matches(SpanHead(attrs, code) + rest) == [SpanHead(attrs, code)] + Matches(rest)
  {
    var head := SpanHead(attrs, code);
    MatchLenSpanHead(attrs, code, rest);
    assert (head + rest)[..|head|] == head;
    assert (head + rest)[|head|..] == rest;
  }

  /** The span openings of a document, in order. */
  function Heads(spans: seq<MentionSpan>): (r: seq<string>)
    ensures |r| == |spans|
    decreases |spans|
  {
    if spans == [] then [] else [SpanHead(spans[0].attrs, spans[0].code)] + Heads(spans[1..])
  }

  /**
   * The scan of a document of well-formed spans finds exactly one match per
   * span, in document order, each reaching from the marker to the end of
   * the span's `data-info` value.
   */
  lemma {:induction false} ScanDocument(spans: seq<MentionSpan>, tail: string)
    requires forall k :: 0 <= k < |spans| ==> WellFormedSpan(spans[k])
    requires Inert(tail, MARKER)
    ensures Matches(Document(spans, tail)) == Heads(spans)
    decreases |spans|
  {
    if spans == [] {
      assert tail == tail + [];
      MatchesSkipInert(tail, []);
    } else {
      var m := spans[0];
      var head := SpanHead(m.attrs, m.code);
      var rest := Document(spans[1..], tail);
      assert Document(spans, tail) == m.gap + (head + rest);
      assert WellFormedSpan(m);
      MatchesSkipInert(m.gap, head + rest);
      MatchesSpanHead(m.attrs, m.code, rest);
      ScanDocument(spans[1..], tail);
    }
  }
}
