/**
 * The mention helpers of the editor page: `getEmployee`, which recovers the
 * mentioned people from serialized HTML, and the two text checks
 * `isNameCharacter` and `isValidHtml`.
 */
module Utils {
  import opened Wrappers
  import opened JsText
  import opened Json
  import opened MentionScan
  import UriCoding

  // ---------------------------------------------------------------------------
  // getEmployee

  /** The error that escapes `getEmployee` when `decodeURIComponent` rejects a payload. */
  datatype Thrown = URIError(malformed: string)

  /** What the `map` callback of `getEmployee` makes of one payload (`infoMatch[1]`). */
  datatype Verdict = Accept(entity: Json) | Skip | Reject(error: Thrown)

  /**
   * The callback from the captured payload on: an empty payload, text that
   * decodes to nothing, text `JSON.parse` refuses and an object without a
   * truthy `empId` are skipped; a payload `decodeURIComponent` refuses throws.
   */
  function PayloadVerdict(code: string, parse: string -> Option<Json>): (r: Verdict)
    ensures r.Accept? ==> HasTruthyEmpId(r.entity)
    ensures r.Accept? ==> UriCoding.Decode(code).Some? && parse(UriCoding.Decode(code).value) == Some(r.entity)
    ensures r.Reject? <==> code != [] && UriCoding.Decode(code).None?
  {
    if code == [] then Skip
    else match UriCoding.Decode(code)
      case None => Reject(URIError(code))
      case Some(info) =>
        if info == [] then Skip
        else match parse(info)
          case None => Skip
          case Some(obj) => if HasTruthyEmpId(obj) then Accept(obj) else Skip
  }

  /** The whole callback for one text matched by `mentionReg`. */
  function Classify(item: string, parse: string -> Option<Json>): Verdict {
    match SearchInfo(item)
    case None => Skip
    case Some((_, code)) => PayloadVerdict(code, parse)
  }

  /** The entities the callbacks push, in order, when nothing throws (and, corrected, when failures are skipped). */
  function Entities(items: seq<string>, parse: string -> Option<Json>): (r: seq<Json>)
    ensures |r| <= |items|
    ensures forall k :: 0 <= k < |r| ==> HasTruthyEmpId(r[k])
    decreases |items|
  {
    if items == [] then []
    else
      var first := match Classify(items[0], parse) case Accept(v) => [v] case _ => [];
      first + Entities(items[1..], parse)
  }

  /** What `getEmployee` returns or throws for the matched texts, as written. */
  function EntitiesAsWritten(items: seq<string>, parse: string -> Option<Json>): Result<seq<Json>, Thrown>
    decreases |items|
  {
    if items == [] then Success([])
    else match Classify(items[0], parse)
      case Reject(e) => Failure(e)
      case v =>
        match EntitiesAsWritten(items[1..], parse)
        case Failure(e) => Failure(e)
        case Success(rest) => Success((if v.Accept? then [v.entity] else []) + rest)
  }

  lemma EntitiesStep(items: seq<string>, i: nat, parse: string -> Option<Json>)
    requires i < |items|
    ensures Entities(items[i..], parse)
         == (if Classify(items[i], parse).Accept? then [Classify(items[i], parse).entity] else [])
            + Entities(items[i + 1..], parse)
  {
    assert items[i..][0] == items[i] && items[i..][1..] == items[i + 1..];
  }

  lemma EntitiesAsWrittenStep(items: seq<string>, i: nat, parse: string -> Option<Json>)
    requires i < |items|
    ensures EntitiesAsWritten(items[i..], parse)
         == match Classify(items[i], parse)
            case Reject(e) => Failure(e)
            case v => PrependTo(if v.Accept? then [v.entity] else [], EntitiesAsWritten(items[i + 1..], parse))
  {
    assert items[i..][0] == items[i] && items[i..][1..] == items[i + 1..];
  }

  function PrependTo(arr: seq<Json>, r: Result<seq<Json>, Thrown>): Result<seq<Json>, Thrown> {
    match r
    case Success(rest) => Success(arr + rest)
    case Failure(e) => Failure(e)
  }

  lemma PrependToAppend(a: seq<Json>, b: seq<Json>, r: Result<seq<Json>, Thrown>)
    ensures PrependTo(a, PrependTo(b, r)) == PrependTo(a + b, r)
    ensures PrependTo([], r) == r
  {
    if r.Success? {
      assert a + (b + r.value) == (a + b) + r.value;
      assert [] + r.value == r.value;
    }
  }

  /**
   * `getEmployee(html)` as written: the callback's `decodeURIComponent` is
   * outside its `try`, so a malformed escape in any payload aborts the whole
   * call with `URIError`.
   */
  method GetEmployeeAsWritten(html: string, parse: string -> Option<Json>) returns (r: Result<seq<Json>, Thrown>)
    ensures r == EntitiesAsWritten(Matches(html), parse)
  {
    var mentionHtml := Matches(html);
    if |mentionHtml| == 0 {
      return Success([]);
    }
    r := MapCallbacksAsWritten(mentionHtml, parse);
  }

  /** `mentionHtml.map(…)` with the callback as written, pushing accepted objects into `arr`. */
  method MapCallbacksAsWritten(mentionHtml: seq<string>, parse: string -> Option<Json>) returns (r: Result<seq<Json>, Thrown>)
    ensures r == EntitiesAsWritten(mentionHtml, parse)
  {
    var arr: seq<Json> := [];
    var i := 0;
    assert mentionHtml[0..] == mentionHtml;
    PrependToAppend([], [], EntitiesAsWritten(mentionHtml, parse));
    while i < |mentionHtml|
      invariant 0 <= i <= |mentionHtml|
      invariant EntitiesAsWritten(mentionHtml, parse) == PrependTo(arr, EntitiesAsWritten(mentionHtml[i..], parse))
    {
      EntitiesAsWrittenStep(mentionHtml, i, parse);
      ghost var verdict := Classify(mentionHtml[i], parse);
      ghost var later := EntitiesAsWritten(mentionHtml[i + 1..], parse);
      ghost var arr0 := arr;
      var infoMatch := SearchInfo(mentionHtml[i]);
      if infoMatch.Some? {
        var infoCode := infoMatch.value.1;
        assert verdict == PayloadVerdict(infoCode, parse);
        if infoCode != [] {
          var decoded := UriCoding.Decode(infoCode);
          if decoded.None? {
            return Failure(URIError(infoCode));
          }
          var info := decoded.value;
          if info != [] {
            var parsed := parse(info);
            if parsed.Some? {
              assert verdict == if HasTruthyEmpId(parsed.value) then Accept(parsed.value) else Skip;
              match EmpIdOf(parsed.value)
              case Throws => // `null.empId`: a TypeError, caught and logged
              case Undefined =>
              case Defined(id) =>
                if IsTruthy(id) {
                  arr := arr + [parsed.value];
                }
            }
          }
        }
      }
      PrependToAppend(arr0, if verdict.Accept? then [verdict.entity] else [], later);
      i := i + 1;
    }
    assert mentionHtml[i..] == [];
    assert arr + [] == arr;
    return Success(arr);
  }

  /**
   * `getEmployee(html)` corrected so that a payload `decodeURIComponent`
   * rejects is skipped like every other malformed one.
   */
  method GetEmployee(html: string, parse: string -> Option<Json>) returns (arr: seq<Json>)
    ensures arr == Entities(Matches(html), parse)
  {
    var mentionHtml := Matches(html);
    if |mentionHtml| == 0 {
      return [];
    }
    arr := MapCallbacks(mentionHtml, parse);
  }

  /** `mentionHtml.map(…)` with the corrected callback. */
  method MapCallbacks(mentionHtml: seq<string>, parse: string -> Option<Json>) returns (arr: seq<Json>)
    ensures arr == Entities(mentionHtml, parse)
  {
    arr := [];
    var i := 0;
    assert mentionHtml[0..] == mentionHtml;
    while i < |mentionHtml|
      invariant 0 <= i <= |mentionHtml|
      invariant Entities(mentionHtml, parse) == arr + Entities(mentionHtml[i..], parse)
    {
      EntitiesStep(mentionHtml, i, parse);
      ghost var verdict := Classify(mentionHtml[i], parse);
      ghost var pick := if verdict.Accept? then [verdict.entity] else [];
      ghost var later := Entities(mentionHtml[i + 1..], parse);
      ghost var arr0 := arr;
      var infoMatch := SearchInfo(mentionHtml[i]);
      if infoMatch.Some? {
        var infoCode := infoMatch.value.1;
        assert verdict == PayloadVerdict(infoCode, parse);
        if infoCode != [] {
          var decoded := UriCoding.Decode(infoCode);
          if decoded.Some? {
            var info := decoded.value;
            if info != [] {
              var parsed := parse(info);
              if parsed.Some? {
                assert verdict == if HasTruthyEmpId(parsed.value) then Accept(parsed.value) else Skip;
                match EmpIdOf(parsed.value)
                case Throws =>
                case Undefined =>
                case Defined(id) =>
                  if IsTruthy(id) {
                    arr := arr + [parsed.value];
                  }
              }
            }
          }
        }
      }
      assert arr == arr0 + pick;
      AppendAssoc(arr0, pick, later);
      i := i + 1;
    }
    assert mentionHtml[i..] == [];
  }

  // ---------------------------------------------------------------------------
  // What getEmployee returns.

  /** The callbacks of two runs of matched texts push their entities one after the other. */
  lemma {:induction false} EntitiesAppend(a: seq<string>, b: seq<string>, parse: string -> Option<Json>)
    ensures Entities(a + b, parse) == Entities(a, parse) + Entities(b, parse)
    decreases |a|
  {
    if a == [] {
      assert a + b == b;
    } else {
      assert (a + b)[0] == a[0] && (a + b)[1..] == a[1..] + b;
      EntitiesAppend(a[1..], b, parse);
      var first := match Classify(a[0], parse) case Accept(v) => [v] case _ => [];
      AppendAssoc(first, Entities(a[1..], parse), Entities(b, parse));
    }
  }

  /** One matched text contributes its accepted object, or nothing. */
  lemma EntitiesSingle(x: string, parse: string -> Option<Json>)
    ensures Entities([x], parse) == if Classify(x, parse).Accept? then [Classify(x, parse).entity] else []
  {
    assert [x][1..] == [];
  }

  /** A malformed entry is dropped without changing what the entries around it contribute. */
  lemma EntitiesSkipMalformed(a: seq<string>, x: string, b: seq<string>, parse: string -> Option<Json>)
    requires !Classify(x, parse).Accept?
    ensures Entities(a + [x] + b, parse) == Entities(a + b, parse)
  {
    EntitiesAppend(a + [x], b, parse);
    EntitiesAppend(a, [x], parse);
    EntitiesSingle(x, parse);
    EntitiesAppend(a, b, parse);
    assert Entities(a, parse) + [] == Entities(a, parse);
  }

  /** The objects returned are exactly the objects some matched text's callback accepts. */
  lemma {:induction false} EntitiesMembers(items: seq<string>, parse: string -> Option<Json>, x: Json)
    ensures x in Entities(items, parse) <==> exists k :: 0 <= k < |items| && Classify(items[k], parse) == Accept(x)
    decreases |items|
  {
    if items != [] {
      EntitiesMembers(items[1..], parse, x);
      if exists k :: 0 <= k < |items[1..]| && Classify(items[1..][k], parse) == Accept(x) {
        var k :| 0 <= k < |items[1..]| && Classify(items[1..][k], parse) == Accept(x);
        assert Classify(items[k + 1], parse) == Accept(x);
      }
      if exists k :: 0 <= k < |items| && Classify(items[k], parse) == Accept(x) {
        var k :| 0 <= k < |items| && Classify(items[k], parse) == Accept(x);
        if k > 0 {
          assert items[1..][k - 1] == items[k];
        }
      }
    }
  }

  /** How many matched texts the callback does not accept. */
  function CountMalformed(items: seq<string>, parse: string -> Option<Json>): (n: nat)
    ensures n <= |items|
    decreases |items|
  {
    if items == [] then 0
    else (if Classify(items[0], parse).Accept? then 0 else 1) + CountMalformed(items[1..], parse)
  }

  /** With N matched texts of which M are malformed, exactly N - M objects are returned. */
  lemma {:induction false} EntitiesCount(items: seq<string>, parse: string -> Option<Json>)
    ensures |Entities(items, parse)| == |items| - CountMalformed(items, parse)
    decreases |items|
  {
    if items != [] {
      EntitiesCount(items[1..], parse);
    }
  }

  /**
   * As written, `getEmployee` returns what the corrected one returns exactly
   * when no payload is a malformed escape; otherwise it throws the
   * `URIError` of the first such payload.
   */
  lemma {:induction false} AsWrittenAgrees(items: seq<string>, parse: string -> Option<Json>)
    ensures EntitiesAsWritten(items, parse).Success?
        <==> forall k :: 0 <= k < |items| ==> !Classify(items[k], parse).Reject?
    ensures EntitiesAsWritten(items, parse).Success? ==> EntitiesAsWritten(items, parse).value == Entities(items, parse)
    ensures EntitiesAsWritten(items, parse).Failure? ==>
      exists k :: 0 <= k < |items| && Classify(items[k], parse) == Reject(EntitiesAsWritten(items, parse).error)
        && forall j :: 0 <= j < k ==> !Classify(items[j], parse).Reject?
    decreases |items|
  {
    if items != [] {
      AsWrittenAgrees(items[1..], parse);
      var v := Classify(items[0], parse);
      if v.Reject? {
        assert Classify(items[0], parse) == Reject(EntitiesAsWritten(items, parse).error);
      } else {
        forall k | 0 <= k < |items[1..]| ensures items[1..][k] == items[k + 1] { }
        if EntitiesAsWritten(items[1..], parse).Failure? {
          var k :| 0 <= k < |items[1..]| && Classify(items[1..][k], parse) == Reject(EntitiesAsWritten(items[1..], parse).error)
            && forall j :: 0 <= j < k ==> !Classify(items[1..][j], parse).Reject?;
          assert Classify(items[k + 1], parse) == Reject(EntitiesAsWritten(items, parse).error);
          forall j | 0 <= j < k + 1 ensures !Classify(items[j], parse).Reject? {
            if j > 0 {
              assert items[j] == items[1..][j - 1];
            }
          }
        }
      }
    }
  }

  /** Without the mention marker anywhere in the HTML, `match` gives `null` and the result is empty. */
  lemma NoMentionNoEmployees(html: string, parse: string -> Option<Json>)
    requires !Includes(html, MARKER)
    ensures Entities(Matches(html), parse) == []
    ensures EntitiesAsWritten(Matches(html), parse) == Success([])
  {
    NoMarkerNoMatches(html);
  }

  // ---------------------------------------------------------------------------
  // getEmployee on documents of well-formed mention spans.

  /** The objects of the spans whose payloads the callback accepts, in document order. */
  function SpanEntities(spans: seq<MentionSpan>, parse: string -> Option<Json>): (r: seq<Json>)
    ensures |r| <= |spans|
    decreases |spans|
  {
    if spans == [] then []
    else
      var first := match PayloadVerdict(spans[0].code, parse) case Accept(v) => [v] case _ => [];
      first + SpanEntities(spans[1..], parse)
  }

  /** The callback applied to the opening of a well-formed span judges exactly its payload. */
  lemma ClassifySpanHead(attrs: string, code: string, parse: string -> Option<Json>)
    requires Inert(attrs, INFO) && IsAttributeValue(code)
    ensures Classify(SpanHead(attrs, code), parse) == PayloadVerdict(code, parse)
  {
    SearchInfoSpanHead(attrs, code, []);
    assert SpanHead(attrs, code) + [] == SpanHead(attrs, code);
  }

  lemma {:induction false} EntitiesOfHeads(spans: seq<MentionSpan>, parse: string -> Option<Json>)
    requires forall k :: 0 <= k < |spans| ==> WellFormedSpan(spans[k])
    ensures Entities(Heads(spans), parse) == SpanEntities(spans, parse)
    decreases |spans|
  {
    if spans != [] {
      var h := Heads(spans);
      assert h[0] == SpanHead(spans[0].attrs, spans[0].code) && h[1..] == Heads(spans[1..]);
      assert WellFormedSpan(spans[0]);
      ClassifySpanHead(spans[0].attrs, spans[0].code, parse);
      EntitiesOfHeads(spans[1..], parse);
    }
  }

  /**
   * In a document of well-formed spans, `getEmployee` returns one object per
   * span whose payload is a truthy-`empId` JSON object, in document order,
   * and drops the others.
   */
  lemma EmployeesOfDocument(spans: seq<MentionSpan>, tail: string, parse: string -> Option<Json>)
    requires forall k :: 0 <= k < |spans| ==> WellFormedSpan(spans[k])
    requires Inert(tail, MARKER)
    ensures Entities(Matches(Document(spans, tail)), parse) == SpanEntities(spans, parse)
  {
    ScanDocument(spans, tail);
    EntitiesOfHeads(spans, parse);
  }

  /** A payload written by `encodeURIComponent` is judged on the JSON text it encodes. */
  lemma EncodedPayload(text: string, parse: string -> Option<Json>)
    ensures IsAttributeValue(UriCoding.Encode(text))
    ensures PayloadVerdict(UriCoding.Encode(text), parse)
         == if text != [] && parse(text).Some? && HasTruthyEmpId(parse(text).value) then Accept(parse(text).value) else Skip
  {
    var e := UriCoding.Encode(text);
    UriCoding.EncodeAlphabet(text);
    assert IsAttributeValue(e) by {
      forall i | 0 <= i < |e| ensures e[i] != '"' && !IsLineTerminator(e[i]) {
        assert UriCoding.IsUnreserved(e[i]) || e[i] == '%';
      }
    }
    UriCoding.DecodeEncode(text);
    UriCoding.EncodeEmpty(text);
  }

  /** A span as the editor writes it: an inert gap and attributes, and `encodeURIComponent(text)` as payload. */
  predicate EncodesAs(m: MentionSpan, text: string) {
    Inert(m.gap, MARKER) && Inert(m.attrs, INFO) && m.code == UriCoding.Encode(text)
  }

  /**
   * Round trip: for spans written from JSON texts that parse to objects with
   * truthy `empId`, `getEmployee` returns exactly those objects, one per
   * span and in document order, whether as written or corrected.
   */
  lemma {:induction false} EncodedDocumentRoundTrip(spans: seq<MentionSpan>, texts: seq<string>, objs: seq<Json>,
                                                    tail: string, parse: string -> Option<Json>)
    requires |spans| == |texts| == |objs|
    requires forall k :: 0 <= k < |spans| ==> EncodesAs(spans[k], texts[k])
    requires forall k :: 0 <= k < |texts| ==> texts[k] != [] && parse(texts[k]) == Some(objs[k]) && HasTruthyEmpId(objs[k])
    requires Inert(tail, MARKER)
    ensures Entities(Matches(Document(spans, tail)), parse) == objs
    ensures EntitiesAsWritten(Matches(Document(spans, tail)), parse) == Success(objs)
  {
    forall k | 0 <= k < |spans| ensures WellFormedSpan(spans[k]) && PayloadVerdict(spans[k].code, parse) == Accept(objs[k]) {
      assert EncodesAs(spans[k], texts[k]);
      EncodedPayload(texts[k], parse);
    }
    EmployeesOfDocument(spans, tail, parse);
    AcceptedSpans(spans, objs, parse);
    ScanDocument(spans, tail);
    var items := Matches(Document(spans, tail));
    forall k | 0 <= k < |items| ensures !Classify(items[k], parse).Reject? {
      ClassifySpanHead(spans[k].attrs, spans[k].code, parse);
      HeadsAt(spans, k);
    }
    AsWrittenAgrees(items, parse);
  }

  lemma {:induction false} AcceptedSpans(spans: seq<MentionSpan>, objs: seq<Json>, parse: string -> Option<Json>)
    requires |spans| == |objs|
    requires forall k :: 0 <= k < |spans| ==> PayloadVerdict(spans[k].code, parse) == Accept(objs[k])
    ensures SpanEntities(spans, parse) == objs
    decreases |spans|
  {
    if spans != [] {
      assert PayloadVerdict(spans[0].code, parse) == Accept(objs[0]);
      forall k | 0 <= k < |spans[1..]| ensures PayloadVerdict(spans[1..][k].code, parse) == Accept(objs[1..][k]) {
        assert spans[1..][k] == spans[k + 1];
      }
      AcceptedSpans(spans[1..], objs[1..], parse);
      assert objs == [objs[0]] + objs[1..];
    }
  }

  lemma {:induction false} HeadsAt(spans: seq<MentionSpan>, k: nat)
    requires k < |spans|
    ensures Heads(spans)[k] == SpanHead(spans[k].attrs, spans[k].code)
    decreases k
  {
    if k > 0 {
      HeadsAt(spans[1..], k - 1);
    }
  }

  /**
   * The finding of `getEmployee`: one span whose payload is the malformed
   * escape `%` makes the call as written throw, although every other span
   * of the document is well formed; the corrected call drops that span.
   */
  lemma BadEscapeAbortsAsWritten(spans: seq<MentionSpan>, tail: string, parse: string -> Option<Json>, k: nat)
    requires forall j :: 0 <= j < |spans| ==> WellFormedSpan(spans[j])
    requires Inert(tail, MARKER)
    requires k < |spans| && spans[k].code == "%"
    ensures EntitiesAsWritten(Matches(Document(spans, tail)), parse).Failure?
    ensures Entities(Matches(Document(spans, tail)), parse) == SpanEntities(spans, parse)
  {
    EmployeesOfDocument(spans, tail, parse);
    ScanDocument(spans, tail);
    var items := Matches(Document(spans, tail));
    assert WellFormedSpan(spans[k]);
    ClassifySpanHead(spans[k].attrs, spans[k].code, parse);
    HeadsAt(spans, k);
    UriCoding.DecodeBadEscape("%");
    assert Classify(items[k], parse).Reject?;
    AsWrittenAgrees(items, parse);
  }

  // ---------------------------------------------------------------------------
  // Worked examples on concrete markup.

  /** `{"empId":"u1"}`, written into `data-info` as `%7B%22empId%22%3A%22u1%22%7D`. */
  const U1_JSON: string := JsonPair("empId", "u1")
  const U1_CODE: string := JsonPairCode("empId", "u1")
  const U1: Json := Object(map["empId" := Str("u1")])
  /** `{"name":"x"}`, written into `data-info` as `%7B%22name%22%3A%22x%22%7D`. */
  const NAME_JSON: string := JsonPair("name", "x")
  const NAME_CODE: string := JsonPairCode("name", "x")
  const NAMED_X: Json := Object(map["name" := Str("x")])

  lemma PunctuationEncoded()
    ensures UriCoding.Encode("{") == "%7B" && UriCoding.Encode("}") == "%7D"
    ensures UriCoding.Encode("\"") == "%22" && UriCoding.Encode(":") == "%3A"
  {
  }

  /** The JSON string literal `"<x>"`, and what `encodeURIComponent` makes of it when `x` is unreserved text. */
  function Quoted(x: string): string {
    "\"" + x + "\""
  }

  function QuotedCode(x: string): string {
    "%22" + x + "%22"
  }

  /** The JSON text `{"<key>":"<val>"}`, and its encoding for unreserved `key` and `val`. */
  function JsonPair(key: string, val: string): string {
    "{" + Quoted(key) + ":" + Quoted(val) + "}"
  }

  function JsonPairCode(key: string, val: string): string {
    "%7B" + QuotedCode(key) + "%3A" + QuotedCode(val) + "%7D"
  }

  lemma QuotedEncoded(x: string)
    requires forall i :: 0 <= i < |x| ==> UriCoding.IsUnreserved(x[i])
    ensures UriCoding.Encode(Quoted(x)) == QuotedCode(x)
  {
    PunctuationEncoded();
    UriCoding.EncodeUnreserved(x);
    UriCoding.EncodeAppend("\"" + x, "\"");
    UriCoding.EncodeAppend("\"", x);
  }

  lemma PairEncoded(key: string, val: string)
    requires forall i :: 0 <= i < |key| ==> UriCoding.IsUnreserved(key[i])
    requires forall i :: 0 <= i < |val| ==> UriCoding.IsUnreserved(val[i])
    ensures UriCoding.Encode(JsonPair(key, val)) == JsonPairCode(key, val)
  {
    PunctuationEncoded();
    QuotedEncoded(key);
    QuotedEncoded(val);
    var qk, qv := Quoted(key), Quoted(val);
    UriCoding.EncodeAppend("{" + qk + ":" + qv, "}");
    UriCoding.EncodeAppend("{" + qk + ":", qv);
    UriCoding.EncodeAppend("{" + qk, ":");
    UriCoding.EncodeAppend("{", qk);
  }

  lemma InertFront()
    ensures Inert("<span ", MARKER) && Inert("></span>", MARKER) && Inert("></span><span ", MARKER) && Inert("", INFO)
  {
    InertWithoutFirst("<span ", MARKER);
    InertWithoutFirst("></span>", MARKER);
    InertWithoutFirst("></span><span ", MARKER);
  }

  /** One span whose payload encodes `{"empId":"u1"}` yields exactly that object. */
  lemma SingleMentionExample(parse: string -> Option<Json>)
    requires parse(U1_JSON) == Some(U1)
    ensures Entities(Matches("<span " + SpanHead("", U1_CODE) + "></span>"), parse) == [U1]
  {
    U1Verdict(parse);
    InertFront();
    OneAccepted("<span ", U1_CODE, "></span>", parse, U1);
  }

  /** One span with empty attributes whose payload is accepted. */
  lemma OneAccepted(g: string, c: string, t: string, parse: string -> Option<Json>, obj: Json)
    requires Inert(g, MARKER) && Inert(t, MARKER) && Inert("", INFO)
    requires IsAttributeValue(c) && PayloadVerdict(c, parse) == Accept(obj)
    ensures Entities(Matches(g + SpanHead("", c) + t), parse) == [obj]
  {
    var m := MentionSpan(g, "", c);
    assert [m][1..] == [];
    assert Document([m], t) == g + SpanHead("", c) + t;
    EmployeesOfDocument([m], t, parse);
  }

  lemma PairVerdict(key: string, val: string, parse: string -> Option<Json>)
    requires forall i :: 0 <= i < |key| ==> UriCoding.IsUnreserved(key[i])
    requires forall i :: 0 <= i < |val| ==> UriCoding.IsUnreserved(val[i])
    requires parse(JsonPair(key, val)).Some?
    ensures PayloadVerdict(JsonPairCode(key, val), parse)
         == if HasTruthyEmpId(parse(JsonPair(key, val)).value) then Accept(parse(JsonPair(key, val)).value) else Skip
    ensures IsAttributeValue(JsonPairCode(key, val))
  {
    PairEncoded(key, val);
    EncodedPayload(JsonPair(key, val), parse);
  }

  lemma TwoSpanDocument(first: MentionSpan, second: MentionSpan, t: string)
    ensures Document([first, second], t)
         == first.gap + SpanHead(first.attrs, first.code) + second.gap + SpanHead(second.attrs, second.code) + t
  {
    var h1, h2 := SpanHead(first.attrs, first.code), SpanHead(second.attrs, second.code);
    assert [first, second][1..] == [second] && [second][1..] == [];
    assert Document([second], t) == second.gap + h2 + t;
    assert Document([first, second], t) == first.gap + h1 + (second.gap + h2 + t);
    AppendAssoc(first.gap + h1, second.gap + h2, t);
    AppendAssoc(first.gap + h1, second.gap, h2);
  }

  lemma TwoSpanEntities(first: MentionSpan, second: MentionSpan, t: string, parse: string -> Option<Json>)
    requires WellFormedSpan(first) && WellFormedSpan(second) && Inert(t, MARKER)
    ensures Entities(Matches(first.gap + SpanHead(first.attrs, first.code) + second.gap + SpanHead(second.attrs, second.code) + t), parse)
         == (if PayloadVerdict(first.code, parse).Accept? then [PayloadVerdict(first.code, parse).entity] else [])
          + (if PayloadVerdict(second.code, parse).Accept? then [PayloadVerdict(second.code, parse).entity] else [])
  {
    TwoSpanDocument(first, second, t);
    EmployeesOfDocument([first, second], t, parse);
    assert [first, second][1..] == [second] && [second][1..] == [];
  }

  /**
   * Two spans, one encoding `{"empId":"u1"}` and one encoding `{"name":"x"}`
   * without `empId`: only the first object is returned.
   */
  lemma TwoMentionsExample(parse: string -> Option<Json>)
    requires parse(U1_JSON) == Some(U1) && parse(NAME_JSON) == Some(NAMED_X)
    ensures Entities(Matches("<span " + SpanHead("", U1_CODE) + "></span><span " + SpanHead("", NAME_CODE) + "></span>"), parse)
         == [U1]
  {
    U1Verdict(parse);
    NameVerdict(parse);
    InertFront();
    AcceptThenSkip("<span ", U1_CODE, "></span><span ", NAME_CODE, "></span>", parse, U1);
  }

  /** The payload of `{"empId":"u1"}` is accepted. */
  lemma U1Verdict(parse: string -> Option<Json>)
    requires parse(U1_JSON) == Some(U1)
    ensures PayloadVerdict(U1_CODE, parse) == Accept(U1) && IsAttributeValue(U1_CODE)
  {
    PairVerdict("empId", "u1", parse);
    assert HasTruthyEmpId(U1);
  }

  /** The payload of `{"name":"x"}` is skipped: the object has no `empId`. */
  lemma NameVerdict(parse: string -> Option<Json>)
    requires parse(NAME_JSON) == Some(NAMED_X)
    ensures PayloadVerdict(NAME_CODE, parse) == Skip && IsAttributeValue(NAME_CODE)
  {
    PairVerdict("name", "x", parse);
    assert !HasTruthyEmpId(NAMED_X);
  }

  /** Two spans with empty attributes, the first accepted and the second skipped. */
  lemma AcceptThenSkip(g1: string, c1: string, g2: string, c2: string, t: string, parse: string -> Option<Json>, obj: Json)
    requires Inert(g1, MARKER) && Inert(g2, MARKER) && Inert(t, MARKER) && Inert("", INFO)
    requires IsAttributeValue(c1) && IsAttributeValue(c2)
    requires PayloadVerdict(c1, parse) == Accept(obj) && PayloadVerdict(c2, parse) == Skip
    ensures Entities(Matches(g1 + SpanHead("", c1) + g2 + SpanHead("", c2) + t), parse) == [obj]
  {
    TwoSpanEntities(MentionSpan(g1, "", c1), MentionSpan(g2, "", c2), t, parse);
  }

  // ---------------------------------------------------------------------------
  // isNameCharacter

  /** The class `[a-zA-Z0-9_.]`. */
  predicate IsNameChar(c: char) {
    'a' <= c <= 'z' || 'A' <= c <= 'Z' || '0' <= c <= '9' || c == '_' || c == '.'
  }

  /**
   * `/^[a-zA-Z0-9_.]{1}$/.test(val)`. Without the `m` flag `^` and `$` only
   * match at the ends of the input, so the whole of `val` must be one repetition.
   */
  predicate IsNameCharacter(val: string) {
    RepeatExactly(IsNameChar, 1, val)
  }

  /** `isNameCharacter(val)` holds iff `val` is a single character of the class. */
  lemma IsNameCharacterIff(val: string)
    ensures IsNameCharacter(val) <==> |val| == 1 && IsNameChar(val[0])
  {
    RepeatExactlyIff(IsNameChar, 1, val);
  }

  // ---------------------------------------------------------------------------
  // isValidHtml

  /** The length of the run of characters other than `<` and `>` at the start of `u`. */
  function BodyLen(u: string): (k: nat)
    ensures k <= |u|
    ensures forall i :: 0 <= i < k ==> u[i] != '<' && u[i] != '>'
    ensures k < |u| ==> u[k] == '<' || u[k] == '>'
    decreases |u|
  {
    if u == [] || u[0] == '<' || u[0] == '>' then 0
    else
      var k := BodyLen(u[1..]);
      assert forall i :: 0 < i < k + 1 ==> u[i] == u[1..][i - 1];
      1 + k
  }

  /** A text that `/<[^<>]+>/` matches in full. */
  predicate IsTag(t: string) {
    |t| >= 3 && t[0] == '<' && t[|t| - 1] == '>' && forall i :: 0 < i < |t| - 1 ==> t[i] != '<' && t[i] != '>'
  }

  /**
   * The length of the match of `/<[^<>]+>/` that starts at `s[0]`, if one
   * does: `[^<>]+` is greedy and cannot run past a `<` or a `>`, so the
   * match exists iff the first of them after the opening `<` is a `>` with
   * at least one character in between.
   */
  function TagLen(s: string): (r: Option<nat>)
    ensures r.Some? ==> r.value <= |s| && IsTag(s[..r.value])
  {
    if s != [] && s[0] == '<' then
      var k := BodyLen(s[1..]);
      if k >= 1 && 1 + k < |s| && s[1 + k] == '>' then
        assert forall j :: 0 <= j < k ==> s[1..][j] == s[j + 1];
        Some(k + 2)
      else None
    else None
  }

  /** A prefix of `s` is a tag exactly when `TagLen` finds it. */
  lemma TagLenExact(s: string, n: nat)
    requires n <= |s|
    ensures IsTag(s[..n]) <==> TagLen(s) == Some(n)
  {
    if IsTag(s[..n]) {
      var u := s[1..];
      var k := BodyLen(u);
      assert forall i :: 0 <= i < n - 2 ==> u[i] == s[..n][i + 1];
      assert u[n - 2] == s[..n][n - 1];
    }
  }

  /** `s.replace(/<[^<>]+>/g, '')`: one left-to-right pass removing every tag it meets. */
  function StripTags(s: string): (r: string)
    ensures |r| <= |s|
    decreases |s|
  {
    if s == [] then []
    else match TagLen(s)
      case Some(n) => StripTags(s[n..])
      case None => [s[0]] + StripTags(s[1..])
  }

  /** A tag at the front is removed. */
  lemma StripTagsDropsTag(t: string, rest: string)
    requires IsTag(t)
    ensures StripTags(t + rest) == StripTags(rest)
  {
    assert (t + rest)[..|t|] == t;
    TagLenExact(t + rest, |t|);
    assert (t + rest)[|t|..] == rest;
  }

  /** A character that cannot open a tag is kept. */
  lemma StripTagsKeeps(c: char, rest: string)
    requires c != '<'
    ensures StripTags([c] + rest) == [c] + StripTags(rest)
  {
    assert ([c] + rest)[1..] == rest;
  }

  /** Text without `<` has no tags and is left as it is. */
  lemma {:induction false} StripTagsPlain(s: string)
    requires forall i :: 0 <= i < |s| ==> s[i] != '<'
    ensures StripTags(s) == s
    decreases |s|
  {
    if s != [] {
      StripTagsKeeps(s[0], s[1..]);
      StripTagsPlain(s[1..]);
      assert s == [s[0]] + s[1..];
    }
  }

  /** A tag nested in an unfinished one: only the inner tag is removed. */
  lemma NestedTag(x: char, y: char)
    requires x != '<' && x != '>' && y != '<' && y != '>'
    ensures StripTags(['<', x, '<', y, '>', '>']) == ['<', x, '>']
  {
    var s := ['<', x, '<', y, '>', '>'];
    assert BodyLen(s[1..]) == 1 by {
      assert s[1..][1] == '<';
    }
    assert TagLen(s) == None;
    assert StripTags(s) == ['<'] + StripTags(s[1..]);
    var inner, rest := ['<', y, '>'], ['>'];
    assert s[1..] == [x] + (inner + rest);
    StripTagsKeeps(x, inner + rest);
    assert IsTag(inner);
    StripTagsDropsTag(inner, rest);
    StripTagsPlain(rest);
    assert ['<'] + ([x] + rest) == ['<', x, '>'];
  }

  /** The pass is not repeated: in `<a<b>>` only `<b>` is a tag, and `<a>` is what is left. */
  lemma StripTagsOnePass()
    ensures StripTags("<a<b>>") == "<a>"
  {
    NestedTag('a', 'b');
  }

  /** The class `[&nbsp;\s]` under the `i` flag: `&`, `;`, the letters n, b, s and p in either case, and whitespace. */
  predicate IsNbspClassChar(c: char) {
    c in "&;nbspNBSP" || IsWhitespace(c)
  }

  /**
   * `isValidHtml(html)`: true when the HTML holds an `<img`; otherwise true
   * iff something is left once the tags are removed and then every
   * character of the class `[&nbsp;\s]` is removed.
   */
  predicate IsValidHtml(html: string) {
    Includes(html, "<img") || |RemoveAll(IsNbspClassChar, StripTags(html))| > 0
  }

  /** `isValidHtml` holds iff there is an image, or the text between the tags has a character outside the class. */
  lemma IsValidHtmlIff(html: string)
    ensures IsValidHtml(html)
        <==> Includes(html, "<img") || exists i :: 0 <= i < |StripTags(html)| && !IsNbspClassChar(StripTags(html)[i])
  {
    var x := StripTags(html);
    RemoveAllEmptyIff(IsNbspClassChar, x);
    assert IsValidHtml(html) <==> Includes(html, "<img") || |RemoveAll(IsNbspClassChar, x)| > 0;
  }

  /** The HTML of one paragraph. */
  function Paragraph(x: string): string {
    "<p>" + x + "</p>"
  }

  lemma StripParagraph(x: string)
    requires forall i :: 0 <= i < |x| ==> x[i] != '<'
    ensures StripTags(Paragraph(x)) == x
  {
    assert IsTag("<p>") && IsTag("</p>");
    assert "<p>" + x + "</p>" == "<p>" + (x + "</p>");
    StripTagsDropsTag("<p>", x + "</p>");
    StripTagsPlainThenTag(x, "</p>");
  }

  lemma {:induction false} StripTagsPlainThenTag(x: string, t: string)
    requires forall i :: 0 <= i < |x| ==> x[i] != '<'
    requires IsTag(t)
    ensures StripTags(x + t) == x
    decreases |x|
  {
    if x == [] {
      assert t + [] == t;
      StripTagsDropsTag(t, []);
      assert x + t == t;
    } else {
      assert x + t == [x[0]] + (x[1..] + t);
      StripTagsKeeps(x[0], x[1..] + t);
      StripTagsPlainThenTag(x[1..], t);
      assert x == [x[0]] + x[1..];
    }
  }

  /** A character that is neither in the paragraph tags nor in `x` is not in the paragraph. */
  lemma ParagraphChars(x: string, c: char)
    requires c !in "<p/>" && c !in x
    ensures c !in Paragraph(x)
  {
  }

  /**
   * The finding of `isValidHtml`: the class removes the letters of `nbsp`
   * wherever they occur, so a paragraph made only of class characters (the
   * word `ps`, say) has no image and nothing left between its tags, and is
   * judged empty.
   */
  lemma ParagraphOfClassIsInvalid(x: string)
    requires forall i :: 0 <= i < |x| ==> IsNbspClassChar(x[i])
    ensures !IsValidHtml(Paragraph(x))
  {
    StripParagraph(x);
    assert 'i' !in Paragraph(x) by {
      ParagraphChars(x, 'i');
    }
    IncludesWithout(Paragraph(x), "<img", 'i');
    RemoveAllEmptyIff(IsNbspClassChar, x);
  }

  lemma ParagraphPsIsInvalid()
    ensures !IsValidHtml(Paragraph("ps"))
  {
    ParagraphOfClassIsInvalid("ps");
  }

  /** The entity `&nbsp;` under the `i` flag at the start of `s`. */
  predicate StartsWithNbsp(s: string) {
    |s| >= 6 && s[0] == '&' && s[1] in "nN" && s[2] in "bB" && s[3] in "sS" && s[4] in "pP" && s[5] == ';'
  }

  /**
   * The evidently intended `content.replace(/&nbsp;|\s/gi, '')`: every
   * `&nbsp;` entity (in any case) and every whitespace character is removed.
   */
  function RemoveBlank(s: string): (r: string)
    ensures |r| <= |s|
    decreases |s|
  {
    if s == [] then []
    else if StartsWithNbsp(s) then RemoveBlank(s[6..])
    else if IsWhitespace(s[0]) then RemoveBlank(s[1..])
    else [s[0]] + RemoveBlank(s[1..])
  }

  /** The corrected `isValidHtml`: what blank entities and whitespace leave of the text between the tags. */
  predicate IsValidHtmlIntended(html: string) {
    Includes(html, "<img") || |RemoveBlank(StripTags(html))| > 0
  }

  /** Without `&`, the corrected removal removes exactly the whitespace. */
  lemma {:induction false} RemoveBlankWithoutEntity(s: string)
    requires forall i :: 0 <= i < |s| ==> s[i] != '&'
    ensures RemoveBlank(s) == RemoveAll(IsWhitespace, s)
    decreases |s|
  {
    if s != [] {
      RemoveBlankWithoutEntity(s[1..]);
    }
  }

  /** A character outside the class survives the corrected removal. */
  lemma {:induction false} RemoveBlankKeeps(s: string, i: nat)
    requires i < |s| && !IsNbspClassChar(s[i])
    ensures s[i] in RemoveBlank(s)
    decreases |s|
  {
    if StartsWithNbsp(s) {
      assert i >= 6;
      assert s[6..][i - 6] == s[i];
      RemoveBlankKeeps(s[6..], i - 6);
    } else if IsWhitespace(s[0]) {
      assert i >= 1;
      assert s[1..][i - 1] == s[i];
      RemoveBlankKeeps(s[1..], i - 1);
    } else if i > 0 {
      assert s[1..][i - 1] == s[i];
      RemoveBlankKeeps(s[1..], i - 1);
    }
  }

  /** The correction only accepts more: whatever `isValidHtml` accepts, the intended check accepts. */
  lemma IsValidHtmlIntendedWeaker(html: string)
    ensures IsValidHtml(html) ==> IsValidHtmlIntended(html)
  {
    if IsValidHtml(html) && !Includes(html, "<img") {
      var x := StripTags(html);
      RemoveAllEmptyIff(IsNbspClassChar, x);
      var i :| 0 <= i < |x| && !IsNbspClassChar(x[i]);
      RemoveBlankKeeps(x, i);
    }
  }

  /** The corrected check on a paragraph: something other than blank entities and whitespace in its text. */
  lemma ParagraphIntended(x: string)
    requires forall i :: 0 <= i < |x| ==> x[i] != '<' && x[i] != 'i'
    ensures IsValidHtmlIntended(Paragraph(x)) <==> |RemoveBlank(x)| > 0
  {
    StripParagraph(x);
    IncludesWithout(Paragraph(x), "<img", 'i');
  }

  /** The corrected check accepts the paragraph `ps`, and it still rejects a paragraph holding only `&nbsp;`, as `isValidHtml` does. */
  lemma ParagraphExamplesIntended()
    ensures IsValidHtmlIntended(Paragraph("ps"))
    ensures !IsValidHtmlIntended(Paragraph("&nbsp;")) && !IsValidHtml(Paragraph("&nbsp;"))
  {
    ParagraphIntended("ps");
    RemoveBlankWithoutEntity("ps");
    RemoveAllEmptyIff(IsWhitespace, "ps");
    assert !IsWhitespace("ps"[0]);
    ParagraphIntended("&nbsp;");
    assert StartsWithNbsp("&nbsp;") && "&nbsp;"[6..] == [];
    ParagraphOfClassIsInvalid("&nbsp;");
  }
}
