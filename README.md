# Mention demo: employee extraction, text checks and the mention plugin

This project models the core of a small rich-text editor demo in which users
mention colleagues with `@`. It has two parts.

- The helpers in `src/pages/components/utils.ts`:
  - `getEmployee(html)` finds every mention span in the editor's HTML. It takes
    the percent-encoded JSON payload out of each span's `data-info` attribute,
    decodes and parses it, and collects the objects whose `empId` is truthy.
  - `isNameCharacter(val)` tests for one account-name character.
  - `isValidHtml(html)` decides whether the HTML has any visible content.
- The mention plugin in `src/plugins/mention/module/plugin.ts`. `withMention`
  overrides three methods of an editor:
  - `insertText`: typing `@` schedules `showModal` and then five one-shot
    listeners that call `hideModal`; typing non-name text calls `hideModal` at once.
  - `isInline` and `isVoid`: both treat mention elements as true.

Modules, one file each:

- `Wrappers` (`wrappers.dfy`): `Option` and `Result`.
- `JsText` (`js_text.dfy`): JavaScript string and regular-expression building blocks. These are `includes`, the `\s` class, line terminators, `{n}` and `+` repetition anchored by `^…$`, and a global `replace` of a character class with `''`.
- `UriCoding` (`uri_coding.dfy`): `decodeURIComponent` with the UTF-8 checks of the Decode abstract operation of ECMA-262 (`None` stands for `URIError`). It also has an `encodeURIComponent` encoder, which is the round-trip partner used to write well-formed payloads.
- `Json` (`json.dfy`): the values `JSON.parse` yields, JavaScript truthiness, and the property read `v.empId`.
- `MentionScan` (`mention_scan.dfy`): the two regular expressions of `getEmployee`, as scanners over suffixes. The coarse one is global and lazy, and `.` excludes line terminators; `infoReg` takes the first match only. Also the shape of a rendered mention document.
- `Utils` (`utils.dfy`): `getEmployee` as imperative methods proved against the function `Entities`, `isNameCharacter`, and `isValidHtml`.
- `MentionPlugin` (`mention_plugin.dfy`): the editor as a class with these fields:
  - `trace`: the calls of the original `insertText` and of the two hooks;
  - `tasks`: a FIFO of pending `setTimeout` callbacks;
  - `listeners`: the armed `editor.once` listeners.

`JSON.parse` is a parameter `parse: string -> Option<Json>` (`None` = `SyntaxError`).
The editor's original `isInline`/`isVoid` are constructor parameters. `DomEditor.getSelectedElems` is the field `selected`, and `DomEditor.getNodeType` reads `Node.nodeType`.

**A bad escape escapes the guards.** The callback of `getEmployee` evidently means to skip a malformed payload: it returns early on an empty `infoCode`, an empty `info` or an object without a truthy `empId`, and it catches and logs a `JSON.parse` failure (utils.ts:20-35). But `decodeURIComponent` (utils.ts:23) sits outside that `try`. A payload such as `%` therefore throws `URIError` out of `getEmployee`, and the entities already collected are lost. The model follows the code (`GetEmployeeAsWritten` returns `Failure`). It also gives the corrected `GetEmployee` that skips such a payload; see Findings.

## Model

| member | source | states |
|---|---|---|
| Utils.GetEmployeeAsWritten | src/pages/components/utils.ts:3-41 | returns, as a `Result`, exactly what the as-written code yields for `html`: the entities of the matched spans, or the `URIError` of the first payload that fails to decode |
| Utils.MapCallbacksAsWritten | src/pages/components/utils.ts:14-39 | running the `map` callbacks in order, with `decodeURIComponent` outside the `try`, yields `EntitiesAsWritten` of the matched texts |
| Utils.GetEmployee | src/pages/components/utils.ts:3-41 | the corrected extraction returns `Entities` of the matched spans; `[]` when nothing matches |
| Utils.MapCallbacks | src/pages/components/utils.ts:14-39 | running the callbacks in order, each pushing at most one object, yields `Entities` of the matched texts |
| Utils.PayloadVerdict | src/pages/components/utils.ts:19-35 | a payload is accepted only if it decodes, parses to the accepted value, and that value has a truthy `empId`; the throw happens exactly when the payload is non-empty and does not decode |
| Utils.Classify | src/pages/components/utils.ts:14-35 | the `map` callback for one matched text: no `infoReg` match skips it, otherwise its payload is judged. No contract of its own; characterised by `Utils.ClassifySpanHead`, `Utils.EntitiesMembers` and `MentionScan.MatchesHaveInfo` |
| Utils.Entities | src/pages/components/utils.ts:14-39 | at most one entity per matched text, and every entity has a truthy `empId` |
| Utils.EntitiesAsWritten | src/pages/components/utils.ts:14-39 | the as-written fold: the callbacks in order, stopping with the `URIError` of the first payload that fails to decode. No contract of its own; characterised by `Utils.AsWrittenAgrees` and `Utils.BadEscapeAbortsAsWritten` |
| Utils.EntitiesAppend | src/pages/components/utils.ts:14-39 | the entities of two runs of matched texts are those of the first followed by those of the second (order kept) |
| Utils.EntitiesSingle | src/pages/components/utils.ts:14-39 | one matched text contributes its accepted object or nothing |
| Utils.EntitiesSkipMalformed | src/pages/components/utils.ts:16-33 | a text that is not accepted can be removed without changing the result: one malformed mention does not lose the others |
| Utils.EntitiesMembers | src/pages/components/utils.ts:31-35 | an object is returned iff some matched text is classified as accepting exactly that object |
| Utils.CountMalformed | src/pages/components/utils.ts:16-33 | the number of matched texts that are not accepted is at most the number of texts |
| Utils.EntitiesCount | src/pages/components/utils.ts:14-39 | with N matched texts of which M are not accepted, exactly N−M entities are returned |
| Utils.AsWrittenAgrees | src/pages/components/utils.ts:23 | the as-written code succeeds iff no payload fails to decode, and then agrees with `Entities`; otherwise it fails with the error of the first such payload |
| Utils.NoMentionNoEmployees | src/pages/components/utils.ts:5-9 | HTML without the mention marker yields `[]`, whether as written or corrected |
| Utils.SpanEntities | src/pages/components/utils.ts:14-39 | at most one entity per mention span |
| Utils.ClassifySpanHead | src/pages/components/utils.ts:15-19 | the text matched over a rendered span head yields that span's payload |
| Utils.EntitiesOfHeads | src/pages/components/utils.ts:14-39 | the entities of the span heads are the spans' accepted payloads, in document order |
| Utils.EmployeesOfDocument | src/pages/components/utils.ts:3-41 | for a document of well-formed mention spans, the extraction returns the accepted payloads of its spans, in order |
| Utils.EncodedPayload | src/pages/components/utils.ts:19-33 | an `encodeURIComponent` payload is a valid attribute value and is accepted iff its text is non-empty, parses, and has a truthy `empId` |
| Utils.EncodedDocumentRoundTrip | src/pages/components/utils.ts:3-41 | spans written from JSON texts of objects with truthy `empId` give back exactly those objects, in order, both as written and corrected |
| Utils.AcceptedSpans | src/pages/components/utils.ts:14-39 | spans whose payloads are all accepted contribute exactly those objects |
| Utils.HeadsAt | src/pages/components/utils.ts:4-5 | the k-th text matched in a document is the head of its k-th span |
| Utils.BadEscapeAbortsAsWritten | src/pages/components/utils.ts:23 | one span with payload `%` makes the as-written extraction fail however many good spans there are, while the corrected one still returns all accepted spans |
| Utils.PunctuationEncoded | src/pages/components/utils.ts:23 | the escapes of `{`, `}`, `"` and `:` found in rendered payloads |
| Utils.QuotedEncoded | src/pages/components/utils.ts:23 | a quoted unreserved word encodes as `%22word%22` |
| Utils.PairEncoded | src/pages/components/utils.ts:23 | `{"key":"val"}` with unreserved key and value encodes as `%7B%22key%22%3A%22val%22%7D` |
| Utils.PairVerdict | src/pages/components/utils.ts:19-35 | such an encoded pair is a valid attribute value and is accepted iff its parsed object has a truthy `empId` |
| Utils.InertFront | src/pages/components/utils.ts:4 | the span markup around a mention head cannot start a match |
| Utils.SingleMentionExample | src/pages/components/utils.ts:3-41 | one span with payload `{"empId":"u1"}` yields that one object |
| Utils.OneAccepted | src/pages/components/utils.ts:3-41 | a document of one span whose payload is accepted yields exactly that object |
| Utils.U1Verdict | src/pages/components/utils.ts:19-35 | the encoded payload of `{"empId":"u1"}` is a valid attribute value and is accepted |
| Utils.NameVerdict | src/pages/components/utils.ts:31-33 | the encoded payload of `{"name":"x"}` is a valid attribute value and is skipped, since the object has no `empId` |
| Utils.AcceptThenSkip | src/pages/components/utils.ts:3-41 | of two spans, one accepted and one skipped, only the accepted object is returned |
| Utils.TwoSpanDocument | src/pages/components/utils.ts:4-5 | how a two-span document is laid out |
| Utils.TwoSpanEntities | src/pages/components/utils.ts:3-41 | a two-span document yields the accepted payload of each span, in order |
| Utils.TwoMentionsExample | src/pages/components/utils.ts:31-33 | of the spans `{"empId":"u1"}` and `{"name":"x"}`, only the first object is returned |
| Utils.IsNameCharacter | src/pages/components/utils.ts:103-110 | `isNameCharacter(val)`: `/^[a-zA-Z0-9_.]{1}$/.test(val)`. No contract of its own; characterised by `Utils.IsNameCharacterIff` |
| Utils.IsNameCharacterIff | src/pages/components/utils.ts:103-110 | `isNameCharacter(val)` holds iff `val` is exactly one of `a-z`, `A-Z`, `0-9`, `_`, `.` |
| Utils.BodyLen | src/pages/components/utils.ts:117 | the run of characters `[^<>]` at the front stops exactly at the first `<` or `>` |
| Utils.TagLen | src/pages/components/utils.ts:117 | a match of `<[^<>]+>` at the front is a tag lying inside the text |
| Utils.TagLenExact | src/pages/components/utils.ts:117 | a prefix of length n is a tag iff the tag match at the front has length n |
| Utils.StripTags | src/pages/components/utils.ts:117-118 | removing tags never makes the text longer |
| Utils.StripTagsDropsTag | src/pages/components/utils.ts:117-118 | a leading tag is removed |
| Utils.StripTagsKeeps | src/pages/components/utils.ts:117-118 | a leading character other than `<` is kept |
| Utils.StripTagsPlain | src/pages/components/utils.ts:117-118 | text without `<` is unchanged |
| Utils.NestedTag | src/pages/components/utils.ts:118 | a tag nested in an unfinished one: only the inner tag is removed and the outer brackets stay |
| Utils.StripTagsOnePass | src/pages/components/utils.ts:118 | the replacement is one left-to-right pass: `<a<b>>` becomes `<a>` |
| Utils.IsValidHtml | src/pages/components/utils.ts:112-122 | `isValidHtml(html)` as written: `<img` anywhere, or something left after removing the tags and then the class `[&nbsp;\s]`. No contract of its own; characterised by `Utils.IsValidHtmlIff`, `Utils.ParagraphOfClassIsInvalid` and `Utils.ParagraphPsIsInvalid` |
| Utils.IsValidHtmlIff | src/pages/components/utils.ts:112-122 | the HTML is valid iff it contains `<img`, or some character between the tags is outside `[&nbsp;\s]` |
| Utils.StripParagraph | src/pages/components/utils.ts:118 | removing tags from `<p>x</p>` gives back `x` when `x` has no `<` |
| Utils.StripTagsPlainThenTag | src/pages/components/utils.ts:118 | text without `<` followed by a tag loses only the tag |
| Utils.ParagraphOfClassIsInvalid | src/pages/components/utils.ts:119 | a paragraph made only of the letters `&;nbspNBSP` and whitespace is judged empty |
| Utils.ParagraphPsIsInvalid | src/pages/components/utils.ts:119 | the as-written check rejects the visible paragraph `<p>ps</p>` |
| Utils.IsValidHtmlIntended | src/pages/components/utils.ts:112-122 | the corrected `isValidHtml`, removing the entity `&nbsp;` and whitespace instead of a character class. No contract of its own; characterised by `Utils.IsValidHtmlIntendedWeaker`, `Utils.ParagraphIntended` and `Utils.ParagraphExamplesIntended` |
| Utils.RemoveBlank | src/pages/components/utils.ts:119 | the intended `&nbsp;`/whitespace removal never makes the text longer |
| Utils.RemoveBlankWithoutEntity | src/pages/components/utils.ts:119 | without `&`, the intended removal removes exactly the whitespace |
| Utils.RemoveBlankKeeps | src/pages/components/utils.ts:119 | a character outside the class survives the intended removal: it occurs in the result |
| Utils.IsValidHtmlIntendedWeaker | src/pages/components/utils.ts:112-122 | whatever the as-written check accepts, the intended one accepts too |
| Utils.ParagraphIntended | src/pages/components/utils.ts:112-122 | with the intended removal, a paragraph is valid iff something is left of its text |
| Utils.ParagraphExamplesIntended | src/pages/components/utils.ts:119 | the intended check accepts `<p>ps</p>`; both checks reject `<p>&nbsp;</p>` |
| JsText.IncludesAt | src/pages/components/utils.ts:113 | `includes` holds iff the literal starts at some position |
| JsText.IncludesWithout | src/pages/components/utils.ts:113 | text lacking one of the literal's characters does not include it |
| JsText.RepeatExactlyIff | src/pages/components/utils.ts:105 | `^[C]{n}$` matches iff the text has length n and every character is in C |
| JsText.RepeatOneOrMoreIff | src/plugins/mention/module/plugin.ts:63 | `^[C]+$` matches iff the text is non-empty and every character is in C |
| JsText.RemoveAll | src/pages/components/utils.ts:119 | a global replace of a class with `''` keeps no character of the class and never lengthens the text |
| JsText.RemoveAllEmptyIff | src/pages/components/utils.ts:119-121 | something is left iff some character is outside the class |
| UriCoding.Decode | src/pages/components/utils.ts:23 | a decoded text is never longer than its code, and is empty iff the code is |
| UriCoding.DecodeUnit | src/pages/components/utils.ts:23 | a character other than `%` decodes to itself; each decoded character consumes between one and all of the remaining characters |
| UriCoding.DecodeUnitEscaped | src/pages/components/utils.ts:23 | the escaped UTF-8 octets of any character decode back to that character, consuming all of them |
| UriCoding.DecodeUnitEncodeChar | src/pages/components/utils.ts:23 | decoding the encoding of one character gives back that character and consumes the whole encoding |
| UriCoding.DecodePlainText | src/pages/components/utils.ts:23 | text without `%` decodes to itself |
| UriCoding.DecodeBadEscape | src/pages/components/utils.ts:23 | a `%` that does not start two hex digits makes decoding fail (`URIError`) |
| UriCoding.DecodeEncode | src/pages/components/utils.ts:23 | decoding an encoded text gives it back |
| UriCoding.EncodeAlphabet | src/pages/components/utils.ts:23 | encoded text is made only of unreserved characters and `%` |
| UriCoding.EncodeEmpty | src/pages/components/utils.ts:20-23 | the encoding is empty iff the text is |
| UriCoding.EncodeAppend | src/pages/components/utils.ts:23 | the encoding works character by character |
| UriCoding.EncodeUnreserved | src/pages/components/utils.ts:23 | unreserved text encodes to itself |
| Json.EmpIdOf | src/pages/components/utils.ts:31 | reading `empId` gives a value iff the value is an object with that key, and throws iff it is `null` |
| Json.IsTruthy | src/pages/components/utils.ts:31 | JavaScript truthiness of a parsed value: `false`, `0`, `""` and `null` are falsy. No contract of its own |
| Json.HasTruthyEmpId | src/pages/components/utils.ts:31 | `infoObj.empId` reads without throwing and is truthy, so `!infoObj.empId` does not return. No contract of its own; characterised by `Utils.Entities` and `Utils.EncodedPayload` |
| MentionScan.QuoteEnd | src/pages/components/utils.ts:4 | the lazy `(.*?)"` stops at a `"` and spans only a valid attribute value |
| MentionScan.QuoteEndValue | src/pages/components/utils.ts:4 | over a valid value followed by `"` it stops right after the value |
| MentionScan.InfoAt | src/pages/components/utils.ts:12 | a match of `infoReg` at the front is `data-info="` followed by the captured value and `"` |
| MentionScan.SearchInfo | src/pages/components/utils.ts:15-19 | the first match of `infoReg` starts at a position where one begins, with its captured value |
| MentionScan.SearchInfoFound | src/pages/components/utils.ts:15-19 | what the search reports is exactly the capture of `infoReg` at the reported position |
| MentionScan.SearchInfoLeftmost | src/pages/components/utils.ts:15 | the search finds the leftmost match |
| MentionScan.MatchLen | src/pages/components/utils.ts:4 | a match of the mention regex starts with the marker, ends in `"`, and is long enough for marker, one character and `data-info="…"` |
| MentionScan.NoMarkerNoMatches | src/pages/components/utils.ts:5-9 | text without the marker has no matches |
| MentionScan.MatchHasInfo | src/pages/components/utils.ts:4-16 | every text the mention regex matches contains a match of `infoReg` |
| MentionScan.MatchesHaveInfo | src/pages/components/utils.ts:14-18 | so the `!infoMatch` guard never fires on matched texts |
| MentionScan.InertWithoutFirst | src/pages/components/utils.ts:4 | text without the first character of a literal cannot start or cut off a match of it |
| MentionScan.MatchesSkipInert | src/pages/components/utils.ts:5 | text that cannot start a match is skipped by the global search |
| MentionScan.MatchLenSpanHead | src/pages/components/utils.ts:4 | the mention regex matches a rendered span head from its marker to the quote that closes its payload |
| MentionScan.SearchInfoSkipInert | src/pages/components/utils.ts:15 | text that cannot start an `infoReg` match shifts the first match by its length |
| MentionScan.MatchesSpanHead | src/pages/components/utils.ts:4-5 | a rendered span head is matched whole, and the search resumes after it |
| MentionScan.Heads | src/pages/components/utils.ts:4-5 | one head per span |
| MentionScan.ScanDocument | src/pages/components/utils.ts:4-5 | the matches in a document of well-formed spans are exactly the span heads, in order |
| MentionPlugin.GetMentionConfig | src/plugins/mention/module/plugin.ts:9-13 | the hooks are read iff both `EXTEND_CONF` and `mentionConfig` are present (otherwise the destructuring throws) |
| MentionPlugin.IsValidName | src/plugins/mention/module/plugin.ts:63 | `/^[0-9a-zA-Z._\u4e00-\u9fa5]+$/.test(t)`. No contract of its own; characterised by `MentionPlugin.IsValidNameIff` |
| MentionPlugin.IsValidNameIff | src/plugins/mention/module/plugin.ts:63 | the name test holds iff the text is non-empty and made only of `0-9a-zA-Z._` and CJK ideographs U+4E00–U+9FA5; `""` fails |
| MentionPlugin.ArmedBy | src/plugins/mention/module/plugin.ts:43-47 | one run of the second stage arms one `_hide` listener per event, in source order, all of that run |
| MentionPlugin.ListenersFor | src/plugins/mention/module/plugin.ts:43-47 | one listener per event, in the given order, all for one closure |
| MentionPlugin.HideEventsDistinct | src/plugins/mention/module/plugin.ts:43-47 | the five events are different |
| MentionPlugin.Unfired | src/plugins/mention/module/plugin.ts:43-47 | after an emit, only listeners for other events remain, and never more than before |
| MentionPlugin.UnfiredFrom | src/plugins/mention/module/plugin.ts:43-47 | every listener left after an emit was armed before it |
| MentionPlugin.UnfiredKeepsOthers | src/plugins/mention/module/plugin.ts:43-47 | every listener for another event stays armed |
| MentionPlugin.UnfiredDistinct | src/plugins/mention/module/plugin.ts:43-47 | an emit keeps the listeners pairwise distinct |
| MentionPlugin.HidesOf | src/plugins/mention/module/plugin.ts:40-47 | an emit makes at most one `hideModal` call per armed listener |
| MentionPlugin.HidesOfFrom | src/plugins/mention/module/plugin.ts:40-47 | each such call comes from a listener armed for that event whose closure saw `hideModal` |
| MentionPlugin.HidesOfDistinct | src/plugins/mention/module/plugin.ts:40-47 | with distinct listeners, one emit never makes the same closure's call twice |
| MentionPlugin.EmitAgainHidesNothing | src/plugins/mention/module/plugin.ts:43-47 | `once`: emitting the same event a second time fires nothing and changes nothing |
| MentionPlugin.NoShows | src/plugins/mention/module/plugin.ts:40-42 | `_hide` never calls `showModal` |
| MentionPlugin.HidesAreNew | src/plugins/mention/module/plugin.ts:40-47 | each call an emit makes is a `_hide` call on that event that the trace does not hold yet, from a stage that has run |
| MentionPlugin.EmitOnceEach | src/plugins/mention/module/plugin.ts:40-47 | after an emit, no `_hide` call appears twice in the trace |
| MentionPlugin.EmitArmedState | src/plugins/mention/module/plugin.ts:40-47 | the listeners left after an emit are distinct, from stages that have run, and have not called yet |
| MentionPlugin.EmitKeepsTrace | src/plugins/mention/module/plugin.ts:40-47 | an emit keeps the trace ordered and its `_hide` calls unique, and calls no `showModal` |
| MentionPlugin.EmitAppend | src/plugins/mention/module/plugin.ts:43-47 | an emit treats the listeners one after the other: it distributes over concatenation |
| MentionPlugin.EmitOthers | src/plugins/mention/module/plugin.ts:43-47 | listeners for other events neither fire nor go away |
| MentionPlugin.FiresOwn | src/plugins/mention/module/plugin.ts:40-47 | when only the k-th listener is armed for the event, the emit removes exactly that one and makes its call alone |
| MentionPlugin.EventFiresOwn | src/plugins/mention/module/plugin.ts:40-47 | each of the five events fires its own listener of a stage, and the other four stay armed in order |
| MentionPlugin.ScrollFiresOne | src/plugins/mention/module/plugin.ts:43-47 | `scroll` fires only the `scroll` listener of a stage, and the other four stay armed |
| MentionPlugin.Editor.constructor | src/plugins/mention/module/plugin.ts:15-17 | a new editor keeps its configuration and its original `isInline`/`isVoid`, is not yet decorated, and its state is empty |
| MentionPlugin.Editor.Select | src/plugins/mention/module/plugin.ts:23 | the selection becomes the given elements |
| MentionPlugin.Editor.WithMention | src/plugins/mention/module/plugin.ts:15-17 | installs the overrides and returns the same editor |
| MentionPlugin.Editor.IsInline | src/plugins/mention/module/plugin.ts:74-81 | after `withMention`, mention elements are inline and other elements answer as before |
| MentionPlugin.Editor.IsVoid | src/plugins/mention/module/plugin.ts:84-91 | after `withMention`, mention elements are void and other elements answer as before |
| MentionPlugin.Editor.SelectionHasVoid | src/plugins/mention/module/plugin.ts:23-24 | `elems.some((elem) => newEditor.isVoid(elem))` over the selected elements. No contract of its own; `Editor.InsertText` delegates exactly when it holds, and `AtOnSelectedMention` exercises it |
| MentionPlugin.Editor.InsertText | src/plugins/mention/module/plugin.ts:20-71 | with a void element selected it only delegates. If `EXTEND_CONF` or `mentionConfig` is missing, reading the hooks throws `TypeError` with no effect; a missing `showModal` or `hideModal` is only never called. For `@` it schedules the show stage and delegates. For other text it calls `hideModal` first when the text is not a name and the hook exists, then delegates. Listeners are untouched and the editor invariant is kept |
| MentionPlugin.Editor.ScheduleShow | src/plugins/mention/module/plugin.ts:33-60 | for `@`: the show stage is queued, then `@` is inserted |
| MentionPlugin.Editor.TypeOther | src/plugins/mention/module/plugin.ts:63-70 | for other text: `hideModal` first when the text is not a name and the hook exists, then the insertion |
| MentionPlugin.Editor.Delegate | src/plugins/mention/module/plugin.ts:26 | the original `insertText` appends one insertion and keeps the trace facts |
| MentionPlugin.Editor.CallHideOnTyped | src/plugins/mention/module/plugin.ts:66-68 | one `hideModal` call for typed text is appended, invariant kept |
| MentionPlugin.Editor.RunNextTask | src/plugins/mention/module/plugin.ts:34-57 | the oldest callback runs. The show stage calls `showModal` when present and queues the second stage. The second stage arms five listeners for a new closure. The invariant is kept, so `showModal` never runs more often than `@` was typed |
| MentionPlugin.Editor.RunShowStage | src/plugins/mention/module/plugin.ts:34-39 | the show stage calls `showModal` when present and queues the second stage behind the pending ones |
| MentionPlugin.Editor.CallShowModal | src/plugins/mention/module/plugin.ts:36 | one `showModal` call is appended while an `@` is still unanswered, invariant kept |
| MentionPlugin.Editor.RunArmStage | src/plugins/mention/module/plugin.ts:39-56 | the second stage leaves the queue and arms its five listeners |
| MentionPlugin.Editor.Arm | src/plugins/mention/module/plugin.ts:39-47 | appends the stage's five listeners and numbers the next closure, keeping listeners pairwise distinct and not yet fired |
| MentionPlugin.Editor.Emit | src/plugins/mention/module/plugin.ts:40-47 | the listeners for the event fire once and are removed, their `hideModal` calls are appended in registration order, and no closure ever calls `hideModal` twice for one event |
| MentionPlugin.NewMentionEditor | src/plugins/mention/module/plugin.ts:15-17 | a fresh decorated editor with both hooks and empty state |
| MentionPlugin.TypeAtAndWait | src/plugins/mention/module/plugin.ts:33-60 | typing `@` and running both stages inserts `@`, shows the modal once and arms the five listeners |
| MentionPlugin.TypeSpace | src/plugins/mention/module/plugin.ts:63-70 | a typed space calls `hideModal` and then is inserted |
| MentionPlugin.SessionContent | src/plugins/mention/module/plugin.ts:59-70 | the text inserted along that session is `@ ` |
| MentionPlugin.TypeAtThenSpace | src/plugins/mention/module/plugin.ts:33-70 | `@`, both stages, then a space: the content is `@ ` and the modal is shown, then hidden because of the typed space, before the space is inserted |
| MentionPlugin.ScrollTwiceAfterAt | src/plugins/mention/module/plugin.ts:34-47 | after `@` and both stages, two scrolls hide the modal once, and the four other listeners stay armed |
| MentionPlugin.ScrollAfterArming | src/plugins/mention/module/plugin.ts:43-47 | the first `scroll` after arming fires only the `scroll` listener; the second fires nothing and leaves the four others |
| MentionPlugin.AtOnSelectedMention | src/plugins/mention/module/plugin.ts:23-28 | with a mention element selected, `@` is only inserted and nothing is scheduled |

## Left out

- `onBlur`, `getElementsHeight`, `isCollapsed`, `isCursorMove` (utils.ts:48-97): DOM and selection queries outside the extraction and text-check core.
- `console.log` calls (utils.ts:37, 104; plugin.ts:64): output only, with no effect on results.
- Strings are sequences of Unicode scalar values, not UTF-16 code units. A lone surrogate, for which `encodeURIComponent` throws and to which no escape sequence decodes, cannot be represented, although `decodeURIComponent` would copy one unchanged.
- `hideOnChange` (plugin.ts:49-55): defined but never registered, because its registration is commented out.
- `setTimeout` timing: callbacks run in FIFO order whenever the model's event loop (`RunNextTask`) is stepped. Interleaving with other timers is not modelled.
- `JSON.parse` (a builtin) is the parameter `parse`. Its duplicate-key and number-rounding behaviour is not modelled, and `NaN` cannot occur in `Json.Number`.
- The `showModal`/`hideModal` hooks and `DomEditor` are foreign code. Calls to them are recorded in the trace, and their own effects are out of scope.
- MentionPlugin.Editor.WithMention: applying it a second time (which would wrap the overrides twice) is excluded by its precondition.
- MentionScan.Matches: it has no contract of its own. Its behaviour is stated by `NoMarkerNoMatches`, `MatchesHaveInfo`, `MatchesSpanHead` and `ScanDocument`.
- MentionScan.ScanDocument: it is proved for documents built from well-formed spans. The regex's backtracking over arbitrary HTML is defined by `Matches`, but only these shapes are characterised.
- `infoMatch.length <= 1` (utils.ts:16): a successful match always has a capture group, so this case never arises and has no branch in the model.

## Findings

| source | as written | input that shows it | evidently intended | confidence | as-written member | corrected member |
|---|---|---|---|---|---|---|
| src/pages/components/utils.ts:23 | `decodeURIComponent(infoCode)` runs outside the `try`, so a bad escape throws `URIError` out of `getEmployee` and every entity found so far is lost | a document with one well-formed span and one span whose `data-info` is `%` | a bad escape skips that mention, like invalid JSON and a missing `empId` | not executed | Utils.BadEscapeAbortsAsWritten | Utils.GetEmployee |
| src/pages/components/utils.ts:119 | `/[&nbsp;\s]/gi` is a character class, so it removes every `&`, `;`, `n`, `b`, `s`, `p` in either case, and every whitespace character | `<p>ps</p>`, a visible paragraph judged empty | remove the `&nbsp;` entity and whitespace: `/&nbsp;\|\s/gi` | not executed | Utils.ParagraphPsIsInvalid | Utils.ParagraphExamplesIntended |
