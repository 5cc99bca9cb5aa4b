/**
 * The mention plugin of the editor: `withMention` overrides the editor's
 * `insertText`, `isInline` and `isVoid`. Typing `@` schedules, through two
 * nested `setTimeout`s, a call of the configured `showModal` hook and then
 * the arming of five one-shot listeners that call `hideModal`; typing text
 * that is not part of a name calls `hideModal` at once.
 *
 * The editor is a class. What the plugin does to the world is recorded in
 * `trace` (calls of the original `insertText` and of the two hooks), the
 * `setTimeout` callbacks wait in the FIFO queue `tasks`, and the listeners
 * armed with `editor.once` sit in `listeners` until their event is emitted.
 */
module MentionPlugin {
  import opened Wrappers
  import opened JsText

  const MENTION: string := "mention"

  /** An element of the document; `nodeType` is what `DomEditor.getNodeType` reports for it. */
  datatype Node = Node(nodeType: string, key: nat)

  /** Which of the two optional hooks of `mentionConfig` are present. */
  datatype Hooks = Hooks(hasShowModal: bool, hasHideModal: bool)

  datatype ExtendConf = ExtendConf(mentionConfig: Option<Hooks>)

  /** What `editor.getConfig()` returns, as far as the plugin reads it. */
  datatype EditorConfig = EditorConfig(extendConf: Option<ExtendConf>)

  /**
   * `getMentionConfig(editor)` together with the destructuring of its result
   * in `insertText`: `None` stands for the `TypeError` thrown when
   * `EXTEND_CONF` or `mentionConfig` is missing.
   */
  function GetMentionConfig(config: EditorConfig): (r: Option<Hooks>)
    ensures r.None? <==> config.extendConf.None? || config.extendConf.value.mentionConfig.None?
    ensures r.Some? ==> Some(r.value) == config.extendConf.value.mentionConfig
  {
    match config.extendConf
    case None => None
    case Some(ext) => ext.mentionConfig
  }

  /** The events on which the second deferred stage arms a one-shot `_hide`. */
  const HIDE_EVENTS: seq<string> := ["fullScreen", "unFullScreen", "scroll", "modalOrPanelShow", "modalOrPanelHide"]

  /**
   * A listener armed with `editor.once(event, _hide)`. `cycle` numbers the
   * second stage that created its `_hide` closure; `hasHideModal` is whether
   * that closure sees a `hideModal` hook.
   */
  datatype Listener = Listener(event: string, cycle: nat, hasHideModal: bool)

  /** A pending `setTimeout` callback: the show stage, or the stage that arms the listeners. */
  datatype Task = ShowStage(hooks: Hooks) | ArmStage(hooks: Hooks)

  /** Why `hideModal` was called: typed text, or the `_hide` of a stage on one of its events. */
  datatype HideCause = OnTyped | OnEvent(cycle: nat, event: string)

  /** What the plugin does to the world, in the order it happens. */
  datatype Effect = Inserted(text: string) | ShowModalCalled | HideModalCalled(cause: HideCause)

  // ---------------------------------------------------------------------------
  // The name test of insertText.

  /** The class `[0-9a-zA-Z._一-龥]`. */
  predicate IsValidNameChar(c: char) {
    '0' <= c <= '9' || 'a' <= c <= 'z' || 'A' <= c <= 'Z' || c == '.' || c == '_' || '一' <= c <= '龥'
  }

  /** `/^[0-9a-zA-Z._一-龥]+$/.test(t)`. */
  predicate IsValidName(t: string) {
    RepeatOneOrMore(IsValidNameChar, t)
  }

  /** The test passes exactly for non-empty text made only of name characters; the empty string fails. */
  lemma IsValidNameIff(t: string)
    ensures IsValidName(t) <==> |t| >= 1 && forall i :: 0 <= i < |t| ==> IsValidNameChar(t[i])
    ensures !IsValidName("")
  {
    RepeatOneOrMoreIff(IsValidNameChar, t);
  }

  // ---------------------------------------------------------------------------
  // Reading the trace.

  /** The text the original `insertText` has been asked to insert, in order. */
  function Content(trace: seq<Effect>): string
    decreases |trace|
  {
    if trace == [] then []
    else (if trace[0].Inserted? then trace[0].text else []) + Content(trace[1..])
  }

  function ShowCalls(trace: seq<Effect>): nat
    decreases |trace|
  {
    if trace == [] then 0 else (if trace[0].ShowModalCalled? then 1 else 0) + ShowCalls(trace[1..])
  }

  function AtInsertions(trace: seq<Effect>): nat
    decreases |trace|
  {
    if trace == [] then 0 else (if trace[0] == Inserted("@") then 1 else 0) + AtInsertions(trace[1..])
  }

  lemma {:induction false} CountsAppend(a: seq<Effect>, b: seq<Effect>)
    ensures ShowCalls(a + b) == ShowCalls(a) + ShowCalls(b)
    ensures AtInsertions(a + b) == AtInsertions(a) + AtInsertions(b)
    ensures Content(a + b) == Content(a) + Content(b)
    decreases |a|
  {
    if a == [] {
      assert a + b == b;
    } else {
      assert (a + b)[0] == a[0] && (a + b)[1..] == a[1..] + b;
      CountsAppend(a[1..], b);
      var first := if a[0].Inserted? then a[0].text else [];
      assert first + (Content(a[1..]) + Content(b)) == (first + Content(a[1..])) + Content(b);
    }
  }

  /** Along the whole trace, `showModal` has never been called more often than `@` has been inserted. */
  predicate OrderedPrefixes(trace: seq<Effect>) {
    forall p :: 0 <= p <= |trace| ==> ShowCalls(trace[..p]) <= AtInsertions(trace[..p])
  }

  /** Appending effects other than `showModal` calls keeps the trace ordered. */
  lemma OrderedAppendQuiet(a: seq<Effect>, b: seq<Effect>)
    requires OrderedPrefixes(a) && ShowCalls(b) == 0
    ensures OrderedPrefixes(a + b)
  {
    forall p | 0 <= p <= |a + b| ensures ShowCalls((a + b)[..p]) <= AtInsertions((a + b)[..p]) {
      if p <= |a| {
        assert (a + b)[..p] == a[..p];
      } else {
        var q := p - |a|;
        assert (a + b)[..p] == a + b[..q];
        assert a[..|a|] == a;
        CountsAppend(a, b[..q]);
        assert b == b[..q] + b[q..];
        CountsAppend(b[..q], b[q..]);
      }
    }
  }

  /** A `showModal` call may follow in an ordered trace that has an unanswered `@`. */
  lemma OrderedAppendShow(a: seq<Effect>)
    requires OrderedPrefixes(a) && ShowCalls(a) < AtInsertions(a)
    ensures OrderedPrefixes(a + [ShowModalCalled])
  {
    var b := a + [ShowModalCalled];
    forall p | 0 <= p <= |b| ensures ShowCalls(b[..p]) <= AtInsertions(b[..p]) {
      if p <= |a| {
        assert b[..p] == a[..p];
      } else {
        assert b[..p] == b;
        CountsAppend(a, [ShowModalCalled]);
      }
    }
  }

  /** No `_hide` closure calls `hideModal` twice for the same event. */
  predicate OnceEach(trace: seq<Effect>) {
    forall i, j :: 0 <= i < j < |trace| && trace[i].HideModalCalled? && trace[i].cause.OnEvent? ==> trace[i] != trace[j]
  }

  lemma OnceEachAppendOther(a: seq<Effect>, b: seq<Effect>)
    requires OnceEach(a)
    requires forall k :: 0 <= k < |b| ==> !(b[k].HideModalCalled? && b[k].cause.OnEvent?)
    ensures OnceEach(a + b)
  {
    var c := a + b;
    forall i, j | 0 <= i < j < |c| && c[i].HideModalCalled? && c[i].cause.OnEvent? ensures c[i] != c[j] {
      if j >= |a| {
        assert c[j] == b[j - |a|];
        if i >= |a| {
          assert c[i] == b[i - |a|];
        }
      }
    }
  }

  // ---------------------------------------------------------------------------
  // The task queue and the listeners.

  function PendingShows(tasks: seq<Task>): nat
    decreases |tasks|
  {
    if tasks == [] then 0 else (if tasks[0].ShowStage? then 1 else 0) + PendingShows(tasks[1..])
  }

  function PendingArms(tasks: seq<Task>): nat
    decreases |tasks|
  {
    if tasks == [] then 0 else (if tasks[0].ArmStage? then 1 else 0) + PendingArms(tasks[1..])
  }

  lemma {:induction false} PendingAppend(a: seq<Task>, b: seq<Task>)
    ensures PendingShows(a + b) == PendingShows(a) + PendingShows(b)
    ensures PendingArms(a + b) == PendingArms(a) + PendingArms(b)
    decreases |a|
  {
    if a == [] {
      assert a + b == b;
    } else {
      assert (a + b)[0] == a[0] && (a + b)[1..] == a[1..] + b;
      PendingAppend(a[1..], b);
    }
  }

  /** One `editor.once(event, _hide)` per event, in order, all for the closure of stage `cycle`. */
  function ListenersFor(events: seq<string>, cycle: nat, hasHideModal: bool): (r: seq<Listener>)
    ensures |r| == |events|
    ensures forall k :: 0 <= k < |r| ==> r[k] == Listener(events[k], cycle, hasHideModal)
    decreases |events|
  {
    if events == [] then [] else [Listener(events[0], cycle, hasHideModal)] + ListenersFor(events[1..], cycle, hasHideModal)
  }

  /** The five `editor.once` registrations of one run of the second stage, in source order. */
  function ArmedBy(cycle: nat, hooks: Hooks): (r: seq<Listener>)
    ensures |r| == |HIDE_EVENTS|
    ensures forall k :: 0 <= k < |r| ==> r[k] == Listener(HIDE_EVENTS[k], cycle, hooks.hasHideModal)
  {
    ListenersFor(HIDE_EVENTS, cycle, hooks.hasHideModal)
  }

  /** The five events are different, so one stage arms one listener per event. */
  lemma HideEventsDistinct()
    ensures forall i, j :: 0 <= i < j < |HIDE_EVENTS| ==> HIDE_EVENTS[i] != HIDE_EVENTS[j]
  {
    assert HIDE_EVENTS[0][0] == 'f' && HIDE_EVENTS[1][0] == 'u' && HIDE_EVENTS[2][0] == 's';
    assert HIDE_EVENTS[3][|HIDE_EVENTS[3]| - 1] == 'w' && HIDE_EVENTS[4][|HIDE_EVENTS[4]| - 1] == 'e';
  }

  /** The listeners that stay armed when `event` is emitted. */
  function Unfired(ls: seq<Listener>, event: string): (r: seq<Listener>)
    ensures |r| <= |ls|
    ensures forall k :: 0 <= k < |r| ==> r[k].event != event
    decreases |ls|
  {
    if ls == [] then []
    else if ls[0].event == event then Unfired(ls[1..], event)
    else [ls[0]] + Unfired(ls[1..], event)
  }

  /** The listeners that stay armed were armed before. */
  lemma {:induction false} UnfiredFrom(ls: seq<Listener>, event: string)
    ensures forall k :: 0 <= k < |Unfired(ls, event)| ==> Unfired(ls, event)[k] in ls
    decreases |ls|
  {
    if ls != [] {
      UnfiredFrom(ls[1..], event);
      var rest := Unfired(ls[1..], event);
      forall k | 0 <= k < |rest| ensures rest[k] in ls {
        assert rest[k] in ls[1..];
      }
    }
  }

  /** The `hideModal` calls made, in registration order, by the listeners that `event` fires. */
  function HidesOf(ls: seq<Listener>, event: string): (r: seq<Effect>)
    ensures |r| <= |ls|
    decreases |ls|
  {
    if ls == [] then []
    else
      var rest := HidesOf(ls[1..], event);
      if ls[0].event == event && ls[0].hasHideModal then
        [HideModalCalled(OnEvent(ls[0].cycle, event))] + rest
      else rest
  }

  /** Each `hideModal` call on `event` comes from a listener armed for `event` that sees the hook. */
  lemma {:induction false} HidesOfFrom(ls: seq<Listener>, event: string, k: nat)
    requires k < |HidesOf(ls, event)|
    ensures exists m :: 0 <= m < |ls| && ls[m].event == event && ls[m].hasHideModal
                        && HidesOf(ls, event)[k] == HideModalCalled(OnEvent(ls[m].cycle, event))
    decreases |ls|
  {
    var rest := HidesOf(ls[1..], event);
    if ls[0].event == event && ls[0].hasHideModal {
      if k > 0 {
        HidesOfFrom(ls[1..], event, k - 1);
        var m :| 0 <= m < |ls[1..]| && ls[1..][m].event == event && ls[1..][m].hasHideModal
                 && rest[k - 1] == HideModalCalled(OnEvent(ls[1..][m].cycle, event));
        assert ls[m + 1] == ls[1..][m];
      }
    } else {
      HidesOfFrom(ls[1..], event, k);
      var m :| 0 <= m < |ls[1..]| && ls[1..][m].event == event && ls[1..][m].hasHideModal
               && rest[k] == HideModalCalled(OnEvent(ls[1..][m].cycle, event));
      assert ls[m + 1] == ls[1..][m];
    }
  }

  /** No two armed listeners belong to the same stage and event. */
  predicate DistinctListeners(ls: seq<Listener>) {
    forall i, j :: 0 <= i < j < |ls| ==> ls[i].cycle != ls[j].cycle || ls[i].event != ls[j].event
  }

  lemma {:induction false} HidesOfDistinct(ls: seq<Listener>, event: string)
    requires DistinctListeners(ls)
    ensures forall i, j :: 0 <= i < j < |HidesOf(ls, event)| ==> HidesOf(ls, event)[i] != HidesOf(ls, event)[j]
    decreases |ls|
  {
    if ls != [] {
      assert DistinctListeners(ls[1..]) by {
        forall i, j | 0 <= i < j < |ls[1..]| ensures ls[1..][i].cycle != ls[1..][j].cycle || ls[1..][i].event != ls[1..][j].event {
          assert ls[1..][i] == ls[i + 1] && ls[1..][j] == ls[j + 1];
        }
      }
      HidesOfDistinct(ls[1..], event);
      var rest := HidesOf(ls[1..], event);
      if ls[0].event == event && ls[0].hasHideModal {
        forall k | 0 <= k < |rest| ensures rest[k] != HideModalCalled(OnEvent(ls[0].cycle, event)) {
          HidesOfFrom(ls[1..], event, k);
          var m :| 0 <= m < |ls[1..]| && ls[1..][m].event == event && ls[1..][m].hasHideModal
                   && rest[k] == HideModalCalled(OnEvent(ls[1..][m].cycle, event));
          assert ls[m + 1] == ls[1..][m];
        }
      }
    }
  }

  /** Once `event` has been emitted, emitting it again fires nothing: every `_hide` is registered with `once`. */
  lemma {:induction false} EmitAgainHidesNothing(ls: seq<Listener>, event: string)
    ensures HidesOf(Unfired(ls, event), event) == []
    ensures Unfired(Unfired(ls, event), event) == Unfired(ls, event)
    decreases |ls|
  {
    if ls != [] {
      EmitAgainHidesNothing(ls[1..], event);
      if ls[0].event != event {
        var u := [ls[0]] + Unfired(ls[1..], event);
        assert u[0] == ls[0] && u[1..] == Unfired(ls[1..], event);
      }
    }
  }

  /** A listener that `event` fires was armed for `event`; the others stay armed, in order. */
  lemma {:induction false} UnfiredKeepsOthers(ls: seq<Listener>, event: string)
    ensures forall l :: l in ls && l.event != event ==> l in Unfired(ls, event)
    decreases |ls|
  {
    if ls != [] {
      UnfiredKeepsOthers(ls[1..], event);
    }
  }

  /**
   * The listener facts the editor keeps: armed listeners are pairwise
   * distinct and were armed by a stage that has run; every `_hide` call in
   * the trace comes from such a stage; no armed `_hide` has called yet.
   */
  ghost predicate ArmedState(trace: seq<Effect>, ls: seq<Listener>, cycles: nat) {
    && DistinctListeners(ls)
    && (forall k :: 0 <= k < |ls| ==> ls[k].cycle < cycles)
    && (forall k :: 0 <= k < |trace| && trace[k].HideModalCalled? && trace[k].cause.OnEvent? ==> trace[k].cause.cycle < cycles)
    && (forall k :: 0 <= k < |ls| ==> HideModalCalled(OnEvent(ls[k].cycle, ls[k].event)) !in trace)
  }

  /** The calls an emit makes are `_hide` calls on that event, new to the trace, from stages that have run. */
  lemma HidesAreNew(trace: seq<Effect>, ls: seq<Listener>, cycles: nat, event: string)
    requires ArmedState(trace, ls, cycles)
    ensures forall k :: 0 <= k < |HidesOf(ls, event)| ==>
      && HidesOf(ls, event)[k].HideModalCalled? && HidesOf(ls, event)[k].cause.OnEvent?
      && HidesOf(ls, event)[k].cause.event == event
      && HidesOf(ls, event)[k] !in trace && HidesOf(ls, event)[k].cause.cycle < cycles
  {
    forall k | 0 <= k < |HidesOf(ls, event)|
      ensures HidesOf(ls, event)[k].HideModalCalled? && HidesOf(ls, event)[k].cause.OnEvent?
      ensures HidesOf(ls, event)[k].cause.event == event
      ensures HidesOf(ls, event)[k] !in trace && HidesOf(ls, event)[k].cause.cycle < cycles
    {
      HidesOfFrom(ls, event, k);
    }
  }

  /** An emit keeps every `_hide` call in the trace unique. */
  lemma EmitOnceEach(trace: seq<Effect>, ls: seq<Listener>, cycles: nat, event: string)
    requires OnceEach(trace) && ArmedState(trace, ls, cycles)
    ensures OnceEach(trace + HidesOf(ls, event))
  {
    var hides := HidesOf(ls, event);
    HidesAreNew(trace, ls, cycles, event);
    HidesOfDistinct(ls, event);
    var t := trace + hides;
    forall i, j | 0 <= i < j < |t| && t[i].HideModalCalled? && t[i].cause.OnEvent? ensures t[i] != t[j] {
      if j >= |trace| {
        assert t[j] == hides[j - |trace|];
        if i >= |trace| {
          assert t[i] == hides[i - |trace|];
        } else {
          assert t[i] in trace;
        }
      }
    }
  }

  /** An emit keeps the listener facts for the listeners that stay armed. */
  lemma EmitArmedState(trace: seq<Effect>, ls: seq<Listener>, cycles: nat, event: string)
    requires ArmedState(trace, ls, cycles)
    ensures ArmedState(trace + HidesOf(ls, event), Unfired(ls, event), cycles)
  {
    var hides := HidesOf(ls, event);
    HidesAreNew(trace, ls, cycles, event);
    var t := trace + hides;
    var rest := Unfired(ls, event);
    UnfiredDistinct(ls, event);
    UnfiredFrom(ls, event);
    forall k | 0 <= k < |rest| ensures HideModalCalled(OnEvent(rest[k].cycle, rest[k].event)) !in t {
      var m :| 0 <= m < |ls| && ls[m] == rest[k];
      assert HideModalCalled(OnEvent(rest[k].cycle, rest[k].event)) !in hides;
    }
    forall k | 0 <= k < |t| && t[k].HideModalCalled? && t[k].cause.OnEvent? ensures t[k].cause.cycle < cycles {
      if k >= |trace| {
        assert t[k] == hides[k - |trace|];
      }
    }
  }

  /** Everything an emit needs about the trace: ordered, unique `_hide` calls, listener facts kept. */
  lemma EmitKeepsTrace(trace: seq<Effect>, ls: seq<Listener>, cycles: nat, event: string)
    requires OrderedPrefixes(trace) && OnceEach(trace) && ArmedState(trace, ls, cycles)
    ensures OrderedPrefixes(trace + HidesOf(ls, event)) && OnceEach(trace + HidesOf(ls, event))
    ensures ArmedState(trace + HidesOf(ls, event), Unfired(ls, event), cycles)
    ensures ShowCalls(HidesOf(ls, event)) == 0
  {
    HidesAreNew(trace, ls, cycles, event);
    NoShows(HidesOf(ls, event));
    OrderedAppendQuiet(trace, HidesOf(ls, event));
    EmitOnceEach(trace, ls, cycles, event);
    EmitArmedState(trace, ls, cycles, event);
  }

  // ---------------------------------------------------------------------------
  // The editor.

  class Editor {
    /** The elements `DomEditor.getSelectedElems` reports for the current selection. */
    var selected: seq<Node>
    /** What `editor.getConfig()` returns. */
    const config: EditorConfig
    /** The editor's `isInline` and `isVoid` before `withMention` replaced them. */
    const originalIsInline: Node -> bool
    const originalIsVoid: Node -> bool
    /** Whether `withMention` has been applied. */
    var decorated: bool

    var trace: seq<Effect>
    var tasks: seq<Task>
    var listeners: seq<Listener>
    /** How many second stages have run: the number the next `_hide` closure gets. */
    var cycles: nat

    /** How many `@` insertions scheduled a show stage, and how many show stages have run. */
    ghost var triggers: nat
    ghost var showsRun: nat

    /**
     * Every `@` scheduled one show stage, run or pending; every run show stage
     * scheduled one second stage; the trace never shows the modal ahead of an
     * inserted `@`; and each armed `_hide` has not called `hideModal` for its
     * event yet, so none ever calls it twice.
     */
    ghost predicate Valid()
      reads this
    {
      Counted() && OrderedPrefixes(trace) && OnceEach(trace) && Armed()
    }

    ghost predicate Counted()
      reads this
    {
      && triggers == showsRun + PendingShows(tasks)
      && showsRun == cycles + PendingArms(tasks)
      && ShowCalls(trace) <= showsRun
      && triggers <= AtInsertions(trace)
    }

    ghost predicate Armed()
      reads this
    {
      ArmedState(trace, listeners, cycles)
    }

    constructor (config: EditorConfig, isInline: Node -> bool, isVoid: Node -> bool)
      ensures Valid()
      ensures this.config == config && originalIsInline == isInline && originalIsVoid == isVoid
      ensures !decorated && selected == [] && trace == [] && tasks == [] && listeners == [] && cycles == 0
    {
      this.config := config;
      originalIsInline := isInline;
      originalIsVoid := isVoid;
      decorated := false;
      selected := [];
      trace := [];
      tasks := [];
      listeners := [];
      cycles := 0;
      triggers := 0;
      showsRun := 0;
    }

    /** The user moves the selection. */
    method Select(elems: seq<Node>)
      modifies this`selected
      ensures selected == elems
    {
      selected := elems;
    }

    /** `withMention(editor)`: installs the three overrides and returns the same editor. */
    method WithMention() returns (e: Editor)
      requires Valid() && !decorated
      modifies this`decorated
      ensures Valid() && decorated && e == this
    {
      decorated := true;
      e := this;
    }

    /** `editor.isInline(elem)`: mention elements are inline, others as before. */
    function IsInline(elem: Node): (r: bool)
      reads this
      ensures decorated && elem.nodeType == MENTION ==> r
      ensures !decorated || elem.nodeType != MENTION ==> r == originalIsInline(elem)
    {
      if decorated && DomNodeType(elem) == MENTION then true else originalIsInline(elem)
    }

    /** `editor.isVoid(elem)`: mention elements are void, others as before. */
    function IsVoid(elem: Node): (r: bool)
      reads this
      ensures decorated && elem.nodeType == MENTION ==> r
      ensures !decorated || elem.nodeType != MENTION ==> r == originalIsVoid(elem)
    {
      if decorated && DomNodeType(elem) == MENTION then true else originalIsVoid(elem)
    }

    /** `elems.some((elem) => newEditor.isVoid(elem))` over the selected elements. */
    predicate SelectionHasVoid()
      reads this
    {
      exists k :: 0 <= k < |selected| && IsVoid(selected[k])
    }

    /**
     * The overridden `editor.insertText(t)`. With a void element selected it
     * only delegates. Otherwise it reads the hooks, which throws when
     * `EXTEND_CONF` or `mentionConfig` is missing; for `@` it schedules the show stage and
     * delegates; for other text it first calls `hideModal` when `t` is not a
     * name, then delegates.
     */
    method InsertText(t: string) returns (threw: bool)
      requires Valid()
      modifies this
      ensures Valid()
      ensures selected == old(selected) && decorated == old(decorated)
      ensures listeners == old(listeners) && cycles == old(cycles)
      ensures var hooks := GetMentionConfig(config);
        if !decorated || SelectionHasVoid() then
          !threw && trace == old(trace) + [Inserted(t)] && tasks == old(tasks)
        else if hooks.None? then
          threw && trace == old(trace) && tasks == old(tasks)
        else if t == "@" then
          !threw && trace == old(trace) + [Inserted(t)] && tasks == old(tasks) + [ShowStage(hooks.value)]
        else
          !threw && tasks == old(tasks)
          && trace == old(trace) + (if !IsValidName(t) && hooks.value.hasHideModal then [HideModalCalled(OnTyped)] else []) + [Inserted(t)]
    {
      threw := false;
      if !decorated || SelectionHasVoid() {
        Delegate(t);
        return;
      }
      var hooks := GetMentionConfig(config);
      if hooks.None? {
        threw := true;
        return;
      }
      if t == "@" {
        ScheduleShow(hooks.value);
      } else {
        TypeOther(t, hooks.value);
      }
    }

    /** `@` typed: the show stage is scheduled, then the text is inserted. */
    method ScheduleShow(hooks: Hooks)
      requires Valid()
      modifies this`tasks, this`triggers, this`trace
      ensures Valid()
      ensures tasks == old(tasks) + [ShowStage(hooks)] && trace == old(trace) + [Inserted("@")]
    {
      PendingAppend(tasks, [ShowStage(hooks)]);
      tasks := tasks + [ShowStage(hooks)];
      triggers := triggers + 1;
      Delegate("@");
    }

    /** Other text typed: `hideModal` unless it is a name, then the text is inserted. */
    method TypeOther(t: string, hooks: Hooks)
      requires Valid() && t != "@"
      modifies this`trace
      ensures Valid()
      ensures trace == old(trace) + (if !IsValidName(t) && hooks.hasHideModal then [HideModalCalled(OnTyped)] else []) + [Inserted(t)]
    {
      if !IsValidName(t) && hooks.hasHideModal {
        CallHideOnTyped();
      }
      Delegate(t);
    }

    /** The original `insertText(t)`. */
    method Delegate(t: string)
      requires OrderedPrefixes(trace) && OnceEach(trace) && Armed()
      modifies this`trace
      ensures OrderedPrefixes(trace) && OnceEach(trace) && Armed()
      ensures trace == old(trace) + [Inserted(t)]
      ensures ShowCalls(trace) == ShowCalls(old(trace))
      ensures AtInsertions(trace) == AtInsertions(old(trace)) + if t == "@" then 1 else 0
    {
      CountsAppend(trace, [Inserted(t)]);
      OrderedAppendQuiet(trace, [Inserted(t)]);
      OnceEachAppendOther(trace, [Inserted(t)]);
      trace := trace + [Inserted(t)];
    }

    method CallHideOnTyped()
      requires Valid()
      modifies this`trace
      ensures Valid() && trace == old(trace) + [HideModalCalled(OnTyped)]
    {
      CountsAppend(trace, [HideModalCalled(OnTyped)]);
      OrderedAppendQuiet(trace, [HideModalCalled(OnTyped)]);
      OnceEachAppendOther(trace, [HideModalCalled(OnTyped)]);
      trace := trace + [HideModalCalled(OnTyped)];
    }

    /**
     * The event loop runs the oldest pending `setTimeout` callback. The show
     * stage calls `showModal` when it is present and schedules the second
     * stage; the second stage arms the five one-shot listeners.
     */
    method RunNextTask() returns (ran: bool)
      requires Valid()
      modifies this
      ensures Valid()
      ensures ran <==> old(tasks) != []
      ensures selected == old(selected) && decorated == old(decorated)
      ensures !ran ==> trace == old(trace) && tasks == old(tasks) && listeners == old(listeners) && cycles == old(cycles)
      ensures ran && old(tasks)[0].ShowStage? ==>
        && trace == old(trace) + (if old(tasks)[0].hooks.hasShowModal then [ShowModalCalled] else [])
        && tasks == old(tasks)[1..] + [ArmStage(old(tasks)[0].hooks)]
        && listeners == old(listeners) && cycles == old(cycles)
      ensures ran && old(tasks)[0].ArmStage? ==>
        && trace == old(trace) && tasks == old(tasks)[1..]
        && listeners == old(listeners) + ArmedBy(old(cycles), old(tasks)[0].hooks)
        && cycles == old(cycles) + 1
    {
      if tasks == [] {
        return false;
      }
      ran := true;
      match tasks[0]
      case ShowStage(hooks) =>
        RunShowStage(hooks);
      case ArmStage(hooks) =>
        RunArmStage(hooks);
    }

    /** The first stage: `showModal` when present, then the second stage is scheduled. */
    method RunShowStage(hooks: Hooks)
      requires Valid() && tasks != [] && tasks[0] == ShowStage(hooks)
      modifies this`tasks, this`showsRun, this`trace
      ensures Valid()
      ensures tasks == old(tasks)[1..] + [ArmStage(hooks)]
      ensures trace == old(trace) + (if hooks.hasShowModal then [ShowModalCalled] else [])
    {
      var rest := tasks[1..];
      assert tasks == [ShowStage(hooks)] + rest;
      PendingAppend([ShowStage(hooks)], rest);
      PendingAppend(rest, [ArmStage(hooks)]);
      tasks := rest + [ArmStage(hooks)];
      showsRun := showsRun + 1;
      if hooks.hasShowModal {
        CallShowModal();
      }
    }

    /** `hooks.showModal(editor)`, called only after an `@` that has not been answered yet. */
    method CallShowModal()
      requires Valid() && ShowCalls(trace) < showsRun
      modifies this`trace
      ensures Valid() && trace == old(trace) + [ShowModalCalled]
    {
      CountsAppend(trace, [ShowModalCalled]);
      OrderedAppendShow(trace);
      OnceEachAppendOther(trace, [ShowModalCalled]);
      trace := trace + [ShowModalCalled];
    }

    /** The second stage: the listeners are armed. */
    method RunArmStage(hooks: Hooks)
      requires Valid() && tasks != [] && tasks[0] == ArmStage(hooks)
      modifies this`tasks, this`listeners, this`cycles
      ensures Valid()
      ensures tasks == old(tasks)[1..]
      ensures listeners == old(listeners) + ArmedBy(old(cycles), hooks) && cycles == old(cycles) + 1
    {
      var rest := tasks[1..];
      assert tasks == [ArmStage(hooks)] + rest;
      PendingAppend([ArmStage(hooks)], rest);
      tasks := rest;
      Arm(hooks);
    }

    /** The `editor.once` registrations of the second stage. */
    method Arm(hooks: Hooks)
      requires DistinctListeners(listeners)
      requires forall k :: 0 <= k < |listeners| ==> listeners[k].cycle < cycles
      requires forall k :: 0 <= k < |trace| && trace[k].HideModalCalled? && trace[k].cause.OnEvent? ==> trace[k].cause.cycle < cycles
      requires forall k :: 0 <= k < |listeners| ==> HideModalCalled(OnEvent(listeners[k].cycle, listeners[k].event)) !in trace
      modifies this`listeners, this`cycles
      ensures listeners == old(listeners) + ArmedBy(old(cycles), hooks) && cycles == old(cycles) + 1
      ensures DistinctListeners(listeners)
      ensures forall k :: 0 <= k < |listeners| ==> listeners[k].cycle < cycles
      ensures forall k :: 0 <= k < |trace| && trace[k].HideModalCalled? && trace[k].cause.OnEvent? ==> trace[k].cause.cycle < cycles
      ensures forall k :: 0 <= k < |listeners| ==> HideModalCalled(OnEvent(listeners[k].cycle, listeners[k].event)) !in trace
    {
      var armed := ArmedBy(cycles, hooks);
      HideEventsDistinct();
      var ls := listeners + armed;
      forall i, j | 0 <= i < j < |ls| ensures ls[i].cycle != ls[j].cycle || ls[i].event != ls[j].event {
        if j >= |listeners| {
          assert ls[j] == armed[j - |listeners|];
          if i >= |listeners| {
            assert ls[i] == armed[i - |listeners|];
          }
        }
      }
      forall k | 0 <= k < |ls| ensures HideModalCalled(OnEvent(ls[k].cycle, ls[k].event)) !in trace {
        if k >= |listeners| {
          assert ls[k].cycle == cycles;
        }
      }
      listeners := ls;
      cycles := cycles + 1;
    }

    /**
     * `editor.emit(event)`: every listener armed for `event` fires once, in
     * registration order, and is removed; each that sees `hideModal` calls it.
     */
    method Emit(event: string)
      requires Valid()
      modifies this`listeners, this`trace
      ensures Valid()
      ensures listeners == Unfired(old(listeners), event)
      ensures trace == old(trace) + HidesOf(old(listeners), event)
    {
      var hides := HidesOf(listeners, event);
      EmitKeepsTrace(trace, listeners, cycles, event);
      CountsAppend(trace, hides);
      trace := trace + hides;
      listeners := Unfired(listeners, event);
    }
  }

  /** What `DomEditor.getNodeType` reports for an element. */
  function DomNodeType(elem: Node): string {
    elem.nodeType
  }

  lemma {:induction false} NoShows(hides: seq<Effect>)
    requires forall k :: 0 <= k < |hides| ==> hides[k].HideModalCalled?
    ensures ShowCalls(hides) == 0
    decreases |hides|
  {
    if hides != [] {
      NoShows(hides[1..]);
    }
  }

  lemma {:induction false} UnfiredDistinct(ls: seq<Listener>, event: string)
    requires DistinctListeners(ls)
    ensures DistinctListeners(Unfired(ls, event))
    decreases |ls|
  {
    if ls != [] {
      assert DistinctListeners(ls[1..]) by {
        forall i, j | 0 <= i < j < |ls[1..]| ensures ls[1..][i].cycle != ls[1..][j].cycle || ls[1..][i].event != ls[1..][j].event {
          assert ls[1..][i] == ls[i + 1] && ls[1..][j] == ls[j + 1];
        }
      }
      UnfiredDistinct(ls[1..], event);
      UnfiredFrom(ls[1..], event);
      if ls[0].event != event {
        var rest := Unfired(ls[1..], event);
        var u := [ls[0]] + rest;
        forall i, j | 0 <= i < j < |u| ensures u[i].cycle != u[j].cycle || u[i].event != u[j].event {
          if i == 0 {
            assert u[j] == rest[j - 1] && rest[j - 1] in ls[1..];
            var m :| 0 <= m < |ls[1..]| && ls[1..][m] == rest[j - 1];
            assert ls[m + 1] == u[j];
          } else {
            assert u[i] == rest[i - 1] && u[j] == rest[j - 1];
          }
        }
      }
    }
  }

  // ---------------------------------------------------------------------------
  // Sessions.

  /** Emitting an event concerns the listeners one after the other. */
  lemma {:induction false} EmitAppend(a: seq<Listener>, b: seq<Listener>, event: string)
    ensures Unfired(a + b, event) == Unfired(a, event) + Unfired(b, event)
    ensures HidesOf(a + b, event) == HidesOf(a, event) + HidesOf(b, event)
    decreases |a|
  {
    if a == [] {
      assert a + b == b;
    } else {
      assert (a + b)[0] == a[0] && (a + b)[1..] == a[1..] + b;
      EmitAppend(a[1..], b, event);
    }
  }

  /** Listeners for other events neither fire nor go away. */
  lemma {:induction false} EmitOthers(ls: seq<Listener>, event: string)
    requires forall k :: 0 <= k < |ls| ==> ls[k].event != event
    ensures Unfired(ls, event) == ls && HidesOf(ls, event) == []
    decreases |ls|
  {
    if ls != [] {
      EmitOthers(ls[1..], event);
      assert ls == [ls[0]] + ls[1..];
    }
  }

  /** When only the k-th listener is armed for `event`, emitting it fires exactly that one. */
  lemma {:induction false} FiresOwn(ls: seq<Listener>, event: string, k: nat)
    requires k < |ls| && ls[k].event == event
    requires forall j :: 0 <= j < |ls| && j != k ==> ls[j].event != event
    ensures Unfired(ls, event) == ls[..k] + ls[k + 1..]
    ensures HidesOf(ls, event) == if ls[k].hasHideModal then [HideModalCalled(OnEvent(ls[k].cycle, event))] else []
    decreases k
  {
    var tail := ls[1..];
    if k == 0 {
      assert forall j :: 0 <= j < |tail| ==> tail[j] == ls[j + 1];
      EmitOthers(tail, event);
      assert ls[..0] + ls[1..] == tail;
    } else {
      forall j | 0 <= j < |tail| && j != k - 1 ensures tail[j].event != event {
        assert tail[j] == ls[j + 1];
      }
      assert tail[k - 1] == ls[k];
      FiresOwn(tail, event, k - 1);
      assert [ls[0]] + (tail[..k - 1] + tail[k..]) == ls[..k] + ls[k + 1..];
    }
  }

  /**
   * Each of the five events fires exactly the listener of a stage armed for
   * it: that one `_hide` runs (calling `hideModal` when the hook exists) and
   * the other four stay armed, in order.
   */
  lemma EventFiresOwn(cycle: nat, hooks: Hooks, k: nat)
    requires k < |HIDE_EVENTS|
    ensures Unfired(ArmedBy(cycle, hooks), HIDE_EVENTS[k]) == ArmedBy(cycle, hooks)[..k] + ArmedBy(cycle, hooks)[k + 1..]
    ensures HidesOf(ArmedBy(cycle, hooks), HIDE_EVENTS[k])
         == if hooks.hasHideModal then [HideModalCalled(OnEvent(cycle, HIDE_EVENTS[k]))] else []
  {
    HideEventsDistinct();
    assert forall j :: 0 <= j < |HIDE_EVENTS| && j != k ==> HIDE_EVENTS[j] != HIDE_EVENTS[k] by {
      forall j | 0 <= j < |HIDE_EVENTS| && j != k ensures HIDE_EVENTS[j] != HIDE_EVENTS[k] {
        if j > k {
          assert HIDE_EVENTS[k] != HIDE_EVENTS[j];
        }
      }
    }
    FiresOwn(ArmedBy(cycle, hooks), HIDE_EVENTS[k], k);
  }

  /** In particular, scrolling fires only the `scroll` listener. */
  lemma ScrollFiresOne(cycle: nat, hooks: Hooks)
    ensures Unfired(ArmedBy(cycle, hooks), "scroll") == ArmedBy(cycle, hooks)[..2] + ArmedBy(cycle, hooks)[3..]
    ensures HidesOf(ArmedBy(cycle, hooks), "scroll") == if hooks.hasHideModal then [HideModalCalled(OnEvent(cycle, "scroll"))] else []
  {
    EventFiresOwn(cycle, hooks, 2);
  }

  const BOTH_HOOKS: EditorConfig := EditorConfig(Some(ExtendConf(Some(Hooks(true, true)))))

  /** A fresh editor with both hooks configured, nothing selected, and `withMention` applied. */
  method NewMentionEditor() returns (e: Editor)
    ensures fresh(e) && e.Valid() && e.decorated && e.config == BOTH_HOOKS && e.selected == []
    ensures e.trace == [] && e.tasks == [] && e.listeners == [] && e.cycles == 0
  {
    var editor := new Editor(BOTH_HOOKS, (n: Node) => false, (n: Node) => false);
    e := editor.WithMention();
  }

  /** Typing `@` into such an editor and letting both deferred stages run. */
  method TypeAtAndWait(e: Editor)
    requires e.Valid() && e.decorated && e.config == BOTH_HOOKS && e.selected == []
    requires e.trace == [] && e.tasks == [] && e.listeners == [] && e.cycles == 0
    modifies e
    ensures e.Valid() && e.decorated && e.config == BOTH_HOOKS && e.selected == []
    ensures e.trace == [Inserted("@"), ShowModalCalled] && e.tasks == []
    ensures e.listeners == ArmedBy(0, Hooks(true, true)) && e.cycles == 1
  {
    assert !e.SelectionHasVoid();
    assert GetMentionConfig(e.config) == Some(Hooks(true, true));
    var threw := e.InsertText("@");
    assert e.trace == [Inserted("@")] && e.tasks == [ShowStage(Hooks(true, true))];
    var ran := e.RunNextTask();
    assert e.trace == [Inserted("@"), ShowModalCalled] && e.tasks == [ArmStage(Hooks(true, true))];
    ran := e.RunNextTask();
    assert [ArmStage(Hooks(true, true))][1..] == [];
  }

  /** Typing a space once the modal is up: `hideModal` runs, then the space is inserted. */
  method TypeSpace(e: Editor)
    requires e.Valid() && e.decorated && e.config == BOTH_HOOKS && e.selected == []
    modifies e
    ensures e.trace == old(e.trace) + [HideModalCalled(OnTyped), Inserted(" ")]
  {
    assert !IsValidName(" ") by {
      IsValidNameIff(" ");
    }
    assert !e.SelectionHasVoid();
    assert GetMentionConfig(e.config) == Some(Hooks(true, true));
    var threw := e.InsertText(" ");
    assert [HideModalCalled(OnTyped)] + [Inserted(" ")] == [HideModalCalled(OnTyped), Inserted(" ")];
  }

  /** The text inserted along the session below is `@ `. */
  lemma SessionContent(trace: seq<Effect>)
    requires trace == [Inserted("@"), ShowModalCalled, HideModalCalled(OnTyped), Inserted(" ")]
    ensures Content(trace) == "@ "
  {
    var front, back := trace[..2], trace[2..];
    assert trace == front + back;
    assert front == [Inserted("@"), ShowModalCalled] && back == [HideModalCalled(OnTyped), Inserted(" ")];
    assert Content(front) == "@" by {
      assert front[1..] == [ShowModalCalled] && front[1..][1..] == [];
      assert Content(front[1..]) == [];
    }
    assert Content(back) == " " by {
      assert back[1..] == [Inserted(" ")] && back[1..][1..] == [];
      assert Content(back[1..]) == " ";
    }
    CountsAppend(front, back);
  }

  /**
   * Typing `@`, letting the two deferred stages run, then typing a space:
   * the content is `@ `, the modal is shown once and hidden exactly once,
   * between the two insertions.
   */
  method TypeAtThenSpace() returns (trace: seq<Effect>)
    ensures Content(trace) == "@ "
    ensures trace == [Inserted("@"), ShowModalCalled, HideModalCalled(OnTyped), Inserted(" ")]
  {
    var e := NewMentionEditor();
    TypeAtAndWait(e);
    TypeSpace(e);
    trace := e.trace;
    assert trace == [Inserted("@"), ShowModalCalled] + [HideModalCalled(OnTyped), Inserted(" ")];
    SessionContent(trace);
  }

  /**
   * Typing `@`, running both stages, then scrolling twice: the first scroll
   * hides the modal through the armed `_hide`, the second finds no listener
   * left for `scroll`, and the other four stay armed.
   */
  method ScrollTwiceAfterAt() returns (trace: seq<Effect>, armed: seq<Listener>)
    ensures trace == [Inserted("@"), ShowModalCalled, HideModalCalled(OnEvent(0, "scroll"))]
    ensures armed == SCROLL_SURVIVORS
  {
    var e := NewMentionEditor();
    TypeAtAndWait(e);
    ScrollAfterArming();
    e.Emit("scroll");
    e.Emit("scroll");
    trace, armed := e.trace, e.listeners;
    assert trace == [Inserted("@"), ShowModalCalled] + [HideModalCalled(OnEvent(0, "scroll"))] + [];
  }

  /** The four listeners other than `scroll` armed in cycle 0 with `hideModal` present. */
  const SCROLL_SURVIVORS: seq<Listener> := [Listener("fullScreen", 0, true), Listener("unFullScreen", 0, true),
                                            Listener("modalOrPanelShow", 0, true), Listener("modalOrPanelHide", 0, true)]

  /** The two `scroll` emissions of the session above, on values. */
  lemma ScrollAfterArming()
    ensures Unfired(ArmedBy(0, Hooks(true, true)), "scroll") == SCROLL_SURVIVORS
    ensures HidesOf(ArmedBy(0, Hooks(true, true)), "scroll") == [HideModalCalled(OnEvent(0, "scroll"))]
    ensures Unfired(SCROLL_SURVIVORS, "scroll") == SCROLL_SURVIVORS && HidesOf(SCROLL_SURVIVORS, "scroll") == []
  {
    var armed := ArmedBy(0, Hooks(true, true));
    ScrollFiresOne(0, Hooks(true, true));
    assert armed[..2] + armed[3..] == SCROLL_SURVIVORS;
    EmitAgainHidesNothing(armed, "scroll");
  }

  /** With a mention element selected, typing `@` only inserts it: nothing is scheduled. */
  method AtOnSelectedMention() returns (trace: seq<Effect>, pending: seq<Task>)
    ensures trace == [Inserted("@")] && pending == []
  {
    var e := NewMentionEditor();
    e.Select([Node(MENTION, 0)]);
    assert e.IsVoid(e.selected[0]);
    var threw := e.InsertText("@");
    trace, pending := e.trace, e.tasks;
  }
}
