/**
 * One editor instance of dist/retype.js (`Retype`): the element, its undo
 * history, the last action, and the callback that re-highlights the markup;
 * the key, focus and click handlers; and the per-element registry behind
 * `$.fn.retype`.
 *
 * `keydown` runs in two phases: the handler itself, before the browser
 * applies the key, and the function it defers with `setTimeout`, after.
 * `KeyDown` returns what the deferred function captures; `KeyDownDeferred`
 * runs it on whatever the element has become in between.
 */
module Session {
  import opened Wrappers
  import opened Text
  import opened Dom
  import opened Caret
  import opened Tags
  import opened UndoHistory

  /** The `action` field: `'none'`, `'del'`, `'paste' + time`, `'arrow'`, `'back'`. */
  datatype Action = NoAction | Del | Paste(time: int) | Arrow | Back

  /** The fields of a key event that the handler reads. */
  datatype Key = Key(which: int, meta: bool, ctrl: bool, shift: bool)

  /**
   * The plugin option: a function, a string of trigger characters, an array
   * of them, a falsy value, or any other truthy value (`true`, `5`, `{}`),
   * on which `trigger.split` is not a function.
   */
  datatype TriggerSpec = Function(f: string -> string) | Chars(s: string) | List(a: seq<char>) | Falsy | Other

  /** The `callback` field: the user's function, or `defaultCallback` bound to the instance. */
  datatype Callback = UserFn(f: string -> string) | Default

  /** What the deferred half of `keydown` captures from the handler. */
  datatype Pending = Pending(key: Key, prevAction: Action, prevText: string, retyped: Option<string>)

  /** The instance's state as a value: the element, the history, and the action. */
  datatype Snap = Snap(region: Region, hist: HState, action: Action)

  /** Ctrl+Z or Cmd+Z. */
  predicate IsUndo(k: Key)
  {
    k.which == 90 && (k.meta || k.ctrl)
  }

  /** A non-empty string or an array: the options that replace `this.trigger`. */
  predicate SetsTriggers(spec: TriggerSpec)
  {
    (spec.Chars? && spec.s != []) || spec.List?
  }

  /**
   * `setTrigger(trigger)` on the fields `callback` and `trigger`.  On `Other`
   * the default callback is already set when `trigger.split` throws.
   */
  function SetTriggerFields(cb: Callback, tr: Option<seq<char>>, spec: TriggerSpec): (r: (Callback, Option<seq<char>>))
    ensures spec.Function? ==> r == (UserFn(spec.f), tr)
    ensures !spec.Function? ==> r.0 == Default
    ensures spec.Chars? && spec.s != [] ==> r.1 == Some(spec.s)
    ensures spec.List? ==> r.1 == Some(spec.a)
    ensures !SetsTriggers(spec) ==> r.1 == tr
  {
    match spec
    case Function(f) => (UserFn(f), tr)
    case Chars(s) => (Default, if s != [] then Some(s) else tr)
    case List(a) => (Default, Some(a))
    case Falsy => (Default, tr)
    case Other => (Default, tr)
  }

  /** `this.callback()` as a rewrite of the markup. */
  function CallbackOf(cb: Callback, tr: Option<seq<char>>): string -> string
    requires cb.Default? ==> tr.Some?
  {
    match cb
    case UserFn(f) => f
    case Default => h => Highlight(tr.value, h)
  }

  /** The callback rewrites the element's markup. */
  function Applied(r: Region, f: string -> string): Region
  {
    WithHtml(r, f(Serialize(r.nodes)))
  }

  /** `normalize`: an empty element gets a `<br>`. */
  function Normalized(r: Region): (m: Region)
    ensures Serialize(m.nodes) != []
    ensures Serialize(r.nodes) != [] ==> m == r
  {
    if Serialize(r.nodes) == [] then
      SerializeParse("<br>");
      WithHtml(r, "<br>")
    else r
  }

  /** The new action of a key other than Ctrl/Cmd+Z. */
  function Classify(key: Key, current: Action, changed: bool, now: int): Action
  {
    if key.which == 8 then Del
    else if key.which == 86 then (if key.meta || key.ctrl then Paste(now) else current)
    else if 37 <= key.which <= 40 then Arrow
    else if changed then NoAction
    else current
  }

  /** The first half of `keydown`: the element after it, and what the deferred half captures. */
  function KeyDownSync(r: Region, action: Action, key: Key): (Region, Option<Pending>)
    requires ValidRegion(r)
  {
    if key.which == 9 then (r, None)
    else if Ready(r) then
      var m := Marked(r);
      (Relocate(WithHtml(m, Serialize(m.nodes))), Some(Pending(key, action, Serialize(r.nodes), Some(Serialize(m.nodes)))))
    else (r, Some(Pending(key, action, Serialize(r.nodes), None)))
  }

  /** `prevTextRetyped || prevText`. */
  function Retyped(p: Pending): string
  {
    if p.retyped.Some? && p.retyped.value != [] then p.retyped.value else p.prevText
  }

  /** Ctrl/Cmd+Shift+Z inside the deferred callback. */
  function RedoStep(s: Snap, p: Pending): Snap
    requires Inv(s.hist)
  {
    var h1 := if s.hist.revertsPos > -1 then Pushed(s.hist, Retyped(p)) else s.hist;
    var r := Reverted(h1);
    Snap(if r.1.Some? then WithHtml(s.region, r.1.value) else s.region, r.0, s.action)
  }

  /** Ctrl/Cmd+Z inside the deferred callback. */
  function UndoStep(s: Snap, p: Pending): Snap
    requires Inv(s.hist)
  {
    var r := Popped(s.hist);
    Snap(WithHtml(s.region, r.1), Kept(r.0, Retyped(p)), Back)
  }

  /** Any other key inside the deferred callback. */
  function EditStep(s: Snap, p: Pending, currentText: string, now: int): Snap
    requires Inv(s.hist)
  {
    var changed := p.prevText != currentText;
    var a := Classify(p.key, s.action, changed, now);
    var h1 := if changed && p.prevAction != a then Cleared(Pushed(s.hist, Retyped(p))) else s.hist;
    var h2 := if a == Arrow then Updated(h1, Serialize(s.region.nodes)) else h1;
    Snap(s.region, h2, a)
  }

  /** What the callback the deferred half passes to `retype` does before `this.callback()`. */
  function Step(s: Snap, p: Pending, currentText: string, now: int): (r: Snap)
    requires Inv(s.hist)
    ensures Inv(r.hist)
  {
    if IsUndo(p.key) then (if p.key.shift then RedoStep(s, p) else UndoStep(s, p))
    else EditStep(s, p, currentText, now)
  }

  /** The callback the deferred half passes to `retype`, on the marked element. */
  function DeferredBody(s: Snap, f: string -> string, p: Pending, currentText: string, now: int): (r: Snap)
    requires Inv(s.hist)
    ensures Inv(r.hist)
  {
    var b := Step(s, p, currentText, now);
    b.(region := Applied(b.region, f))
  }

  /**
   * The deferred half of `keydown`.  `f` is `None` when the default callback
   * is in use but no trigger was ever set: `this.trigger.length` then throws
   * inside `retype`, after the branches have run, so neither the reflow, the
   * caret's restoration nor `normalize` happens.
   */
  function Deferred(s: Snap, f: Option<string -> string>, p: Pending, now: int): (r: Snap)
    requires ValidRegion(s.region) && Inv(s.hist)
    ensures ValidRegion(r.region) && Inv(r.hist)
    ensures f.Some? || !Ready(s.region) ==> Serialize(r.region.nodes) != []
  {
    var currentText := Serialize(s.region.nodes);
    if Ready(s.region) && f.None? then
      Step(s.(region := Marked(s.region)), p, currentText, now)
    else
      var after :=
        if Ready(s.region) then
          var b := DeferredBody(s.(region := Marked(s.region)), f.value, p, currentText, now);
          b.(region := Relocate(WithHtml(b.region, Serialize(b.region.nodes))))
        else s;
      after.(region := Normalized(after.region))
  }

  /** `focus`: the first entry learns that the caret is at the start. */
  function Focused(s: Snap): Snap
    requires Inv(s.hist)
  {
    s.(hist := Updated(s.hist, [MARK] + Serialize(s.region.nodes)))
  }

  /** `click`: the first entry learns where the caret is. */
  function Clicked(s: Snap): Snap
    requires ValidRegion(s.region) && Inv(s.hist)
  {
    if Ready(s.region) then
      var m := Marked(s.region);
      Snap(Relocate(WithHtml(m, Serialize(m.nodes))), Updated(s.hist, Serialize(m.nodes)), s.action)
    else s
  }

  // ---------------------------------------------------------------------
  // Properties of the handlers

  /** The first half of `keydown` is `retype` with a callback that leaves the markup alone. */
  lemma {:induction false} KeyDownSyncIsRetype(r: Region, action: Action, key: Key)
    requires ValidRegion(r) && key.which != 9
    ensures KeyDownSync(r, action, key).0 == RetypeResult(r, Unchanged)
  {
    if Ready(r) {
      SerializeParse(Serialize(Marked(r).nodes));
    }
  }

  /**
   * The first half of `keydown` keeps the text and, when the element has
   * focus and a caret, the caret's offset.
   */
  lemma {:induction false} KeyDownKeepsCaret(r: Region, action: Action, key: Key)
    requires ValidRegion(r) && WellFormed(r.nodes) && MARK !in TextContent(r.nodes)
    ensures TextContent(KeyDownSync(r, action, key).0.nodes) == TextContent(r.nodes)
    ensures Ready(r) && key.which != 9 ==>
              var m := KeyDownSync(r, action, key).0;
              m.selection.Collapsed? && ValidPos(m.nodes, m.selection.pos)
              && CaretOffset(m.nodes, m.selection.pos) == CaretOffset(r.nodes, r.selection.pos)
  {
    if Ready(r) && key.which != 9 {
      KeyDownSyncIsRetype(r, action, key);
      RetypeRoundTrip(r);
    }
  }

  /**
   * Except on Tab, the first half of `keydown` hands on the markup before
   * the key and the marked markup, which differs from it by one marker.
   */
  lemma {:induction false} KeyDownPending(r: Region, action: Action, key: Key)
    requires ValidRegion(r) && MARK !in Serialize(r.nodes)
    ensures KeyDownSync(r, action, key).1.None? <==> key.which == 9
    ensures key.which != 9 ==>
              var p := KeyDownSync(r, action, key).1.value;
              p.prevText == Serialize(r.nodes) && p.prevAction == action && p.key == key
              && Sanitize(Retyped(p)) == Serialize(r.nodes)
  {
    var h := Serialize(r.nodes);
    if key.which != 9 {
      if Ready(r) {
        MarkedMarkup(r);
        InsertAtMarkup(r.nodes, r.selection.pos);
      } else {
        SanitizeFixpoint(h);
      }
    }
  }

  /**
   * When the default callback throws for want of triggers after a key other
   * than Ctrl/Cmd+Z, the marker is left in the text at the caret and the
   * caret stays where it was.
   */
  lemma {:induction false} DeferredThrowLeavesMarker(s: Snap, p: Pending, now: int)
    requires ValidRegion(s.region) && Inv(s.hist) && Ready(s.region) && !IsUndo(p.key)
    ensures var r := Deferred(s, None, p, now);
            var t := TextContent(s.region.nodes);
            var at := CaretOffset(s.region.nodes, s.region.selection.pos);
            at <= |t| && TextContent(r.region.nodes) == t[..at] + [MARK] + t[at..]
            && r.region.selection == s.region.selection
  {
    InsertAtText(s.region.nodes, s.region.selection.pos);
  }

  /**
   * A key other than Ctrl/Cmd+Z adds an entry (the retyped text before the
   * key) only when the key changed the text and the action changed, and the
   * entry differs from the current one beyond the marker; the redo stack is
   * emptied in exactly the first two cases.
   */
  lemma {:induction false} EditHistory(s: Snap, p: Pending, currentText: string, now: int)
    requires Inv(s.hist)
    ensures var e := EditStep(s, p, currentText, now);
            var boundary := p.prevText != currentText && p.prevAction != e.action;
            var grows := boundary && Sanitize(Retyped(p)) != Sanitize(s.hist.entries[s.hist.position]);
            && Inv(e.hist) && e.region == s.region
            && (grows ==> e.hist.entries == s.hist.entries + [Retyped(p)])
            && (!grows ==> |e.hist.entries| == |s.hist.entries|)
            && (boundary ==> e.hist.reverts == [])
            && (!boundary ==> e.hist.reverts == s.hist.reverts)
  {
  }

  /** Ctrl/Cmd+Z right after a key that added an entry brings back the text from before that key. */
  lemma {:induction false} EditThenUndo(s: Snap, p: Pending, currentText: string, now: int, undo: Pending)
    requires Inv(s.hist)
    requires p.prevText != currentText && p.prevAction != EditStep(s, p, currentText, now).action
    requires Sanitize(Retyped(p)) != Sanitize(s.hist.entries[s.hist.position])
    ensures var e := EditStep(s, p, currentText, now);
            var u := UndoStep(e, undo);
            && u.region == WithHtml(s.region, Retyped(p))
            && u.hist.entries == s.hist.entries && u.action == Back
  {
    EditHistory(s, p, currentText, now);
    var e := EditStep(s, p, currentText, now);
    assert e.hist.entries[..|s.hist.entries|] == s.hist.entries;
  }

  /**
   * Ctrl/Cmd+Shift+Z right after Ctrl/Cmd+Z brings back the text the undo
   * replaced, unless that text was the first or the restored entry.
   */
  lemma {:induction false} UndoThenRedo(s: Snap, p: Pending, redo: Pending)
    requires Inv(s.hist)
    requires var h := Popped(s.hist).0;
             Sanitize(Retyped(p)) != Sanitize(h.entries[0])
             && Sanitize(Retyped(p)) != Sanitize(h.entries[h.position])
    ensures var u := UndoStep(s, p);
            RedoStep(u, redo).region == WithHtml(u.region, Retyped(p))
  {
    var u := UndoStep(s, p);
    assert u.hist.reverts == s.hist.reverts + [Retyped(p)];
    var h1 := if u.hist.revertsPos > -1 then Pushed(u.hist, Retyped(redo)) else u.hist;
    assert h1.reverts == u.hist.reverts;
  }

  /** `focus` on an unchanged first entry records the caret at the start of the text. */
  lemma {:induction false} FocusRecordsCaret(s: Snap)
    requires Inv(s.hist) && s.hist.position == 0
    requires MARK !in Serialize(s.region.nodes) && Sanitize(s.hist.entries[0]) == Serialize(s.region.nodes)
    ensures Focused(s).hist.entries == [[MARK] + Serialize(s.region.nodes)]
    ensures Focused(s).region == s.region
  {
    SanitizeUndoesInsert(Serialize(s.region.nodes), 0);
  }

  /**
   * `click` on an unchanged first entry records where the caret is, and
   * leaves the text and the caret's offset as they were.
   */
  lemma {:induction false} ClickRecordsCaret(s: Snap)
    requires ValidRegion(s.region) && Ready(s.region) && WellFormed(s.region.nodes) && Inv(s.hist)
    requires s.hist.position == 0 && MARK !in Serialize(s.region.nodes)
    requires Sanitize(s.hist.entries[0]) == Serialize(s.region.nodes)
    ensures var c := Clicked(s);
            && c.hist.entries == [Serialize(Marked(s.region).nodes)]
            && Sanitize(c.hist.entries[0]) == Serialize(s.region.nodes)
            && TextContent(c.region.nodes) == TextContent(s.region.nodes)
            && c.region.selection.Collapsed? && ValidPos(c.region.nodes, c.region.selection.pos)
            && CaretOffset(c.region.nodes, c.region.selection.pos) == CaretOffset(s.region.nodes, s.region.selection.pos)
  {
    MarkedMarkup(s.region);
    KeyDownSyncIsRetype(s.region, s.action, Key(0, false, false, false));
    VisibleSerialize(s.region.nodes);
    VisibleOmits(Serialize(s.region.nodes), MARK);
    RetypeRoundTrip(s.region);
  }

  /**
   * On well-formed markup whose tags hold no trigger (plain text, or text
   * with the spans of earlier passes), the default callback run through
   * `retype` keeps the text and the caret's offset: the tags it adds are
   * invisible.
   */
  lemma {:induction false} DefaultKeepsCaret(r: Region, triggers: seq<char>)
    requires ValidRegion(r) && Ready(r) && WellFormed(r.nodes) && TagsFree(r.nodes, triggers)
    requires MARK !in TextContent(r.nodes) && SafeTriggers(triggers)
    ensures var m := RetypeResult(r, CallbackOf(Default, Some(triggers)));
            && TextContent(m.nodes) == TextContent(r.nodes)
            && m.selection.Collapsed? && ValidPos(m.nodes, m.selection.pos)
            && CaretOffset(m.nodes, m.selection.pos) == CaretOffset(r.nodes, r.selection.pos)
  {
    var f := CallbackOf(Default, Some(triggers));
    var t := TextContent(r.nodes);
    var at := CaretOffset(r.nodes, r.selection.pos);
    var hm := Serialize(Marked(r).nodes);
    MarkedVisible(r);
    InsertAtWellFormed(r.nodes, r.selection.pos);
    InsertAtTagsFree(r.nodes, r.selection.pos, triggers);
    HighlightKeepsText(triggers, Marked(r).nodes);
    assert Visible(f(hm)) == t[..at] + [MARK] + t[at..];
    assert t[..at] + [MARK] <= Visible(f(hm));
    RetypeKeepsCaret(r, f);
    assert MARK !in t[..at] && MARK !in t[at..];
    RetypeText(r, f, t[..at], t[at..]);
    SplitJoin(t, at);
  }

  /** The marker goes into text nodes: the tags stay as they were. */
  lemma {:induction false} InsertAtTagsFree(nodes: seq<Node>, p: Pos, triggers: seq<char>)
    requires ValidPos(nodes, p) && TagsFree(nodes, triggers)
    ensures TagsFree(InsertAt(nodes, p), triggers)
  {
    var m := InsertAt(nodes, p);
    forall i, j | 0 <= i < |m| && 0 <= j < |triggers| && m[i].Tag? ensures triggers[j] !in m[i].markup {
      match p
      case InText(k, off) =>
        assert i < k || k + 3 <= i;
        if i < k { assert m[i] == nodes[i]; } else { assert m[i] == nodes[i - 2]; }
      case InContainer(c) =>
        assert i != c;
        if i < c { assert m[i] == nodes[i]; } else { assert m[i] == nodes[i - 1]; }
    }
  }

  /** `normalize.call(this)` */
  method Normalize(el: Container)
    requires el.Valid()
    modifies el
    ensures el.Valid() && el.State() == Normalized(old(el.State()))
  {
    var html := el.Html();
    if html == [] {
      el.SetHtml("<br>");
    }
  }

  /** `this.callback()`: the user's function, or the default callback on the element's markup. */
  method RunCallback(el: Container, cb: Callback, tr: Option<seq<char>>)
    requires el.Valid() && (cb.Default? ==> tr.Some?)
    modifies el
    ensures el.Valid() && el.State() == Applied(old(el.State()), CallbackOf(cb, tr))
  {
    match cb
    case UserFn(f) =>
      el.SetHtml(f(el.Html()));
    case Default =>
      var html := DefaultCallback(tr.value, el.Html());
      el.SetHtml(html);
  }

  /** The history half of Ctrl/Cmd+Shift+Z. */
  method PushRevert(history: History, prevTextRetyped: string) returns (v: Option<string>)
    requires history.Valid()
    modifies history
    ensures history.Valid()
    ensures var h := old(history.State());
            (history.State(), v) == Reverted(if h.revertsPos > -1 then Pushed(h, prevTextRetyped) else h)
  {
    if history.revertsPos > -1 {
      history.Push(prevTextRetyped);
    }
    v := history.Revert();
  }

  class Retype {
    const element: Container
    var history: History
    var action: Action
    var callback: Callback
    var trigger: Option<seq<char>>

    function Snapshot(): Snap
      reads this, element, history
    {
      Snap(element.State(), history.State(), action)
    }

    ghost predicate Valid()
      reads this, element, history
    {
      element.Valid() && history.Valid()
    }

    /** `this.trigger` is set whenever the default callback is in use. */
    predicate CallbackReady()
      reads this
    {
      callback.Default? ==> trigger.Some?
    }

    function Effective(): string -> string
      reads this
      requires CallbackReady()
    {
      CallbackOf(callback, trigger)
    }

    /** The callback `this.callback()` runs, or `None` when it would throw. */
    function Prepared(): Option<string -> string>
      reads this
    {
      if CallbackReady() then Some(Effective()) else None
    }

    /**
     * `new Retype(element, trigger)`: set the trigger, normalize, run the
     * callback, start the history at the marker followed by the markup.
     */
    constructor (el: Container, spec: TriggerSpec)
      requires el.Valid() && (spec.Function? || SetsTriggers(spec))
      modifies el
      ensures Valid() && CallbackReady() && element == el && fresh(history)
      ensures (callback, trigger) == SetTriggerFields(Default, None, spec)
      ensures element.State() == Applied(Normalized(old(el.State())), Effective())
      ensures history.State() == Init([MARK] + element.Html()) && action == NoAction
    {
      var fields := SetTriggerFields(Default, None, spec);
      Normalize(el);
      RunCallback(el, fields.0, fields.1);
      element := el;
      callback, trigger := fields.0, fields.1;
      history := new History([MARK] + el.Html());
      action := NoAction;
    }

    /** `setTrigger(trigger)`; `threw` tells whether `trigger.split` threw. */
    method SetTrigger(spec: TriggerSpec) returns (threw: bool)
      modifies this
      ensures (callback, trigger) == SetTriggerFields(old(callback), old(trigger), spec)
      ensures history == old(history) && action == old(action)
      ensures threw <==> spec.Other?
    {
      threw := spec.Other?;
      match spec
      case Function(f) =>
        callback := UserFn(f);
      case Chars(str) =>
        callback := Default;
        if str != [] {
          trigger := Some(str);
        }
      case List(a) =>
        callback := Default;
        trigger := Some(a);
      case Falsy =>
        callback := Default;
      case Other =>
        callback := Default;
    }

    /** The `keydown` handler up to the `setTimeout` call. */
    method KeyDown(key: Key) returns (prevented: bool, pending: Option<Pending>)
      requires Valid()
      modifies element
      ensures Valid() && prevented == IsUndo(key)
      ensures (element.State(), pending) == KeyDownSync(old(element.State()), action, key)
    {
      prevented := IsUndo(key);
      if key.which == 9 {
        return prevented, None;
      }
      var prevText := element.Html();
      var retyped: Option<string> := None;
      var ready := element.Begin();
      if ready {
        retyped := Some(element.Html());
        element.SetHtml(element.Html());
        element.Restore();
      }
      pending := Some(Pending(key, action, prevText, retyped));
    }

    /**
     * The function `keydown` defers, run once the browser has applied the
     * key; `threw` tells whether the default callback threw for want of
     * triggers.
     */
    method KeyDownDeferred(p: Pending, now: int) returns (threw: bool)
      requires Valid()
      modifies this, element, history
      ensures Valid() && history == old(history)
      ensures callback == old(callback) && trigger == old(trigger)
      ensures threw <==> Ready(old(element.State())) && !CallbackReady()
      ensures Snapshot() == Deferred(old(Snapshot()), Prepared(), p, now)
    {
      var currentText := element.Html();
      var prevTextRetyped := if p.retyped.Some? && p.retyped.value != [] then p.retyped.value else p.prevText;
      var ready := element.Begin();
      threw := ready && !CallbackReady();
      if ready {
        StepBody(p, prevTextRetyped, currentText, now);
        if threw {
          return;
        }
        RunCallback(element, callback, trigger);
        element.SetHtml(element.Html());
        element.Restore();
      }
      Normalize(element);
    }

    /** The branches of the callback the deferred half passes to `retype`, before `that.callback()`. */
    method StepBody(p: Pending, prevTextRetyped: string, currentText: string, now: int)
      requires Valid() && prevTextRetyped == Retyped(p)
      modifies this, element, history
      ensures Valid() && history == old(history)
      ensures callback == old(callback) && trigger == old(trigger)
      ensures Snapshot() == Step(old(Snapshot()), p, currentText, now)
    {
      if IsUndo(p.key) {
        if p.key.shift {
          Redo(p, prevTextRetyped);
        } else {
          Undo(p, prevTextRetyped);
        }
      } else {
        Edit(p, prevTextRetyped, currentText, now);
      }
    }

    /** Ctrl/Cmd+Shift+Z: the retyped text becomes an entry while something is kept, then the last kept content comes back. */
    method Redo(p: Pending, prevTextRetyped: string)
      requires Valid() && prevTextRetyped == Retyped(p)
      modifies element, history
      ensures Valid() && Snapshot() == RedoStep(old(Snapshot()), p)
    {
      var v := PushRevert(history, prevTextRetyped);
      if v.Some? {
        element.SetHtml(v.value);
      }
    }

    /** Ctrl/Cmd+Z: the last entry comes back and the retyped text is kept for redo. */
    method Undo(p: Pending, prevTextRetyped: string)
      requires Valid() && prevTextRetyped == Retyped(p)
      modifies this, element, history
      ensures Valid() && history == old(history)
      ensures callback == old(callback) && trigger == old(trigger)
      ensures Snapshot() == UndoStep(old(Snapshot()), p)
    {
      var v := history.Prev();
      element.SetHtml(v);
      history.Keep(prevTextRetyped);
      action := Back;
    }

    /** Any other key: the action is classified and the history grows when the text and the action both changed. */
    method Edit(p: Pending, prevTextRetyped: string, currentText: string, now: int)
      requires Valid() && prevTextRetyped == Retyped(p)
      modifies this, history
      ensures Valid() && history == old(history)
      ensures callback == old(callback) && trigger == old(trigger)
      ensures Snapshot() == EditStep(old(Snapshot()), p, currentText, now)
    {
      var changed := p.prevText != currentText;
      action := Classify(p.key, action, changed, now);
      ghost var h1 := if changed && p.prevAction != action then Cleared(Pushed(old(history.State()), prevTextRetyped)) else old(history.State());
      if changed && p.prevAction != action {
        history.Push(prevTextRetyped);
        history.ClearReverts();
      }
      assert history.State() == h1;
      if action == Arrow {
        history.Update(element.Html());
      }
    }

    /** The `focus` handler. */
    method Focus()
      requires Valid()
      modifies history
      ensures Valid() && Snapshot() == Focused(old(Snapshot()))
    {
      history.Update([MARK] + element.Html());
    }

    /** The `click` handler. */
    method Click()
      requires Valid()
      modifies element, history
      ensures Valid() && Snapshot() == Clicked(old(Snapshot()))
    {
      var ready := element.Begin();
      if ready {
        history.Update(element.Html());
        element.SetHtml(element.Html());
        element.Restore();
      }
    }
  }

  /** The instances `$.fn.retype` has stored with `.data('retype.instance')`, by element. */
  class Registry {
    var instances: map<Container, Retype>

    ghost predicate Valid()
      reads this
    {
      forall e :: e in instances ==> instances[e].element == e
    }

    constructor ()
      ensures Valid() && instances == map[]
    {
      instances := map[];
    }

    /** `$(el).retype(option)`: the first call creates the instance, later ones only set the trigger. */
    method Attach(el: Container, spec: TriggerSpec) returns (inst: Retype, threw: bool)
      requires Valid()
      requires el !in instances ==> el.Valid() && (spec.Function? || SetsTriggers(spec))
      modifies this, el, if el in instances then {instances[el]} else {}
      ensures Valid() && instances.Keys == old(instances.Keys) + {el} && inst == instances[el]
      ensures forall e :: e in old(instances) ==> instances[e] == old(instances)[e]
      ensures threw <==> el in old(instances) && spec.Other?
      ensures el in old(instances) ==>
                (inst.callback, inst.trigger) == SetTriggerFields(old(inst.callback), old(inst.trigger), spec)
                && unchanged(el) && inst.history == old(inst.history) && inst.action == old(inst.action)
      ensures el !in old(instances) ==>
                fresh(inst) && inst.Valid() && inst.CallbackReady() && fresh(inst.history)
                && (inst.callback, inst.trigger) == SetTriggerFields(Default, None, spec)
                && inst.element.State() == Applied(Normalized(old(el.State())), inst.Effective())
                && inst.history.State() == Init([MARK] + inst.element.Html()) && inst.action == NoAction
    {
      if el in instances {
        inst := instances[el];
        threw := inst.SetTrigger(spec);
      } else {
        threw := false;
        inst := new Retype(el, spec);
        instances := instances[el := inst];
      }
    }
  }
}
