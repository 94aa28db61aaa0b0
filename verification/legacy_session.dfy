/**
 * One editor instance of retype.js, the older variant: the element and the
 * callback, re-run through `retype` after every key, and the per-element
 * registry behind `$.fn.retype`.  This variant keeps no history, installs
 * no focus or click handler and does not normalize the element.
 */
module LegacySession {
  import opened Wrappers
  import opened Text
  import opened Dom
  import opened Caret
  import opened LegacyTags
  import S = Session

  /** `this.callback()` as a rewrite of the markup. */
  function CallbackOf(cb: S.Callback, tr: Option<seq<char>>): string -> string
    requires cb.Default? ==> tr.Some?
  {
    match cb
    case UserFn(f) => f
    case Default => h => LegacyHighlight(tr.value, h)
  }

  /** `this.callback()`: the user's function, or the default callback on the element's markup. */
  method RunCallback(el: Container, cb: S.Callback, tr: Option<seq<char>>)
    requires el.Valid() && (cb.Default? ==> tr.Some?)
    modifies el
    ensures el.Valid() && el.State() == WithHtml(old(el.State()), CallbackOf(cb, tr)(old(el.Html())))
  {
    match cb
    case UserFn(f) =>
      el.SetHtml(f(el.Html()));
    case Default =>
      var html := DefaultCallback(tr.value, el.Html());
      el.SetHtml(html);
  }

  /**
   * What the function `keydown` defers does to the element.  Without a range
   * `getRangeAt(0)` throws before anything changes; `f` is `None` when the
   * default callback is in use but no trigger was ever set, and then
   * `this.trigger.length` throws once the marker is already in place.
   */
  function Deferred(r: Region, f: Option<string -> string>): (m: Region)
    requires ValidRegion(r)
    ensures ValidRegion(m)
    ensures !r.selection.Collapsed? ==> m == r
    ensures r.selection.Collapsed? && f.None? ==>
              var t := TextContent(r.nodes);
              var at := CaretOffset(r.nodes, r.selection.pos);
              at <= |t| && TextContent(m.nodes) == t[..at] + [MARK] + t[at..]
              && m.selection == r.selection
  {
    if r.selection.NoRange? then r
    else if r.selection.Collapsed? && f.None? then
      InsertAtText(r.nodes, r.selection.pos);
      Marked(r)
    else if f.None? then r
    else LegacyRetypeResult(r, f.value)
  }

  class Retype {
    const element: Container
    var callback: S.Callback
    var trigger: Option<seq<char>>

    /** `this.trigger` is set whenever the default callback is in use. */
    predicate CallbackReady()
      reads this
    {
      callback.Default? ==> trigger.Some?
    }

    function Effective(): string -> string
      reads this
      requires CallbackReady()
    {
      CallbackOf(callback, trigger)
    }

    /** The callback `retype` runs, or `None` when it would throw. */
    function Prepared(): Option<string -> string>
      reads this
    {
      if CallbackReady() then Some(Effective()) else None
    }

    /** `new Retype(element, trigger)`: only the trigger is set; the element is left as it is. */
    constructor (el: Container, spec: S.TriggerSpec)
      requires !spec.Other?
      ensures element == el && (callback, trigger) == S.SetTriggerFields(S.Default, None, spec)
      ensures CallbackReady() <==> (spec.Function? || S.SetsTriggers(spec))
    {
      element := el;
      var fields := S.SetTriggerFields(S.Default, None, spec);
      callback, trigger := fields.0, fields.1;
    }

    /** `setTrigger(trigger)`; `threw` tells whether `trigger.split` threw. */
    method SetTrigger(spec: S.TriggerSpec) returns (threw: bool)
      modifies this
      ensures (callback, trigger) == S.SetTriggerFields(old(callback), old(trigger), spec)
      ensures threw <==> spec.Other?
    {
      threw := spec.Other?;
      match spec
      case Function(f) =>
        callback := S.UserFn(f);
      case Chars(str) =>
        callback := S.Default;
        if str != [] {
          trigger := Some(str);
        }
      case List(a) =>
        callback := S.Default;
        trigger := Some(a);
      case Falsy =>
        callback := S.Default;
      case Other =>
        callback := S.Default;
    }

    /**
     * The function `keydown` defers: `retype(element, callback)`; `threw`
     * tells whether it ended in an exception.
     */
    method KeyDownDeferred() returns (threw: bool)
      requires element.Valid()
      modifies element
      ensures element.Valid()
      ensures threw <==> old(element.selection).NoRange? || (old(element.selection).Collapsed? && !CallbackReady())
      ensures element.State() == Deferred(old(element.State()), Prepared())
    {
      if element.selection.NoRange? {
        return true;
      }
      if element.selection.Spanning? {
        return false;
      }
      element.InsertMarker();
      if !CallbackReady() {
        return true;
      }
      threw := false;
      RunCallback(element, callback, trigger);
      element.Restore();
    }
  }

  /** The instances `$.fn.retype` has stored with `.data('retype.instance')`, by element. */
  class Registry {
    var instances: map<Container, Retype>

    ghost predicate Valid()
      reads this
    {
      forall e :: e in instances ==> instances[e].element == e
    }

    constructor ()
      ensures Valid() && instances == map[]
    {
      instances := map[];
    }

    /** `$(el).retype(option)`: the first call creates the instance, later ones only set the trigger. */
    method Attach(el: Container, spec: S.TriggerSpec) returns (inst: Retype, threw: bool)
      requires Valid() && (el !in instances ==> !spec.Other?)
      modifies this, if el in instances then {instances[el]} else {}
      ensures Valid() && instances.Keys == old(instances.Keys) + {el} && inst == instances[el]
      ensures forall e :: e in old(instances) ==> instances[e] == old(instances)[e]
      ensures threw <==> el in old(instances) && spec.Other?
      ensures el in old(instances) ==>
                (inst.callback, inst.trigger) == S.SetTriggerFields(old(inst.callback), old(inst.trigger), spec)
      ensures el !in old(instances) ==>
                fresh(inst) && (inst.callback, inst.trigger) == S.SetTriggerFields(S.Default, None, spec)
    {
      if el in instances {
        inst := instances[el];
        threw := inst.SetTrigger(spec);
      } else {
        threw := false;
        inst := new Retype(el, spec);
        instances := instances[el := inst];
      }
    }
  }

  /**
   * On text without markup, the default callback with one trigger, run
   * through retype.js `retype`, keeps the text and puts the caret back at
   * the same offset.
   */
  lemma {:induction false} DefaultKeepsCaret(r: Region, trigger: char)
    requires ValidRegion(r) && r.selection.Collapsed? && WellFormed(r.nodes) && AllText(r.nodes)
    requires MARK !in TextContent(r.nodes)
    ensures var m := LegacyRetypeResult(r, CallbackOf(S.Default, Some([trigger])));
            && TextContent(m.nodes) == TextContent(r.nodes)
            && m.selection.Collapsed? && ValidPos(m.nodes, m.selection.pos)
            && CaretOffset(m.nodes, m.selection.pos) == CaretOffset(r.nodes, r.selection.pos)
  {
    var f := CallbackOf(S.Default, Some([trigger]));
    var t := TextContent(r.nodes);
    var at := CaretOffset(r.nodes, r.selection.pos);
    var hm := Serialize(Marked(r).nodes);
    MarkedVisible(r);
    InsertAtWellFormed(r.nodes, r.selection.pos);
    InsertAtAllText(r.nodes, r.selection.pos);
    PlainMarkup(Marked(r).nodes);
    LegacyHighlightVisible(trigger, hm);
    VisibleOfText(hm, []);
    assert hm + [] == hm;
    assert Visible(f(hm)) == t[..at] + [MARK] + t[at..];
    assert MARK !in t[..at] && MARK !in t[at..];
    LegacyRetypeText(r, f, t[..at], t[at..]);
    SplitJoin(t, at);
  }
}
