/**
 * The undo history of one editor.  `entries[..position + 1]` is the undo
 * stack (its top is the current entry), `reverts[..revertsPos + 1]` the
 * stack of contents undone with `prev` and kept for redo.  Contents are
 * compared after `Sanitize`, which drops the first caret marker only.
 */
module UndoHistory {
  import opened Wrappers
  import opened Text

  /** The history's fields as a value. */
  datatype HState = HState(entries: seq<string>, position: int, reverts: seq<string>, revertsPos: int)

  /** What every operation keeps: the current entry is the last, the stack pointer is the top. */
  predicate Inv(s: HState)
  {
    |s.entries| >= 1 && s.position == |s.entries| - 1 && s.revertsPos == |s.reverts| - 1
  }

  /** `new History(content)`: `content || ''` is the first entry. */
  function Init(content: string): (s: HState)
    ensures Inv(s) && s.entries == [content] && s.reverts == []
  {
    HState([content], 0, [], -1)
  }

  /** `update(content)`: rewrite the only entry when it differs from `content` in the marker alone. */
  function Updated(s: HState, content: string): (t: HState)
    requires Inv(s)
    ensures Inv(t) && |t.entries| == |s.entries| && t.position == s.position && t.reverts == s.reverts
    ensures s.position == 0 && Sanitize(s.entries[0]) == Sanitize(content) ==> t.entries == [content]
    ensures !(s.position == 0 && Sanitize(s.entries[0]) == Sanitize(content)) ==> t == s
  {
    if s.position != 0 then s
    else if Sanitize(s.entries[0]) != Sanitize(content) then s
    else s.(entries := s.entries[0 := content])
  }

  /** `push(content)`: a new current entry, unless it equals the current one up to the marker. */
  function Pushed(s: HState, content: string): (t: HState)
    requires Inv(s)
    ensures Inv(t) && t.reverts == s.reverts
    ensures t == s <==> Sanitize(content) == Sanitize(s.entries[s.position])
    ensures t != s ==> t.entries == s.entries + [content] && t.position == s.position + 1
  {
    if Sanitize(content) == Sanitize(s.entries[s.position]) then s
    else s.(entries := s.entries + [content], position := s.position + 1)
  }

  /** `prev()`: the current entry, and the history with it dropped unless it is the only one. */
  function Popped(s: HState): (r: (HState, string))
    requires Inv(s)
    ensures Inv(r.0) && r.1 == s.entries[|s.entries| - 1] && r.0.reverts == s.reverts
    ensures |s.entries| > 1 ==> r.0.entries == s.entries[..|s.entries| - 1]
    ensures |s.entries| == 1 ==> r.0 == s
  {
    var val := s.entries[s.position];
    var pos := if s.position > 0 then s.position - 1 else s.position;
    (s.(position := pos, entries := s.entries[..pos + 1]), val)
  }

  /** `keep(content)`: remember an undone content for redo, unless it is the first or the current entry. */
  function Kept(s: HState, content: string): (t: HState)
    requires Inv(s)
    ensures Inv(t) && t.entries == s.entries && t.position == s.position
    ensures t == s <==> (Sanitize(content) == Sanitize(s.entries[0])
                         || Sanitize(content) == Sanitize(s.entries[s.position]))
    ensures t != s ==> t.reverts == s.reverts + [content]
  {
    if Sanitize(content) == Sanitize(s.entries[0]) then s
    else if Sanitize(content) == Sanitize(s.entries[s.position]) then s
    else s.(reverts := s.reverts + [content], revertsPos := s.revertsPos + 1)
  }

  /** `revert()`: pop the redo stack; `None` stands for `undefined` when it is empty. */
  function Reverted(s: HState): (r: (HState, Option<string>))
    requires Inv(s)
    ensures Inv(r.0) && r.0.entries == s.entries && r.0.position == s.position
    ensures s.reverts == [] ==> r.1.None? && r.0 == s
    ensures s.reverts != [] ==> r.1 == Some(s.reverts[|s.reverts| - 1]) && r.0.reverts == s.reverts[..|s.reverts| - 1]
  {
    var val := if s.revertsPos >= 0 then Some(s.reverts[s.revertsPos]) else None;
    var pos := if s.revertsPos > -1 then s.revertsPos - 1 else s.revertsPos;
    (s.(revertsPos := pos, reverts := s.reverts[..pos + 1]), val)
  }

  /** `clearReverts()`. */
  function Cleared(s: HState): (t: HState)
    requires Inv(s)
    ensures Inv(t) && t.reverts == [] && t.entries == s.entries && t.position == s.position
  {
    s.(reverts := [], revertsPos := -1)
  }

  // ---------------------------------------------------------------------
  // Properties of the operations

  /** `keep` followed by `revert` gives the kept content back and restores the stack. */
  lemma {:induction false} KeepRevert(s: HState, content: string)
    requires Inv(s)
    requires Sanitize(content) != Sanitize(s.entries[0])
    requires Sanitize(content) != Sanitize(s.entries[s.position])
    ensures Inv(Kept(s, content)) && Reverted(Kept(s, content)) == (s, Some(content))
  {
    var k := Kept(s, content);
    assert k.reverts[..|s.reverts|] == s.reverts;
  }

  /** A `push` that adds an entry is undone by `prev`, which returns what was pushed. */
  lemma {:induction false} PushPrev(s: HState, content: string)
    requires Inv(s) && Sanitize(content) != Sanitize(s.entries[s.position])
    ensures Inv(Pushed(s, content)) && Popped(Pushed(s, content)) == (s, content)
  {
    var p := Pushed(s, content);
    assert p.entries == s.entries + [content] && p.position == s.position + 1;
    var r := Popped(p);
    assert r.0.entries == s.entries by {
      assert p.entries[..s.position + 1] == s.entries;
    }
    assert r.0.position == s.position && r.0.revertsPos == s.revertsPos;
  }

  /** Two contents are pushed as one when they differ in their first marker alone. */
  lemma {:induction false} PushIgnoresMarker(s: HState, content: string, k: nat)
    requires Inv(s) && MARK !in content && k <= |content|
    requires s.entries[s.position] == content
    ensures Pushed(s, content[..k] + [MARK] + content[k..]) == s
  {
    SanitizeUndoesInsert(content, k);
    SanitizeFixpoint(content);
  }

  // ---------------------------------------------------------------------
  // The history object

  class History {
    var entries: seq<string>
    var position: int
    var reverts: seq<string>
    var revertsPos: int

    function State(): HState
      reads this
    {
      HState(entries, position, reverts, revertsPos)
    }

    ghost predicate Valid()
      reads this
    {
      Inv(State())
    }

    constructor (content: string)
      ensures Valid() && State() == Init(content)
    {
      entries := [content];
      reverts := [];
      position := 0;
      revertsPos := -1;
    }

    method Update(content: string)
      requires Valid()
      modifies this
      ensures Valid() && State() == Updated(old(State()), content)
    {
      if position != 0 {
        return;
      }
      if Sanitize(entries[0]) != Sanitize(content) {
        return;
      }
      entries := entries[0 := content];
    }

    method Push(content: string)
      requires Valid()
      modifies this
      ensures Valid() && State() == Pushed(old(State()), content)
    {
      if Sanitize(content) == Sanitize(entries[position]) {
        return;
      }
      entries := entries + [content];
      position := position + 1;
    }

    method Prev() returns (val: string)
      requires Valid()
      modifies this
      ensures Valid() && (State(), val) == Popped(old(State()))
    {
      val := entries[position];
      if position > 0 {
        position := position - 1;
      }
      entries := entries[..position + 1];
    }

    method Keep(content: string)
      requires Valid()
      modifies this
      ensures Valid() && State() == Kept(old(State()), content)
    {
      if Sanitize(content) == Sanitize(entries[0]) {
        return;
      }
      if Sanitize(content) == Sanitize(entries[position]) {
        return;
      }
      reverts := reverts + [content];
      revertsPos := revertsPos + 1;
    }

    method Revert() returns (val: Option<string>)
      requires Valid()
      modifies this
      ensures Valid() && (State(), val) == Reverted(old(State()))
    {
      val := if revertsPos >= 0 then Some(reverts[revertsPos]) else None;
      if revertsPos > -1 {
        revertsPos := revertsPos - 1;
      }
      reverts := reverts[..revertsPos + 1];
    }

    method ClearReverts()
      requires Valid()
      modifies this
      ensures Valid() && State() == Cleared(old(State()))
    {
      reverts := [];
      revertsPos := -1;
    }
  }
}
