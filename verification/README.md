# retype: a verified model of the caret-preserving editor core

retype is a jQuery plugin that turns a `contenteditable` element into an
editor which re-highlights "tags" (runs that start at a trigger character
such as `#` or `@`) while the user types. After every key, the plugin does
three things:

1. It puts a marker character (U+2603) where the caret is.
2. It lets a callback rewrite the element's markup.
3. It finds the first text node that still holds the marker and puts the
   caret back there.

The current plugin (`dist/retype.js`) also has an undo/redo history, and
focus and click handlers. The older variant (`retype.js`) has neither.

This project models both files:

- **`text.dfy`**: the marker, `sanitize` (removes the first marker), and the
  global marker removal.
- **`dom.dfy`**: the element's children as a flat list of text nodes and tag
  markup.
  - `Serialize` is jQuery `.html()`.
  - `Parse` is what an `innerHTML` assignment builds.
  - `Visible` is the text the markup shows.
- **`caret.dfy`**: `findCaretNode` and `retype` for both variants.
  - They are methods of a `Container` class that hold the children, the
    selection and the focus flag.
  - `Marked`, `WithHtml`, `Relocate`, `RetypeResult` and
    `LegacyRetypeResult` are the functions these methods are proved against.
- **`tags.dfy`**: `findTags` (two loops) and the current default callback.
  - The default callback removes the old spans, then wraps every run right
    to left.
  - `Highlight` is the specification of the default callback.
- **`legacy_tags.dfy`**: the default callback of `retype.js`.
  - It works with two removal regular expressions and one
    `trigger\S{2,}` replacement per trigger.
  - Each regular expression is written out as a left-to-right scan.
- **`history.dfy`**: the `History` class.
  - Its methods `update`, `push`, `prev`, `keep`, `revert` and
    `clearReverts` change the fields in place.
  - Each method is proved against a function on the `HState` value.
- **`session.dfy`**: one `Retype` instance of `dist/retype.js`, and the
  registry behind `$.fn.retype`.
  - The instance covers the constructor, `setTrigger`, `normalize`, the two
    halves of `keydown` (before and after `setTimeout`), `focus` and `click`.
  - The registry is keyed by element.
- **`legacy_session.dfy`**: the same for `retype.js`.

The main results:

- Re-running `retype` keeps the text content and puts the caret back at the
  same text offset. This holds when the callback does not change the visible
  text.
- It holds in particular for both default callbacks, on plain text.
- The current default callback keeps the visible text and the span-free
  markup, and running it twice gives the same result as running it once.
- The history operations undo each other as the handlers rely on:
  - a `push` is undone by `prev`;
  - a `keep` is undone by `revert`;
  - an edit followed by Ctrl+Z restores the earlier text;
  - Ctrl+Z followed by Ctrl+Shift+Z restores the undone text.

## Model

| member | source | states |
|---|---|---|
| `Text.IndexOf` | dist/retype.js:48 | `indexOf`: -1 exactly when the character is absent; otherwise the character is at the index and nowhere before it |
| `Text.Sanitize` | dist/retype.js:157-159 | `sanitize` (a string pattern without `g`): unchanged when there is no marker, exactly one character shorter when there is one |
| `Text.SanitizeMultiset` | dist/retype.js:157-159 | `sanitize` removes exactly one marker and no other character |
| `Text.SanitizeUndoesInsert` | dist/retype.js:157-159 | `sanitize` removes a marker inserted anywhere into marker-free text, giving that text back |
| `Text.SanitizeFixpoint` | dist/retype.js:157-159 | `sanitize` leaves a string unchanged exactly when it has no marker |
| `Text.StripAll` | dist/retype.js:49 | the global replace leaves no marker, changes nothing in marker-free text, and never lengthens |
| `Text.StripAllAppend` | dist/retype.js:49 | the global marker removal works part by part over a concatenation |
| `Text.StripAllKeepsPrefix` | dist/retype.js:48-50 | the text before the first marker survives the global removal, so the caret index is valid in the stripped node |
| `Text.StripAllOneMark` | dist/retype.js:49 | a single marker between marker-free parts is removed, joining them |
| `Text.Utf16Length` | retype.js:61 | a string's JavaScript `length` in UTF-16 code units: at least its number of characters and at most twice that |
| `Dom.Serialize` | dist/retype.js:89 | `.html()`: the markup of the children in document order, empty for no children |
| `Dom.Parse` | dist/retype.js:34 | what an `innerHTML` assignment builds: a tag node for each `<` closed by a later `>`, a text node for each stretch between |
| `Dom.SerializeParse` | dist/retype.js:34 | serializing what an `innerHTML` assignment built gives back the assigned markup |
| `Dom.ParseTextContent` | dist/retype.js:34 | the text nodes built from markup are its visible characters |
| `Dom.VisibleSerialize` | dist/retype.js:34 | for well-formed nodes the visible characters of `.html()` are the text content |
| `Dom.ReflowKeepsText` | dist/retype.js:34 | `innerHTML = innerHTML` keeps the text content of well-formed nodes |
| `Caret.FirstMarked` | dist/retype.js:7-19 | `findCaretNode`: none exactly when no text node holds the marker; otherwise the first text node that holds it |
| `Caret.FindCaretNode` | dist/retype.js:7-19 | the tree-walker loop returns the first marked text node, as `FirstMarked` specifies |
| `Caret.InsertAt` | dist/retype.js:30-31 | `range.insertNode`: a marker text node at the caret, splitting the text node it is in at the offset |
| `Caret.Ready` | dist/retype.js:22-28 | the three guards of `retype`: a range exists, it is collapsed, and the container has focus |
| `Caret.LoneMarker` | dist/retype.js:42-44 | the test of the Firefox branch: the marked node is the only child and the text is the marker alone |
| `Caret.Marked` | dist/retype.js:30-31 | `range.insertNode(caret)` leaves a valid region |
| `Caret.WithHtml` | dist/retype.js:34 | assigning markup leaves a valid region, its caret at the container's start |
| `Caret.Relocate` | dist/retype.js:36-55 | the second half of `retype` keeps the region valid |
| `Caret.RetypeResult` | dist/retype.js:21-56 | `retype` as a function of the region: the region stays valid |
| `Caret.LegacyRetypeResult` | retype.js:20-51 | retype.js `retype` as a function of the region: the region stays valid |
| `Caret.Container.SetHtml` | dist/retype.js:34 | `.html(h)` replaces the children by the parsed markup; a selection falls back to the start |
| `Caret.Container.InsertMarker` | dist/retype.js:30-31 | the children after the marker insertion are `Marked` of the old state |
| `Caret.Container.Begin` | dist/retype.js:22-31 | returns whether there is a collapsed range in the focused container; if so, the marker is inserted, and otherwise nothing changes |
| `Caret.Container.Restore` | dist/retype.js:36-55 | the new state is `Relocate` of the old one |
| `Caret.Container.Retype` | dist/retype.js:21-56 | the new state is `RetypeResult(old state, callback)` |
| `Caret.Container.LegacyRetype` | retype.js:20-51 | the new state is `LegacyRetypeResult(old state, callback)` |
| `Caret.MarkInText` | dist/retype.js:7-19 | a marked text node exists exactly when the text content holds the marker |
| `Caret.FirstMarkedIndex` | dist/retype.js:36-48 | the first marker of the whole text lies in the first marked node, at that node's offset plus the text before it |
| `Caret.RelocateCaret` | dist/retype.js:36-55 | after relocation the caret is valid, stands at the text offset of the first marker, and the text before it is unchanged |
| `Caret.StripCaret` | dist/retype.js:47-51 | the strip branch: the caret index fits the stripped node and lands at the first marker's text offset |
| `Caret.InsertAtText` | dist/retype.js:30-31 | inserting the marker puts it into the text content exactly at the caret's offset |
| `Caret.InsertAtWellFormed` | dist/retype.js:30-31 | inserting the marker keeps the nodes well formed |
| `Caret.InsertAtMarkup` | dist/retype.js:30-31 | inserting the marker puts it into `.html()` at the caret's markup offset |
| `Caret.MarkedMarkup` | dist/retype.js:209-211 | the marked markup (`prevTextRetyped`) sanitizes back to the markup before the insertion |
| `Caret.MarkedVisible` | dist/retype.js:30-31 | the marked markup shows the old text with the marker at the caret's offset |
| `Caret.RetypeKeepsCaret` | dist/retype.js:21-56 | when the callback output still shows the text before the caret followed by the marker, the caret comes back at the same offset and the text before it is unchanged |
| `Caret.RelocateSingleMarker` | dist/retype.js:36-55 | with exactly one marker in the text, relocation gives back the text without it |
| `Caret.RetypeText` | dist/retype.js:21-56 | a callback whose output shows `p`, the marker, then `q` leaves the text `p + q` |
| `Caret.LegacyRetypeText` | retype.js:20-51 | the same for retype.js, and the caret lands at offset `|p|` |
| `Caret.RetypeRoundTrip` | dist/retype.js:21-56 | with a callback that writes the markup back unchanged, the text and the caret's offset survive and the marker is gone |
| `Caret.LegacyRetypeRoundTrip` | retype.js:20-51 | the same round trip for retype.js |
| `Caret.RelocateWithoutMarker` | dist/retype.js:36-38 | with no marker in the text, the second half of `retype` changes nothing |
| `Tags.ScanFrom` | dist/retype.js:62-73 | the first loop of `findTags` from index `i`: a run opens at the trigger, closes at the next `\s`, `<` or trigger, and one still open at the end runs to the end |
| `Tags.RawRuns` | dist/retype.js:59-73 | the first loop of `findTags` from index 0 with no run open |
| `Tags.Trim` | dist/retype.js:80 | a run whose last character is the marker ends one earlier |
| `Tags.Keep` | dist/retype.js:75-84 | the second loop of `findTags`: each run trimmed, the ones left with the trigger alone dropped, the order kept |
| `Tags.TagRuns` | dist/retype.js:58-85 | what `findTags` returns: the second loop applied to the first loop's runs |
| `Tags.CollectRuns` | dist/retype.js:58-73 | the first loop of `findTags` returns the runs of the left-to-right scan `RawRuns` |
| `Tags.FindTags` | dist/retype.js:58-85 | `findTags` returns `TagRuns`: the raw runs, trimmed of a trailing marker, without the runs of length one |
| `Tags.ScanFromOk` | dist/retype.js:62-73 | every raw run starts at the trigger, contains no breaking character, and ends at the next breaking character or at the end; the runs are ordered |
| `Tags.KeepOk` | dist/retype.js:75-84 | the second loop keeps the runs ordered; each kept run holds at least one character after the trigger and ends at a breaking character, just before a trailing marker, or at the end |
| `Tags.TagRunsOk` | dist/retype.js:58-85 | what `findTags` returns is ordered, and every run has the shape stated for `KeepOk` |
| `Tags.StripSpans` | dist/retype.js:91 | `replace(/<\/?span[^>]*>/ig, '')`: every opening or closing `span` tag, in any case, removed left to right |
| `Tags.StripSpansAppend` | dist/retype.js:91 | on a prefix with no unclosed `<`, removing the spans works part by part |
| `Tags.StripSpansPlain` | dist/retype.js:91 | markup without `<` has no span to remove |
| `Tags.VisibleAppend` | dist/retype.js:91 | on a prefix with no unclosed `<`, the visible text is taken part by part |
| `Tags.Digits` | dist/retype.js:100 | the class number is written as one or more decimal digits |
| `Tags.OpenTagMarkup` | dist/retype.js:100 | the inserted opening tag is a single tag that the span pattern matches |
| `Tags.CloseTagMarkup` | dist/retype.js:102 | the inserted `</span>` is a single tag that the span pattern matches |
| `Tags.SpanMarkupVanishes` | dist/retype.js:99-102 | the inserted tags are removed by the span pattern, are invisible, have no unclosed `<`, and hold no trigger |
| `Tags.Sub` | dist/retype.js:99-102 | `substring` never returns more than the string |
| `Tags.WrapRun` | dist/retype.js:99-102 | one wrap: the run between `<span class="tag tagN">` and `</span>`, through `substring` |
| `Tags.WrapDown` | dist/retype.js:97-103 | the inner loop: the runs wrapped from the last to the first |
| `Tags.Passes` | dist/retype.js:94-104 | the outer loop: each trigger's runs are found in the output of the passes before it |
| `Tags.Highlight` | dist/retype.js:88-107 | what the default callback writes back: the old spans removed, then every pass |
| `Tags.DefaultCallback` | dist/retype.js:88-107 | the default callback writes back `Highlight(triggers, html)` |
| `Tags.WrapTags` | dist/retype.js:97-103 | the inner loop wraps the runs from the last to the first (`WrapDown`) |
| `Tags.WrapDownPrefix` | dist/retype.js:97-103 | wrapping runs that start at or after `k` keeps the first `k` characters and never shortens the markup |
| `Tags.WrapRunKeeps` | dist/retype.js:99-102 | wrapping one run outside any tag changes neither the span-free markup nor the visible text |
| `Tags.WrapRunGuarded` | dist/retype.js:99-102 | after a wrap, every trigger is still outside any tag |
| `Tags.WrapDownKeeps` | dist/retype.js:97-103 | one trigger's pass keeps the span-free markup, the visible text and the trigger guard |
| `Tags.PassesKeep` | dist/retype.js:94-104 | all passes together keep the span-free markup, the visible text and the trigger guard |
| `Tags.DropSpans` | dist/retype.js:91 | the nodes left once the spans are removed: each is one of the input's nodes and none is a `span` tag |
| `Tags.TagStrip` | dist/retype.js:91 | a well-formed tag is closed, and span removal drops it whole (a `span` tag) or keeps it whole |
| `Tags.NodeStrip` | dist/retype.js:91 | one well-formed node's markup is closed and strips to the markup of the node list without its spans |
| `Tags.StripSpansSerialize` | dist/retype.js:91 | on well-formed markup, span removal removes exactly the `span` tag nodes |
| `Tags.DropSpansKeeps` | dist/retype.js:91 | removing the span nodes keeps the text content, the well-formedness and the trigger-free tags |
| `Tags.DropSpansText` | dist/retype.js:91 | removing the span nodes keeps the text content |
| `Tags.DropSpansNone` | dist/retype.js:91 | markup without span nodes is left as it is |
| `Tags.SerializeGuarded` | dist/retype.js:94-104 | in well-formed markup whose tags hold no trigger, every trigger lies outside the tags |
| `Tags.HighlightStrips` | dist/retype.js:88-107 | on well-formed markup whose tags hold no trigger, spans of earlier passes included, removing the spans from the callback's output gives the input with its spans removed |
| `Tags.HighlightKeepsText` | dist/retype.js:88-107 | on the same markup, spans of earlier passes included, the default callback changes no visible character: the output shows the input's text content |
| `Tags.HighlightIdempotent` | dist/retype.js:88-107 | on the same markup, running the default callback on its own output changes nothing |
| `LegacyTags.Upper` | retype.js:56-57 | the `i` flag's case folding changes `<` into nothing else and nothing else into `<` |
| `LegacyTags.DigitRun` | retype.js:56 | the greedy `\d+`: every character in the run is a digit, and the character after it is not |
| `LegacyTags.MatchLen` | retype.js:56-57 | a match at the head fits in the markup and begins with `<` |
| `LegacyTags.RemoveAll` | retype.js:56-57 | a global removal never lengthens the markup |
| `LegacyTags.StripOld` | retype.js:56-57 | the two removals in order: the openers first, then the closers |
| `LegacyTags.StripOldPlain` | retype.js:56-57 | both removals leave markup without `<` unchanged |
| `LegacyTags.RunEnd` | retype.js:61 | the greedy `\S*`: no whitespace in the run, and whitespace or the end after it |
| `LegacyTags.Matches` | retype.js:61 | a match of `trigger\S{2,}` starts here: the trigger, then a run of non-whitespace at least two UTF-16 code units long |
| `LegacyTags.MatchesByCount` | retype.js:61 | the same test in characters: at least two after the trigger, or exactly one beyond U+FFFF |
| `LegacyTags.WrapMatches` | retype.js:61-62 | one trigger's global replace: each match, found left to right, wrapped with all its run in `<span class="tag tagN">` and `</span>`, the scan resuming after it |
| `LegacyTags.AstralRunWraps` | retype.js:61-62 | `#` followed by one emoji is wrapped, since its two code units meet `{2,}`; `#` followed by one letter is not |
| `LegacyTags.WrapEach` | retype.js:60-63 | the loop over the triggers: trigger `i` gets class `tag(i+1)`, each replacement working on the output of the ones before |
| `LegacyTags.LegacyHighlight` | retype.js:53-66 | what the default callback writes back: the old spans removed, then every replacement |
| `LegacyTags.DefaultCallback` | retype.js:53-66 | the callback writes back `LegacyHighlight(triggers, html)` |
| `LegacyTags.RemovePlainPrefix` | retype.js:56-57 | a prefix without `<` holds no match and is kept |
| `LegacyTags.RemoveOpenTag` | retype.js:56 | the inserted opening tag is one match of the first removal |
| `LegacyTags.KeepCloseTag` | retype.js:56 | `</span>` is not matched by the first removal |
| `LegacyTags.RemoveCloseTag` | retype.js:57 | `</span>` is one match of the second removal |
| `LegacyTags.UnwrapOpener` | retype.js:56 | a wrapped match loses its opening tag in the first removal |
| `LegacyTags.UnwrapCloser` | retype.js:57 | a wrapped match loses its closing tag in the second removal |
| `LegacyTags.WrapMatchesStrips` | retype.js:56-62 | on plain text, the two removals undo one trigger's replacement |
| `LegacyTags.WrapMatchesAbsent` | retype.js:61-62 | text without the trigger is not changed by its replacement |
| `LegacyTags.WrapMatchesVisible` | retype.js:61-62 | on plain text, one trigger's replacement changes no visible character |
| `LegacyTags.LegacyHighlightStrips` | retype.js:53-66 | with one trigger, on plain text, the next call's removals give the text back |
| `LegacyTags.LegacyHighlightVisible` | retype.js:53-66 | with one trigger, on plain text, the callback's output shows the same text |
| `UndoHistory.Init` | dist/retype.js:112-117 | a new history holds the content as its only entry, and nothing kept for redo |
| `UndoHistory.Updated` | dist/retype.js:119-123 | the only entry is replaced when it differs from the content by the marker alone; otherwise nothing changes |
| `UndoHistory.Pushed` | dist/retype.js:125-129 | unchanged exactly when the content sanitizes to the current entry; otherwise the content becomes the new current entry |
| `UndoHistory.Popped` | dist/retype.js:131-136 | returns the current entry and drops it, unless it is the only one |
| `UndoHistory.Kept` | dist/retype.js:138-143 | unchanged exactly when the content sanitizes to the first or the current entry; otherwise it is appended to the redo stack |
| `UndoHistory.Reverted` | dist/retype.js:145-150 | with an empty redo stack, nothing changes and the result is `undefined`; otherwise the top of the stack is popped and returned |
| `UndoHistory.Cleared` | dist/retype.js:152-155 | empties the redo stack; the entries are unchanged |
| `UndoHistory.KeepRevert` | dist/retype.js:138-150 | `keep` then `revert` returns the kept content and restores the history |
| `UndoHistory.PushPrev` | dist/retype.js:125-136 | a `push` that adds an entry is undone by `prev`, which returns what was pushed |
| `UndoHistory.PushIgnoresMarker` | dist/retype.js:125-129 | pushing the current entry with a marker inserted anywhere adds nothing |
| `UndoHistory.History.constructor` | dist/retype.js:112-117 | the fields are `Init(content)` |
| `UndoHistory.History.Update` | dist/retype.js:119-123 | the new fields are `Updated(old fields, content)` |
| `UndoHistory.History.Push` | dist/retype.js:125-129 | the new fields are `Pushed(old fields, content)` |
| `UndoHistory.History.Prev` | dist/retype.js:131-136 | the new fields and the result are `Popped(old fields)` |
| `UndoHistory.History.Keep` | dist/retype.js:138-143 | the new fields are `Kept(old fields, content)` |
| `UndoHistory.History.Revert` | dist/retype.js:145-150 | the new fields and the result are `Reverted(old fields)` |
| `UndoHistory.History.ClearReverts` | dist/retype.js:152-155 | the new fields are `Cleared(old fields)` |
| `Session.SetTriggerFields` | dist/retype.js:180-187 | a function becomes the callback; anything else selects the default callback; a non-empty string or an array replaces the triggers; a falsy value, the empty string, or a truthy value on which `split` throws keeps them |
| `Session.Classify` | dist/retype.js:228-243 | the `switch`: Backspace gives `del`, Ctrl/Cmd+V `paste` with the time, an arrow `arrow`; any other key gives `none` when the text changed, and otherwise the action stays |
| `Session.KeyDownSync` | dist/retype.js:196-211 | the handler before `setTimeout`: nothing on Tab; otherwise `retype` with a callback that records the marked markup, and the captured key, action and markup |
| `Session.Normalized` | dist/retype.js:189-194 | the markup is never empty afterwards, and non-empty markup is left alone |
| `Session.RedoStep` | dist/retype.js:219-221 | Ctrl/Cmd+Shift+Z: the retyped text is pushed while something is kept, then the last kept content is written back, or nothing when none is kept |
| `Session.UndoStep` | dist/retype.js:222-226 | Ctrl/Cmd+Z: the current entry is written back, the retyped text is kept for redo, and the action becomes `back` |
| `Session.EditStep` | dist/retype.js:227-253 | any other key: the action is classified; the retyped text is pushed and the redo stack emptied when the text and the action changed; on an arrow the first entry is updated |
| `Session.Step` | dist/retype.js:217-253 | the undo, redo and edit branches keep the history's invariant |
| `Session.DeferredBody` | dist/retype.js:217-256 | the branches, then the callback, keep the history's invariant |
| `Session.Deferred` | dist/retype.js:213-259 | the deferred half of `keydown` leaves a valid region and a valid history; the markup is non-empty unless the default callback threw for want of triggers, which skips the reflow, the caret and `normalize` |
| `Session.KeyDownSyncIsRetype` | dist/retype.js:207-211 | apart from Tab, the first half of `keydown` is `retype` with a callback that leaves the markup alone |
| `Session.KeyDownKeepsCaret` | dist/retype.js:207-211 | the first half of `keydown` keeps the text; when there is a caret in the focused element and the key is not Tab, it also keeps the caret's offset |
| `Session.KeyDownPending` | dist/retype.js:196-211 | nothing is deferred exactly on Tab; otherwise the handler captures the key, the previous action and the markup, and the retyped markup sanitizes back to that markup |
| `Session.EditHistory` | dist/retype.js:228-252 | a key other than Ctrl/Cmd+Z adds `prevTextRetyped` exactly when both the text and the action changed and it differs from the current entry; the redo stack is cleared exactly when the text and the action changed |
| `Session.EditThenUndo` | dist/retype.js:222-248 | Ctrl/Cmd+Z right after a key that added an entry writes back the text from before that key and restores the entries |
| `Session.UndoThenRedo` | dist/retype.js:218-226 | Ctrl/Cmd+Shift+Z right after Ctrl/Cmd+Z writes back the text the undo replaced |
| `Session.DeferredThrowLeavesMarker` | dist/retype.js:209-259 | when the default callback throws after a key other than Ctrl/Cmd+Z, the marker stays in the text at the caret's offset and the caret does not move |
| `Session.FocusRecordsCaret` | dist/retype.js:262-264 | `focus` on an unchanged first entry records the caret at the start |
| `Session.ClickRecordsCaret` | dist/retype.js:266-272 | `click` records the marked markup as the first entry and keeps the text and the caret's offset |
| `Session.DefaultKeepsCaret` | dist/retype.js:88-107 | on well-formed markup whose tags hold no trigger (plain text, or text with the spans of earlier passes), the default callback run through `retype` keeps the text and the caret's offset |
| `Session.InsertAtTagsFree` | dist/retype.js:29-31 | inserting the marker leaves every tag as it was, so the tags still hold no trigger |
| `Session.Focused` | dist/retype.js:262-264 | `focus`: the first entry is updated to the marker followed by the markup |
| `Session.Clicked` | dist/retype.js:266-272 | `click`: with a caret in the focused element, the first entry is updated to the marked markup and the caret put back; otherwise nothing |
| `Session.Normalize` | dist/retype.js:189-194 | the new element state is `Normalized(old state)` |
| `Session.RunCallback` | dist/retype.js:255 | `this.callback()`: the element holds the callback's output for its markup |
| `Session.PushRevert` | dist/retype.js:220-221 | the history is pushed only while something is kept, then reverted |
| `Session.Retype.constructor` | dist/retype.js:164-178 | sets the trigger, normalizes, runs the callback, and starts the history at the marker followed by the markup, with action `none` |
| `Session.Retype.SetTrigger` | dist/retype.js:180-187 | the callback and triggers become `SetTriggerFields` of the old ones; the history and the action are untouched; it reports a throw exactly for a truthy value that is not a function, string or array |
| `Session.Retype.KeyDown` | dist/retype.js:196-211 | prevents the default action exactly on Ctrl/Cmd+Z; the element and the deferred capture are `KeyDownSync` |
| `Session.Retype.KeyDownDeferred` | dist/retype.js:213-259 | the instance's new state is `Deferred(old state, callback or none, capture, time)`; it reports a throw exactly when `retype` runs and the default callback has no triggers |
| `Session.Retype.StepBody` | dist/retype.js:217-253 | the new state is `Step` of the old one |
| `Session.Retype.Redo` | dist/retype.js:219-221 | the new state is `RedoStep` of the old one |
| `Session.Retype.Undo` | dist/retype.js:222-226 | the new state is `UndoStep` of the old one |
| `Session.Retype.Edit` | dist/retype.js:227-253 | the new state is `EditStep` of the old one |
| `Session.Retype.Focus` | dist/retype.js:262-264 | the new state is `Focused` of the old one |
| `Session.Retype.Click` | dist/retype.js:266-272 | the new state is `Clicked` of the old one |
| `Session.Registry.Attach` | dist/retype.js:280-291 | the first call for an element creates and stores an instance whose element, history and action are as the constructor leaves them; later calls only set its trigger, reporting a throw from `setTrigger`; other elements' instances stay as they were |
| `LegacySession.RunCallback` | retype.js:91 | the element holds the callback's output for its markup |
| `LegacySession.Deferred` | retype.js:20-51 | the deferred `retype`: without a range nothing changes (`getRangeAt(0)` throws); when the default callback throws for want of triggers, the marker stays in the text at the caret's offset; otherwise `LegacyRetypeResult` |
| `LegacySession.Retype.constructor` | retype.js:71-76 | only the trigger is set; the callback can run exactly when a function or a truthy trigger was given |
| `LegacySession.Retype.SetTrigger` | retype.js:78-85 | the same rule as the current plugin's `setTrigger`, with the same report of a throw |
| `LegacySession.Retype.KeyDownDeferred` | retype.js:87-93 | the element's new state is `Deferred(old state, callback or none)`; it reports a throw exactly when there is no range, or when the range is collapsed and the default callback has no triggers |
| `LegacySession.Registry.Attach` | retype.js:98-109 | the first call for an element creates and stores an instance; later calls only set its trigger, reporting a throw from `setTrigger` |
| `LegacySession.DefaultKeepsCaret` | retype.js:53-66 | on plain text, with one trigger, the default callback run through `retype` keeps the text and the caret's offset |

## Left out

- The DOM is reduced to a flat list of text nodes and tag markup (`Node`).
  - Nesting, attributes, the tree walker and character references are not
    modelled.
  - Text nodes are assumed to hold no `<` or `>` (`WellFormed`).
  - `Parse` gives the tokens an `innerHTML` assignment would produce, not
    the browser's tree repair.
- `window.getSelection()`, the range and `document.activeElement` are the
  `Selection` and `focused` fields of the container.
  - A range inside the container falls back to its start when the markup is
    reassigned. This is an assumption about browsers.
- `setTimeout` is modelled as two calls, `KeyDown` and `KeyDownDeferred`.
  - What the browser does with the key between them is whatever state the
    second call is given.
  - `new Date().getTime()` is a parameter.
- Event binding (`.on('keydown' …)`), `$.proxy`, and `$.retype` /
  `$.retype.CARET_CHAR` are not modelled.
- A user callback is modelled as a function from the markup to new markup.
  - A callback that reads or changes other state is not modelled.
  - So is one that touches the element in some other way.
- `Session.Retype.constructor`: it requires a function, a non-empty string
  or an array.
  - Without one, the source's `this.callback()` reads `this.trigger.length`
    of `undefined` and throws, or `trigger.split` throws first.
  - The model does not represent a constructor that throws.
  - The same holds for `Session.Registry.Attach` on a new element.
- `LegacySession.Retype.constructor`: it requires an option on which
  `setTrigger` does not throw (`TriggerSpec.Other` is excluded).
  - The same holds for `LegacySession.Registry.Attach` on a new element.
- `Session.SetTriggerFields`: an array of triggers is a sequence of
  characters.
  - An array with multi-character entries such as `['#', '@@']` is not
    modelled.
  - An astral trigger character, which `split('')` cuts into two UTF-16
    halves, is not modelled either.
- Strings are sequences of Unicode characters, while JavaScript strings are
  sequences of UTF-16 code units.
  - Indices, offsets and lengths (`indexOf`, `html[i]`, `substring`, the
    caret's offset) count characters here.
  - For triggers, the marker and the run-ending characters, which all lie
    below U+10000, these pick out the same positions the source's indices do.
  - The one count that differs, `\S{2,}` in retype.js, is modelled in code
    units (`LegacyTags.Matches`).
- The escape in `'\\' + trigger` is modelled only for triggers whose escaped
  form is the character itself (ASCII punctuation).
  - Triggers such as `d` or `s`, whose escapes are classes, are not modelled.
  - The `i` flag on a letter trigger is not modelled either.
- The lemmas about the current default callback assume triggers that are
  safe punctuation (`SafeTrigger`).
  - Such triggers exclude `<`, `>`, `/`, `=` and `"`, which occur in the
    inserted tags.
  - They also assume the markup has no unclosed `<` before any trigger
    (`Guarded`).
- `Tags.HighlightKeepsText`, `Tags.HighlightStrips`, `Tags.HighlightIdempotent`
  and `Session.DefaultKeepsCaret` assume the element's markup is well formed
  and that no tag in it holds a trigger character (`TagsFree`).
  - The spans the callback inserts, and tags such as `<br>` or `<div>`,
    hold none.
  - An attribute such as `href="#x"` with `#` a trigger does hold one.
    There the source's pass wraps text inside the tag, and the visible text
    is not kept.
- The legacy callback's lemmas `LegacyTags.LegacyHighlightStrips`,
  `LegacyTags.LegacyHighlightVisible` and `LegacySession.DefaultKeepsCaret`
  are stated for one trigger on plain text.
  - With several triggers, a later replacement can match inside the tags an
    earlier one inserted.
- `LegacySession`: the model assumes the selection lies inside the element.
  - retype.js has no `document.activeElement` check.
  - A range elsewhere in the page would receive the marker outside the
    element, and that is not modelled.
- `Caret.LegacyRetypeResult` always re-parses the callback's result.
  - This assumes the callback writes new markup.
  - retype.js:29-31 does not reflow the element. A callback that writes
    nothing would leave the marker in its own text node.
  - The text offset of the caret is the same either way.
- `$.fn.retype` over a jQuery collection is modelled per element
  (`Registry.Attach`). The returned collection is not modelled.
- Integers are unbounded. The source's counters stay far below 2^53.
