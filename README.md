# LeafView viewer core in Dafny

A model of the logic in `web/App.tsx` of the LeafView image viewer:

- the **navigation controller**: the session holds one piece of state, the
  shown path `url`, which starts as an "empty" sentinel. "Next", "previous"
  and "remove" are decided against a directory listing fetched fresh for
  each action. Each one leaves the session alone, shows an entry of the
  listing, or reloads the page, which starts the viewer again empty;
- the **viewport-fit engine**: `getZoom` shrinks an image to fit the
  viewport. `draw` turns that zoom into the map bounds and decides whether
  to recentre the view;
- the **small rules** around them: key routing, the window title, and the
  accept rules for the open dialog and for dropped files.

Modules:

- `Navigation` (navigation.dfy) holds the session values (`Current`,
  `Outcome`), `indexOf`, and the decision functions of onNext, onPrev,
  onRemove, onOpen and the drop listener, with lemmas relating them.
- `Fit` (fit.dfy) holds `getZoom` and the placement `draw` computes.
- `Keys` (keys.dfy) is the `switch` of onKeyDown, evaluated with
  JavaScript's `&&` and `===`.
- `Title` (title.dfy) is `url.replace(/.+(\/|\\)/, '')` under ECMAScript
  regular-expression semantics.
- `Viewer` (app.dfy) has class `App`. Its fields are `url` and the map held
  in `mapObj.current`. Its methods are the handlers, written step by step
  as in the source. Each is proved to produce the outcome of the matching
  decision function.
- `Wrappers` (wrappers.dfy) holds `Option`.

The host calls (`get_entries`, `move_to_trash`, `mime_check`, the open
dialog) become parameters holding the values they return.

Where the code does something a user might not expect, the model follows
the code:

- onPrev on a path that is not in the listing goes to the **first** entry,
  not the last.
- onRemove after deleting the last entry shows the **first** remaining
  entry. It does not step back to the new last entry (`RemoveLastWrapsToFirst`:
  `[a, b, c]`, remove `c`, new listing `[a, b]` gives `a`). With an
  unchanged directory this is exactly where "next" would have gone
  (`RemoveLandsOnNext`).
- The view is recentred only when the image is **strictly** smaller than
  the viewport on both axes. An image as wide as the viewport gets zoom 1
  and no recentring.
- A viewport of width or height 0 with a positive image gives zoom 0, not 1.
- A listing fetch that fails makes the handler's promise reject, so nothing
  changes. The page is not reset.

## Model

| member | source | states |
|---|---|---|
| `Navigation.After` | web/App.tsx:126-136 | a handler's effect on the session: no change keeps `url`, setting a path shows it, a reload returns to the empty sentinel |
| `Navigation.IndexOf` | web/App.tsx:132 | `indexOf`: -1 exactly when the path is absent; otherwise a position holding the path with no earlier occurrence |
| `Navigation.FirstAtIsIndexOf` | web/App.tsx:132 | the first occurrence of the path is the position `indexOf` returns |
| `Navigation.NextTarget` | web/App.tsx:122-138 | onNext: no change when empty; reset on an empty listing; no change on a one-entry listing; a path not listed goes to the first entry; any shown path is an entry of the listing |
| `Navigation.NextFrom` | web/App.tsx:132-137 | from first occurrence `i`, onNext shows `list[i+1]`, or `list[0]` at the last position |
| `Navigation.PrevTarget` | web/App.tsx:140-158 | onPrev: the same guards as onNext; a path not listed goes to the FIRST entry; any shown path is an entry of the listing |
| `Navigation.PrevFrom` | web/App.tsx:150-157 | from first occurrence `i`, onPrev shows `list[i-1]`, or the last entry at position 0 |
| `Navigation.NextStep` | web/App.tsx:130-137 | on a listing without duplicates one "next" moves one entry forward round the cycle, a single entry staying put |
| `Navigation.PrevStep` | web/App.tsx:148-157 | on a listing without duplicates one "previous" moves one entry back round the cycle, a single entry staying put |
| `Navigation.NextCycleReturns` | web/App.tsx:122-138 | on a listing without duplicates, pressing "next" once per entry returns to the starting path |
| `Navigation.PrevCycleReturns` | web/App.tsx:140-158 | on a listing without duplicates, pressing "previous" once per entry returns to the starting path |
| `Navigation.PrevUndoesNext` | web/App.tsx:132-157 | for a listed path in a listing without duplicates, "previous" after "next" restores the path |
| `Navigation.NextUndoesPrev` | web/App.tsx:132-157 | for a listed path in a listing without duplicates, "next" after "previous" restores the path |
| `Navigation.RemoveIndexAsWritten` | web/App.tsx:182-186 | the position onRemove reads, as written: always below the new length, and negative exactly when the path was not in the pre-delete listing |
| `Navigation.RemoveUnlistedReadsOutOfRange` | web/App.tsx:169-185 | a path missing from the pre-delete listing makes onRemove read position -1 of the new listing |
| `Navigation.RemoveIndex` | web/App.tsx:182-186 | the corrected position: always valid in the new listing, 0 for an unlisted path, and the as-written one whenever the path was listed |
| `Navigation.RemoveTargetAsWritten` | web/App.tsx:160-187 | onRemove as written: it stores `undefined` in `url` exactly when the path is missing from the pre-delete listing and the trash move and both listings succeed; in every other case it does what `RemoveTarget` does |
| `Navigation.RemoveTarget` | web/App.tsx:160-187 | onRemove with the corrected read of the post-delete listing: no change exactly when empty; reset on an empty pre-delete listing, a failed trash move or an empty post-delete listing; otherwise some entry of the post-delete listing is shown |
| `Navigation.RemoveFrom` | web/App.tsx:169-186 | from first occurrence `i`, onRemove shows `newList[i]`, or `newList[0]` when `i` is past the new end |
| `Navigation.RemoveLandsOnNext` | web/App.tsx:160-187 | when the new listing is the old one minus the removed path, onRemove shows exactly what onNext would have shown |
| `Navigation.RemoveLastWrapsToFirst` | web/App.tsx:182-183 | removing `c` from `[a, b, c]` with new listing `[a, b]` shows `a` |
| `Navigation.OpenTarget` | web/App.tsx:116-119 | the dialog's answer is shown exactly when it is one non-empty path; a cancel, an empty path or an array changes nothing; never a reset |
| `Navigation.DropTarget` | web/App.tsx:216-221 | the first dropped path is shown exactly when there is one and the mime check accepts it; never a reset |
| `Fit.GetZoom` | web/App.tsx:33-47 | 1 when the image fits at native size; otherwise the minimum of the two axis ratios |
| `Fit.ZoomIsLargestFittingScale` | web/App.tsx:39-46 | for positive image and non-negative viewport sizes the zoom lies in [0, 1] and the scaled image fits; no scale up to 1 that fits is larger |
| `Fit.ZoomTouchesEdge` | web/App.tsx:39-43 | when the image is too big, the scaled image meets the viewport edge on the constraining axis |
| `Fit.StrictlyInside` | web/App.tsx:85 | the recentring test: the image is strictly smaller than the viewport on both axes |
| `Fit.Center` | web/App.tsx:81-86 | `getCenter`: the point equidistant from the two corners on each axis |
| `Fit.Place` | web/App.tsx:56-88 | the zoom is `GetZoom`'s and the bounds run from (ih*zoom, 0) to (0, iw*zoom), the scaled image, so they fit the viewport and keep the image's aspect ratio; recentring happens exactly when the image is strictly smaller on both axes, then at zoom 1 on the image's middle; an image that fits with an equal side gets zoom 1 and no recentring |
| `Fit.FitExamples` | web/App.tsx:33-47 | the zooms of four sample sizes: 0.5 for twice the viewport, 1 for half of it, 0.5 when constrained by width and when constrained by height |
| `Keys.KeyCases` | web/App.tsx:192-206 | the four case groups in source order; the arrow labels equal their key name exactly when the modifier is held and are `false` without it |
| `Keys.Switch` | web/App.tsx:192-209 | a `switch` whose `default` does nothing: the handler of the first case with a label strictly equal to the key, nothing when no label is |
| `Keys.OnKeyDown` | web/App.tsx:189-210 | no key acts while empty; otherwise `0` resets the zoom, `j` or meta+ArrowRight goes next, `k` or meta+ArrowLeft goes back, `Delete` removes, each exactly for those keys |
| `Title.MatchAt` | web/App.tsx:243 | a match of the title pattern at a start position ends just past a separator, spans at least two characters on one line, and leaves no separator before the line's end |
| `Title.FindMatch` | web/App.tsx:243 | the leftmost start position with a match, none earlier |
| `Title.StripDirectory` | web/App.tsx:243 | the first match is removed; for a single-line path the result is a suffix with no separator after its first character |
| `Title.StripAfterLastSeparator` | web/App.tsx:243 | a single-line path whose last separator is at position k >= 1 becomes what follows that separator |
| `Title.StripWithoutSeparator` | web/App.tsx:243 | a single-line path with no separator after its first character is unchanged |
| `Title.StripIdempotent` | web/App.tsx:243 | stripping a single-line path twice is stripping it once |
| `Title.StripStopsAtLineBreak` | web/App.tsx:243 | `.` does not cross a line break: `a/b` newline `c/d` keeps everything after the first line's directory |
| `Title.WindowTitle` | web/App.tsx:240-244 | `LeafView` when empty; otherwise never longer than the path, and free of separators after the first character for a single-line path |
| `Viewer.App.constructor` | web/App.tsx:18-21 | the session starts empty, with no map |
| `Viewer.App.SetUrl` | web/App.tsx:18 | `setUrl(p)` makes `p` the shown path and touches nothing else |
| `Viewer.App.Reload` | web/App.tsx:127 | a reload leaves no image and no map |
| `Viewer.App.Open` | web/App.tsx:106-120 | onOpen's result is `OpenTarget` of the dialog's answer and the new `url` is its effect |
| `Viewer.App.Drop` | web/App.tsx:212-226 | the drop listener's result is `DropTarget` of the payload and mime answer, and the new `url` is its effect |
| `Viewer.App.Next` | web/App.tsx:122-138 | onNext step by step: result `NextTarget` of the old state, new `url` its effect, the map dropped only on a reset |
| `Viewer.App.Previous` | web/App.tsx:140-158 | onPrev step by step: result `PrevTarget` of the old state, new `url` its effect, the map dropped only on a reset |
| `Viewer.App.Remove` | web/App.tsx:160-187 | onRemove step by step, with the corrected read: result `RemoveTarget`, new `url` its effect, the map dropped only on a reset |
| `Viewer.App.KeyDown` | web/App.tsx:189-210 | runs the handler `OnKeyDown` routes to, with the outcome and new state of that handler; any other key changes nothing |
| `Viewer.App.Draw` | web/App.tsx:49-99 | the map is replaced by one for the current path with the placement `Place` computes |

## Findings

| source | as written | input that shows it | evidently intended | confidence | as-written member | corrected member |
|---|---|---|---|---|---|---|
| web/App.tsx:169-185 | `index = list.indexOf(url)`, then `newList[index]` whenever `index <= newList.length - 1` | pre-delete listing `["a.png", "b.png"]` with `url` `"x.png"` (renamed outside the viewer), post-delete listing `["a.png"]`: `index` is -1, so `setUrl(newList[-1])` sets `url` to `undefined` | show an entry of the post-delete listing, the first one, as the past-the-end case already does | medium, not executed | `Navigation.RemoveTargetAsWritten` | `Navigation.RemoveTarget` |

`Navigation.RemoveUnlistedReadsOutOfRange` exhibits the input. At the level of
the read position, `Navigation.RemoveIndexAsWritten` is the as-written
expression and `Navigation.RemoveIndex` the corrected one, always a valid
position. `Navigation.RemoveTarget` and `Viewer.App.Remove` use the corrected
position.

## Left out

- Fit.GetZoom: requires positive image dimensions. The source divides by them unchecked, and the Infinity or NaN that a zero-size image would produce is not modelled.
- Fit.GetZoom: computes over exact reals. The IEEE-754 rounding of the divisions is not modelled.
- Fit.ZoomIsLargestFittingScale: the properties are stated for non-negative viewport sizes only; a negative size cannot come from a layout box.
- Navigation.RemoveTarget: for a path missing from the pre-delete listing, it shows the first new entry. The source stores `undefined` there; `Navigation.RemoveTargetAsWritten` models that run (see Findings).
- Viewer.App.Remove: for a path missing from the pre-delete listing, it shows the first new entry. The source writes `undefined` into `url` (see Findings).
- Viewer.App.KeyDown: the `0` key's `setZoom(0)` is routed, but its effect is not modelled, because the map's zoom level is Leaflet state.
- Viewer.App.Draw: the two sizes are parameters. Decoding the image (`Image.onload`) and watching the viewport (`ResizeObserver`) are event plumbing. The `if (node)` test on the mounted element is also left out.
- The Leaflet calls are left out as rendering-library behaviour: building and tearing down the map (`L.map` options, `off`, `remove`), `fitBounds`, `imageOverlay`, the double-click reset, and focus/blur. The model keeps only the bounds and the recentre point `draw` passes to them.
- Host services become parameters holding the values they return: `dirname` and the `asset://` stripping, `get_entries`, `move_to_trash`, `mime_check`, the open dialog and its extension filter, `convertFileSrc`, `setTitle`, and `event.listen`.
- A listing fetch that rejects, or a `null` listing: the model takes the listing as a sequence. A `null` listing behaves like the empty sequence. A rejected fetch, which stops the handler with no change, is not modelled.
- Trash failure is modelled as a reset. After its `catch`, the source goes on to the second listing, but the reload it has started discards that work.
- Async interleaving of overlapping handlers, and React's hooks, callbacks and re-rendering: each handler runs to completion in the model.
- Viewer.App.Drop: assumes that the mime check of an undefined path (an empty payload) fails, so nothing is shown.
- The empty sentinel is the URL of a bundled placeholder image. The model gives it its own constructor, so a path equal to that URL is not modelled.
- Strings are sequences of Unicode scalar values, not UTF-16 code units. This does not change the title rule: `.` matches both halves of a surrogate pair, as it matches any other non-terminator.
- `src-tauri/src/menu/locales.rs` is a static locale-to-file table passed to a translation library. It has no logic of its own.
