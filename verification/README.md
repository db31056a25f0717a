# moogallery — a Dafny model of its gallery core

moogallery is a MooTools widget that fills a container with a table of media
thumbnails (images, YouTube/Vimeo videos, audio files) and opens a lightbox
to browse the media. This project models the deterministic logic inside the
`moogallery` class and proves properties of it:

- **Sequential loader** (`Loader`): the constructor requests thumbnail 0; each
  thumbnail's `onload` places it and fires `item_rendered` with the next
  index, whose handler requests that entry or fires `complete`. Thumbnail
  loading is an input: each thumbnail either loads with a width or never
  fires `onload`.
- **Two-phase grid packer** (`Grid`): the state `(first_row, cols,
  actual_col)` plus the table's rows, with placement folded over the loaded
  thumbnails. The measured table width after a tentative insertion is the
  sum of the widths in the open row. While the first row is open, that row
  is the only one.
- **Media dispatch** (`Media`): from a descriptor to an `Image`, a `Video`
  embed or an `Audio` element, with the base-link table of the video sites.
- **Lightbox navigation** (`Lightbox`, `Decimal`): the index moved by
  half-clicks, swipes and bullets; the bullet row, the hover arrows and the
  `position/total` counter text.

Files: `wrappers.dfy` (Option/Result), `media.dfy`, `grid.dfy`, `loader.dfy`,
`decimal.dfy`, `lightbox.dfy`.

Some behaviours of the code that a reader may not expect, all modelled as
written:
- A descriptor with no image, video or audio property is not rejected. The
  audio guard at line 221 compares a type name with `null`, so it is always
  true and such a descriptor becomes an empty audio element.
- Audio sources are injected at the top of the element, so their order is
  [ogg, mpeg]. It is not the order in which the formats are listed.
- A thumbnail that never loads stalls the loader. No later entry is requested
  and `complete` never fires. There is no skip-and-continue path.
- Navigation is not refused while a transition animation is running.
  `changeItem` has no such guard.
- When the very first thumbnail is at least as wide as the container (the
  test on line 188 is `>=`), `cols` stays 0.
  The first table row stays empty, and every thumbnail gets a row of its own.

## Model

| member | source | states |
|---|---|---|
| Media.MediaItem | Source/moogallery.js:208-230 | an image wins over YouTube, YouTube over Vimeo. A video's address decodes back to its site and code, and its width and height are passed through. Every other descriptor becomes audio with sources [ogg, mpeg], each present only when given |
| Media.ParseEmbed | Source/moogallery.js:80-83 | decoding an embed address yields a site and code whose embed address is the input |
| Media.EmbedRoundTrip | Source/moogallery.js:212-215 | the embed address built from the base-link table and a code decodes back to that site and code |
| Media.SourceFor | Source/moogallery.js:225-227 | a format yields one source exactly when the descriptor has that property. It carries the file and the MIME type `audio/<format>` |
| Media.InjectAtTop | Source/moogallery.js:224-229 | after the loop the element holds its earlier children plus exactly one source per present format, counted. Their order is stated by `InjectAtTopReverses` |
| Media.InjectAtTopReverses | Source/moogallery.js:224-229 | injecting each present source at the top leaves the sources in the reverse of the loop order, ahead of earlier children |
| Media.AudioFallback | Source/moogallery.js:221-230 | a descriptor without image or video becomes audio, with no sources when it names no audio file |
| Media.AudioOrder | Source/moogallery.js:224-229 | with both files given, the sources are exactly [ogg, mpeg] |
| Grid.Place | Source/moogallery.js:173-197 | one placement appends exactly the new cell to the table's reading order. In the first phase the row breaks exactly when the measured width reaches the container width, and `cols` grows by one otherwise. After that, a new row starts exactly when `actual_col >= cols`, with `actual_col` reset to 1 or incremented. `first_row` never becomes true again and `cols` is never changed |
| Grid.Insert | Source/moogallery.js:173-196 | in the first phase the new thumbnail closes the first row exactly when the open row's width plus its own reaches the container width. Once the first row is closed, `first_row` and `cols` never change |
| Grid.Pack | Source/moogallery.js:173-198 | after any number of placements, the table read row by row is exactly the placed cells in order, each once |
| Grid.PackShaped | Source/moogallery.js:176-196 | the packer's invariant. The first row holds the first `cols` cells, every prefix of it fits, and the next prefix overflows. Later closed rows hold `max(cols,1)` cells, and the open row holds `actual_col` cells, between 1 and `max(cols,1)` |
| Grid.FirstRowColumns | Source/moogallery.js:186-196 | `cols` is the largest K such that every prefix of at most K thumbnails is narrower than the container. Every longer prefix is not. `first_row` still holds exactly when no thumbnail overflowed |
| Grid.LaterRowsFull | Source/moogallery.js:176-184 | with no overflow the table is one row. Otherwise every row after the first, except the last, holds exactly `max(cols,1)` thumbnails, and the last holds 1 to `max(cols,1)` |
| Grid.ColumnsFrozen | Source/moogallery.js:176-192 | once the first row is closed, any further placements keep it closed and leave `cols` unchanged |
| Grid.FirstThumbOverflows | Source/moogallery.js:186-193 | if the first thumbnail already overflows, `cols` is 0 and the first row stays empty. Thumbnail i then sits alone in row i+1 |
| Grid.ThreeThumbScenario | Source/moogallery.js:186-196 | widths 200, 300, 180 in a 450-wide container give `cols` 1 and the rows [A], [B], [C] |
| Loader.Initialize | Source/moogallery.js:71-107 | an empty catalog throws. Otherwise the signals alternate request k / `item_rendered(k+1)` in catalog order. They end with `complete` when every thumbnail loaded, and otherwise with the request of the first thumbnail that never loads. The table is the packing of the loaded thumbnails, and one lightbox element is pushed per requested entry |
| Loader.Request | Source/moogallery.js:169-232 | the synchronous part of `renderItem` for entry k adds exactly the request of k to the signals and entry k's media element to the elements. Everything already there is kept, and the table is untouched |
| Loader.OnLoad | Source/moogallery.js:173-198 | a thumbnail's `onload` appends exactly its own cell to the table's reading order, fires `item_rendered` with the next index and pushes no element |
| Loader.RenderItem | Source/moogallery.js:98-107 | `renderItem` for entry k, with everything its `onload` and the `item_rendered` handler trigger, keeps all earlier signals and elements. Its first signal is the request of k, and its first element is entry k's |
| Loader.RenderItemRun | Source/moogallery.js:169-201 | from any point of the chain, the rest of the run completes that protocol, that table and those elements |
| Loader.BrokenEnds | Source/moogallery.js:171-206 | a thumbnail that never fires `onload` ends the run right after its request, with nothing placed for it |
| Loader.CompleteOnceAtEnd | Source/moogallery.js:98-105 | `complete` occurs exactly when all thumbnails loaded, at most once, and only as the last signal |
| Loader.RequestFollowsRendered | Source/moogallery.js:98-107 | entry 0 is requested only first, and entry k > 0 only right after `item_rendered` carrying k |
| Loader.PlacementOrder | Source/moogallery.js:173-198 | the table's cells are the loaded thumbnails 0, 1, 2, … in catalog order, each with its own width |
| Loader.LoadedPrefix | Source/moogallery.js:173-199 | the number of leading thumbnails that load: all before it load, and the one at it does not |
| Loader.IndexOf | Source/moogallery.js:198 | `indexOf` returns the first position holding the object, or -1 when there is none |
| Loader.NextIndexAsWritten | Source/moogallery.js:198 | the index the event carries is at least 1 and at most one past the placed entry |
| Loader.NextIndexDistinct | Source/moogallery.js:198 | with distinct catalog objects the event carries exactly the next index |
| Loader.RequestsAsWritten | Source/moogallery.js:98-107 | the as-written chain started at k requests k first |
| Loader.AsWrittenDistinct | Source/moogallery.js:98-107 | with distinct catalog objects the as-written chain requests 0..n-1 in order and completes |
| Loader.DuplicateEntryNeverCompletes | Source/moogallery.js:98-107 | with the same object at positions 0 and 2, the chain requests 0, 1, 2, 1, … and never completes, for any number of events |
| Lightbox.Open | Source/moogallery.js:365 | the lightbox opens on the clicked element, with the index in range and no arrow shown |
| Lightbox.ChangeItem | Source/moogallery.js:525-531 | the index becomes exactly the given one and the element count is kept. The rebuilt arrows point past no end |
| Lightbox.HalfClick | Source/moogallery.js:331-338 | a click that reaches the lightbox moves to the clamped neighbour on the clicked half |
| Lightbox.Bullets | Source/moogallery.js:495-508 | with bullets shown there is one bullet per element, and none otherwise. Exactly the current one is selected, and every other bullet jumps to its own index |
| Lightbox.HoverArrows | Source/moogallery.js:342-358 | hovering hides the other half's arrow and shows this half's arrow unless the index is at that end. Sound arrows stay sound |
| Lightbox.Step | Source/moogallery.js:328-382 | every input keeps the index in `[0, count)` and keeps the arrows sound. Apart from a click on a bullet other than the selected one, the index moves by at most one. Such a click leaves the index unchanged or sets it to that bullet's index |
| Lightbox.Navigate | Source/moogallery.js:328-382 | any sequence of inputs keeps the index in range and the arrows sound |
| Lightbox.ClickMovesOneStep | Source/moogallery.js:328-339 | a click off any link moves to the clamped neighbour on the clicked half. So it does nothing at index 0 on the left half and at the last index on the right half |
| Lightbox.LinkClickIgnored | Source/moogallery.js:328-329 | a click on a link leaves the lightbox unchanged |
| Lightbox.SwipeMatchesClick | Source/moogallery.js:369-382 | a swipe left acts as a click on the right half, and any other direction as a click on the left half |
| Lightbox.SwipeIgnoredWithoutGestures | Source/moogallery.js:369-370 | without gesture support a swipe changes nothing |
| Lightbox.BulletsNavigate | Source/moogallery.js:495-508 | there is one bullet per element and only the current one is selected. Clicking any other bullet i sets the index to exactly i, wherever on it the click lands |
| Lightbox.SelectedBulletActsAsClick | Source/moogallery.js:501-507 | the selected bullet has no click handler, so a click on it bubbles up to the lightbox. It acts as a click at the same place, moving the index one step toward that half |
| Lightbox.NoBulletNoChange | Source/moogallery.js:495-508 | with bullets hidden, or past the last bullet, a bullet click changes nothing |
| Lightbox.HoverShowsOneArrow | Source/moogallery.js:342-358 | hovering shows the arrow of that half unless the index is at that end, and hides the other arrow |
| Lightbox.NavigationStaysInRange | Source/moogallery.js:328-382 | from any opened element, any inputs keep the index in range with sound arrows |
| Lightbox.ThreeItemScenario | Source/moogallery.js:331-338 | with three elements opened at 0, previous is a no-op. Two nexts reach 2 and a third does nothing |
| Lightbox.CounterText | Source/moogallery.js:489 | the counter text is digits with a single slash, placed right after the one-based position's digits |
| Lightbox.CounterRoundTrip | Source/moogallery.js:489-490 | the counter text reads back as the one-based position and the catalog length |
| Decimal.Show | Source/moogallery.js:489 | a number's text is a non-empty run of digits without a leading zero |
| Decimal.ReadShow | Source/moogallery.js:489 | reading a number's decimal text gives the number back |

## Left out

- `setTip`, `renderOverlay`, `getMaxZindex`, `getViewport` and the lightbox markup are DOM creation and styling. They are not modelled.
- The `Fx.Tween`/`Fx.Morph` chains are left out: the open fade, the width/height morphs, the content fade and the close fade. These are asynchronous library animations. So are the pixel-centering arithmetic and the `/2` offsets of the lightbox box.
- Closing the lightbox by a click on the overlay (lines 456-468) is left out. It disposes the lightbox and the overlay, runs a fade, and, when gestures are on, removes the page's `swipe` listener (lines 464-466). The model has no closed state, so swipes after closing are not modelled.
- Mobile detection and the one-second swipe cooldown (`disableCustomEvents`/`delay`) depend on the platform and on timers. Gesture support is an option flag, and every swipe is delivered.
- The title, description and credits texts of the lightbox info box are left out. They are copied into markup and do not affect navigation or layout.
- Grid.TentativeWidth: the measured table width is the sum of the open row's thumbnail widths. Cell padding, borders and browser rounding are not modelled.
- Lightbox.Open: the catalog entries are taken to be distinct objects. The code finds the opened position with `indexOf` (line 365), and so does `renderNavigation` for the selected bullet and the counter (line 482). With one object at positions 0 and 2, a click on thumbnail 2 opens at index 0. After moving to index 2, the code selects bullet 0 and shows "1/3", where the model selects bullet 2 and shows "3/3". `Lightbox.Bullets` and `Lightbox.CounterText` use the position directly.
- Loader.RenderItem: `renderItem` is declared `.protect()` (line 234). Its later calls come from the `item_rendered` handler (line 100), which an asynchronous `onload` fires. The model assumes these calls go through. MooTools `Class` rules for protected methods are not part of this model.
- Loader.Initialize: catalog entries are always objects. A `null` hole in the middle of the list, which would fire `complete` early, is not modelled.
- Media.InjectAtTop: its own contract counts the children only. That the earlier children stay below the new sources, in order, is stated by `Media.InjectAtTopReverses`.
- Lightbox.Step: `changeItem` sets the index at once but rebuilds the content, arrows and bullet row included, after a fade. The model rebuilds it at once, so inputs during the fade are not modelled. In the code the old bullet row is still live then. A click on the bullet at the new index calls `changeItem` with that index, where the model moves one step. A click on the old selected bullet bubbles to the half-click handler.
- Lightbox.Step: the element count `items.length` is fixed while the lightbox is open. In the code it is read live and can still grow if the lightbox is opened before loading has finished.
- Clicks inside an audio element stop propagation, so they never reach the lightbox's half-click handler. The model has no input for them.
- A click on a bullet other than the selected one also stops propagation; the model's `BulletClick` sends it to `ChangeItem` only. The selected bullet has no handler of its own, so a click on it does reach the half-click handler, and the model follows that.
- The test harness `Tests/ajsut.js` is an assertion logger with timing. It is not product logic.

## Findings

| source | as written | input that shows it | evidently intended | confidence | as-written member | corrected member |
|---|---|---|---|---|---|---|
| Source/moogallery.js:198 | the next index is `indexOf(item_opt) + 1`, i.e. one past the FIRST position holding the same object | a catalog with the same object at positions 0 and 2: after entry 2 loads, entry 1 is requested again, so entries 1 and 2 alternate forever and `complete` never fires | request the entry after the one just placed, by its position | not executed; medium | Loader.DuplicateEntryNeverCompletes | Loader.Initialize |
