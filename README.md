# Flash and Leap jump motions of VSCodeVim, in Dafny

This project models the two label-jump motions of the VSCodeVim extension.

**Flash.** `s` starts a search session. Every key typed after that either:
- is the label of a live marker, which jumps to that marker's match; or
- edits the search string. The document is then scanned again, and every match gets a fresh marker decoration. Each marker's label comes from a fixed alphabet, minus every character that directly follows a match (its *collision character*).

Escape ends the session.

**Leap.** This is the marker set of one leap motion:
- it creates markers and names them per search string, alternating backward and forward markers when the search is bidirectional;
- it looks markers up by name, by search string and by prefix;
- it narrows the set, disposing what it drops;
- it moves the cursor onto a chosen target, adjusted for the visual-mode search modes `s`, `x` and `X`.

Layout:
- `common.dfy`: sequence helpers, including an order-preserving `Filter` and `Find`.
- `document.dfy`: the host's document API (`positionAt`, `lineAt`, `getText` on a one-column range) over plain text split at `'\n'`.
- `editor.dfy`: the editor state the motions read and write: the modes, the cursor stop and the document.
- `text_search.dfy`: the global regular-expression scan driven by `regex.exec`, for a search string read as plain text.
- `flash.dfy`, `flash_action.dfy`, `flash_marker.dfy` and `flash_match.dfy`: one file per source file of the Flash plugin.
- `leap.dfy`: the `Leap` class.

The model is built as follows:
- State that the source changes in place is a Dafny `class`: the `flash` object, marker decorations, the Leap markers, the `Leap` object and `VimState`.
- Every `forEach`, `map` and `while` loop of the source that has an effect is a method with a loop. Each such method is proved against a function that specifies its result.
- `show()` and `dispose()` on decorations are ghost flags.

## Model

| member | source | states |
|---|---|---|
| Flash.FlashSession.constructor | src/actions/plugins/flash/flash.ts:11-21 | the session starts with an empty search string, no markers and no mode to return to |
| Flash.FlashSession.AppendSearchString | src/actions/plugins/flash/flash.ts:23-25 | the search string grows by exactly the typed key |
| Flash.FlashSession.DeleteSearchString | src/actions/plugins/flash/flash.ts:27-29 | the search string loses its last character (`DropLast`), and the empty string stays empty |
| Flash.DropLast | src/actions/plugins/flash/flash.ts:27-29 | `slice(0, -1)`: the result plus the old last character gives back the input; empty stays empty |
| Flash.DropLastAfterAppend | src/actions/plugins/flash/flash.ts:23-29 | deleting right after appending one character restores the previous search string |
| Flash.SearchMatches | src/actions/plugins/flash/flash.ts:31-50 | the matches of a search string: none for the empty string, and each match's text is the search string itself (the scan is case-sensitive) |
| Flash.FlashSession.GetSearchMatches | src/actions/plugins/flash/flash.ts:31-55 | no matches for the empty search string; otherwise exactly the scan's matches, in `regex.exec` order |
| TextSearch.Occurrences | src/actions/plugins/flash/flash.ts:37-50 | every reported offset is an occurrence at or after the start; the offsets increase and never overlap |
| TextSearch.OccurrencesComplete | src/actions/plugins/flash/flash.ts:37-50 | every occurrence of the search string lies inside one of the reported matches |
| TextSearch.ScanMatches | src/actions/plugins/flash/flash.ts:37-50 | the `while (regex.exec)` loop builds exactly the matches of the specified scan, in order |
| TextSearch.ScanMatchText | src/actions/plugins/flash/flash.ts:41-49 | each match's text is the document text of its range; it equals the search string, up to ASCII case when ignoring case; its range runs from the offset to the offset plus the length |
| TextSearch.MatchesOf | src/actions/plugins/flash/flash.ts:41-49 | one match per occurrence offset, in the same order |
| Flash.GenerateFlashDecorations | src/actions/plugins/flash/flash.ts:57-66 | the highlighted ranges are the ranges of the session's matches, in order |
| Flash.FlashSession.ResetFlash | src/actions/plugins/flash/flash.ts:68-76 | empty search string, no previous mode, no markers, and every old marker disposed |
| Flash.MarkerDecoration.constructor | src/actions/plugins/flash/flash.ts:83-88 | a new decoration has the given range and label and is neither shown nor disposed |
| Flash.MarkerDecoration.Show | src/actions/plugins/flash/flash.ts:90-92 | the decoration is shown |
| Flash.MarkerDecoration.Dispose | src/actions/plugins/flash/flash.ts:94-97 | the decoration is disposed |
| Flash.MarkerDecoration.GetJumpPosition | src/actions/plugins/flash/flash.ts:99-101 | a jump lands on the start of the marker's range |
| Flash.DisposeAll | src/actions/plugins/flash/flash.ts:72-74 | the `forEach(dispose)` disposes every decoration of the list |
| Flash.FindByLabel | src/actions/plugins/flash/flash.ts:128-130 | `find` by label: a marker of the list with that label, the first one; none exactly when no marker has that label |
| Flash.FlashSession.FindMarkerDecorationByLabel | src/actions/plugins/flash/flash.ts:128-130 | the first live marker with that label; none exactly when no live marker has it |
| Flash.AlphabetDistinct | src/actions/plugins/flash/flash.ts:134 | the label alphabet has no repeated character |
| Flash.TakeMarkerLabelAsWritten | src/actions/plugins/flash/flash.ts:136-151 | as written: always removes the pool's first element; hands out `pool[0]`, or `pool[1]` on a clash with a collision character (nothing for a one-element pool) |
| Flash.TakeMarkerLabelAsWrittenRepeats | src/actions/plugins/flash/flash.ts:136-151 | as written: a clash on `s` hands out `k`, and the next call without a clash hands out `k` again |
| Flash.TakeFromPool | src/actions/plugins/flash/flash.ts:136-151 | corrected: hands out the first label, or the second on a clash, and removes exactly that label; the pool keeps its other labels, their multiset and their distinctness; the label handed out never equals the collision character |
| Flash.TakeAll | src/actions/plugins/flash/flash.ts:136-151 | successive calls hand out one answer per collision character |
| Flash.TakeAllFromPool | src/actions/plugins/flash/flash.ts:136-151 | every label handed out by successive calls comes from the pool |
| Flash.TakeAllDistinct | src/actions/plugins/flash/flash.ts:136-151 | on a pool without repeats, successive corrected calls never hand out one label twice |
| Flash.LabelPoolState.constructor | src/actions/plugins/flash/flash.ts:132-134 | the pool starts as the alphabet, with the index at 0 |
| Flash.LabelPoolState.TakeMarkerLabel | src/actions/plugins/flash/flash.ts:136-151 | the stateful call with the corrected splice: label and new pool are those of `TakeFromPool`, and the index is back at 0 |
| Flash.GetNextChat | src/actions/plugins/flash/flash.ts:153-159 | the one-column text after a match's end has at most one character |
| Flash.NextChatOnLine | src/actions/plugins/flash/flash.ts:153-159 | a scanned match has a collision character exactly when the one-column range after it stays on the match's line: the next offset sits one column right of the match's end |
| Flash.NextChatOfScannedMatch | src/actions/plugins/flash/flash.ts:153-159 | a scanned match's collision character is the document character right after the match when there is one and it is not a line break, and nothing otherwise |
| Flash.LabelPool | src/actions/plugins/flash/flash.ts:161-174 | the pool holds exactly the alphabet characters that are no match's collision character, in alphabet order, without repeats |
| Flash.GenerateMarkerLabels | src/actions/plugins/flash/flash.ts:161-174 | the same for the real alphabet: exactly the non-colliding letters, in order, each once |
| Flash.LabelAt | src/actions/plugins/flash/flashAction.ts:75 | `labels[index] \|\| ''`: non-empty exactly when the index is inside the pool |
| Flash.MarkerLabelsUnambiguous | src/actions/plugins/flash/flash.ts:161-174 | labels of different markers differ, and no label is any match's collision character |
| Flash.PoolLabelsUnambiguous | src/actions/plugins/flash/flash.ts:161-174 | the same for any pool without repeats and collision characters |
| Flash.NewMarkerDecorations | src/actions/plugins/flash/flashAction.ts:74-79 | one fresh, shown, undisposed decoration per match: the match's range and the label at its index |
| FlashAction.DoesActionApply | src/actions/plugins/flash/flashAction.ts:22-33 | the trigger applies in Normal or a visual mode, on `s`, exactly when Flash is enabled and there is a single cursor |
| FlashAction.FlashCommandExec | src/actions/plugins/flash/flashAction.ts:35-41 | when enabled: reset, remember the mode, enter the search mode (a search in progress begins); when disabled: nothing changes |
| FlashAction.EditSearchString | src/actions/plugins/flash/flashAction.ts:59-63 | backspace deletes the last character; any other key is appended |
| FlashAction.FlashSearchInProgressExec | src/actions/plugins/flash/flashAction.ts:50-81 | a label key jumps to its marker's start, restores the mode and resets. Any other key edits the search string and rebuilds fresh markers for the new matches. In both cases every old marker is disposed. After a non-label key, a search in progress stays in progress |
| FlashAction.EditAndRelabel | src/actions/plugins/flash/flashAction.ts:59-79 | the edited search string, the old markers disposed, fresh markers labelled for the matches |
| FlashAction.Relabel | src/actions/plugins/flash/flashAction.ts:65-79 | dispose every old marker, then the markers for the new matches |
| FlashAction.Rebuild | src/actions/plugins/flash/flashAction.ts:72-79 | rescan, then one fresh marker per match, labelled from the pool of those matches |
| FlashAction.NewMarkersFor | src/actions/plugins/flash/flashAction.ts:73-79 | fresh markers built for the matches and their label pool |
| FlashAction.LiveMarkersUnambiguous | src/actions/plugins/flash/flashAction.ts:53-57 | among the markers built for a scan, a non-empty label picks out one marker and is no marker's collision character; so a typed label jumps and is never taken as search text |
| FlashAction.EscExec | src/actions/plugins/flash/flashAction.ts:89-92 | Escape restores the previous mode, resets the session and disposes every marker |
| FlashMarker.MarkerList.constructor | src/actions/plugins/flash/flashMarker.ts:5 | the module-level list starts empty |
| FlashMarker.MarkerList.CleanAllFlashMarkerDecorations | src/actions/plugins/flash/flashMarker.ts:52-58 | every old entry disposed, the list empty |
| FlashMarker.MarkerList.FindMarkerDecorationByLabel | src/actions/plugins/flash/flashMarker.ts:60-62 | the first entry with that label; none exactly when no entry has it |
| FlashMarker.MarkerList.CreateMarkerDecorations | src/actions/plugins/flash/flashMarker.ts:64-75 | the list becomes one fresh, shown decoration per match with `labels[i] \|\| ''`; the replaced entries are not disposed |
| FlashMarker.GetNextSearchChat | src/actions/plugins/flash/flashMarker.ts:92-98 | at most one character: the character of the match's end line at the end column |
| FlashMarker.CreateMarkerLabels | src/actions/plugins/flash/flashMarker.ts:77-90 | exactly the alphabet letters that are no match's collision character, in order, each once |
| FlashMatch.VisibleMatches | src/actions/plugins/flash/flashMatch.ts:36-39 | the matches starting at or below the first visible line, every one of them, in order |
| FlashMatch.CreateSearchMatches | src/actions/plugins/flash/flashMatch.ts:11-40 | none for the empty search string; otherwise the visible part of the scan, case-insensitive when configured |
| FlashMatch.WholeDocumentVisible | src/actions/plugins/flash/flashMatch.ts:11-40 | with everything visible and case kept, these are exactly the matches of `getSearchMatches` |
| Leap.Leap.constructor | src/actions/plugins/leap/leap.ts:30-33 | a new motion remembers the current mode and has no markers and no search mode |
| Leap.Marker.constructor | src/actions/plugins/leap/leap.ts:36-38 | a marker takes its match's position, search string and direction; it starts unlabelled, not shown and not disposed |
| Leap.Marker.Show | src/actions/plugins/leap/leap.ts:175-179 | the marker is shown |
| Leap.Marker.Dispose | src/actions/plugins/leap/leap.ts:161-168 | the marker is disposed |
| Leap.Group | src/actions/plugins/leap/leap.ts:61-70 | the markers pushed under one search string, one at a time in list order: only markers of the list with that search string, never more than the list holds |
| Leap.Leap.CreateMarkers | src/actions/plugins/leap/leap.ts:35-43 | one fresh, undisposed marker per match, in match order, carrying the match's fields. Each is then labelled as `setMarkersName` labels it, and the list is returned |
| Leap.Leap.SetMarkersName | src/actions/plugins/leap/leap.ts:60-81 | each marker the reorder keeps gets the name of its place in its search string's label order; a marker the reorder drops keeps its label |
| Leap.Leap.LabelAll | src/actions/plugins/leap/leap.ts:72-80 | the `forEach` over the groups gives the same labels in any key order |
| Leap.Leap.LabelSearchString | src/actions/plugins/leap/leap.ts:73-79 | one group is labelled; no marker of another search string changes |
| Leap.Leap.GroupBySearchString | src/actions/plugins/leap/leap.ts:61-70 | the map sends every search string that occurs to its markers, in list order |
| Leap.Leap.LabelGroup | src/actions/plugins/leap/leap.ts:75-79 | the k-th marker gets `markerNames[k]`, or `''` past the end |
| Leap.Leap.Reorder | src/actions/plugins/leap/leap.ts:83-111 | the group's backward and forward markers, alternated |
| Leap.Leap.Alternate | src/actions/plugins/leap/leap.ts:93-109 | the three loops build `b[0], f[0], b[1], f[1], …`, then the longer side's rest |
| Leap.Leap.PushRest | src/actions/plugins/leap/leap.ts:99-108 | the rest of one side is appended in order |
| Leap.Interleave | src/actions/plugins/leap/leap.ts:93-109 | `b[0], f[0], b[1], f[1], …`, then the rest of the longer side; as long as both sides together |
| Leap.Reordered | src/actions/plugins/leap/leap.ts:83-111 | only markers of the group survive, and none is tagged bidirectional |
| Leap.ReorderedContents | src/actions/plugins/leap/leap.ts:83-111 | the reorder keeps each backward and forward marker exactly once (length and multiset) and has no repeats |
| Leap.InterleaveLength | src/actions/plugins/leap/leap.ts:93-109 | the interleaving keeps both sides' elements and nothing else |
| Leap.InterleaveAlternates | src/actions/plugins/leap/leap.ts:93-97 | below the shorter length, `b[i]` sits at `2i` and `f[i]` at `2i+1` |
| Leap.InterleaveForwardRest | src/actions/plugins/leap/leap.ts:104-108 | the interleaving ends with the forward side's rest when that side is longer |
| Leap.InterleaveBackwardRest | src/actions/plugins/leap/leap.ts:99-103 | the interleaving ends with the backward side's rest when that side is longer |
| Leap.InterleaveDistinct | src/actions/plugins/leap/leap.ts:93-109 | two disjoint sides without repeats interleave without repeats |
| Leap.Tagged | src/actions/plugins/leap/leap.ts:86-87 | the group's markers with one direction: all of them, only them, still without repeats |
| Leap.GroupIsFilter | src/actions/plugins/leap/leap.ts:61-70 | the group pushed one marker at a time is the filter by search string |
| Leap.GroupMembers | src/actions/plugins/leap/leap.ts:61-70 | a group holds its search string's markers, all of them and no others, in list order, without repeats |
| Leap.NameAt | src/actions/plugins/leap/leap.ts:78 | `markerNames[index]`, or `''` past the end: always one of the names or `''`; when no name is empty, non-empty exactly when the index is inside the names |
| Leap.ExpectedLabel | src/actions/plugins/leap/leap.ts:72-79 | the label the `forEach` writes on a marker: the name of its place in its search string's label order, always one of the names generated for that group's size, or `''` |
| Leap.LabelOrder | src/actions/plugins/leap/leap.ts:72-79 | the label order holds only markers of that search string that the reorder keeps |
| Leap.InLabelOrder | src/actions/plugins/leap/leap.ts:72-79 | every marker the reorder keeps is in its search string's label order |
| Leap.LabelOrderDistinct | src/actions/plugins/leap/leap.ts:72-79 | no marker appears twice in a label order |
| Leap.ExpectedLabelsGroupLabelled | src/actions/plugins/leap/leap.ts:72-80 | per-marker labelling labels every group: the k-th marker of each label order carries the k-th name |
| Leap.GroupLabelsUnambiguous | src/actions/plugins/leap/leap.ts:72-80 | with names that never repeat, two markers of one search string with the same non-empty label are the same marker |
| Leap.IndexIn | src/actions/plugins/leap/leap.ts:77-79 | the index handed to the naming is the marker's first place in the order |
| Leap.Leap.FindMarkerByName | src/actions/plugins/leap/leap.ts:114-118 | the first marker with that label; none exactly when no marker has it |
| Leap.FindByName | src/actions/plugins/leap/leap.ts:114-118 | `find` on the label: first match, or none iff no label matches |
| Leap.Leap.FindMarkersBySearchString | src/actions/plugins/leap/leap.ts:120-124 | all the markers of that search string and only them, in list order: the group `setMarkersName` labels |
| Leap.Leap.KeepOnly | src/actions/plugins/leap/leap.ts:126-146 | the list becomes the markers that pass, in order; every marker that fails is disposed; the disposal state of the kept ones does not change |
| Leap.Leap.KeepMarkersByPrefix | src/actions/plugins/leap/leap.ts:126-135 | only the markers with that prefix stay, in order; the others are disposed and the kept ones untouched |
| Leap.Leap.KeepMarkersBySearchString | src/actions/plugins/leap/leap.ts:137-146 | only the group of that search string stays; the others are disposed and the kept ones untouched |
| Leap.Leap.IsPrefixOfMarker | src/actions/plugins/leap/leap.ts:155-159 | true exactly when some marker has that prefix |
| Leap.Leap.CleanupMarkers | src/actions/plugins/leap/leap.ts:161-168 | every old marker disposed, the list empty (an empty list stays as it is) |
| Leap.Leap.ShowMarkers | src/actions/plugins/leap/leap.ts:175-179 | every marker of the list is shown |
| Leap.CursorAfterJump | src/actions/plugins/leap/leap.ts:181-244 | the landing decision of `changeCursorStopPosition`: the cursor ends on the target's line, on the line before it, or where it was; it ends off both the old cursor and the target only in a visual mode with search mode `s`, `x` or `X` |
| Leap.Leap.ChangeCursorStopPosition | src/actions/plugins/leap/leap.ts:181-216 | the cursor stop becomes the landing chosen by the start mode, the bidirectional setting and the search mode |
| Leap.JumpLanding | src/actions/plugins/leap/leap.ts:181-244 | outside visual modes the landing is the target. An exclude jump stops strictly on the near side of the target. A contain jump on a character stays on the target's line, at or past it. Other search modes leave the cursor |
| Leap.Leap.ContainMarkerBackwardJump | src/actions/plugins/leap/leap.ts:217-224 | the cursor becomes `ContainBackwardTarget` of the target |
| Leap.ContainBackwardTarget | src/actions/plugins/leap/leap.ts:217-224 | the landing stays on the line and within it. It is at or after a target on a character, and one column right of it unless clamped at the line's last column |
| Leap.Leap.ContainMarkerForwardJump | src/actions/plugins/leap/leap.ts:225-227 | the cursor becomes the target |
| Leap.Leap.ExcludeMarkerBackwardJump | src/actions/plugins/leap/leap.ts:229-241 | the cursor becomes `ExcludeBackwardTarget` of the target |
| Leap.ExcludeBackwardTarget | src/actions/plugins/leap/leap.ts:229-241 | the landing is strictly before the target: one column left, or at column 0 the end of the previous line |
| Leap.Leap.ExcludeMarkerForwardJump | src/actions/plugins/leap/leap.ts:242-244 | the cursor becomes `ExcludeForwardTarget` of the target |
| Leap.ExcludeForwardTarget | src/actions/plugins/leap/leap.ts:242-244 | the landing is two columns right of the target on the same line, so strictly after it |
| Leap.IsBackward | src/actions/plugins/leap/leap.ts:247-253 | true exactly when the first position comes strictly later in (line, character) order |
| Leap.IsBackwardStrictOrder | src/actions/plugins/leap/leap.ts:247-253 | `isBackward` is irreflexive, asymmetric, transitive and total on distinct positions |

## Left out

- Regular expressions: the search string is read as plain text (`Literal`: no metacharacters). A search string with metacharacters is outside the model, because `new RegExp` would give it a meaning of its own.
- Case folding under `flash.ignorecase` covers ASCII `A`-`Z` only. Line breaks are `'\n'` only, with no `\r\n`.
- Rendering is left out: decoration types, render options, colours, dimming zones (`setDimmingZones` and `cleanupDimmingZones` of leap.ts:45-58 and 170-173) and `console.log`. `show()` and `dispose()` are ghost flags.
- `async`/`await`, action registration and the configuration are not modelled. The configuration (`flash.enable`, `flash.ignorecase`, `leap.bidirectionalSearch`), the first visible line and the multi-cursor flag are parameters.
- `Marker.ts` is not part of this model. The prefix `createMarker` gives a match is the parameter `prefixOf`, and `generateMarkerNames(n)` is the parameter `names`. `deletePrefixOfMarkers` (leap.ts:148-153) only calls `deletePrefix` and `update` on each marker, both from that file, so it is left out.
- Leap.Marker.constructor: what it states beyond the prefix is an assumption about `createMarker`, whose code is not part of this model. It assumes the marker copies the position, search string and direction of its match, starts with the label `''`, and is neither shown nor disposed. `prefix` is a constant because `deletePrefix` is left out. `Leap.Leap.CreateMarkers` relies on the initial `''` when it states that a marker the bidirectional reorder drops has the label `''`.
- `match.ts`, `LeapAction.ts` and `flashDecoration.ts` are not part of this model.
- The `MarkerDecoration` of `flashMarker.ts` has the same fields and methods as the one in `flash.ts`, and `FlashMarker` reuses `Flash.MarkerDecoration`. Its `editor` field is not modelled.
- Leap.NameAt: `markerNames[index]` past the end of the names is `undefined` in the source. The model writes `''` there.
- Leap.Leap.LabelAll: the `Map` visits keys in insertion order. The model takes them in any order and proves the labels do not depend on it.
- Leap.Leap.ChangeCursorStopPosition: `getLeapInstance()` is modelled as `this`. `initLeap`, `getLeapInstance` and `disposeLeap` (leap.ts:255-266) hold one global instance and are not modelled.
- FlashMatch.CreateSearchMatches: the first visible line is a `nat` parameter. With no visible range, `visibleRanges[0]` is `undefined` and the filter at flashMatch.ts:37-39 throws a `TypeError` on any non-empty scan. That path is not modelled.
- Leap.JumpDefined: this precondition excludes two inputs where the host would throw:
  - `lineAt(-1)`, an exclude-backward jump from column 0 of the first line;
  - a contain-backward jump on an empty line, which would give a `Position` with character -1.
- FlashAction.FlashSearchInProgressExec and FlashAction.EscExec require `previousMode.Some?`, where the source writes `flash.previousMode!`.
- Flash.LabelPoolState.TakeMarkerLabel models the corrected splice (see Findings). Nothing else in the core calls `takeMarkerLabel`: the markers take their labels from `generateMarkerLabels`.
- Unicode beyond `char`, and the UTF-16 code units `positionAt` counts in, are not modelled.

## Findings

| source | as written | input that shows it | evidently intended | confidence | as-written member | corrected member |
|---|---|---|---|---|---|---|
| src/actions/plugins/flash/flash.ts:136-151 | On a clash, `takeMarkerLabel` reads `markerLabels[1]` and resets the index to 0 before `splice(markerChatIndex, 1)`. So it removes `markerLabels[0]`, not the label it hands out. | The pool is the alphabet. A match followed by `s` is handed `k`, but `s` is removed and `k` stays. The next match, followed by `x`, is handed `k` again. | Remove the label that is handed out, so no label is given twice | not executed | Flash.TakeMarkerLabelAsWritten, Flash.TakeMarkerLabelAsWrittenRepeats | Flash.TakeFromPool, Flash.LabelPoolState.TakeMarkerLabel, Flash.TakeAllDistinct |
