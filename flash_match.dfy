/**
 * `createSearchMatches` of `flashMatch.ts`: the scan of the whole document
 * for the search string, case-insensitive when `flash.ignorecase` is set,
 * followed by the filter that keeps the matches starting at or below the
 * first line of the first visible range.
 */
module FlashMatch {
  import opened Common
  import opened Document
  import opened TextSearch
  import opened Flash

  /** The matches whose start line is at or below `firstVisibleLine`, in scan order; there is no upper bound. */
  function VisibleMatches(matches: seq<Match>, firstVisibleLine: nat): (r: seq<Match>)
    ensures forall i :: 0 <= i < |r| ==> r[i] in matches && r[i].range.start.line >= firstVisibleLine
    ensures forall i :: 0 <= i < |matches| && matches[i].range.start.line >= firstVisibleLine ==> matches[i] in r
    ensures IsSubsequence(r, matches)
  {
    Filter(matches, (m: Match) => m.range.start.line >= firstVisibleLine)
  }

  /**
   * `createSearchMatches(flash, document, vimState)`: no matches for the
   * empty search string; otherwise the visible part of the scan. The first
   * visible line and the `ignorecase` setting are parameters.
   */
  method CreateSearchMatches(flash: FlashSession, document: seq<char>, firstVisibleLine: nat, ignorecase: bool)
    returns (matches: seq<Match>)
    requires Literal(flash.searchString)
    ensures flash.searchString == [] ==> matches == []
    ensures flash.searchString != [] ==>
              matches == VisibleMatches(Scan(document, flash.searchString, ignorecase), firstVisibleLine)
  {
    matches := [];
    if |flash.searchString| == 0 {
      return;
    }
    matches := ScanMatches(document, flash.searchString, ignorecase);
    matches := VisibleMatches(matches, firstVisibleLine);
  }

  /**
   * With the first line visible and `ignorecase` off, the scan of
   * `flashMatch.ts` finds exactly the matches of `getSearchMatches`.
   */
  lemma WholeDocumentVisible(document: seq<char>, s: string)
    requires |s| > 0
    ensures VisibleMatches(Scan(document, s, false), 0) == SearchMatches(document, s)
  {
    FilterKeepsAll(Scan(document, s, false), (m: Match) => m.range.start.line >= 0);
  }
}
