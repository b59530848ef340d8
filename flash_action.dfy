/**
 * The keystroke state machine of `flashAction.ts`: the `s` trigger that
 * starts a session, the handler of every key typed while the search is in
 * progress (jump on a label, otherwise edit the search string and relabel),
 * and Escape.
 */
module FlashAction {
  import opened Common
  import opened Document
  import opened Editor
  import opened TextSearch
  import opened Flash

  /** The modes the trigger is registered for. */
  predicate IsTriggerMode(m: Mode) {
    m == Normal || IsVisualMode(m)
  }

  /**
   * `FlashCommand.doesActionApply`: the registered mode and key (`s`), the
   * `flash.enable` setting, and a single cursor.
   */
  function DoesActionApply(mode: Mode, keysPressed: seq<string>, flashEnable: bool, isMultiCursor: bool): (r: bool)
    ensures r ==> flashEnable && !isMultiCursor
    ensures r ==> mode != FlashSearchInProgressMode
    ensures IsTriggerMode(mode) && keysPressed == ["s"] ==> (r <==> flashEnable && !isMultiCursor)
  {
    IsTriggerMode(mode) && keysPressed == ["s"] && flashEnable && !isMultiCursor
  }

  /** The search string after a key that is not a label: backspace deletes, anything else is appended. */
  function EditSearchString(s: string, key: string): (r: string)
    ensures key == "<BS>" || key == "<S-BS>" ==> r == DropLast(s)
    ensures key != "<BS>" && key != "<S-BS>" ==> r == s + key
    ensures Literal(s) && Literal(key) ==> Literal(r)
  {
    if key == "<BS>" || key == "<S-BS>" then DropLast(s) else s + key
  }

  /**
   * The live markers are exactly the ones built for `matches`: one per match,
   * in match order, on the match's range, labelled from the label pool of the
   * matches, shown and not disposed.
   */
  ghost predicate MarkersFor(ms: seq<MarkerDecoration>, matches: seq<Match>, document: seq<char>)
    reads ms
  {
    Labelled(ms, matches, GenerateMarkerLabels(matches, document))
  }

  /**
   * Markers built for a set of matches can be told apart by their labels, and
   * no label is the collision character of any live marker; an unlabelled
   * marker (the pool ran out) can never be reached by a non-empty key.
   */
  lemma LiveMarkersUnambiguous(ms: seq<MarkerDecoration>, matches: seq<Match>, document: seq<char>, key: string)
    requires MarkersFor(ms, matches, document)
    ensures forall i, j :: 0 <= i < |ms| && 0 <= j < |ms| && i != j && ms[i].labelText != []
                           ==> ms[i].labelText != ms[j].labelText
    ensures forall i, j :: 0 <= i < |ms| && 0 <= j < |ms| && ms[i].labelText != []
                           ==> ms[i].labelText != GetNextChat(ms[j].range, document)
    ensures key != [] && FindByLabel(ms, key).Some? ==> FindByLabel(ms, key).value.labelText != []
  {
    var labels := GenerateMarkerLabels(matches, document);
    MarkerLabelsUnambiguous(matches, document);
    forall i, j | 0 <= i < |ms| && 0 <= j < |ms| && i != j && ms[i].labelText != []
      ensures ms[i].labelText != ms[j].labelText
    {
      if i < j {
        assert LabelAt(labels, i) != LabelAt(labels, j);
      } else {
        assert LabelAt(labels, j) != [] ==> LabelAt(labels, j) != LabelAt(labels, i);
      }
    }
  }

  /** The state between keystrokes of a search in progress. */
  ghost predicate SearchInProgress(flash: FlashSession, vim: VimState)
    reads flash, vim, flash.markerDecorations
  {
    && vim.currentMode == FlashSearchInProgressMode
    && flash.previousMode.Some? && IsTriggerMode(flash.previousMode.value)
    && Literal(flash.searchString)
    && MarkersFor(flash.markerDecorations, SearchMatches(vim.document, flash.searchString), vim.document)
  }

  /**
   * `FlashCommand.exec`: when enabled, reset the session, remember the current
   * mode and enter the search mode.
   */
  method FlashCommandExec(flash: FlashSession, vim: VimState, flashEnable: bool)
    modifies flash, flash.markerDecorations`disposed, vim`currentMode
    ensures flashEnable ==>
              && flash.searchString == [] && flash.markerDecorations == []
              && flash.previousMode == Some(old(vim.currentMode))
              && vim.currentMode == FlashSearchInProgressMode
              && AllDisposed(old(flash.markerDecorations))
    ensures !flashEnable ==>
              && flash.searchString == old(flash.searchString)
              && flash.markerDecorations == old(flash.markerDecorations)
              && flash.previousMode == old(flash.previousMode)
              && vim.currentMode == old(vim.currentMode)
              && forall i :: 0 <= i < |old(flash.markerDecorations)| ==>
                   old(flash.markerDecorations)[i].disposed == old(flash.markerDecorations[i].disposed)
    ensures flashEnable && IsTriggerMode(old(vim.currentMode)) ==> SearchInProgress(flash, vim)
  {
    if flashEnable {
      flash.ResetFlash();
      flash.previousMode := Some(vim.currentMode);
      vim.currentMode := FlashSearchInProgressMode;
    }
  }

  /**
   * `FlashSearchInProgressCommand.exec` for one key. A key that is the label
   * of a live marker jumps to its start, restores the mode and resets the
   * session. Any other key edits the search string, disposes every live
   * marker, rescans and builds one fresh marker per match.
   */
  method FlashSearchInProgressExec(flash: FlashSession, vim: VimState, key: string)
    requires flash.previousMode.Some?
    requires Literal(flash.searchString) && Literal(key)
    modifies flash, flash.markerDecorations`disposed, vim
    ensures AllDisposed(old(flash.markerDecorations))
    ensures old(flash.FindMarkerDecorationByLabel(key)).Some? ==>
              && vim.cursorStopPosition == old(flash.FindMarkerDecorationByLabel(key)).value.range.start
              && vim.currentMode == old(flash.previousMode).value
              && flash.searchString == [] && flash.previousMode == None && flash.markerDecorations == []
    ensures old(flash.FindMarkerDecorationByLabel(key)).None? ==>
              && flash.searchString == EditSearchString(old(flash.searchString), key)
              && flash.previousMode == old(flash.previousMode)
              && vim.cursorStopPosition == old(vim.cursorStopPosition)
              && vim.currentMode == old(vim.currentMode)
              && (forall i :: 0 <= i < |flash.markerDecorations| ==> fresh(flash.markerDecorations[i]))
              && MarkersFor(flash.markerDecorations, SearchMatches(vim.document, flash.searchString), vim.document)
              && (flash.searchString == [] ==> flash.markerDecorations == [])
    ensures (old(SearchInProgress(flash, vim)) && old(flash.FindMarkerDecorationByLabel(key)).None?)
            ==> SearchInProgress(flash, vim)
  {
    var markerDecoration := flash.FindMarkerDecorationByLabel(key);
    if markerDecoration.Some? {
      vim.cursorStopPosition := markerDecoration.value.GetJumpPosition();
      vim.currentMode := flash.previousMode.value;
      flash.ResetFlash();
    } else {
      var matches := EditAndRelabel(flash, vim, key);
    }
  }

  /** The branch of a key that is not a label: edit the search string, then relabel. */
  method EditAndRelabel(flash: FlashSession, vim: VimState, key: string) returns (matches: seq<Match>)
    requires Literal(flash.searchString) && Literal(key)
    modifies flash`searchString, flash`markerDecorations, flash.markerDecorations`disposed
    ensures AllDisposed(old(flash.markerDecorations))
    ensures flash.searchString == EditSearchString(old(flash.searchString), key)
    ensures Literal(flash.searchString)
    ensures matches == SearchMatches(vim.document, flash.searchString)
    ensures forall i :: 0 <= i < |flash.markerDecorations| ==> fresh(flash.markerDecorations[i])
    ensures MarkersFor(flash.markerDecorations, matches, vim.document)
    ensures flash.searchString == [] ==> flash.markerDecorations == []
  {
    if key == "<BS>" || key == "<S-BS>" {
      flash.DeleteSearchString();
    } else {
      flash.AppendSearchString(key);
    }
    matches := Relabel(flash, vim.document);
  }

  /** Dispose every live marker, then rebuild the markers for the current search string. */
  method Relabel(flash: FlashSession, document: seq<char>) returns (matches: seq<Match>)
    requires Literal(flash.searchString)
    modifies flash`markerDecorations, flash.markerDecorations`disposed
    ensures AllDisposed(old(flash.markerDecorations))
    ensures matches == SearchMatches(document, flash.searchString)
    ensures forall i :: 0 <= i < |flash.markerDecorations| ==> fresh(flash.markerDecorations[i])
    ensures MarkersFor(flash.markerDecorations, matches, document)
  {
    DisposeAll(flash.markerDecorations);
    matches := Rebuild(flash, document);
  }

  /** Rescan for the search string and build one fresh, labelled, shown marker per match. */
  method Rebuild(flash: FlashSession, document: seq<char>) returns (matches: seq<Match>)
    requires Literal(flash.searchString)
    modifies flash`markerDecorations
    ensures matches == SearchMatches(document, flash.searchString)
    ensures forall i :: 0 <= i < |flash.markerDecorations| ==> fresh(flash.markerDecorations[i])
    ensures MarkersFor(flash.markerDecorations, matches, document)
  {
    matches := flash.GetSearchMatches(document);
    flash.markerDecorations := NewMarkersFor(matches, document);
  }

  /** The markers for `matches`, labelled from the label pool of the matches. */
  method NewMarkersFor(matches: seq<Match>, document: seq<char>) returns (ms: seq<MarkerDecoration>)
    ensures forall i :: 0 <= i < |ms| ==> fresh(ms[i])
    ensures MarkersFor(ms, matches, document)
  {
    var labels := GenerateMarkerLabels(matches, document);
    ms := NewMarkerDecorations(matches, labels);
  }

  /** `CommandEscFlashSearchInProgressMode.exec`: restore the mode and reset; the cursor stays. */
  method EscExec(flash: FlashSession, vim: VimState)
    requires flash.previousMode.Some?
    modifies flash, flash.markerDecorations`disposed, vim`currentMode
    ensures vim.currentMode == old(flash.previousMode).value
    ensures flash.searchString == [] && flash.previousMode == None && flash.markerDecorations == []
    ensures AllDisposed(old(flash.markerDecorations))
  {
    vim.currentMode := flash.previousMode.value;
    flash.ResetFlash();
  }
}
