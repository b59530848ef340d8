/**
 * The marker half of `flashMarker.ts`: a module-level list of marker
 * decorations that is overwritten when markers are created and emptied,
 * with every entry disposed, when they are cleaned up; and the label pool
 * built from the collision characters of the matches.
 */
module FlashMarker {
  import opened Common
  import opened Document
  import opened TextSearch
  import opened Flash

  /** The module-level `markerDecorations` list. */
  class MarkerList {
    var markerDecorations: seq<MarkerDecoration>

    constructor ()
      ensures markerDecorations == []
    {
      markerDecorations := [];
    }

    /** `cleanAllFlashMarkerDecorations`: dispose every entry, then empty the list. */
    method CleanAllFlashMarkerDecorations()
      modifies this, markerDecorations`disposed
      ensures AllDisposed(old(markerDecorations))
      ensures markerDecorations == []
    {
      DisposeAll(markerDecorations);
      markerDecorations := [];
    }

    /** `findMarkerDecorationByLabel`: the first entry with that label, or none. */
    function FindMarkerDecorationByLabel(labelText: string): (r: Option<MarkerDecoration>)
      reads this
      ensures r.Some? ==> exists i :: 0 <= i < |markerDecorations| && markerDecorations[i] == r.value
                                      && r.value.labelText == labelText
                                      && forall j :: 0 <= j < i ==> markerDecorations[j].labelText != labelText
      ensures r.None? <==> forall i :: 0 <= i < |markerDecorations| ==> markerDecorations[i].labelText != labelText
    {
      FindByLabel(markerDecorations, labelText)
    }

    /**
     * `createMarkerDecorations`: the list becomes one fresh, shown decoration
     * per match, in match order, labelled `labels[i]` or `''`. The entries it
     * replaces are dropped without being disposed.
     */
    method CreateMarkerDecorations(matches: seq<Match>, labels: seq<char>)
      modifies this`markerDecorations
      ensures Labelled(markerDecorations, matches, labels)
      ensures forall i :: 0 <= i < |markerDecorations| ==> fresh(markerDecorations[i])
      ensures forall i :: 0 <= i < |old(markerDecorations)| ==>
                old(markerDecorations)[i].disposed == old(markerDecorations[i].disposed)
    {
      markerDecorations := NewMarkerDecorations(matches, labels);
    }
  }

  /**
   * `getNextSearchChat`: the text of the one-column range at the end of a
   * match, which is at most one character and lies on the line of that end.
   */
  function GetNextSearchChat(range: Range, document: seq<char>): (r: string)
    ensures |r| <= 1
    ensures r != [] ==> range.end.line < LineCount(document)
                        && range.end.character < LineLength(document, range.end.line)
                        && r == [Lines(document)[range.end.line][range.end.character]]
  {
    TextOfColumn(document, range.end)
  }

  /** `createMarkerLabels`: the alphabet, in order, without any collision character of the matches. */
  function CreateMarkerLabels(matches: seq<Match>, document: seq<char>): (r: seq<char>)
    ensures forall c :: c in r <==> c in Alphabet && !Collides(c, matches, document)
    ensures Distinct(r)
    ensures IsSubsequence(r, Alphabet)
  {
    var r := GenerateMarkerLabels(matches, document);
    assert forall c :: c in Alphabet ==> exists i :: 0 <= i < |Alphabet| && Alphabet[i] == c;
    r
  }
}
