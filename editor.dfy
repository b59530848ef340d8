/** The part of the editor state (`VimState`) that the jump motions read and write. */
module Editor {
  import opened Document

  /** The editor modes the motions capture, test and restore. */
  datatype Mode =
    | Normal
    | Insert
    | Visual
    | VisualLine
    | VisualBlock
    | Replace
    | FlashSearchInProgressMode

  /** Visual, linewise visual or blockwise visual mode. */
  predicate IsVisualMode(m: Mode) {
    m == Visual || m == VisualLine || m == VisualBlock
  }

  /** The editor state: the document (unchanged by the motions), the cursor stop and the mode. */
  class VimState {
    const document: seq<char>
    var cursorStopPosition: Position
    var currentMode: Mode

    constructor (document: seq<char>, cursor: Position, mode: Mode)
      ensures this.document == document && cursorStopPosition == cursor && currentMode == mode
    {
      this.document := document;
      cursorStopPosition := cursor;
      currentMode := mode;
    }
  }
}
