/**
 * The text document as the editor host presents it: a character sequence in
 * which '\n' ends a line, with the host's offset-to-position conversion
 * (`positionAt`) and its clamping `getText` of a one-column range.
 */
module Document {

  /** A zero-based (line, character) position, as `vscode.Position`. */
  datatype Position = Position(line: nat, character: nat)

  /** A span between two positions, as `vscode.Range`. */
  datatype Range = Range(start: Position, end: Position)

  /** The lines of `text`, split at '\n'; there is always at least one line. */
  function Lines(text: seq<char>): (r: seq<seq<char>>)
    ensures |r| >= 1
  {
    if text == [] then [[]]
    else
      var rest := Lines(text[1..]);
      if text[0] == '\n' then [[]] + rest
      else [[text[0]] + rest[0]] + rest[1..]
  }

  /** Number of lines, as `document.lineCount`. */
  function LineCount(text: seq<char>): nat {
    |Lines(text)|
  }

  /** Length of a line, as `document.lineAt(line).range.end.character`. */
  function LineLength(text: seq<char>, line: nat): nat
    requires line < LineCount(text)
  {
    |Lines(text)[line]|
  }

  /** The position of an offset, as `document.positionAt(offset)`. */
  function PositionAt(text: seq<char>, offset: nat): (p: Position)
    requires offset <= |text|
    ensures p.line < LineCount(text) && p.character <= LineLength(text, p.line)
  {
    if offset == 0 then Position(0, 0)
    else
      var p := PositionAt(text[1..], offset - 1);
      if text[0] == '\n' then Position(p.line + 1, p.character)
      else if p.line == 0 then Position(0, p.character + 1)
      else p
  }

  /**
   * The text of the one-column range that starts at `pos` and stays on its
   * line, as `document.getText(new Range(pos, new Position(pos.line,
   * pos.character + 1)))`: the host clamps a range past the end of a line (or
   * of the document) to that end, so the text is empty there.
   */
  function TextOfColumn(text: seq<char>, pos: Position): (r: seq<char>)
    ensures |r| <= 1
    ensures r != [] ==> pos.line < LineCount(text) && pos.character < LineLength(text, pos.line)
  {
    var lines := Lines(text);
    if pos.line < |lines| && pos.character < |lines[pos.line]| then [lines[pos.line][pos.character]]
    else []
  }

  /**
   * The column after a position holds exactly the character at that offset,
   * unless the offset is at a line break or at the end of the document.
   */
  lemma {:induction false} TextOfColumnAtOffset(text: seq<char>, offset: nat)
    requires offset <= |text|
    ensures TextOfColumn(text, PositionAt(text, offset))
         == if offset < |text| && text[offset] != '\n' then [text[offset]] else []
  {
    CharAtPosition(text, offset);
  }

  /**
   * The line and column of `PositionAt(offset)` locate the character at the
   * offset: they fall inside their line exactly when that character exists
   * and is not a line break, and then the line holds it at that column.
   */
  predicate LocatesChar(text: seq<char>, offset: nat)
    requires offset <= |text|
  {
    var p := PositionAt(text, offset);
    && (p.character < LineLength(text, p.line) <==> offset < |text| && text[offset] != '\n')
    && (p.character < LineLength(text, p.line) ==> Lines(text)[p.line][p.character] == text[offset])
  }

  /** Every offset is located by its position. */
  lemma {:induction false} CharAtPosition(text: seq<char>, offset: nat)
    requires offset <= |text|
    ensures LocatesChar(text, offset)
  {
    if offset == 0 {
      if text != [] && text[0] != '\n' {
        assert Lines(text)[0] == [text[0]] + Lines(text[1..])[0];
      }
    } else {
      CharAtPosition(text[1..], offset - 1);
      CharAtPositionStep(text, offset);
    }
  }

  /** One step of `CharAtPosition`: locating an offset of the tail locates the next offset of the text. */
  lemma CharAtPositionStep(text: seq<char>, offset: nat)
    requires 0 < offset <= |text|
    requires LocatesChar(text[1..], offset - 1)
    ensures LocatesChar(text, offset)
  {
    var q := PositionAt(text[1..], offset - 1);
    var rest := Lines(text[1..]);
    var line := Lines(text);
    assert offset < |text| ==> text[offset] == text[1..][offset - 1];
    if text[0] == '\n' {
      assert PositionAt(text, offset) == Position(q.line + 1, q.character);
      assert line[q.line + 1] == rest[q.line];
    } else if q.line == 0 {
      assert PositionAt(text, offset) == Position(0, q.character + 1);
      assert line[0] == [text[0]] + rest[0];
    } else {
      assert PositionAt(text, offset) == q;
      assert line[q.line] == rest[q.line];
    }
  }

  /**
   * The one-column range at `PositionAt(offset)` stays on its line (its end is
   * one column further on the same line) exactly when it holds a character.
   */
  lemma ColumnStaysOnLine(text: seq<char>, offset: nat, p: Position)
    requires offset <= |text| && p == PositionAt(text, offset)
    ensures TextOfColumn(text, p) != [] <==> offset < |text| && PositionAt(text, offset + 1) == Position(p.line, p.character + 1)
  {
    TextOfColumnAtOffset(text, offset);
    if offset < |text| {
      PositionStep(text, offset);
    }
  }


  /** How `PositionAt` moves over one character. */
  lemma {:induction false} PositionStep(text: seq<char>, offset: nat)
    requires offset < |text|
    ensures var p := PositionAt(text, offset);
            PositionAt(text, offset + 1)
            == if text[offset] == '\n' then Position(p.line + 1, 0) else Position(p.line, p.character + 1)
  {
    if offset > 0 {
      PositionStep(text[1..], offset - 1);
    }
  }
}
