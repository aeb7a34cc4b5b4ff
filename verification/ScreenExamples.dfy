/** Small screens on which editing sequences do not do what they should. */
module ScreenExamples {
  import opened PlainScreen
  import opened ScreenEdit

  function Letter(c: Glyph): Cell {
    Cell(c, 7, 0)
  }

  /** A screen of letters with the cursor at (x, y) and the scroll region from the first row to `bottom`, as it is
      while a control sequence is carried out. */
  function Page(rows: nat, cols: nat, letters: seq<Glyph>, x: nat, y: nat, bottom: nat): Screen {
    Screen(rows, cols, seq(|letters|, i requires 0 <= i < |letters| => Letter(letters[i])), x, y, 7, 0, 0, bottom,
           true, false)
  }

  /** "abcd", cursor on "c", delete three: "b" is erased although it is before the cursor. */
  lemma DeleteErasesBefore()
    ensures var s := Page(1, 4, [97, 98, 99, 100], 2, 0, 1);
            s.Valid() && Delete(s, 3).cells[1] == s.Blank() && !Deleted(s, Delete(s, 3), 0, 3, 2)
  {
    hide Delete;
    var s := Page(1, 4, [97, 98, 99, 100], 2, 0, 1);
    DeleteCells(s, 3);
    DeleteExact(s, 3);
  }

  /** "ab" over "cd", cursor on "a", delete three: "c" in the next line is erased. */
  lemma DeleteRunsOn()
    ensures var s := Page(2, 2, [97, 98, 99, 100], 0, 0, 2);
            s.Valid() && !Deleted(s, Delete(s, 3), 0, 3, 0)
  {
    hide Delete;
    var s := Page(2, 2, [97, 98, 99, 100], 0, 0, 2);
    assert Landing(s, 0) == 1 && Start(s, 1) == 2;
    DeleteFirstExact(s, 3);
  }

  /** The same with erasing three characters. */
  lemma EraseCharsRunsOn()
    ensures var s := Page(2, 2, [97, 98, 99, 100], 0, 0, 2);
            s.Valid() && EraseChars(s, 3).cells[2] == s.Blank() && !Erased(s, EraseChars(s, 3), 0, 2)
  {
    hide EraseChars;
    var s := Page(2, 2, [97, 98, 99, 100], 0, 0, 2);
    assert Start(s, 0) == 0 && Landing(s, 0) == 1 && Start(s, 1) == 2;
    EraseCharsMeans(s, 3);
    RunsOn(s, EraseChars(s, 3), 3);
    EraseCharsExact(s, 3);
  }

  /** "ab" with the cursor after "b": erasing to the end of the line leaves "b". */
  lemma EraseToEndLeavesLast()
    ensures var s := Page(1, 2, [97, 98], 2, 0, 1);
            s.Valid() && EraseLine(s, 0).cells == s.cells && !Erased(s, EraseLine(s, 0), 1, 2)
  {
    hide Spaced, Screen.Typed;
    var s := Page(1, 2, [97, 98], 2, 0, 1);
    assert Start(s, 0) == 0;
    SpacedOne(s);
    PendingSpace(s);
    EraseToEndExact(s);
  }

  /** "ab" with the cursor on "b": erasing up to the cursor leaves "b". */
  lemma EraseLineLeavesCursor()
    ensures var s := Page(1, 2, [97, 98], 1, 0, 1);
            s.Valid() && EraseLine(s, 1).cells == [s.Blank(), Letter(98)]
  {
    hide EraseLine, SpacesErase;
    var s := Page(1, 2, [97, 98], 1, 0, 1);
    assert Start(s, 0) == 0;
    EraseLineMeans(s, 1);
    assert EraseLine(s, 1).cells == [s.Blank(), Letter(98)];
  }

  /** Inserting zero characters before "ab" blanks it. */
  lemma InsertZeroBlanks()
    ensures var s := Page(1, 2, [97, 98], 0, 0, 1);
            s.Valid() && Insert(s, 0).cells == [s.Blank(), s.Blank()]
  {
    hide Insert;
    var s := Page(1, 2, [97, 98], 0, 0, 1);
    assert Start(s, 0) == 0;
    InsertMeans(s, 0);
    assert Insert(s, 0).cells == [s.Blank(), s.Blank()];
  }

  /** Three rows, scroll region of two, cursor in the third: one row "down" is the second row. */
  lemma DownGoesUp()
    ensures var s := Page(3, 1, [97, 98, 99], 0, 2, 2);
            s.Valid() && PosY(s) == 2 && DownTo(s, 1) == 1 && MovedTo(s, 'B', 1, 1).cursorY == 1
  {
  }

  /** Three rows of one column, cursor in the first: erasing to the end of the display reaches only the first row. */
  lemma EraseDisplayStops()
    ensures var s := Page(3, 1, [97, 98, 99], 0, 0, 3);
            s.Valid() && !Erased(s, EraseDisplay(s, 0), 0, 3)
  {
    hide EraseDisplay;
    var s := Page(3, 1, [97, 98, 99], 0, 0, 3);
    assert Start(s, 0) == 0;
    EraseFromCursorExact(s);
  }

  /** Two rows of one column, cursor in the second: erasing up to the cursor leaves the second row. */
  lemma EraseUpToStops()
    ensures var s := Page(2, 1, [97, 98], 0, 1, 2);
            s.Valid() && EraseDisplay(s, 1).cells == [s.Blank(), Letter(98)] && !Erased(s, EraseDisplay(s, 1), 0, 2)
  {
    hide EraseDisplay;
    var s := Page(2, 1, [97, 98], 0, 1, 2);
    assert Start(s, 1) == 1 && PassEnd(s, 0) == 1;
    EraseToCursor(s);
    assert EraseDisplay(s, 1).cells == [s.Blank(), Letter(98)];
    EraseToCursorExact(s);
  }
}
