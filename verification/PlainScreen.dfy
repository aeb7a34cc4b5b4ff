/** The plain two-dimensional screen that the double-buffered terminal must agree with. */
module PlainScreen {
  import opened Arith
  import opened Sizes

  /** The colour that lets the canvas through. */
  const TRANSPARENT: nat := 0xffffffff

  type Glyph = c: nat | c < 256

  /** `struct flanterm_fb_char` */
  datatype Cell = Cell(c: Glyph, fg: nat, bg: nat)

  /** The cell as drawn under the cursor. */
  function Inverse(c: Cell): Cell {
    Cell(c.c, c.bg, c.fg)
  }

  datatype Screen = Screen(
    rows: nat, cols: nat, cells: seq<Cell>,
    cursorX: nat, cursorY: nat, fg: nat, bg: nat,
    top: nat, bottom: nat, cursorOn: bool, scrollOn: bool)
  {
    ghost predicate Valid() {
      rows >= 1 && cols >= 1 && |cells| == rows * cols && 1 <= bottom <= rows
    }

    /** Same size, scroll region, modes and colours. */
    predicate SameShape(s: Screen) {
      rows == s.rows && cols == s.cols && |cells| == |s.cells| && top == s.top && bottom == s.bottom &&
      scrollOn == s.scrollOn && cursorOn == s.cursorOn && fg == s.fg && bg == s.bg
    }

    function Blank(): Cell {
      Cell(32, fg, bg)
    }

    function Put(c: Cell, x: nat, y: nat): (r: Screen)
      requires Valid()
      ensures SameShape(r)
    {
      if x < cols && y < rows then
        InBlock(y, x, rows, cols);
        this.(cells := cells[y * cols + x := c])
      else this
    }

    /** All rows of the scroll region move up by one at the same time; the last becomes blank. */
    function ScrolledUp(): (r: Screen)
      requires Valid()
      ensures SameShape(r)
    {
      MulLe(bottom, rows, cols);
      MulStep(bottom - 1, cols);
      this.(cells := seq(|cells|, i requires 0 <= i < |cells| =>
        if top * cols <= i < (bottom - 1) * cols then cells[i + cols]
        else if (bottom - 1) * cols <= i < bottom * cols then Blank()
        else cells[i]))
    }

    /** All rows of the scroll region move down by one at the same time; the first becomes blank. */
    function ScrolledDown(): (r: Screen)
      requires Valid()
      ensures SameShape(r)
    {
      MulStep(top, cols);
      MulNonneg(top, cols);
      this.(cells := seq(|cells|, i requires 0 <= i < |cells| =>
        if (top + 1) * cols <= i < bottom * cols then cells[i - cols]
        else if top * cols <= i < (top + 1) * cols then Blank()
        else cells[i]))
    }

    function Cleared(move: bool): (r: Screen)
      requires Valid()
      ensures SameShape(r)
    {
      var s := this.(cells := seq(|cells|, i => Blank()));
      if move then s.(cursorX := 0, cursorY := 0) else s
    }

    function Moved(newX: nat, newY: nat, oldX: nat, oldY: nat): (r: Screen)
      requires Valid()
      ensures SameShape(r)
    {
      if oldX < cols && oldY < rows && newX < cols && newY < rows then
        InBlock(oldY, oldX, rows, cols);
        Put(cells[oldY * cols + oldX], newX, newY)
      else this
    }

    /** The wrap that a pending character triggers in the last column. */
    function Wrapped(): (r: Screen)
      requires Valid()
      ensures SameShape(r)
    {
      if cursorX >= cols && (cursorY < bottom - 1 || scrollOn) then
        var s := if cursorY + 1 == bottom then ScrolledUp() else this.(cursorY := cursorY + 1);
        s.(cursorX := 0, cursorY := if s.cursorY >= cols then cols - 1 else s.cursorY)
      else this
    }

    function Typed(c: Glyph): (r: Screen)
      requires Valid()
      ensures SameShape(r)
    {
      var s := Wrapped();
      s.Put(Cell(c, fg, bg), s.cursorX, s.cursorY).(cursorX := s.cursorX + 1)
    }

    /** A coordinate past the edge goes to the edge, a negative 32-bit one to zero. */
    static function Clamp(v: nat, n: nat): (r: nat)
      requires n >= 1
      ensures r < n
    {
      if v < n then v else if v % U32 >= 0x8000_0000 then 0 else n - 1
    }

    function CursorSet(x: nat, y: nat): (r: Screen)
      requires Valid()
      ensures SameShape(r)
    {
      this.(cursorX := Clamp(x, cols), cursorY := Clamp(y, rows))
    }

    /** Whether the cursor stands on a cell, so that it can be drawn. */
    predicate CursorVisible() {
      cursorOn && cursorX < cols && cursorY < rows
    }

    function CursorCell(): nat {
      cursorY * cols + cursorX
    }

    /** What the display must show in cell `i`. */
    function Shown(i: nat): Cell
      requires i < |cells|
    {
      if CursorVisible() && i == CursorCell() then Inverse(cells[i]) else cells[i]
    }
  }

  /** The row a wrap should lead to: the next one, or the last of the scroll region when that is full. */
  function NextRow(s: Screen): nat {
    if s.cursorY + 1 == s.bottom then s.cursorY else s.cursorY + 1
  }

  /** Because the wrap compares the row with the number of columns and not with the number of rows, it reaches the next
      row of the screen exactly when that row number is below both. */
  lemma WrapReachesNextRow(s: Screen)
    requires s.Valid() && s.cursorX >= s.cols && (s.cursorY < s.bottom - 1 || s.scrollOn)
    ensures s.Wrapped().cursorX == 0
    ensures s.Wrapped().cursorY == NextRow(s) && s.Wrapped().cursorY < s.rows <==>
            NextRow(s) < s.cols && NextRow(s) < s.rows
  {
  }

  /** A typed character is drawn exactly when the row that the wrap, if any, leads to is on the screen; else it is
      lost. */
  lemma TypedLostBelow(s: Screen, c: Glyph)
    requires s.Valid() && s.cursorX >= s.cols && (s.cursorY < s.bottom - 1 || s.scrollOn)
    ensures s.Wrapped().cursorY >= s.rows ==> s.Typed(c).cells == s.Wrapped().cells
    ensures s.Wrapped().cursorY < s.rows ==>
            0 <= s.Wrapped().cursorY * s.cols < |s.cells| &&
            s.Typed(c).cells == s.Wrapped().cells[s.Wrapped().cursorY * s.cols := Cell(c, s.fg, s.bg)]
  {
    hide Screen.Wrapped;
    if s.Wrapped().cursorY < s.rows {
      InBlock(s.Wrapped().cursorY, 0, s.rows, s.cols);
    }
    WrapReachesNextRow(s);
  }

  /** On a screen of three rows and one column the third row cannot be reached by typing. */
  lemma WrapStuckOnTallScreen(blank: Cell)
    ensures var s := Screen(3, 1, [blank, blank, blank], 1, 1, 0, 0, 0, 3, true, true);
            s.Valid() && s.Wrapped().cursorY == 0
  {
  }

  /** Three rows and four columns with a status line below the scroll region: from the end of the status line the wrap
      leads below the screen and the character is lost. */
  lemma WrapBelowScreen(cells: seq<Cell>, c: Glyph)
    requires |cells| == 12
    ensures var s := Screen(3, 4, cells, 4, 2, 0, 0, 0, 2, true, true);
            s.Valid() && NextRow(s) == 3 < s.cols && s.Wrapped().cursorY == s.rows && s.Typed(c).cells == s.cells
  {
  }

  /** The operations of the terminal backend between and including flushes. */
  datatype Op =
    | Type(c: Glyph)
    | ScrollUp
    | ScrollDown
    | Clear(move: bool)
    | Move(newX: nat, newY: nat, oldX: nat, oldY: nat)
    | SetCursor(x: nat, y: nat)
    | SetColours(fg: nat, bg: nat)
    | Restore(savedX: nat, savedY: nat, savedFg: nat, savedBg: nat)
    | SetMargins(top: nat, bottom: nat)
    | SetCursorOn(on: bool)
    | SetScrollOn(scroll: bool)
    | Flush

  ghost predicate Allowed(op: Op, s: Screen) {
    op.SetMargins? ==> 1 <= op.bottom <= s.rows
  }

  function WithMargins(s: Screen, top: nat, bottom: nat): (r: Screen)
    requires s.Valid() && 1 <= bottom <= s.rows
    ensures r.Valid() && r.rows == s.rows && r.cols == s.cols
  {
    s.(top := top, bottom := bottom)
  }

  function Apply(op: Op, s: Screen): (r: Screen)
    requires s.Valid() && Allowed(op, s)
    ensures r.Valid() && r.rows == s.rows && r.cols == s.cols
  {
    match op
    case Type(c) => s.Typed(c)
    case ScrollUp => s.ScrolledUp()
    case ScrollDown => s.ScrolledDown()
    case Clear(move) => s.Cleared(move)
    case Move(nx, ny, ox, oy) => s.Moved(nx, ny, ox, oy)
    case SetCursor(x, y) => s.CursorSet(x, y)
    case SetColours(fg, bg) => s.(fg := fg, bg := bg)
    case Restore(x, y, fg, bg) => s.(cursorX := x, cursorY := y, fg := fg, bg := bg)
    case SetMargins(top, bottom) => WithMargins(s, top, bottom)
    case SetCursorOn(on) => s.(cursorOn := on)
    case SetScrollOn(scroll) => s.(scrollOn := scroll)
    case Flush => s
  }

  /** Only the operations named for it change the scroll region and the scroll mode. */
  lemma ApplyKeeps(op: Op, s: Screen)
    requires s.Valid() && Allowed(op, s)
    ensures !op.SetMargins? ==> Apply(op, s).top == s.top && Apply(op, s).bottom == s.bottom
    ensures !op.SetScrollOn? ==> Apply(op, s).scrollOn == s.scrollOn
    ensures op.SetMargins? ==> Apply(op, s) == s.(top := op.top, bottom := op.bottom)
    ensures op.SetScrollOn? ==> Apply(op, s) == s.(scrollOn := op.scroll)
  {
  }

  /** Margins stay inside the screen, whatever came before. */
  ghost predicate AllAllowed(ops: seq<Op>, rows: nat) {
    forall i :: 0 <= i < |ops| && ops[i].SetMargins? ==> 1 <= ops[i].bottom <= rows
  }

  function ApplyAll(ops: seq<Op>, s: Screen): (r: Screen)
    requires s.Valid() && AllAllowed(ops, s.rows)
    ensures r.Valid() && r.rows == s.rows && r.cols == s.cols
  {
    if ops == [] then s else Apply(ops[|ops| - 1], ApplyAll(ops[..|ops| - 1], s))
  }
}
