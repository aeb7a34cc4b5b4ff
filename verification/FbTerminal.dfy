/** The double-buffered frame buffer terminal: writes go to a queue with a map from cells to queue items,
    and a flush repaints only the queued cells. */
module FbTerminal {
  import opened Arith
  import opened Sizes
  import opened PlainScreen
  import opened Pixels

  /** `struct flanterm_fb_queue_item` */
  datatype QueueItem = QueueItem(x: nat, y: nat, c: Cell)

  /** A pointer into the queue, or NULL. */
  datatype Slot = Null | At(k: nat)

  /** A `struct flanterm_fb_char *`: it may point into the structure that is being written. */
  datatype CharPtr = Local(c: Cell) | InQueue(k: nat) | InGrid(i: nat)

  /** The state of a cell on the display: a full picture of a character, or leftovers of several. */
  datatype Drawn = Known(cell: Cell) | Leftover

  ghost predicate Distinct(s: seq<nat>) {
    forall i, j :: 0 <= i < j < |s| ==> s[i] != s[j]
  }

  /** A list of distinct numbers below `n` has at most `n` entries. */
  lemma {:induction false} Pigeonhole(s: seq<nat>, n: nat)
    requires Distinct(s) && forall i :: 0 <= i < |s| ==> s[i] < n
    ensures |s| <= n
    decreases n
  {
    if |s| == 0 {
      return;
    }
    assert s[0] < n;
    if k :| 0 <= k < |s| && s[k] == n - 1 {
      var t := s[..k] + s[k + 1..];
      forall i | 0 <= i < |t|
        ensures t[i] < n - 1
      {
        if i < k {
          assert t[i] == s[i];
        } else {
          assert t[i] == s[i + 1];
        }
      }
      Pigeonhole(t, n - 1);
    } else {
      Pigeonhole(s, n - 1);
    }
  }

  /** Cells `from - d .. to - d` hold what was `d` places after them; the others are as before. */
  ghost predicate ShiftedUp(v: seq<Cell>, w: seq<Cell>, d: int, from: int, to: int) {
    && |w| == |v| && 0 <= d <= from && to <= |v|
    && (forall j :: from - d <= j < to - d ==> w[j] == v[j + d])
    && (forall j :: 0 <= j < |v| && !(from - d <= j < to - d) ==> w[j] == v[j])
  }

  /** Cells `from + d .. to + d` hold what was `d` places before them; the others are as before. */
  ghost predicate ShiftedDown(v: seq<Cell>, w: seq<Cell>, d: int, from: int, to: int) {
    && |w| == |v| && 0 <= d && 0 <= from && to + d <= |v|
    && (forall j :: from + d <= j < to + d ==> w[j] == v[j - d])
    && (forall j :: 0 <= j < |v| && !(from + d <= j < to + d) ==> w[j] == v[j])
  }

  lemma ShiftedNone(v: seq<Cell>, d: nat, i: nat)
    ensures d <= i <= |v| ==> ShiftedUp(v, v, d, i, i)
    ensures i + d <= |v| ==> ShiftedDown(v, v, d, i, i)
  {
  }

  lemma ShiftedEmpty(v: seq<Cell>, d: nat, from: nat, to: nat)
    requires from > to
    ensures d <= from && to <= |v| ==> ShiftedUp(v, v, d, from, to)
    ensures forall w :: to + d <= |v| && ShiftedDown(v, w, d, to, to) ==> ShiftedDown(v, w, d, from, to)
  {
  }

  /** Reading ahead of the part already shifted, the next character is still the old one. */
  lemma ShiftedUpStep(v: seq<Cell>, w: seq<Cell>, d: nat, from: nat, i: nat)
    requires d >= 1 && from <= i < |v| && ShiftedUp(v, w, d, from, i)
    ensures w[i] == v[i] && ShiftedUp(v, w[i - d := w[i]], d, from, i + 1)
  {
  }

  lemma ShiftedDownStep(v: seq<Cell>, w: seq<Cell>, d: nat, i: nat, to: nat)
    requires d >= 1 && 1 <= i <= to && ShiftedDown(v, w, d, i, to)
    ensures w[i - 1] == v[i - 1] && ShiftedDown(v, w[i - 1 + d := w[i - 1]], d, i - 1, to)
  {
  }

  ghost predicate Filled(v: seq<Cell>, w: seq<Cell>, from: int, to: int, c: Cell) {
    && |w| == |v|
    && (forall j :: 0 <= j < |v| && from <= j < to ==> w[j] == c)
    && (forall j :: 0 <= j < |v| && !(from <= j < to) ==> w[j] == v[j])
  }

  /** Shifting the region up and then blanking its last row is the simultaneous scroll. */
  lemma ScrolledUpIs(s: Screen, v1: seq<Cell>, v2: seq<Cell>)
    requires s.Valid()
    requires ShiftedUp(s.cells, v1, s.cols, (s.top + 1) * s.cols, s.bottom * s.cols)
    requires Filled(v1, v2, (s.bottom - 1) * s.cols, (s.bottom - 1) * s.cols + s.cols, s.Blank())
    ensures s.(cells := v2) == s.ScrolledUp()
  {
    MulStep(s.top, s.cols);
    MulStep(s.bottom - 1, s.cols);
    assert v2 == s.ScrolledUp().cells;
  }

  lemma ScrolledDownIs(s: Screen, v1: seq<Cell>, v2: seq<Cell>)
    requires s.Valid()
    requires ShiftedDown(s.cells, v1, s.cols, s.top * s.cols, (s.bottom - 1) * s.cols)
    requires Filled(v1, v2, s.top * s.cols, s.top * s.cols + s.cols, s.Blank())
    ensures s.(cells := v2) == s.ScrolledDown()
  {
    MulStep(s.top, s.cols);
    MulStep(s.bottom - 1, s.cols);
    assert v2 == s.ScrolledDown().cells;
  }

  /** Scrolling reads and changes nothing but the cells. */
  lemma ScrolledKeeps(s: Screen)
    requires s.Valid()
    ensures forall x: nat :: s.(cursorX := x).ScrolledUp() == s.ScrolledUp().(cursorX := x)
    ensures s.ScrolledUp() == s.(cells := s.ScrolledUp().cells)
  {
    forall x: nat
      ensures s.(cursorX := x).ScrolledUp() == s.ScrolledUp().(cursorX := x)
    {
      var t := s.(cursorX := x);
      var a, b := t.ScrolledUp().cells, s.ScrolledUp().cells;
      assert t.Blank() == s.Blank();
      forall i | 0 <= i < |a|
        ensures a[i] == b[i]
      {
      }
      assert a == b;
    }
  }

  class FbTerm {
    const geo: Geometry
    const font: Font
    const canvas: seq<nat>
    const framebuffer: array<nat>
    const grid: array<Cell>
    const queue: array<QueueItem>
    const slots: array<Slot>
    var queueI: nat
    var textFg: nat
    var textBg: nat
    var cursorX: nat
    var cursorY: nat
    var oldCursorX: nat
    var oldCursorY: nat
    var scrollTop: nat
    var scrollBottom: nat
    var cursorEnabled: bool
    var scrollEnabled: bool

    /** The plain screen: the queued character of a cell if there is one, else its grid character. */
    ghost var view: seq<Cell>
    /** What is drawn in each cell, where it is known. */
    ghost var display: seq<Drawn>
    /** Whether the last flush left the old cursor cell inverted. */
    ghost var cursorShown: bool
    /** The pixels around the grid. */
    ghost var border: seq<nat>

    ghost function Size(): int {
      geo.rows * geo.cols
    }

    ghost predicate Shape() {
      && Fits(geo, font, canvas)
      && framebuffer.Length == geo.height * geo.stride
      && grid.Length == queue.Length == slots.Length == Size()
    }

    ghost function CellOf(q: QueueItem): int {
      q.y * geo.cols + q.x
    }

    /** Item `k` of the queue is on screen. */
    ghost predicate ItemOk(q: QueueItem) {
      q.x < geo.cols && q.y < geo.rows && 0 <= CellOf(q) < Size()
    }

    /** Queue and map point at each other, so queued items have distinct cells. */
    ghost predicate Linked()
      requires Shape()
      reads this`queueI, queue, slots
    {
      && queueI <= Size()
      && (forall k :: 0 <= k < queueI ==> ItemOk(queue[k]) && slots[CellOf(queue[k])] == At(k))
      && (forall i :: 0 <= i < Size() && slots[i].At? ==> slots[i].k < queueI && CellOf(queue[slots[i].k]) == i)
    }

    ghost function Pending(i: int): Cell
      requires Shape() && 0 <= i < Size() && (slots[i].At? ==> slots[i].k < Size())
      reads queue, slots, grid
    {
      if slots[i].At? then queue[slots[i].k].c else grid[i]
    }

    ghost predicate Viewed()
      requires Shape() && Linked()
      reads this`queueI, this`view, queue, slots, grid
    {
      |view| == Size() && forall i :: 0 <= i < Size() ==> view[i] == Pending(i)
    }

    ghost predicate CellsValid()
      reads this`queueI, this`view, this`scrollBottom, queue, slots, grid
    {
      Shape() && Linked() && Viewed() && 1 <= scrollBottom <= geo.rows
    }

    ghost function Abs(): Screen
      reads this
    {
      Screen(geo.rows, geo.cols, view, cursorX, cursorY, textFg, textBg, scrollTop, scrollBottom,
             cursorEnabled, scrollEnabled)
    }

    // ----- characters -----

    ghost predicate PtrOk(p: CharPtr)
      requires Shape()
      reads this`queueI
    {
      match p
      case Local(_) => true
      case InQueue(k) => k < queueI && queueI <= Size()
      case InGrid(i) => i < Size()
    }

    function Deref(p: CharPtr): Cell
      requires Shape() && PtrOk(p)
      reads this`queueI, queue, grid
    {
      match p
      case Local(c) => c
      case InQueue(k) => queue[k].c
      case InGrid(i) => grid[i]
    }

    lemma QueueHasRoom(i: nat)
      requires Shape() && Linked() && i < Size() && slots[i].Null?
      ensures queueI < Size()
    {
      var cells := seq(queueI, k requires 0 <= k < queueI && Shape() && Linked() reads queue, slots, this =>
                         CellOf(queue[k]) as nat);
      var all := cells + [i];
      assert Distinct(all) by {
        forall a, b | 0 <= a < b < |all|
          ensures all[a] != all[b]
        {
          assert slots[CellOf(queue[a])] == At(a);
          if b < queueI {
            assert slots[CellOf(queue[b])] == At(b);
          }
        }
      }
      Pigeonhole(all, Size());
    }

    /** `push_to_queue`: puts the pointed-to character on the screen view. */
    method PushToQueue(p: CharPtr, x: nat, y: nat)
      requires CellsValid() && PtrOk(p)
      modifies this`queueI, this`view, queue, slots
      ensures CellsValid() && PtrOk(p) && queueI >= old(queueI)
      ensures Abs() == old(Abs()).Put(old(Deref(p)), x, y)
    {
      if x >= geo.cols || y >= geo.rows {
        return;
      }
      InBlock(y, x, geo.rows, geo.cols);
      var i := y * geo.cols + x;
      var s := slots[i];
      if s.Null? {
        if grid[i] == Deref(p) {
          assert view[i] == Pending(i);
          return;
        }
        QueueHasRoom(i);
        PushNew(p, x, y, i);
      } else {
        PushOld(p, s.k, i);
      }
    }

    /** Takes the next queue item for cell `i`; `p` cannot point into it. */
    method PushNew(p: CharPtr, x: nat, y: nat, i: nat)
      requires CellsValid() && PtrOk(p) && queueI < Size()
      requires x < geo.cols && y < geo.rows && i < Size() && i == y * geo.cols + x && slots[i].Null?
      modifies this`queueI, this`view, queue, slots
      ensures CellsValid() && PtrOk(p) && queueI >= old(queueI)
      ensures Abs() == old(Abs()).(cells := view) && view == old(view)[i := old(Deref(p))]
    {
      ghost var c := Deref(p);
      var q := queueI;
      queueI := queueI + 1;
      queue[q] := queue[q].(x := x, y := y);
      slots[i] := At(q);
      queue[q] := queue[q].(c := Deref(p));
      view := view[i := c];
    }

    method PushOld(p: CharPtr, q: nat, i: nat)
      requires CellsValid() && PtrOk(p) && i < Size() && slots[i] == At(q)
      modifies this`view, queue
      ensures CellsValid() && PtrOk(p)
      ensures Abs() == old(Abs()).(cells := view) && view == old(view)[i := old(Deref(p))]
    {
      ghost var c := Deref(p);
      queue[q] := queue[q].(c := Deref(p));
      view := view[i := c];
    }

    /** The pointer that the scrolling loops pass on: into the queue if the cell is queued. */
    method PendingPtr(i: nat) returns (p: CharPtr)
      requires CellsValid() && i < Size()
      ensures PtrOk(p) && Deref(p) == view[i]
    {
      var s := slots[i];
      assert view[i] == Pending(i);
      if s.At? {
        p := InQueue(s.k);
      } else {
        p := InGrid(i);
      }
    }

    /** Puts one character at the cell with number `i`. */
    method PushAt(p: CharPtr, i: nat)
      requires CellsValid() && PtrOk(p) && i < Size()
      modifies this`queueI, this`view, queue, slots
      ensures CellsValid()
      ensures Abs() == old(Abs()).(cells := view)
      ensures |view| == |old(view)| == Size() && view == old(view)[i := old(Deref(p))]
    {
      Fundamental(i, geo.cols);
      DivBound(i, geo.rows, geo.cols);
      PushToQueue(p, i % geo.cols, i / geo.cols);
    }

    /** Fills the row `y` with blanks. */
    method BlankRow(y: nat)
      requires CellsValid()
      modifies this`queueI, this`view, queue, slots
      ensures CellsValid()
      ensures Abs() == old(Abs()).(cells := view) && |view| == |old(view)|
      ensures Filled(old(view), view, y * geo.cols, y * geo.cols + geo.cols, old(Abs()).Blank())
    {
      ghost var s0, v0 := Abs(), view;
      var empty := Cell(32, textFg, textBg);
      for x := 0 to geo.cols
        invariant CellsValid() && Abs() == s0.(cells := view) && |view| == |v0|
        invariant forall i :: 0 <= i < Size() ==>
          view[i] == if y * geo.cols <= i < y * geo.cols + x then empty else v0[i]
      {
        RowBeyond(y, x);
        PushToQueue(Local(empty), x, y);
      }
    }

    /** A row that is not on the screen has no cells. */
    lemma RowBeyond(y: nat, x: nat)
      requires Shape()
      ensures y >= geo.rows ==> y * geo.cols >= Size()
      ensures y < geo.rows && x < geo.cols ==> y * geo.cols + x < Size()
    {
      if y >= geo.rows {
        MulLe(geo.rows, y, geo.cols);
      } else if x < geo.cols {
        InBlock(y, x, geo.rows, geo.cols);
      }
    }

    lemma ViewSize()
      requires CellsValid()
      ensures Shape() && |view| == Size() && Abs().Valid() && 1 <= scrollBottom <= geo.rows
    {
    }

    /** The loop of `flanterm_fb_scroll`: cells move up by one row in increasing order. */
    method ShiftUp(start: nat, end: nat)
      requires CellsValid() && geo.cols <= start && end <= Size()
      modifies this`queueI, this`view, queue, slots
      ensures CellsValid()
      ensures |view| == |old(view)| == Size() && Abs() == old(Abs()).(cells := view)
      ensures ShiftedUp(old(view), view, geo.cols, start, end)
    {
      hide FbTerm.CellsValid, FbTerm.Deref, FbTerm.PtrOk, FbTerm.Size, FbTerm.Shape, ShiftedUp;
      ViewSize();
      ghost var s0, v0 := Abs(), view;
      var cols := geo.cols;
      var i := start;
      ShiftedNone(v0, cols, start);
      while i < end
        invariant start <= i <= end || i == start
        invariant CellsValid() && |view| == Size() && Abs() == s0.(cells := view)
        invariant i <= end ==> ShiftedUp(v0, view, cols, start, i)
        invariant i > end ==> view == v0
      {
        ShiftedUpStep(v0, view, cols, start, i);
        var p := PendingPtr(i);
        PushAt(p, i - cols);
        i := i + 1;
      }
      if start > end {
        ShiftedEmpty(v0, cols, start, end);
      }
    }

    /** The loop of `flanterm_fb_revscroll`: cells move down by one row in decreasing order; the test for
        `(size_t)-1` is the bound at zero. */
    method ShiftDown(start: nat, end: nat)
      requires CellsValid() && end + geo.cols <= Size()
      modifies this`queueI, this`view, queue, slots
      ensures CellsValid()
      ensures |view| == |old(view)| == Size() && Abs() == old(Abs()).(cells := view)
      ensures ShiftedDown(old(view), view, geo.cols, start, end)
    {
      hide FbTerm.CellsValid, FbTerm.Deref, FbTerm.PtrOk, FbTerm.Size, FbTerm.Shape, ShiftedDown;
      ViewSize();
      ghost var s0, v0 := Abs(), view;
      var cols := geo.cols;
      var i := end - 1;
      ShiftedNone(v0, cols, end);
      while i >= start && i != -1
        invariant -1 <= i < end && (i + 1 >= start || i + 1 == end)
        invariant CellsValid() && |view| == Size() && Abs() == s0.(cells := view)
        invariant ShiftedDown(v0, view, cols, i + 1, end)
        decreases i
      {
        ShiftedDownStep(v0, view, cols, i + 1, end);
        var p := PendingPtr(i);
        PushAt(p, i + cols);
        i := i - 1;
      }
      if start > end {
        ShiftedEmpty(v0, cols, start, end);
      }
    }

    /** `flanterm_fb_scroll`: the in-place loop is the simultaneous move of all rows. */
    method Scroll()
      requires CellsValid()
      modifies this`queueI, this`view, queue, slots
      ensures CellsValid()
      ensures Abs() == old(Abs()).ScrolledUp()
    {
      hide FbTerm.CellsValid, FbTerm.Linked, FbTerm.Viewed, Screen.ScrolledUp, Screen.ScrolledDown, ShiftedUp, Filled;
      ViewSize();
      ghost var s0, v0 := Abs(), view;
      ScrollBounds();
      ShiftUp((scrollTop + 1) * geo.cols, scrollBottom * geo.cols);
      ghost var v1 := view;
      BlankRow(scrollBottom - 1);
      ScrolledUpIs(s0, v1, view);
    }

    lemma ScrollBounds()
      requires Shape() && 1 <= scrollBottom <= geo.rows
      ensures (scrollTop + 1) * geo.cols == scrollTop * geo.cols + geo.cols
      ensures scrollTop * geo.cols >= 0
      ensures scrollBottom * geo.cols <= Size()
      ensures (scrollBottom - 1) * geo.cols == scrollBottom * geo.cols - geo.cols
      ensures (scrollBottom - 1) * geo.cols >= 0
    {
      MulStep(scrollTop, geo.cols);
      MulNonneg(scrollTop, geo.cols);
      MulLe(scrollBottom, geo.rows, geo.cols);
      MulStep(scrollBottom - 1, geo.cols);
      MulNonneg(scrollBottom - 1, geo.cols);
    }

    /** `flanterm_fb_revscroll` */
    method RevScroll()
      requires CellsValid()
      modifies this`queueI, this`view, queue, slots
      ensures CellsValid()
      ensures Abs() == old(Abs()).ScrolledDown()
    {
      hide FbTerm.CellsValid, FbTerm.Linked, FbTerm.Viewed, Screen.ScrolledUp, Screen.ScrolledDown, ShiftedDown, Filled;
      ViewSize();
      ghost var s0, v0 := Abs(), view;
      ScrollBounds();
      ShiftDown(scrollTop * geo.cols, (scrollBottom - 1) * geo.cols);
      ghost var v1 := view;
      BlankRow(scrollTop);
      ScrolledDownIs(s0, v1, view);
    }

    /** `flanterm_fb_clear` */
    method ClearScreen(move: bool)
      requires CellsValid()
      modifies this`queueI, this`view, this`cursorX, this`cursorY, queue, slots
      ensures CellsValid()
      ensures Abs() == old(Abs()).Cleared(move)
    {
      ghost var s0, v0 := Abs(), view;
      var empty := Cell(32, textFg, textBg);
      for i := 0 to geo.rows * geo.cols
        invariant CellsValid() && Abs() == s0.(cells := view)
        invariant forall j :: 0 <= j < Size() ==> view[j] == if j < i then empty else v0[j]
      {
        PushAt(Local(empty), i);
      }
      if move {
        cursorX, cursorY := 0, 0;
      }
      assert Abs().cells == s0.Cleared(move).cells;
    }

    /** `flanterm_fb_move_character` */
    method MoveCharacter(newX: nat, newY: nat, oldX: nat, oldY: nat)
      requires CellsValid()
      modifies this`queueI, this`view, queue, slots
      ensures CellsValid()
      ensures Abs() == old(Abs()).Moved(newX, newY, oldX, oldY)
    {
      if oldX >= geo.cols || oldY >= geo.rows || newX >= geo.cols || newY >= geo.rows {
        return;
      }
      InBlock(oldY, oldX, geo.rows, geo.cols);
      var p := PendingPtr(oldX + oldY * geo.cols);
      PushToQueue(p, newX, newY);
    }

    /** `flanterm_fb_raw_putchar` */
    method RawPutChar(c: Glyph)
      requires CellsValid()
      modifies this`queueI, this`view, this`cursorX, this`cursorY, queue, slots
      ensures CellsValid()
      ensures Abs() == old(Abs()).Typed(c)
    {
      hide Screen.ScrolledUp, Screen.Put, FbTerm.Linked, FbTerm.Viewed;
      Wrap();
      var ch := Cell(c, textFg, textBg);
      PushToQueue(Local(ch), cursorX, cursorY);
      cursorX := cursorX + 1;
    }

    method Wrap()
      requires CellsValid()
      modifies this`queueI, this`view, this`cursorX, this`cursorY, queue, slots
      ensures CellsValid()
      ensures Abs() == old(Abs()).Wrapped()
    {
      hide Screen.ScrolledUp, FbTerm.Linked, FbTerm.Viewed;
      ViewSize();
      ghost var s0 := Abs();
      if cursorX >= geo.cols && (cursorY < scrollBottom - 1 || scrollEnabled) {
        ScrolledKeeps(s0);
        cursorX := 0;
        cursorY := cursorY + 1;
        if cursorY == scrollBottom {
          cursorY := cursorY - 1;
          Scroll();
        }
        if cursorY >= geo.cols {
          cursorY := geo.cols - 1;
        }
      }
    }

    /** `flanterm_fb_set_cursor_pos` */
    method SetCursorPos(x: nat, y: nat)
      requires CellsValid()
      modifies this`cursorX, this`cursorY
      ensures CellsValid()
      ensures Abs() == old(Abs()).CursorSet(x, y)
    {
      var x1, y1 := x, y;
      if x1 >= geo.cols {
        if x1 % U32 >= 0x8000_0000 {
          x1 := 0;
        } else {
          x1 := geo.cols - 1;
        }
      }
      if y1 >= geo.rows {
        if y1 % U32 >= 0x8000_0000 {
          y1 := 0;
        } else {
          y1 := geo.rows - 1;
        }
      }
      cursorX, cursorY := x1, y1;
    }

    // ----- pixels -----

    /** The frame buffer agrees with `display` on the grid and is untouched around it. */
    ghost predicate Painted()
      reads this`display, this`border, framebuffer
    {
      && Shape() && |display| == Size() && |border| == framebuffer.Length
      && (forall p :: 0 <= p < framebuffer.Length && !geo.OnGrid(p) ==> framebuffer[p] == border[p])
      && (forall p :: 0 <= p < framebuffer.Length && geo.OnGrid(p) ==>
            PixelOk(p, geo.CellIndex(p), framebuffer[p], display))
    }

    ghost predicate PixelOk(p: nat, i: int, colour: nat, d: seq<Drawn>)
      requires Shape() && geo.OnGrid(p)
    {
      0 <= i < |d| && (d[i].Known? ==> colour == Want(geo, font, canvas, d[i].cell, p))
    }

    /** Only pixels of cell `(x, y)` have changed. */
    twostate predicate OnlyCell(x: nat, y: nat)
      requires Shape()
      reads framebuffer
    {
      forall p :: 0 <= p < framebuffer.Length && !geo.InCell(p, x, y) ==> framebuffer[p] == old(framebuffer[p])
    }

    lemma InkFits(x: nat, y: nat, gy: nat)
      requires Shape() && x < geo.cols && y < geo.rows && gy < geo.glyphHeight
      ensures 0 <= gy / geo.scaleY < geo.fontHeight && gy / geo.scaleY % 256 == gy / geo.scaleY
      ensures 0 <= geo.LineStart(x, y, gy) && geo.LineStart(x, y, gy) + geo.glyphWidth <= framebuffer.Length
    {
      DivBound(gy, geo.fontHeight, geo.scaleY);
      geo.LineFits(x, y, gy);
    }

    /** One line of `plot_char`: the pixels from `LineStart` on get their wanted colours. */
    method PlotRun(c: Cell, x: nat, y: nat, gy: nat)
      requires Shape() && x < geo.cols && y < geo.rows && gy < geo.glyphHeight
      requires geo.LineStart(x, y, gy) + geo.glyphWidth <= framebuffer.Length
      modifies framebuffer
      ensures var start := geo.LineStart(x, y, gy);
        && (forall p :: start <= p < start + geo.glyphWidth ==>
              geo.OnGrid(p) && framebuffer[p] == Want(geo, font, canvas, c, p))
        && (forall p :: 0 <= p < framebuffer.Length && !(start <= p < start + geo.glyphWidth) ==>
              framebuffer[p] == old(framebuffer[p]))
    {
      hide Want, Geometry.OnGrid, Geometry.InCell, InkAt;
      InkFits(x, y, gy);
      var start := (geo.offsetX + x * geo.glyphWidth) + (geo.offsetY + y * geo.glyphHeight + gy) * geo.stride;
      var canvasStart := (geo.offsetX + x * geo.glyphWidth) + (geo.offsetY + y * geo.glyphHeight + gy) * geo.width;
      var fy := gy / geo.scaleY % 256;
      var gx := 0;
      for fx := 0 to geo.fontWidth
        invariant gx == fx * geo.scaleX
        invariant forall p :: start <= p < start + gx && p < framebuffer.Length ==>
          geo.OnGrid(p) && framebuffer[p] == Want(geo, font, canvas, c, p)
        invariant forall p :: 0 <= p < framebuffer.Length && !(start <= p < start + gx) ==>
          framebuffer[p] == old(framebuffer[p])
      {
        font.IndexFits(c.c, fx, fy);
        var draw := font.bits[c.c * geo.fontHeight * geo.fontWidth + (fy * geo.fontWidth + fx)];
        for i := 0 to geo.scaleX
          invariant gx == fx * geo.scaleX + i
          invariant forall p :: start <= p < start + gx && p < framebuffer.Length ==>
            geo.OnGrid(p) && framebuffer[p] == Want(geo, font, canvas, c, p)
          invariant forall p :: 0 <= p < framebuffer.Length && !(start <= p < start + gx) ==>
            framebuffer[p] == old(framebuffer[p])
        {
          WantAt(geo, font, canvas, c, x, y, gy, fx, i);
          var bg := if c.bg == TRANSPARENT then canvas[canvasStart + gx] else c.bg;
          var fg := if c.fg == TRANSPARENT then canvas[canvasStart + gx] else c.fg;
          framebuffer[start + gx] := if draw then fg else bg;
          gx := gx + 1;
        }
        MulStep(fx, geo.scaleX);
      }
    }

    /** The loops of `plot_char`: exactly the pixels of the cell get their wanted colours. */
    method PlotLines(c: Cell, x: nat, y: nat)
      requires Shape() && x < geo.cols && y < geo.rows
      modifies framebuffer
      ensures OnlyCell(x, y)
      ensures forall p :: 0 <= p < framebuffer.Length && geo.InCell(p, x, y) ==>
        framebuffer[p] == Want(geo, font, canvas, c, p)
    {
      hide Geometry.InCell, Geometry.GlyphY, Want, Geometry.LineStart;
      CellDone(x, y);
      for gy := 0 to geo.glyphHeight
        invariant forall p :: 0 <= p < framebuffer.Length && geo.InCell(p, x, y) && geo.GlyphY(p) < gy ==>
          framebuffer[p] == Want(geo, font, canvas, c, p)
        invariant forall p :: 0 <= p < framebuffer.Length && !(geo.InCell(p, x, y) && geo.GlyphY(p) < gy) ==>
          framebuffer[p] == old(framebuffer[p])
      {
        InkFits(x, y, gy);
        LineOfCell(x, y, gy);
        PlotRun(c, x, y, gy);
      }
    }

    /** `plot_char` */
    method PlotChar(c: Cell, x: nat, y: nat)
      requires Painted()
      modifies framebuffer, this`display
      ensures Painted() && OnlyCell(x, y)
      ensures display == DisplayWith(old(display), x, y, Known(c))
      ensures x < geo.cols && y < geo.rows ==>
        Pictured(geo, font, canvas, c.c, c.fg, c.bg, x, y, framebuffer[..])
    {
      hide Want, Pictured;
      if x >= geo.cols || y >= geo.rows {
        return;
      }
      InBlock(y, x, geo.rows, geo.cols);
      CellDone(x, y);
      PlotLines(c, x, y);
      WantedIsPictured(geo, font, canvas, c, x, y, framebuffer[..]);
      display := display[y * geo.cols + x := Known(c)];
    }

    ghost function DisplayWith(d: seq<Drawn>, x: nat, y: nat, c: Drawn): seq<Drawn> {
      if x < geo.cols && y < geo.rows && 0 <= y * geo.cols + x < |d| then d[y * geo.cols + x := c] else d
    }

    lemma LineOfCell(x: nat, y: nat, gy: nat)
      requires Shape() && x < geo.cols && y < geo.rows && gy < geo.glyphHeight
      ensures forall p: nat :: geo.LineStart(x, y, gy) <= p < geo.LineStart(x, y, gy) + geo.glyphWidth <==>
                geo.InCell(p, x, y) && geo.GlyphY(p) == gy
    {
      forall p: nat
        ensures geo.LineStart(x, y, gy) <= p < geo.LineStart(x, y, gy) + geo.glyphWidth <==>
                geo.InCell(p, x, y) && geo.GlyphY(p) == gy
      {
        geo.LineSpan(p, x, y, gy);
      }
    }

    lemma CellDone(x: nat, y: nat)
      requires Shape() && x < geo.cols && y < geo.rows
      ensures forall p: nat :: geo.InCell(p, x, y) ==> 0 <= geo.GlyphY(p) < geo.glyphHeight
      ensures forall p: nat :: geo.InCell(p, x, y) <==> geo.OnGrid(p) && geo.CellIndex(p) == y * geo.cols + x
    {
      forall p: nat
        ensures geo.InCell(p, x, y) ==> 0 <= geo.GlyphY(p) < geo.glyphHeight
        ensures geo.InCell(p, x, y) <==> geo.OnGrid(p) && geo.CellIndex(p) == y * geo.cols + x
      {
        if geo.InCell(p, x, y) {
          geo.GlyphOf(p, x, y);
        }
        geo.InCellIndex(p, x, y);
      }
    }

    /** The colour that `plot_char_fast` leaves in pixel `p`. */
    ghost function FastPixel(o: Cell, c: Cell, p: nat, before: nat): nat
      requires Shape() && geo.OnGrid(p)
    {
      if InkAt(geo, font, canvas, o.c, p) == InkAt(geo, font, canvas, c.c, p) then before
      else Want(geo, font, canvas, c, p)
    }

    /** Where the ink is the same and the colours are, the wanted colour is the same too. */
    lemma FastPixelOk(o: Cell, c: Cell, p: nat)
      requires Shape() && geo.OnGrid(p) && o.fg == c.fg && o.bg == c.bg
      ensures FastPixel(o, c, p, Want(geo, font, canvas, o, p)) == Want(geo, font, canvas, c, p)
    {
    }

    /** One line of `plot_char_fast`. */
    method FastRun(o: Cell, c: Cell, x: nat, y: nat, gy: nat)
      requires Shape() && x < geo.cols && y < geo.rows && gy < geo.glyphHeight
      requires geo.LineStart(x, y, gy) + geo.glyphWidth <= framebuffer.Length
      modifies framebuffer
      ensures var start := geo.LineStart(x, y, gy);
        && (forall p :: start <= p < start + geo.glyphWidth ==>
              geo.OnGrid(p) && framebuffer[p] == FastPixel(o, c, p, old(framebuffer[p])))
        && (forall p :: 0 <= p < framebuffer.Length && !(start <= p < start + geo.glyphWidth) ==>
              framebuffer[p] == old(framebuffer[p]))
    {
      hide Want, Geometry.OnGrid, Geometry.InCell, InkAt;
      InkFits(x, y, gy);
      var start := (geo.offsetX + x * geo.glyphWidth) + (geo.offsetY + y * geo.glyphHeight + gy) * geo.stride;
      var canvasStart := (geo.offsetX + x * geo.glyphWidth) + (geo.offsetY + y * geo.glyphHeight + gy) * geo.width;
      var fy := gy / geo.scaleY % 256;
      var done := 0;
      for fx := 0 to geo.fontWidth
        invariant done == fx * geo.scaleX
        invariant forall p :: start <= p < start + done && p < framebuffer.Length ==>
          geo.OnGrid(p) && framebuffer[p] == FastPixel(o, c, p, old(framebuffer[p]))
        invariant forall p :: 0 <= p < framebuffer.Length && !(start <= p < start + done) ==>
          framebuffer[p] == old(framebuffer[p])
      {
        font.IndexFits(o.c, fx, fy);
        font.IndexFits(c.c, fx, fy);
        var oldDraw := font.bits[o.c * geo.fontHeight * geo.fontWidth + (fy * geo.fontWidth + fx)];
        var newDraw := font.bits[c.c * geo.fontHeight * geo.fontWidth + (fy * geo.fontWidth + fx)];
        for i := 0 to geo.scaleX
          invariant done == fx * geo.scaleX + i
          invariant forall p :: start <= p < start + done && p < framebuffer.Length ==>
            geo.OnGrid(p) && framebuffer[p] == FastPixel(o, c, p, old(framebuffer[p]))
          invariant forall p :: 0 <= p < framebuffer.Length && !(start <= p < start + done) ==>
            framebuffer[p] == old(framebuffer[p])
        {
          WantAt(geo, font, canvas, c, x, y, gy, fx, i);
          WantAt(geo, font, canvas, o, x, y, gy, fx, i);
          if oldDraw != newDraw {
            var bg := if c.bg == TRANSPARENT then canvas[canvasStart + done] else c.bg;
            var fg := if c.fg == TRANSPARENT then canvas[canvasStart + done] else c.fg;
            framebuffer[start + done] := if newDraw then fg else bg;
          }
          done := done + 1;
        }
        MulStep(fx, geo.scaleX);
      }
    }

    method FastLines(o: Cell, c: Cell, x: nat, y: nat)
      requires Shape() && x < geo.cols && y < geo.rows
      modifies framebuffer
      ensures OnlyCell(x, y)
      ensures forall p :: 0 <= p < framebuffer.Length && geo.InCell(p, x, y) ==>
        framebuffer[p] == FastPixel(o, c, p, old(framebuffer[p]))
    {
      hide Geometry.InCell, Geometry.GlyphY, FbTerm.FastPixel, Geometry.LineStart;
      CellDone(x, y);
      for gy := 0 to geo.glyphHeight
        invariant forall p :: 0 <= p < framebuffer.Length && geo.InCell(p, x, y) && geo.GlyphY(p) < gy ==>
          framebuffer[p] == FastPixel(o, c, p, old(framebuffer[p]))
        invariant forall p :: 0 <= p < framebuffer.Length && !(geo.InCell(p, x, y) && geo.GlyphY(p) < gy) ==>
          framebuffer[p] == old(framebuffer[p])
      {
        InkFits(x, y, gy);
        LineOfCell(x, y, gy);
        FastRun(o, c, x, y, gy);
      }
    }

    /** What a fast draw over state `d` leaves: a full picture only if `o` was drawn in the same colours. */
    ghost function FastResult(d: Drawn, o: Cell, c: Cell): Drawn {
      if d == Known(o) && o.fg == c.fg && o.bg == c.bg then Known(c) else Leftover
    }

    /** `plot_char_fast` */
    method PlotCharFast(o: Cell, c: Cell, x: nat, y: nat)
      requires Painted()
      modifies framebuffer, this`display
      ensures Painted() && OnlyCell(x, y)
      ensures x < geo.cols && y < geo.rows ==>
        0 <= y * geo.cols + x < |old(display)| &&
        display == old(display)[y * geo.cols + x := FastResult(old(display)[y * geo.cols + x], o, c)]
      ensures !(x < geo.cols && y < geo.rows) ==> display == old(display)
    {
      hide Want, FbTerm.FastPixel;
      if x >= geo.cols || y >= geo.rows {
        return;
      }
      InBlock(y, x, geo.rows, geo.cols);
      ghost var i := y * geo.cols + x;
      CellDone(x, y);
      if o.fg == c.fg && o.bg == c.bg {
        forall p | 0 <= p < framebuffer.Length && geo.InCell(p, x, y)
          ensures FastPixel(o, c, p, Want(geo, font, canvas, o, p)) == Want(geo, font, canvas, c, p)
        {
          FastPixelOk(o, c, p);
        }
      }
      FastLines(o, c, x, y);
      display := display[i := FastResult(display[i], o, c)];
    }

    // ----- flushing -----

    /** Between flushes the display shows the grid, with the old cursor cell inverted if it was drawn. */
    ghost predicate GridShown()
      requires Shape()
      reads this`display, this`cursorShown, this`oldCursorX, this`oldCursorY, grid
    {
      && |display| == Size()
      && (cursorShown ==> oldCursorX < geo.cols && oldCursorY < geo.rows)
      && forall i :: 0 <= i < Size() ==>
           display[i] ==
           Known(if cursorShown && i == oldCursorY * geo.cols + oldCursorX then Inverse(grid[i]) else grid[i])
    }

    ghost predicate Valid()
      reads this, queue, slots, grid, framebuffer
    {
      CellsValid() && Painted() && GridShown()
    }

    /** Links during a flush, when the items before `k` are done and map entries may have been cleared. */
    ghost predicate Draining(k: nat)
      requires Shape()
      reads this`queueI, this`view, queue, slots, grid
    {
      && queueI <= Size() && |view| == Size()
      && (forall j :: 0 <= j < queueI ==> ItemOk(queue[j]))
      && (forall j :: k <= j < queueI ==> slots[CellOf(queue[j])] == Null || slots[CellOf(queue[j])] == At(j))
      && (forall i :: 0 <= i < Size() && slots[i].At? ==>
            k <= slots[i].k < queueI && CellOf(queue[slots[i].k]) == i)
      && (forall i :: 0 <= i < Size() ==> view[i] == if slots[i].At? then queue[slots[i].k].c else grid[i])
    }

    /** `draw_cursor`: draws the pending character of the cursor cell inverted and takes it off the queue. */
    method DrawCursor()
      requires Painted() && Draining(0)
      modifies framebuffer, grid, slots, this`display
      ensures Painted() && Draining(0)
      ensures !(cursorX < geo.cols && cursorY < geo.rows) ==>
        display == old(display) && grid[..] == old(grid[..]) && slots[..] == old(slots[..])
      ensures cursorX < geo.cols && cursorY < geo.rows ==>
        var i := cursorY * geo.cols + cursorX;
        && 0 <= i < Size() && |old(display)| == Size()
        && display == old(display)[i := Known(Inverse(view[i]))]
        && grid[i] == view[i] && slots[i].Null?
        && (forall j :: 0 <= j < Size() && j != i ==> grid[j] == old(grid[j]) && slots[j] == old(slots[j]))
    {
      hide FbTerm.Painted;
      PaintedShape();
      if cursorX >= geo.cols || cursorY >= geo.rows {
        return;
      }
      InBlock(cursorY, cursorX, geo.rows, geo.cols);
      var i := cursorX + cursorY * geo.cols;
      var s := slots[i];
      var c := if s.At? then queue[s.k].c else grid[i];
      PlotChar(Cell(c.c, c.bg, c.fg), cursorX, cursorY);
      if s.At? {
        grid[i] := queue[s.k].c;
        slots[i] := Null;
      }
    }

    lemma PaintedShape()
      requires Painted()
      ensures Shape() && |display| == Size()
    {
    }

    /** What is on the display while the queue is drained: the cursor cell `cur` (if it is drawn) inverted, the
        cell `stale` of the previous cursor in an unknown state, all other cells as in the grid. */
    ghost predicate Repainted(cur: int, stale: int)
      requires Shape()
      reads this`display, grid, slots
    {
      && |display| == Size()
      && (forall i :: 0 <= i < Size() && i != cur && i != stale ==> display[i] == Known(grid[i]))
      && (0 <= cur < Size() ==> display[cur] == Known(Inverse(grid[cur])) && slots[cur].Null?)
    }

    /** Draws a queue item over the grid character `o` of its cell, with the fast method when only the glyph
        changes. If the cell showed `o`, it now shows the item. */
    method DrawItem(q: QueueItem, o: Cell)
      requires Painted() && ItemOk(q)
      modifies framebuffer, this`display
      ensures Painted() && |display| == |old(display)| == Size()
      ensures old(display)[CellOf(q)] == Known(o) ==> display[CellOf(q)] == Known(q.c)
      ensures forall i :: 0 <= i < Size() && i != CellOf(q) ==> display[i] == old(display)[i]
    {
      hide FbTerm.Painted;
      PaintedShape();
      if q.c.bg == o.bg && q.c.fg == o.fg {
        PlotCharFast(o, q.c, q.x, q.y);
      } else {
        PlotChar(q.c, q.x, q.y);
      }
    }

    /** One queue item of the flush loop. */
    method FlushItem(k: nat, ghost cur: int, ghost stale: int)
      requires Painted() && Draining(k) && k < queueI && Repainted(cur, stale)
      modifies framebuffer, grid, slots, this`display
      ensures Painted() && Draining(k + 1) && Repainted(cur, stale)
    {
      hide FbTerm.Painted;
      PaintedShape();
      var q := queue[k];
      var offset := q.y * geo.cols + q.x;
      assert ItemOk(q) && offset == CellOf(q);
      if slots[offset].Null? {
        return;
      }
      DrawItem(q, grid[offset]);
      grid[offset] := q.c;
      slots[offset] := Null;
    }

    /** The cell in which the cursor is to be drawn, or -1. */
    ghost function VisibleCell(): int
      reads this
    {
      if cursorEnabled && cursorX < geo.cols && cursorY < geo.rows then cursorY * geo.cols + cursorX else -1
    }

    /** The cell that still shows the previous cursor, or -1. */
    ghost function StaleCell(): int
      reads this
    {
      if cursorShown then oldCursorY * geo.cols + oldCursorX else -1
    }

    method FlushCursor()
      requires Painted() && Draining(0) && GridShown()
      modifies framebuffer, grid, slots, this`display
      ensures Painted() && Draining(0) && Repainted(VisibleCell(), StaleCell())
    {
      hide FbTerm.Painted;
      PaintedShape();
      assert Repainted(-1, StaleCell());
      if cursorEnabled {
        DrawCursor();
      }
    }

    method FlushQueue(ghost cur: int, ghost stale: int)
      requires Painted() && Draining(0) && Repainted(cur, stale)
      modifies framebuffer, grid, slots, this`display
      ensures Painted() && Draining(queueI) && Repainted(cur, stale)
    {
      hide FbTerm.Painted, FbTerm.Draining, FbTerm.Repainted;
      PaintedShape();
      for k := 0 to queueI
        invariant Painted() && Draining(k) && Repainted(cur, stale)
      {
        FlushItem(k, cur, stale);
      }
    }

    /** Redraws the cell that the cursor has left. */
    method RepairCursor()
      requires Painted() && Repainted(VisibleCell(), StaleCell())
      requires cursorShown ==> oldCursorX < geo.cols && oldCursorY < geo.rows
      modifies framebuffer, this`display
      ensures Painted() && |display| == Size()
      ensures forall i :: 0 <= i < Size() ==>
              display[i] == Known(if i == VisibleCell() then Inverse(grid[i]) else grid[i])
    {
      hide FbTerm.Painted;
      PaintedShape();
      if (oldCursorX != cursorX || oldCursorY != cursorY) || !cursorEnabled {
        if oldCursorX < geo.cols && oldCursorY < geo.rows {
          InBlock(oldCursorY, oldCursorX, geo.rows, geo.cols);
          if oldCursorY * geo.cols + oldCursorX == VisibleCell() {
            BlockUnique(oldCursorY, oldCursorX, cursorY, cursorX, geo.cols);
          }
          PlotChar(grid[oldCursorX + oldCursorY * geo.cols], oldCursorX, oldCursorY);
        }
      }
    }

    /** `flanterm_fb_double_buffer_flush`: afterwards every cell of the display shows the plain screen. */
    method DoubleBufferFlush()
      requires Valid()
      modifies framebuffer, grid, slots, this`display, this`queueI, this`oldCursorX, this`oldCursorY, this`cursorShown
      ensures Valid() && queueI == 0 && Abs() == old(Abs())
      ensures ShowsScreen(Abs())
    {
      hide FbTerm.Painted, FbTerm.Draining, FbTerm.CellsValid, FbTerm.Repainted;
      ViewSize();
      StartDraining();
      FlushCursor();
      FlushQueue(VisibleCell(), StaleCell());
      QueueDone();
      RepairCursor();
      EndFlush();
      ScreenShown();
    }

    /** Every cell shows its character of the plain screen, with the colours exchanged where the cursor is, and the
        pixels around the cells are those of the border. */
    ghost predicate ShowsScreen(s: Screen)
      reads framebuffer, this`border
    {
      && Shape() && |s.cells| == Size() && |border| == framebuffer.Length
      && (forall x: nat, y: nat :: x < geo.cols && y < geo.rows ==> CellShown(s, x, y))
      && (forall p :: 0 <= p < framebuffer.Length && !geo.OnGrid(p) ==> framebuffer[p] == border[p])
    }

    ghost predicate CellShown(s: Screen, x: nat, y: nat)
      requires Shape()
      reads framebuffer
    {
      && 0 <= y * geo.cols + x < |s.cells|
      && var cell := s.cells[y * geo.cols + x];
         if s.cursorOn && s.cursorX == x && s.cursorY == y
         then Pictured(geo, font, canvas, cell.c, cell.bg, cell.fg, x, y, framebuffer[..])
         else Pictured(geo, font, canvas, cell.c, cell.fg, cell.bg, x, y, framebuffer[..])
    }

    lemma ScreenShown()
      requires Valid()
      requires forall i :: 0 <= i < Size() ==> display[i] == Known(Abs().Shown(i))
      ensures ShowsScreen(Abs())
    {
      hide Want, FbTerm.Linked, FbTerm.GridShown, Screen.Shown, FbTerm.CellShown;
      forall x: nat, y: nat | x < geo.cols && y < geo.rows
        ensures CellShown(Abs(), x, y)
      {
        CellIsShown(x, y);
      }
    }

    lemma CellIsShown(x: nat, y: nat)
      requires Valid() && x < geo.cols && y < geo.rows
      requires forall i :: 0 <= i < Size() ==> display[i] == Known(Abs().Shown(i))
      ensures CellShown(Abs(), x, y)
    {
      hide Want, FbTerm.Linked, FbTerm.GridShown, Pictured, Geometry.OnGrid, Geometry.InCell;
      InBlock(y, x, geo.rows, geo.cols);
      CellDone(x, y);
      forall p | 0 <= p < framebuffer.Length && geo.InCell(p, x, y)
        ensures geo.OnGrid(p) && framebuffer[p] == Want(geo, font, canvas, Abs().Shown(y * geo.cols + x), p)
      {
        assert PixelOk(p, geo.CellIndex(p), framebuffer[p], display);
      }
      WantedIsPictured(geo, font, canvas, Abs().Shown(y * geo.cols + x), x, y, framebuffer[..]);
      if cursorX < geo.cols && y * geo.cols + x == cursorY * geo.cols + cursorX {
        BlockUnique(y, x, cursorY, cursorX, geo.cols);
      }
    }

    method EndFlush()
      requires Painted() && |view| == |display| == Size() && 1 <= scrollBottom <= geo.rows
      requires forall i :: 0 <= i < Size() ==> slots[i].Null? && view[i] == grid[i]
      requires forall i :: 0 <= i < Size() ==>
               display[i] == Known(if i == VisibleCell() then Inverse(grid[i]) else grid[i])
      modifies this`queueI, this`oldCursorX, this`oldCursorY, this`cursorShown
      ensures Valid() && queueI == 0 && Abs() == old(Abs())
      ensures forall i :: 0 <= i < Size() ==> display[i] == Known(Abs().Shown(i))
    {
      hide FbTerm.Painted, FbTerm.CellsValid;
      PaintedShape();
      oldCursorX := cursorX;
      oldCursorY := cursorY;
      cursorShown := cursorEnabled && cursorX < geo.cols && cursorY < geo.rows;
      queueI := 0;
      Drained();
    }

    lemma StartDraining()
      requires CellsValid()
      ensures Draining(0)
    {
    }

    lemma QueueDone()
      requires Shape() && Draining(queueI)
      ensures |view| == Size() && forall i :: 0 <= i < Size() ==> slots[i].Null? && view[i] == grid[i]
    {
    }

    lemma Drained()
      requires Shape() && queueI == 0 && |view| == Size() && 1 <= scrollBottom <= geo.rows
      requires forall i :: 0 <= i < Size() ==> slots[i].Null? && view[i] == grid[i]
      ensures CellsValid()
    {
    }

    // ----- initialisation -----

    /** Copies line `y` of the canvas to the screen. */
    method CopyCanvasLine(y: nat)
      requires Shape() && y < geo.height && (y * geo.stride) + geo.stride <= framebuffer.Length
      requires (y * geo.width) + geo.width <= |canvas|
      modifies framebuffer
      ensures forall p :: 0 <= p < framebuffer.Length && geo.Row(p) == y && geo.Col(p) < geo.width ==>
        y * geo.width + geo.Col(p) < |canvas| && framebuffer[p] == canvas[y * geo.width + geo.Col(p)]
      ensures forall p :: 0 <= p < framebuffer.Length && !(geo.Row(p) == y && geo.Col(p) < geo.width) ==>
        framebuffer[p] == old(framebuffer[p])
    {
      hide Geometry.Row, Geometry.Col;
      var start := y * geo.stride;
      MulNonneg(y, geo.stride);
      MulNonneg(y, geo.width);
      for x := 0 to geo.width
        invariant forall p :: start <= p < start + x ==> framebuffer[p] == canvas[y * geo.width + (p - start)]
        invariant forall p :: 0 <= p < framebuffer.Length && !(start <= p < start + x) ==>
          framebuffer[p] == old(framebuffer[p])
      {
        framebuffer[y * geo.stride + x] := canvas[y * geo.width + x];
      }
      forall p: nat
        ensures start <= p < start + geo.width <==> geo.Row(p) == y && geo.Col(p) < geo.width
        ensures start <= p < start + geo.width ==> geo.Col(p) == p - start
      {
        geo.ScreenLine(p, y);
      }
    }

    lemma LineBounds(y: nat)
      requires Shape() && y < geo.height
      ensures y * geo.stride + geo.stride <= framebuffer.Length && y * geo.width + geo.width <= |canvas|
    {
      MulLe(y + 1, geo.height, geo.stride);
      MulStep(y, geo.stride);
      MulLe(y + 1, geo.height, geo.width);
      MulStep(y, geo.width);
    }

    /** Pixel `p`, if it is inside the visible width, shows the canvas. */
    ghost predicate CanvasAt(p: nat, colour: nat)
      requires Shape()
    {
      geo.Col(p) < geo.width ==>
        0 <= geo.Row(p) * geo.width + geo.Col(p) < |canvas| && colour == canvas[geo.Row(p) * geo.width + geo.Col(p)]
    }

    method CopyCanvas()
      requires Shape()
      modifies framebuffer
      ensures forall p :: 0 <= p < framebuffer.Length ==> CanvasAt(p, framebuffer[p])
    {
      for y := 0 to geo.height
        invariant forall p :: 0 <= p < framebuffer.Length && geo.Row(p) < y ==> CanvasAt(p, framebuffer[p])
      {
        LineBounds(y);
        MulNonneg(y, geo.width);
        CopyCanvasLine(y);
      }
      forall p | 0 <= p < framebuffer.Length
        ensures geo.Row(p) < geo.height
      {
        DivBound(p, geo.height, geo.stride);
      }
    }

    /** `flanterm_fb_full_refresh`, with nothing queued: canvas, all cells, cursor. */
    method FullRefresh()
      requires Shape() && Draining(0) && queueI == 0
      requires oldCursorX == cursorX && oldCursorY == cursorY && 1 <= scrollBottom <= geo.rows
      modifies framebuffer, grid, slots, this`display, this`border, this`cursorShown
      ensures Valid() && Abs() == old(Abs()) && ShowsScreen(Abs())
      ensures forall p :: 0 <= p < framebuffer.Length && !geo.OnGrid(p) ==> CanvasAt(p, border[p])
    {
      hide FbTerm.CanvasAt, FbTerm.Painted, FbTerm.Draining, FbTerm.ShowsScreen, FbTerm.Valid;
      CopyCanvas();
      border := framebuffer[..];
      display := seq(geo.rows * geo.cols, _ => Leftover);
      AnyDisplayPainted();
      DrawAllCells();
      EndRefresh();
    }

    method DrawAllCells()
      requires Painted()
      modifies framebuffer, this`display
      ensures Painted() && |display| == Size() && forall j :: 0 <= j < Size() ==> display[j] == Known(grid[j])
    {
      hide FbTerm.Painted;
      PaintedShape();
      for i := 0 to geo.rows * geo.cols
        invariant Painted() && |display| == Size()
        invariant forall j :: 0 <= j < i ==> display[j] == Known(grid[j])
      {
        Fundamental(i, geo.cols);
        DivBound(i, geo.rows, geo.cols);
        PlotChar(grid[i], i % geo.cols, i / geo.cols);
      }
    }

    method EndRefresh()
      requires Painted() && Draining(0) && queueI == 0 && 1 <= scrollBottom <= geo.rows
      requires |display| == Size() && forall j :: 0 <= j < Size() ==> display[j] == Known(grid[j])
      requires oldCursorX == cursorX && oldCursorY == cursorY
      modifies framebuffer, grid, slots, this`display, this`cursorShown
      ensures Valid() && Abs() == old(Abs()) && ShowsScreen(Abs())
    {
      hide FbTerm.Painted, FbTerm.CellsValid, FbTerm.Draining;
      PaintedShape();
      QueueDone();
      if cursorEnabled {
        DrawCursor();
      }
      QueueDone();
      PaintedShape();
      cursorShown := cursorEnabled && cursorX < geo.cols && cursorY < geo.rows;
      Drained();
      ScreenShown();
    }

    lemma AnyDisplayPainted()
      requires Shape() && |display| == Size() && border == framebuffer[..]
      requires forall i :: 0 <= i < Size() ==> display[i].Leftover?
      ensures Painted()
    {
      forall p | 0 <= p < framebuffer.Length && geo.OnGrid(p)
        ensures PixelOk(p, geo.CellIndex(p), framebuffer[p], display)
      {
        geo.CellIndexBounds(p);
      }
    }

    /** The end of `flanterm_fb_init`: blank grid, empty queue, cursor at the origin, first refresh. */
    constructor (geo: Geometry, font: Font, canvas: seq<nat>, framebuffer: array<nat>, defaultFg: nat)
      requires Fits(geo, font, canvas) && framebuffer.Length == geo.height * geo.stride
      modifies framebuffer
      ensures Valid() && this.geo == geo && this.framebuffer == framebuffer && ShowsScreen(Abs())
      ensures fresh(grid) && fresh(queue) && fresh(slots)
      ensures forall p :: 0 <= p < framebuffer.Length && !geo.OnGrid(p) ==> CanvasAt(p, border[p])
      ensures Abs() == Screen(geo.rows, geo.cols, view, 0, 0, defaultFg, TRANSPARENT, 0, geo.rows, true, true)
      ensures forall i :: 0 <= i < Size() ==> view[i] == Cell(32, defaultFg, TRANSPARENT)
    {
      InBlock(0, 0, geo.rows, geo.cols);
      this.geo, this.font, this.canvas, this.framebuffer := geo, font, canvas, framebuffer;
      var blank := Cell(32, defaultFg, TRANSPARENT);
      grid := new Cell[geo.rows * geo.cols](_ => blank);
      queue := new QueueItem[geo.rows * geo.cols](_ => QueueItem(0, 0, Cell(0, 0, 0)));
      slots := new Slot[geo.rows * geo.cols](_ => Null);
      queueI, textFg, textBg := 0, defaultFg, TRANSPARENT;
      cursorX, cursorY, oldCursorX, oldCursorY := 0, 0, 0, 0;
      scrollTop, scrollBottom, cursorEnabled, scrollEnabled := 0, geo.rows, true, true;
      view := seq(geo.rows * geo.cols, _ => blank);
      new;
      FullRefresh();
    }

    // ----- runs -----

    /** One operation; the display changes only in a flush. */
    method Step(op: Op)
      requires Valid() && Allowed(op, Abs())
      modifies this, queue, slots, grid, framebuffer
      ensures Valid() && Abs() == Apply(op, old(Abs())) && border == old(border)
      ensures op.Flush? ==> ShowsScreen(Abs())
      ensures !op.Flush? ==> framebuffer[..] == old(framebuffer[..])
    {
      hide FbTerm.Valid, FbTerm.ShowsScreen;
      if op.Flush? {
        DoubleBufferFlush();
      } else if op.Type? || op.ScrollUp? || op.ScrollDown? || op.Clear? || op.Move? {
        Draw(op);
      } else {
        Set(op);
      }
    }

    /** The operations that change cells. */
    method Draw(op: Op)
      requires Valid() && (op.Type? || op.ScrollUp? || op.ScrollDown? || op.Clear? || op.Move?)
      modifies this`queueI, this`view, this`cursorX, this`cursorY, queue, slots
      ensures Valid() && Abs() == Apply(op, old(Abs()))
    {
      hide FbTerm.Painted, FbTerm.GridShown, FbTerm.Linked, FbTerm.Viewed, Screen.ScrolledUp, Screen.ScrolledDown,
           Screen.Cleared, Screen.Moved, Screen.Typed;
      match op
      case Type(c) => RawPutChar(c);
      case ScrollUp => Scroll();
      case ScrollDown => RevScroll();
      case Clear(move) => ClearScreen(move);
      case Move(nx, ny, ox, oy) => MoveCharacter(nx, ny, ox, oy);
    }

    /** The operations that set cursor, colours, margins and modes. */
    method Set(op: Op)
      requires Valid() && Allowed(op, Abs()) && !op.Flush?
      requires !(op.Type? || op.ScrollUp? || op.ScrollDown? || op.Clear? || op.Move?)
      modifies this`cursorX, this`cursorY, this`textFg, this`textBg, this`scrollTop, this`scrollBottom,
               this`cursorEnabled, this`scrollEnabled
      ensures Valid() && Abs() == Apply(op, old(Abs()))
    {
      hide FbTerm.Painted, FbTerm.GridShown, FbTerm.Linked, FbTerm.Viewed, Screen.CursorSet;
      match op
      case SetCursor(x, y) => SetCursorPos(x, y);
      case SetColours(fg, bg) => textFg, textBg := fg, bg;
      case Restore(x, y, fg, bg) => cursorX, cursorY, textFg, textBg := x, y, fg, bg;
      case SetMargins(top, bottom) => scrollTop, scrollBottom := top, bottom;
      case SetCursorOn(on) => cursorEnabled := on;
      case SetScrollOn(scroll) => scrollEnabled := scroll;
    }

    /** After any run that ends with a flush, the display shows the plain screen of that run. */
    method Run(ops: seq<Op>)
      requires Valid() && AllAllowed(ops, geo.rows)
      modifies this, queue, slots, grid, framebuffer
      ensures Valid() && Abs().rows == geo.rows && border == old(border)
      ensures old(Abs()).Valid() && Abs() == ApplyAll(ops, old(Abs()))
      ensures |ops| > 0 && ops[|ops| - 1].Flush? ==> ShowsScreen(Abs())
    {
      hide FbTerm.Valid, Apply, FbTerm.ShowsScreen;
      ghost var s0 := Abs();
      ValidScreen();
      for i := 0 to |ops|
        invariant Valid() && border == old(border) && s0.Valid()
        invariant AllAllowed(ops[..i], s0.rows) && Abs() == ApplyAll(ops[..i], s0)
        invariant i > 0 && ops[i - 1].Flush? ==> ShowsScreen(Abs())
      {
        assert ops[..i + 1][..i] == ops[..i];
        Step(ops[i]);
      }
      assert ops[..|ops|] == ops;
    }

    lemma ValidScreen()
      requires Valid()
      ensures Abs().Valid()
    {
    }
  }
}
