/** src/scrn.c: the text screen, against a grid of unbounded height that never scrolls. */
module ScreenModel {
  const COLS := 80
  const ROWS := 25

  /** Text memory is 4000 bytes, two a cell. */
  const BYTES := 2 * COLS * ROWS

  type Byte = b: int | 0 <= b < 256

  function Cell(mem: seq<Byte>, k: nat): int
    requires 2 * k + 1 < |mem|
  {
    var low: int, high: int := mem[2 * k], mem[2 * k + 1];
    low + 256 * high
  }

  /** A character in a colour. */
  function Glyph(c: int, attrib: int): int {
    c + 256 * attrib
  }

  const SPACE := 0x20

  // ----- the grid

  /** Cell 80 * row + column of any row from 0 on; the cursor. */
  datatype Grid = Grid(cells: int -> int, x: nat, y: nat)

  function BlankGrid(attrib: int): Grid {
    Grid(k => Glyph(SPACE, attrib), 0, 0)
  }

  function Write(g: Grid, x: nat, v: int): Grid {
    g.(cells := k => if k == COLS * g.y + x then v else g.cells(k))
  }

  /** The cursor past the last column goes to the next row. */
  function Wrap(g: Grid): Grid {
    if g.x >= COLS then g.(x := 0, y := g.y + 1) else g
  }

  /** Character c, a signed char, before the cursor wraps. */
  function Place(g: Grid, attrib: int, c: int): Grid {
    if c == 0x08 then if g.x != 0 then Write(g, g.x - 1, Glyph(SPACE, attrib)).(x := g.x - 1) else g
    else if c == 0x09 then g.(x := (g.x + 8) / 8 * 8)
    else if c == 0x0D then g.(x := 0)
    else if c == 0x0A then g.(x := 0, y := g.y + 1)
    else if c >= SPACE then Write(g, g.x, Glyph(c, attrib)).(x := g.x + 1)
    else g
  }

  function Put(g: Grid, attrib: int, c: int): Grid {
    Wrap(Place(g, attrib, c))
  }

  function PutAll(g: Grid, attrib: int, text: seq<int>): Grid
    decreases text
  {
    if text == [] then g else Put(PutAll(g, attrib, text[..|text| - 1]), attrib, text[|text| - 1])
  }

  /** The cursor is in a column, and every row below it is blank. */
  ghost predicate Fresh(g: Grid, attrib: int) {
    g.x < COLS && forall k :: k >= COLS * (g.y + 1) ==> g.cells(k) == Glyph(SPACE, attrib)
  }

  lemma PutKeepsFresh(g: Grid, attrib: int, c: int)
    requires Fresh(g, attrib)
    ensures Fresh(Put(g, attrib, c), attrib) && Put(g, attrib, c).y >= g.y
  {
  }

  /** Rows above the cursor never change. */
  lemma {:induction false} RowsAboveFinal(g: Grid, attrib: int, text: seq<int>, k: int)
    requires Fresh(g, attrib) && k < COLS * g.y
    ensures Fresh(PutAll(g, attrib, text), attrib) && PutAll(g, attrib, text).y >= g.y
    ensures PutAll(g, attrib, text).cells(k) == g.cells(k)
    decreases text
  {
    if text != [] {
      RowsAboveFinal(g, attrib, text[..|text| - 1], k);
      PutKeepsFresh(PutAll(g, attrib, text[..|text| - 1]), attrib, text[|text| - 1]);
    }
  }

  /** Printing characters fill the grid in reading order. */
  lemma {:induction false} PlainText(attrib: int, text: seq<int>, i: nat)
    requires i < |text| && forall c :: c in text ==> SPACE <= c
    ensures var g := PutAll(BlankGrid(attrib), attrib, text);
      80 * g.y + g.x == |text| && g.x < 80 && g.cells(i) == text[i] + 256 * attrib
    decreases text
  {
    var n := |text| - 1;
    if n > 0 {
      assert forall c :: c in text[..n] ==> c in text;
      PlainText(attrib, text[..n], if i < n then i else 0);
    }
    assert text[n] in text;
  }

  // ----- the characters one by one

  lemma {:induction false} PutAllAppend(g: Grid, attrib: int, a: seq<int>, b: seq<int>)
    ensures PutAll(g, attrib, a + b) == PutAll(PutAll(g, attrib, a), attrib, b)
    decreases b
  {
    if b == [] {
      assert a + b == a;
    } else {
      var n := |b| - 1;
      PutAllAppend(g, attrib, a, b[..n]);
      assert (a + b)[..|a + b| - 1] == a + b[..n];
    }
  }

  /** A line that fits into its row goes into the cells from the cursor on. */
  lemma {:induction false} PutLine(g: Grid, attrib: int, line: seq<int>, k: int)
    requires g.x + |line| < 80 && forall i :: 0 <= i < |line| ==> line[i] >= 0x20
    ensures var r, at := PutAll(g, attrib, line), k - 80 * g.y - g.x;
      && r.x == g.x + |line| && r.y == g.y
      && r.cells(k) == if 0 <= at < |line| then line[at] + 256 * attrib else g.cells(k)
    decreases line
  {
    if line != [] {
      PutLine(g, attrib, line[..|line| - 1], k);
    }
  }

  /** The lines, each with a newline after it. */
  function Joined(lines: seq<seq<int>>): seq<int>
    decreases lines
  {
    if lines == [] then [] else Joined(lines[..|lines| - 1]) + lines[|lines| - 1] + [0x0A]
  }

  /** Printing characters, fewer than a row holds. */
  predicate Short(line: seq<int>) {
    |line| < 80 && forall i :: 0 <= i < |line| ==> line[i] >= 0x20
  }

  /** Column `col` of row `row` shows character `col` of line `row`, or is blank where there is none. */
  predicate Stands(g: Grid, attrib: int, lines: seq<seq<int>>, row: nat, col: nat) {
    && g.x == 0 && g.y == |lines|
    && g.cells(80 * row + col) ==
         (if row < |lines| && col < |lines[row]| then lines[row][col] else 0x20) + 256 * attrib
  }

  /** Lines shorter than a row stand in rows of their own, from column 0 on, in order, and all else is
      blank. */
  lemma {:induction false} TextLines(attrib: int, lines: seq<seq<int>>, row: nat, col: nat)
    requires col < 80 && forall l :: l in lines ==> Short(l)
    ensures Stands(PutAll(BlankGrid(attrib), attrib, Joined(lines)), attrib, lines, row, col)
    decreases lines
  {
    if lines != [] {
      var before, line := lines[..|lines| - 1], lines[|lines| - 1];
      TextLines(attrib, before, row, col);
      PutJoined(BlankGrid(attrib), attrib, lines);
      assert lines == before + [line];
      NextRow(PutAll(BlankGrid(attrib), attrib, Joined(before)), attrib, before, line, row, col);
    }
  }

  lemma PutJoined(g: Grid, attrib: int, lines: seq<seq<int>>)
    requires lines != []
    ensures var before, line := lines[..|lines| - 1], lines[|lines| - 1];
      PutAll(g, attrib, Joined(lines)) == PutAll(PutAll(g, attrib, Joined(before)), attrib, line + [0x0A])
  {
    var before, line := lines[..|lines| - 1], lines[|lines| - 1];
    PutAllAppend(g, attrib, Joined(before), line + [0x0A]);
    assert Joined(before) + (line + [0x0A]) == Joined(lines);
  }

  lemma NextRow(g: Grid, attrib: int, lines: seq<seq<int>>, line: seq<int>, row: nat, col: nat)
    requires Stands(g, attrib, lines, row, col) && Short(line) && col < 80 && forall l :: l in lines ==> Short(l)
    ensures Stands(PutAll(g, attrib, line + [0x0A]), attrib, lines + [line], row, col)
  {
    PutRow(g, attrib, line, 80 * row + col);
    assert row < |lines| ==> lines[row] in lines;
  }

  lemma PutRow(g: Grid, attrib: int, line: seq<int>, k: int)
    requires g.x == 0 && Short(line)
    ensures var r, at := PutAll(g, attrib, line + [0x0A]), k - 80 * g.y;
      && r.x == 0 && r.y == g.y + 1
      && r.cells(k) == if 0 <= at < |line| then line[at] + 256 * attrib else g.cells(k)
  {
    PutAllAppend(g, attrib, line, [0x0A]);
    PutLine(g, attrib, line, k);
    PutOne(PutAll(g, attrib, line), attrib, 0x0A);
  }

  lemma PutOne(g: Grid, attrib: int, c: int)
    ensures PutAll(g, attrib, [c]) == Put(g, attrib, c)
  {
    assert [c][..0] == [];
    assert PutAll(g, attrib, [c]) == Put(PutAll(g, attrib, []), attrib, c);
  }

  /** A backspace takes back a character, unless that was the last of its row. */
  lemma BackspaceUndoes(g: Grid, attrib: int, c: int, k: int)
    requires g.x < 80 && c >= 0x20
    ensures var r := Put(Put(g, attrib, c), attrib, 0x08);
      && (r.x == g.x && r.y == g.y <==> g.x < 79)
      && (g.x < 79 ==> r.cells(k) == if k == 80 * g.y + g.x then 0x20 + 256 * attrib else g.cells(k))
  {
  }

  /** A tab goes on to the next multiple of eight, which at the end of a row is the next row. */
  lemma TabStops(g: Grid, attrib: int)
    requires g.x < 80
    ensures var r := Put(g, attrib, 0x09);
      && r.cells == g.cells
      && if g.x >= 72 then r.x == 0 && r.y == g.y + 1
         else r.x % 8 == 0 && g.x < r.x <= g.x + 8 && r.y == g.y
  {
  }

  /** A newline starts the next row, a carriage return the same; other control characters do nothing. */
  lemma ControlsMove(g: Grid, attrib: int, c: int)
    requires g.x < 80 && c < 0x20 && c != 0x08 && c != 0x09
    ensures var r := Put(g, attrib, c);
      r.cells == g.cells && (r.x, r.y) == if c == 10 then (0, g.y + 1) else if c == 13 then (0, g.y) else (g.x, g.y)
  {
  }

  // ----- memcpy

  /** A byte-by-byte copy in ascending order. */
  function Ascend(mem: seq<Byte>, dst: nat, src: nat, n: nat): (r: seq<Byte>)
    requires dst + n <= |mem| && src + n <= |mem|
    ensures |r| == |mem|
    decreases n
  {
    if n == 0 then mem else Ascend(mem[dst := mem[src]], dst + 1, src + 1, n - 1)
  }

  /** Downward it moves the bytes even when the two ranges overlap. */
  lemma {:induction false} AscendMoves(mem: seq<Byte>, dst: nat, src: nat, n: nat)
    requires dst <= src && src + n <= |mem|
    ensures Ascend(mem, dst, src, n) == mem[..dst] + mem[src..src + n] + mem[dst + n..]
    decreases n
  {
    if n > 0 {
      var m := mem[dst := mem[src]];
      AscendMoves(m, dst + 1, src + 1, n - 1);
      assert m[src + 1..src + n] == mem[src + 1..src + n];
      assert mem[src..src + n] == [mem[src]] + mem[src + 1..src + n];
    } else {
      assert mem == mem[..dst] + mem[dst..];
    }
  }

  // ----- the screen shows rows of the grid

  /** The screen shows the 25 rows from `top` on. */
  ghost predicate Shows(mem: seq<Byte>, cells: int -> int, top: nat) {
    |mem| == BYTES && forall k: nat :: k < COLS * ROWS ==> Cell(mem, k) == cells(COLS * top + k)
  }

  /** Moving the rows up by one and blanking the last shows the rows one further down. */
  lemma ScrolledShows(mem: seq<Byte>, r: seq<Byte>, cells: int -> int, top: nat, blank: int)
    requires Shows(mem, cells, top) && |r| == BYTES
    requires forall k: nat :: k < COLS * (ROWS - 1) ==> Cell(r, k) == Cell(mem, k + COLS)
    requires forall k: nat :: COLS * (ROWS - 1) <= k < COLS * ROWS ==> Cell(r, k) == blank
    requires forall k :: k >= COLS * (top + ROWS) ==> cells(k) == blank
    ensures Shows(r, cells, top + 1)
  {
    forall k: nat | k < COLS * ROWS
      ensures Cell(r, k) == cells(COLS * (top + 1) + k)
    {
      if k < COLS * (ROWS - 1) {
        assert Cell(mem, k + COLS) == cells(COLS * top + (k + COLS));
      }
    }
  }

  lemma WrittenShows(mem: seq<Byte>, g: Grid, top: nat, x: nat, v: int, r: seq<Byte>)
    requires Shows(mem, g.cells, top) && |r| == BYTES && top <= g.y < top + ROWS && x < COLS
    requires forall k: nat :: k < COLS * ROWS ==> Cell(r, k) == if k == COLS * (g.y - top) + x then v else Cell(mem, k)
    ensures Shows(r, Write(g, x, v).cells, top)
  {
  }
}

module Screen {
  import opened ScreenModel

  /** The low byte of a cell is the character, the high byte its colour. */
  lemma CellBytes(mem: seq<Byte>, k: nat, c: int, attrib: int)
    requires 2 * k + 1 < |mem| && 0 <= c < 256 && Cell(mem, k) == Glyph(c, attrib)
    ensures mem[2 * k] == c && mem[2 * k + 1] == attrib
  {
  }

  class TextScreen {
    const textmem: array<Byte>
    const attrib: int
    var csrX: int
    var csrY: int
    /** What the characters put since cls make of a grid that never scrolls. */
    ghost var grid: Grid

    constructor (color: int)
      requires 0 <= color < 256
      ensures Valid() && grid == BlankGrid(color) && fresh(textmem)
    {
      textmem := new Byte[BYTES](_ => 0);
      attrib, csrX, csrY := color, 0, 0;
      grid := BlankGrid(color);
      new;
      Cls();
    }

    ghost predicate Formed() {
      textmem.Length == BYTES && 0 <= attrib < 256
    }

    /** The cursor is on the screen, and the screen shows the last 25 rows down to the cursor's. */
    ghost predicate Valid()
      reads this, textmem
    {
      && Formed() && Fresh(grid, attrib)
      && csrX == grid.x && 0 <= csrX < COLS && 0 <= csrY < ROWS
      && csrY == (if grid.y < ROWS then grid.y else ROWS - 1)
      && Shows(textmem[..], grid.cells, grid.y - csrY)
    }

    /** A 16-bit store. */
    method Store(k: nat, v: int)
      requires Formed() && k < COLS * ROWS && 0 <= v < 0x10000
      modifies textmem
      ensures forall j: nat :: j < COLS * ROWS ==>
        Cell(textmem[..], j) == if j == k then v else Cell(old(textmem[..]), j)
    {
      textmem[2 * k] := v % 256;
      textmem[2 * k + 1] := v / 256;
    }

    /** memsetw. */
    method Memsetw(dest: nat, val: int, count: nat)
      requires Formed() && dest + count <= COLS * ROWS && 0 <= val < 0x10000
      modifies textmem
      ensures forall j: nat :: j < COLS * ROWS ==>
        Cell(textmem[..], j) == if dest <= j < dest + count then val else Cell(old(textmem[..]), j)
    {
      var i := 0;
      while i < count
        invariant 0 <= i <= count
        invariant forall j: nat :: j < COLS * ROWS ==>
          Cell(textmem[..], j) == if dest <= j < dest + i then val else Cell(old(textmem[..]), j)
      {
        Store(dest + i, val);
        i := i + 1;
      }
    }

    /** memcpy. */
    method Memcpy(dst: nat, src: nat, len: nat)
      requires dst + len <= textmem.Length && src + len <= textmem.Length
      modifies textmem
      ensures textmem[..] == Ascend(old(textmem[..]), dst, src, len)
    {
      var dp, sp, n := dst, src, len;
      while n != 0
        invariant 0 <= n <= len && dp == dst + len - n && sp == src + len - n
        invariant Ascend(textmem[..], dp, sp, n) == Ascend(old(textmem[..]), dst, src, len)
      {
        textmem[dp] := textmem[sp];
        dp, sp, n := dp + 1, sp + 1, n - 1;
      }
    }

    method Scroll(ghost top: nat)
      requires Formed() && 0 <= csrY <= ROWS && Shows(textmem[..], grid.cells, top)
      requires forall k :: k >= COLS * (top + ROWS) ==> grid.cells(k) == Glyph(SPACE, attrib)
      modifies this`csrY, textmem
      ensures csrY == if old(csrY) < ROWS then old(csrY) else ROWS - 1
      ensures Shows(textmem[..], grid.cells, top + old(csrY) - csrY)
    {
      var blank := Glyph(SPACE, attrib);
      if csrY >= ROWS {
        var temp := csrY - ROWS + 1;
        ghost var was := textmem[..];
        Memcpy(0, 2 * temp * COLS, (ROWS - temp) * COLS * 2);
        AscendMoves(was, 0, 2 * COLS, (ROWS - 1) * COLS * 2);
        assert forall k: nat :: k < COLS * (ROWS - 1) ==> Cell(textmem[..], k) == Cell(was, k + COLS);
        Memsetw((ROWS - temp) * COLS, blank, COLS);
        ScrolledShows(was, textmem[..], grid.cells, top, blank);
        csrY := ROWS - 1;
      }
    }

    method Cls()
      requires Formed()
      modifies this, textmem
      ensures Valid() && grid == BlankGrid(attrib)
    {
      var blank := Glyph(SPACE, attrib);
      var i := 0;
      while i < ROWS
        invariant 0 <= i <= ROWS
        invariant forall j: nat :: j < COLS * i ==> Cell(textmem[..], j) == blank
      {
        Memsetw(i * COLS, blank, COLS);
        i := i + 1;
      }
      csrX, csrY := 0, 0;
      grid := BlankGrid(attrib);
    }

    /** putch; c is a signed char. */
    method Putch(c: int)
      requires Valid() && -128 <= c < 128
      modifies this, textmem
      ensures Valid() && grid == Put(old(grid), attrib, c)
      ensures c >= 0x20 ==>
        var row := old(csrY) - if old(csrX) == 79 && old(csrY) == 24 then 1 else 0;
        var k := 80 * row + old(csrX);
        textmem[2 * k] == c && textmem[2 * k + 1] == attrib
    {
      ghost var top := grid.y - csrY;
      PutKeepsFresh(grid, attrib, c);
      PlaceCharacter(c, top);
      if csrX >= COLS {
        csrX := 0;
        csrY := csrY + 1;
      }
      grid := Wrap(grid);
      Scroll(top);
      if c >= 0x20 {
        ghost var k := 80 * (old(csrY) - if old(csrX) == 79 && old(csrY) == 24 then 1 else 0) + old(csrX);
        assert Cell(textmem[..], k) == Glyph(c, attrib);
        CellBytes(textmem[..], k, c, attrib);
      }
    }

    /** The cases of putch, before it looks at the cursor. */
    method PlaceCharacter(c: int, ghost top: nat)
      requires Valid() && -128 <= c < 128 && top == grid.y - csrY
      modifies this, textmem
      ensures Formed() && grid == Place(old(grid), attrib, c)
      ensures csrX == grid.x && csrY == grid.y - top && Shows(textmem[..], grid.cells, top)
    {
      ghost var was := textmem[..];
      if c == 0x08 {
        if csrX != 0 {
          csrX := csrX - 1;
          Store(csrY * COLS + csrX, Glyph(SPACE, attrib));
          WrittenShows(was, grid, top, csrX, Glyph(SPACE, attrib), textmem[..]);
        }
      } else if c == 0x09 {
        csrX := (csrX + 8) / 8 * 8;
      } else if c == 0x0D {
        csrX := 0;
      } else if c == 0x0A {
        csrX := 0;
        csrY := csrY + 1;
      } else if c >= SPACE {
        Store(csrY * COLS + csrX, Glyph(c, attrib));
        WrittenShows(was, grid, top, csrX, Glyph(c, attrib), textmem[..]);
        csrX := csrX + 1;
      }
      grid := Place(grid, attrib, c);
    }

    method Puts(text: seq<int>)
      requires Valid() && forall c :: c in text ==> -128 <= c < 128
      modifies this, textmem
      ensures Valid() && grid == PutAll(old(grid), attrib, text)
    {
      var i := 0;
      while i < |text|
        invariant 0 <= i <= |text| && Valid()
        invariant grid == PutAll(old(grid), attrib, text[..i])
      {
        assert text[i] in text;
        Putch(text[i]);
        i := i + 1;
        assert text[..i][..i - 1] == text[..i - 1];
      }
      assert text[..i] == text;
    }
  }

  /** What is on the screen: row `row` is row `row` of the grid, or that far into its last 25 rows. */
  lemma OnScreen(t: TextScreen, row: nat, col: nat)
    requires t.Valid() && row < 25 && col < 80
    ensures t.textmem.Length == 4000
    ensures var low: int, high: int := t.textmem[160 * row + 2 * col], t.textmem[160 * row + 2 * col + 1];
      low + 256 * high == t.grid.cells(80 * (if t.grid.y < 25 then row else t.grid.y - 24 + row) + col)
  {
    assert Cell(t.textmem[..], 80 * row + col) == t.grid.cells(COLS * (t.grid.y - t.csrY) + (80 * row + col));
  }
}
