/**
 The framebuffer console, as a refinement of a grid of text cells. The framebuffer is linear
 memory of `stride * height` pixels, of which the first `width` of each row are on the screen (the
 pitch is four bytes per pixel of the stride); characters are 8 by 16 pixels, so pixels may be left
 over at the right and at the bottom.
 */
module Console {
  import opened RowMajor

  const CHAR_WIDTH := 8
  const CHAR_HEIGHT := 16
  const FG := 0x00FF_FFFF
  const BG := 0x0000_0000

  // ---------------------------------------------------------------- the text grid

  /** Glyph numbers by row and column, and the cursor. */
  datatype Screen = Screen(cols: nat, rows: nat, cells: seq<seq<nat>>, x: nat, y: nat)

  /** The glyph shown for a character: printable ASCII, or a question mark. */
  function GlyphOf(c: int): (g: nat)
    ensures g < 95
  {
    if c < 32 || c > 126 then 31 else c - 32
  }

  predicate WellFormed(s: Screen) {
    && s.cols > 0 && s.rows > 0
    && s.x < s.cols && s.y < s.rows
    && |s.cells| == s.rows
    && forall r :: 0 <= r < s.rows ==> |s.cells[r]| == s.cols && forall k :: 0 <= k < s.cols ==> s.cells[r][k] < 95
  }

  function BlankRow(cols: nat): (r: seq<nat>)
    ensures |r| == cols
  {
    seq(cols, _ => 0)
  }

  function Blank(cols: nat, rows: nat): (s: Screen) {
    Screen(cols, rows, seq(rows, _ => BlankRow(cols)), 0, 0)
  }

  function WithCell(s: Screen, g: nat): (r: Screen)
    requires WellFormed(s) && g < 95
    ensures WellFormed(r)
  {
    var row: seq<nat> := s.cells[s.y][s.x := g];
    s.(cells := s.cells[s.y := row])
  }

  /** Line wrap, then scrolling by one line when the cursor has left the grid. */
  function Settle(s: Screen): (r: Screen)
    requires s.cols > 0 && s.rows > 0 && |s.cells| == s.rows
  {
    var w := if s.x >= s.cols then s.(x := 0, y := s.y + 1) else s;
    if w.y >= w.rows then w.(cells := w.cells[1..] + [BlankRow(w.cols)], y := w.rows - 1) else w
  }

  /** One character: newline, return, tab, backspace, or a glyph. */
  function PutChar(s: Screen, c: int): (r: Screen)
    requires WellFormed(s)
  {
    Settle(
      if c == 10 then s.(x := 0, y := s.y + 1)
      else if c == 13 then s.(x := 0)
      else if c == 9 then s.(x := (s.x + 8) / 8 * 8)
      else if c == 8 then (if s.x > 0 then s.(x := s.x - 1) else s)
      else WithCell(s, GlyphOf(c)).(x := s.x + 1))
  }

  /** The cursor stays inside the grid and the grid keeps its shape. */
  lemma PutCharWellFormed(s: Screen, c: int)
    requires WellFormed(s)
    ensures WellFormed(PutChar(s, c))
    ensures PutChar(s, c).cols == s.cols && PutChar(s, c).rows == s.rows
  {
  }

  // ---------------------------------------------------------------- each class of character

  /** Row `k` after going to the next line from row `y`: one line up if that was the last, the new one blank. */
  function RowAfter(cells: seq<seq<nat>>, y: nat, cols: nat, k: nat): (row: seq<nat>)
    requires k < |cells|
  {
    if y + 1 < |cells| then cells[k] else if k + 1 < |cells| then cells[k + 1] else seq(cols, _ => 0)
  }

  /** `r` is `s`, with its cells replaced by `cells`, after going to column 0 of the next line. */
  predicate NextLine(s: Screen, cells: seq<seq<nat>>, r: Screen)
    requires |cells| == s.rows
  {
    && r.cols == s.cols && r.rows == s.rows && |r.cells| == s.rows
    && r.x == 0 && r.y == (if s.y + 1 < s.rows then s.y + 1 else s.rows - 1)
    && forall k :: 0 <= k < s.rows ==> r.cells[k] == RowAfter(cells, s.y, s.cols, k)
  }

  /** Newline: column 0 of the next line, and the grid moves up exactly if there is none. */
  lemma NewlineMoves(s: Screen)
    requires WellFormed(s)
    ensures NextLine(s, s.cells, PutChar(s, 10))
  {
  }

  /** Return: column 0, and nothing else. */
  lemma ReturnMoves(s: Screen)
    requires WellFormed(s)
    ensures PutChar(s, 13) == Screen(s.cols, s.rows, s.cells, 0, s.y)
  {
  }

  /** Tab: the least multiple of 8 above the column, or the next line if that is past the end. */
  lemma TabMoves(s: Screen, t: nat)
    requires WellFormed(s) && t % 8 == 0 && s.x < t <= s.x + 8
    ensures if t < s.cols then PutChar(s, 9) == Screen(s.cols, s.rows, s.cells, t, s.y)
      else NextLine(s, s.cells, PutChar(s, 9))
  {
    assert (s.x + 8) / 8 * 8 == t;
  }

  /** Backspace: one column to the left, if there is one, and nothing else. */
  lemma BackspaceMoves(s: Screen)
    requires WellFormed(s)
    ensures PutChar(s, 8) == Screen(s.cols, s.rows, s.cells, if s.x == 0 then 0 else s.x - 1, s.y)
  {
  }

  /** Any other character: its glyph, or a question mark, under the cursor; then the next column, or the next line. */
  lemma GlyphMoves(s: Screen, c: int)
    requires WellFormed(s) && c != 8 && c != 9 && c != 10 && c != 13
    ensures var g: nat := if 32 <= c <= 126 then c - 32 else 63 - 32;
      var row: seq<nat> := s.cells[s.y][s.x := g];
      var cells := s.cells[s.y := row];
      if s.x + 1 < s.cols then PutChar(s, c) == Screen(s.cols, s.rows, cells, s.x + 1, s.y)
      else NextLine(s, cells, PutChar(s, c))
  {
  }

  function PutAll(s: Screen, cs: seq<int>): (r: Screen)
    requires WellFormed(s)
    ensures WellFormed(r) && r.cols == s.cols && r.rows == s.rows
  {
    if cs == [] then s
    else
      PutCharWellFormed(PutAll(s, cs[..|cs| - 1]), cs[|cs| - 1]);
      PutChar(PutAll(s, cs[..|cs| - 1]), cs[|cs| - 1])
  }

  predicate Printable(c: int) {
    32 <= c <= 126
  }

  /** Printable text that fits on the line appears there, in order, and nothing else changes. */
  lemma {:induction false} PrintableTextAppears(s: Screen, cs: seq<int>)
    requires WellFormed(s) && s.x + |cs| < s.cols && forall i :: 0 <= i < |cs| ==> Printable(cs[i])
    ensures var r := PutAll(s, cs);
      && r.x == s.x + |cs| && r.y == s.y
      && (forall k :: 0 <= k < s.rows && k != s.y ==> r.cells[k] == s.cells[k])
      && (forall k :: 0 <= k < s.cols ==>
            r.cells[s.y][k] == if s.x <= k < s.x + |cs| then cs[k - s.x] - 32 else s.cells[s.y][k])
  {
    if cs == [] {
    } else {
      PrintableTextAppears(s, cs[..|cs| - 1]);
    }
  }

  lemma {:induction false} PutAllConcat(s: Screen, a: seq<int>, b: seq<int>)
    requires WellFormed(s)
    ensures PutAll(s, a + b) == PutAll(PutAll(s, a), b)
  {
    if b == [] {
      assert a + b == a;
    } else {
      PutAllConcat(s, a, b[..|b| - 1]);
      assert (a + b)[..|a + b| - 1] == a + b[..|b| - 1];
    }
  }

  /** Lines with a newline between each two of them. */
  function Lines(ls: seq<seq<int>>): (cs: seq<int>)
    requires |ls| > 0
  {
    if |ls| == 1 then ls[0] else Lines(ls[..|ls| - 1]) + [10] + ls[|ls| - 1]
  }

  /** A line of printable text shorter than the grid is wide. */
  predicate Fits(line: seq<int>, cols: nat) {
    |line| < cols && forall i :: 0 <= i < |line| ==> Printable(line[i])
  }

  /** Line `i` of `n` is on the screen from column 0 of its row, unless it has scrolled off the top. */
  predicate LineShown(r: Screen, line: seq<int>, i: nat, n: nat)
    requires WellFormed(r) && i < n
  {
    var row := r.y - (n - 1 - i);
    |line| <= r.cols && (row >= 0 ==> forall k :: 0 <= k < |line| ==> r.cells[row][k] == line[k] - 32)
  }

  /** Another line, printed from `t` to `u` after a newline, leaves the earlier ones shown. */
  lemma LineStays(r: Screen, t: Screen, u: Screen, line: seq<int>, i: nat, n: nat)
    requires WellFormed(r) && WellFormed(u) && NextLine(r, r.cells, t) && i < n && LineShown(r, line, i, n)
    requires u.y == t.y && u.cols == r.cols && u.rows == r.rows
    requires forall k :: 0 <= k < r.rows && k != t.y ==> u.cells[k] == t.cells[k]
    ensures LineShown(u, line, i, n + 1)
  {
    var row := u.y - (n - i);
    if row >= 0 {
      assert u.cells[row] == RowAfter(r.cells, r.y, r.cols, row) == r.cells[r.y - (n - 1 - i)];
    }
  }

  /** `u` is `r` after a newline and the line `last`, with `t` in between. */
  predicate LineAdded(r: Screen, t: Screen, u: Screen, last: seq<int>) {
    && WellFormed(r) && WellFormed(u) && NextLine(r, r.cells, t)
    && u.cols == r.cols && u.rows == r.rows && u.y == t.y && u.x == |last|
    && (forall k :: 0 <= k < r.rows && k != t.y ==> u.cells[k] == t.cells[k])
    && LineShown(u, last, 0, 1)
  }

  lemma PutLine(r: Screen, last: seq<int>)
    requires WellFormed(r) && Fits(last, r.cols)
    ensures WellFormed(PutChar(r, 10)) && LineAdded(r, PutChar(r, 10), PutAll(PutChar(r, 10), last), last)
  {
    NewlineMoves(r);
    PutCharWellFormed(r, 10);
    PrintableTextAppears(PutChar(r, 10), last);
  }

  lemma PutNewline(r: Screen)
    requires WellFormed(r)
    ensures PutAll(r, [10]) == PutChar(r, 10)
  {
    assert [10][..0] == [];
    assert PutAll(r, []) == r;
  }

  /** `r` shows the lines `ls`, the first of which was printed in row `y`. */
  predicate LinesShown(r: Screen, ls: seq<seq<int>>, y: nat) {
    && WellFormed(r) && |ls| > 0
    && r.y == (if y + |ls| - 1 < r.rows then y + |ls| - 1 else r.rows - 1) && r.x == |ls[|ls| - 1]|
    && forall i :: 0 <= i < |ls| ==> LineShown(r, ls[i], i, |ls|)
  }

  lemma LinesGrow(r: Screen, t: Screen, u: Screen, ls: seq<seq<int>>, y: nat)
    requires |ls| > 1 && LinesShown(r, ls[..|ls| - 1], y) && LineAdded(r, t, u, ls[|ls| - 1])
    ensures LinesShown(u, ls, y)
  {
    var n := |ls| - 1;
    forall i | 0 <= i < |ls|
      ensures LineShown(u, ls[i], i, |ls|)
    {
      if i < n {
        assert LineShown(r, ls[..n][i], i, n);
        LineStays(r, t, u, ls[i], i, n);
      }
    }
  }

  /**
   Lines of printable text appear one per row, each from column 0, wherever on the screen the first one
   starts and however many there are; the cursor is at the end of the last.
   */
  lemma {:induction false} LinesAppear(s: Screen, ls: seq<seq<int>>)
    requires WellFormed(s) && s.x == 0 && |ls| > 0 && forall i :: 0 <= i < |ls| ==> Fits(ls[i], s.cols)
    ensures LinesShown(PutAll(s, Lines(ls)), ls, s.y)
  {
    var n := |ls| - 1;
    assert Fits(ls[n], s.cols);
    if n == 0 {
      PrintableTextAppears(s, ls[0]);
    } else {
      var before := Lines(ls[..n]);
      LinesAppear(s, ls[..n]);
      var r := PutAll(s, before);
      PutLine(r, ls[n]);
      PutAllConcat(s, before + [10], ls[n]);
      PutAllConcat(s, before, [10]);
      PutNewline(r);
      LinesGrow(r, PutChar(r, 10), PutAll(s, Lines(ls)), ls, s.y);
    }
  }

  // ---------------------------------------------------------------- the picture of a grid

  /** Sixteen rows of eight pixels for each of the 95 glyphs, leftmost pixel in the top bit. */
  type Font = seq<seq<bv8>>

  predicate ValidFont(f: Font) {
    && |f| >= 95
    && (forall g :: 0 <= g < 95 ==> |f[g]| == CHAR_HEIGHT)
    && forall r :: 0 <= r < CHAR_HEIGHT ==> f[0][r] == 0
  }

  predicate Lit(f: Font, g: nat, row: nat, col: nat)
    requires ValidFont(f) && g < 95 && row < CHAR_HEIGHT && col < CHAR_WIDTH
  {
    f[g][row] & (0x80 >> col) != 0
  }

  /** The leftmost pixel is the top bit. */
  lemma LitIff(f: Font, g: nat, row: nat)
    requires ValidFont(f) && g < 95 && row < 16
    ensures (Lit(f, g, row, 0) <==> f[g][row] & 0x80 != 0) && (Lit(f, g, row, 1) <==> f[g][row] & 0x40 != 0)
    ensures (Lit(f, g, row, 2) <==> f[g][row] & 0x20 != 0) && (Lit(f, g, row, 3) <==> f[g][row] & 0x10 != 0)
    ensures (Lit(f, g, row, 4) <==> f[g][row] & 0x08 != 0) && (Lit(f, g, row, 5) <==> f[g][row] & 0x04 != 0)
    ensures (Lit(f, g, row, 6) <==> f[g][row] & 0x02 != 0) && (Lit(f, g, row, 7) <==> f[g][row] & 0x01 != 0)
  {
  }

  lemma SpaceIsBlank(f: Font, row: nat, col: nat)
    requires ValidFont(f) && row < CHAR_HEIGHT && col < CHAR_WIDTH
    ensures !Lit(f, 0, row, col)
  {
  }

  function GlyphPixel(f: Font, g: nat, row: nat, col: nat): (p: nat)
    requires ValidFont(f) && g < 95 && row < CHAR_HEIGHT && col < CHAR_WIDTH
  {
    if Lit(f, g, row, col) then FG else BG
  }

  /** The pixel of the picture at `(x, y)`; leftover pixels are background. */
  function PixelOf(f: Font, s: Screen, x: nat, y: nat): (p: nat)
    requires ValidFont(f) && WellFormed(s)
  {
    if x / CHAR_WIDTH < s.cols && y / CHAR_HEIGHT < s.rows
    then GlyphPixel(f, s.cells[y / CHAR_HEIGHT][x / CHAR_WIDTH], y % CHAR_HEIGHT, x % CHAR_WIDTH)
    else BG
  }

  /** White where the glyph of the cell is lit, black everywhere else; cells are 8 by 16 pixels. */
  lemma PixelIff(f: Font, s: Screen, x: nat, y: nat)
    requires ValidFont(f) && WellFormed(s)
    ensures PixelOf(f, s, x, y) == 0xFF_FFFF || PixelOf(f, s, x, y) == 0
    ensures PixelOf(f, s, x, y) == 0xFF_FFFF <==>
      x / 8 < s.cols && y / 16 < s.rows && Lit(f, s.cells[y / 16][x / 8], y % 16, x % 8)
  {
  }

  // ---------------------------------------------------------------- linear memory

  /** The pixel of a frame at `(x, y)`. */
  function At(fb: seq<nat>, w: nat, h: nat, x: nat, y: nat): (p: nat)
    requires |fb| == w * h && x < w && y < h
  {
    fb[Index(w, h, x, y)]
  }

  lemma AtUpdate(fb: seq<nat>, w: nat, h: nat, x: nat, y: nat, p: nat, x': nat, y': nat)
    requires |fb| == w * h && x < w && y < h && x' < w && y' < h
    ensures At(fb[Index(w, h, x, y) := p], w, h, x', y') == if x == x' && y == y' then p else At(fb, w, h, x', y')
  {
    IndexInjective(w, h, x, y, x', y');
  }

  /** The visible part of the frame, `v` pixels wide, is the picture of the grid. */
  ghost predicate Shows(f: Font, fb: seq<nat>, v: nat, w: nat, h: nat, s: Screen) {
    && ValidFont(f) && WellFormed(s) && |fb| == w * h && v <= w
    && s.cols == v / CHAR_WIDTH && s.rows == h / CHAR_HEIGHT
    && forall x, y :: 0 <= x < v && 0 <= y < h ==> At(fb, w, h, x, y) == PixelOf(f, s, x, y)
  }

  /** Drawing a glyph in the cell under the cursor draws the grid with that cell replaced. */
  lemma DrawnShows(f: Font, fb: seq<nat>, fb': seq<nat>, v: nat, w: nat, h: nat, s: Screen, g: nat)
    requires Shows(f, fb, v, w, h, s) && |fb'| == w * h && g < 95
    requires forall x, y :: 0 <= x < v && 0 <= y < h ==>
      At(fb', w, h, x, y) ==
      if x / CHAR_WIDTH == s.x && y / CHAR_HEIGHT == s.y then GlyphPixel(f, g, y % CHAR_HEIGHT, x % CHAR_WIDTH)
      else At(fb, w, h, x, y)
    ensures Shows(f, fb', v, w, h, WithCell(s, g))
  {
  }

  /** Moving everything up by a text line and clearing the rest draws the scrolled grid. */
  lemma ScrolledShows(f: Font, fb: seq<nat>, fb': seq<nat>, v: nat, w: nat, h: nat, s: Screen)
    requires Shows(f, fb, v, w, h, s) && |fb'| == w * h
    requires forall x, y :: 0 <= x < v && 0 <= y < h ==>
      At(fb', w, h, x, y) ==
      if y < (s.rows - 1) * CHAR_HEIGHT then At(fb, w, h, x, y + CHAR_HEIGHT) else BG
    ensures Shows(f, fb', v, w, h, s.(cells := s.cells[1..] + [BlankRow(s.cols)]))
  {
    var t := s.(cells := s.cells[1..] + [BlankRow(s.cols)]);
    forall x, y | 0 <= x < v && 0 <= y < h
      ensures At(fb', w, h, x, y) == PixelOf(f, t, x, y)
    {
      ScrolledPixel(f, s, x, y);
      if y < (s.rows - 1) * CHAR_HEIGHT {
        assert At(fb, w, h, x, y + CHAR_HEIGHT) == PixelOf(f, s, x, y + CHAR_HEIGHT);
      }
    }
  }

  lemma ScrolledPixel(f: Font, s: Screen, x: nat, y: nat)
    requires ValidFont(f) && WellFormed(s)
    ensures var t := s.(cells := s.cells[1..] + [BlankRow(s.cols)]);
      && WellFormed(t)
      && PixelOf(f, t, x, y) ==
         if y < (s.rows - 1) * CHAR_HEIGHT then PixelOf(f, s, x, y + CHAR_HEIGHT) else BG
  {
    SpaceIsBlank(f, y % CHAR_HEIGHT, x % CHAR_WIDTH);
  }

  /** `b` is `a` with the first `n` pixels of row `y` copied up by a text line. */
  ghost predicate RowCopied(a: seq<nat>, b: seq<nat>, w: nat, h: nat, y: nat, n: nat) {
    && |a| == |b| == w * h && CHAR_HEIGHT <= y < h
    && (forall x, y' :: 0 <= x < w && 0 <= y' < h && (y' != y - CHAR_HEIGHT || x >= n) ==>
          At(b, w, h, x, y') == At(a, w, h, x, y'))
    && (forall x :: 0 <= x < w && x < n ==> At(b, w, h, x, y - CHAR_HEIGHT) == At(a, w, h, x, y))
  }

  /** `b` is `a` with the rows below `y` moved up by a text line. */
  ghost predicate MovedUp(a: seq<nat>, b: seq<nat>, w: nat, h: nat, y: nat) {
    && |a| == |b| == w * h && CHAR_HEIGHT <= y <= h
    && (forall x, r :: 0 <= x < w && y - CHAR_HEIGHT <= r < h ==> At(b, w, h, x, r) == At(a, w, h, x, r))
    && (forall x, r :: 0 <= x < w && CHAR_HEIGHT <= r < y ==>
          At(b, w, h, x, r - CHAR_HEIGHT) == At(a, w, h, x, r))
  }

  lemma MoveUpStep(a: seq<nat>, b: seq<nat>, c: seq<nat>, w: nat, h: nat, y: nat)
    requires y < h && MovedUp(a, b, w, h, y) && RowCopied(b, c, w, h, y, w)
    ensures MovedUp(a, c, w, h, y + 1)
  {
    forall x, r | 0 <= x < w && CHAR_HEIGHT <= r < y + 1
      ensures At(c, w, h, x, r - CHAR_HEIGHT) == At(a, w, h, x, r)
    {
      if r == y {
        assert At(c, w, h, x, y - CHAR_HEIGHT) == At(b, w, h, x, y) == At(a, w, h, x, y);
      } else {
        assert At(b, w, h, x, r - CHAR_HEIGHT) == At(a, w, h, x, r);
      }
    }
  }

  lemma MovedUpAt(a: seq<nat>, b: seq<nat>, w: nat, h: nat, x: nat, y: nat)
    requires MovedUp(a, b, w, h, h) && x < w && y + CHAR_HEIGHT < h
    ensures At(b, w, h, x, y) == At(a, w, h, x, y + CHAR_HEIGHT)
  {
    var r := y + CHAR_HEIGHT;
    assert At(b, w, h, x, r - CHAR_HEIGHT) == At(a, w, h, x, r);
  }

  // ---------------------------------------------------------------- the driver

  /** The frame holds `mem`, except for its first `n` pixels, which are background. */
  predicate Cleared(fb: seq<nat>, mem: seq<nat>, n: nat) {
    && |fb| == |mem| && n <= |fb|
    && forall i :: 0 <= i < |fb| ==> fb[i] == if i < n then BG else mem[i]
  }

  /** The visible pixels that a clear of the first `v * h` pixels does not reach are background already. */
  predicate RestIsBlank(mem: seq<nat>, v: nat, w: nat, h: nat)
    requires |mem| == w * h && v <= w
  {
    forall x, y :: 0 <= x < v && 0 <= y < h && Index(w, h, x, y) >= v * h ==> At(mem, w, h, x, y) == BG
  }

  /** A cleared frame shows the blank grid exactly if the visible rest was blank. */
  lemma ClearedShowsIff(f: Font, fb: seq<nat>, mem: seq<nat>, v: nat, w: nat, h: nat)
    requires ValidFont(f) && |mem| == w * h && v <= w && v / CHAR_WIDTH > 0 && h / CHAR_HEIGHT > 0
    requires v * h <= |fb| && Cleared(fb, mem, v * h)
    ensures Shows(f, fb, v, w, h, Blank(v / CHAR_WIDTH, h / CHAR_HEIGHT)) <==> RestIsBlank(mem, v, w, h)
  {
    var s := Blank(v / CHAR_WIDTH, h / CHAR_HEIGHT);
    forall x, y | 0 <= x < v && 0 <= y < h
      ensures PixelOf(f, s, x, y) == BG
      ensures At(fb, w, h, x, y) == if Index(w, h, x, y) < v * h then BG else At(mem, w, h, x, y)
    {
      SpaceIsBlank(f, y % CHAR_HEIGHT, x % CHAR_WIDTH);
    }
  }

  /** The clear runs over consecutive memory: it reaches every visible pixel exactly if no row is padded. */
  lemma ClearReachesIff(v: nat, w: nat, h: nat)
    requires 0 < v <= w && 1 < h
    ensures (forall x, y :: 0 <= x < v && 0 <= y < h ==> Index(w, h, x, y) < v * h) <==> w == v
  {
    if w > v {
      var i := Index(w, h, v - 1, h - 1);
      assert i == (h - 1) * w + v - 1;
      MulMonotone(v + 1, w, h - 1);
      assert (h - 1) * w >= (h - 1) * (v + 1) == h * v - v + h - 1;
    }
  }

  /** One character on rows padded by one pixel, over memory that is not background: its last pixel stays. */
  lemma PaddedClearWitness(f: Font) returns (fb: seq<nat>, mem: seq<nat>)
    requires ValidFont(f)
    ensures var v, w, h := CHAR_WIDTH, CHAR_WIDTH + 1, CHAR_HEIGHT;
      && |mem| == w * h && v * h <= |fb| && Cleared(fb, mem, v * h)
      && !Shows(f, fb, v, w, h, Blank(1, 1))
  {
    var v, w, h := CHAR_WIDTH, CHAR_WIDTH + 1, CHAR_HEIGHT;
    mem := seq(w * h, _ => BG + 1);
    fb := seq(w * h, i => if i < v * h then BG else BG + 1);
    ClearedShowsIff(f, fb, mem, v, w, h);
    assert Index(w, h, v - 1, h - 1) >= v * h && At(mem, w, h, v - 1, h - 1) != BG;
  }

  class FbConsole {
    const fb: array<nat>
    const width: nat
    const height: nat
    /** Pixels from one row to the next: a quarter of the pitch. */
    const stride: nat
    const font: Font
    var cols: nat
    var rows: nat
    var cursorX: nat
    var cursorY: nat

    ghost predicate Mapped() {
      fb.Length == stride * height && width <= stride && ValidFont(font)
    }

    /** The grid the frame shows, with the cursor fields. */
    ghost predicate Holds(s: Screen)
      reads this, fb
    {
      && Mapped()
      && s.cols == cols && s.rows == rows && s.x == cursorX && s.y == cursorY
      && Shows(font, fb[..], width, stride, height, s)
    }

    /**
     Map the framebuffer, which holds `mem`, compute the geometry, and clear the first
     `width * height` pixels of the memory.
     */
    constructor (width: nat, height: nat, stride: nat, font: Font, mem: seq<nat>)
      requires ValidFont(font) && width <= stride && |mem| == stride * height
      ensures Mapped() && fresh(fb) && this.width == width && this.height == height && this.stride == stride
      ensures cols == width / CHAR_WIDTH && rows == height / CHAR_HEIGHT
      ensures Cleared(fb[..], mem, width * height)
      ensures cols > 0 && rows > 0 ==> (Holds(Blank(cols, rows)) <==> RestIsBlank(mem, width, stride, height))
    {
      this.width, this.height, this.stride, this.font := width, height, stride, font;
      cursorX, cursorY, cols, rows := 0, 0, width / CHAR_WIDTH, height / CHAR_HEIGHT;
      fb := new nat[stride * height](i requires 0 <= i < |mem| => mem[i]);
      MulMonotone(width, stride, height);
      new;
      var pixels := width * height;
      var i := 0;
      while i < pixels
        invariant i <= pixels && Cleared(fb[..], mem, i)
        invariant fresh(fb)
        invariant cols == width / CHAR_WIDTH && rows == height / CHAR_HEIGHT && cursorX == cursorY == 0
      {
        fb[i] := BG;
        i := i + 1;
      }
      if cols > 0 && rows > 0 {
        ClearedShowsIff(font, fb[..], mem, width, stride, height);
      }
    }

    /** Store a pixel of the memory, on the screen or in the padding. */
    method StorePixel(x: nat, y: nat, p: nat)
      requires Mapped() && x < stride && y < height
      modifies fb
      ensures forall x', y' :: 0 <= x' < stride && 0 <= y' < height ==>
        At(fb[..], stride, height, x', y') == if x' == x && y' == y then p else At(old(fb[..]), stride, height, x', y')
    {
      ghost var before := fb[..];
      fb[Index(stride, height, x, y)] := p;
      forall x', y' | 0 <= x' < stride && 0 <= y' < height
        ensures At(fb[..], stride, height, x', y') ==
          if x' == x && y' == y then p else At(before, stride, height, x', y')
      {
        AtUpdate(before, stride, height, x, y, p, x', y');
      }
    }

    /** Draw a pixel; positions outside the screen are ignored. */
    method PutPixel(x: nat, y: nat, p: nat)
      requires Mapped()
      modifies fb
      ensures forall x', y' :: 0 <= x' < stride && 0 <= y' < height ==>
        At(fb[..], stride, height, x', y') ==
        if x' == x < width && y' == y then p else At(old(fb[..]), stride, height, x', y')
    {
      if x >= width || y >= height {
        return;
      }
      StorePixel(x, y, p);
    }

    /** One row of eight pixels of a glyph. */
    method DrawRow(px: nat, py: nat, g: nat, row: nat)
      requires Mapped() && g < 95 && row < CHAR_HEIGHT
      modifies fb
      ensures forall x, y :: 0 <= x < stride && 0 <= y < height ==>
        At(fb[..], stride, height, x, y) ==
        if y == py + row && px <= x < px + CHAR_WIDTH && x < width then GlyphPixel(font, g, row, x - px)
        else At(old(fb[..]), stride, height, x, y)
    {
      ghost var before := fb[..];
      for col := 0 to CHAR_WIDTH
        invariant forall x, y :: 0 <= x < stride && 0 <= y < height ==>
          At(fb[..], stride, height, x, y) ==
          if y == py + row && px <= x < px + col && x < width then GlyphPixel(font, g, row, x - px)
          else At(before, stride, height, x, y)
      {
        PutPixel(px + col, py + row, if Lit(font, g, row, col) then FG else BG);
      }
    }

    /** Draw a character's glyph with its top left corner at `(px, py)`. */
    method DrawChar(px: nat, py: nat, c: int)
      requires Mapped()
      modifies fb
      ensures forall x, y :: 0 <= x < stride && 0 <= y < height ==>
        At(fb[..], stride, height, x, y) ==
        if py <= y < py + CHAR_HEIGHT && px <= x < px + CHAR_WIDTH && x < width
        then GlyphPixel(font, GlyphOf(c), y - py, x - px)
        else At(old(fb[..]), stride, height, x, y)
    {
      ghost var before := fb[..];
      for row := 0 to CHAR_HEIGHT
        invariant forall x, y :: 0 <= x < stride && 0 <= y < height ==>
          At(fb[..], stride, height, x, y) ==
          if py <= y < py + row && px <= x < px + CHAR_WIDTH && x < width
          then GlyphPixel(font, GlyphOf(c), y - py, x - px)
          else At(before, stride, height, x, y)
      {
        DrawRow(px, py, GlyphOf(c), row);
      }
    }

    /** Copy one row of the memory, padding included, up by a text line. */
    method CopyRow(y: nat)
      requires Mapped() && CHAR_HEIGHT <= y < height
      modifies fb
      ensures RowCopied(old(fb[..]), fb[..], stride, height, y, stride)
    {
      ghost var before := fb[..];
      for i := 0 to stride
        invariant RowCopied(before, fb[..], stride, height, y, i)
      {
        assert At(fb[..], stride, height, i, y) == fb[Index(stride, height, i, y)];
        StorePixel(i, y - CHAR_HEIGHT, fb[Index(stride, height, i, y)]);
      }
    }

    method ClearRow(y: nat)
      requires Mapped() && y < height
      modifies fb
      ensures forall x, y' :: 0 <= x < stride && 0 <= y' < height ==>
        At(fb[..], stride, height, x, y') ==
        if y' == y && x < width then BG else At(old(fb[..]), stride, height, x, y')
    {
      ghost var before := fb[..];
      for i := 0 to width
        invariant forall x, y' :: 0 <= x < stride && 0 <= y' < height ==>
          At(fb[..], stride, height, x, y') ==
          if y' == y && x < i then BG else At(before, stride, height, x, y')
      {
        StorePixel(i, y, BG);
      }
    }

    /** The copy loop of a scroll, in place, top to bottom. */
    method MoveUp()
      requires Mapped() && height >= CHAR_HEIGHT
      modifies fb
      ensures MovedUp(old(fb[..]), fb[..], stride, height, height)
    {
      ghost var before := fb[..];
      for y := CHAR_HEIGHT to height
        invariant MovedUp(before, fb[..], stride, height, y)
      {
        ghost var mid := fb[..];
        CopyRow(y);
        MoveUpStep(before, mid, fb[..], stride, height, y);
      }
    }

    method ClearFrom(first: nat)
      requires Mapped() && first <= height
      modifies fb
      ensures forall x, y :: 0 <= x < stride && 0 <= y < height ==>
        At(fb[..], stride, height, x, y) ==
        if first <= y && x < width then BG else At(old(fb[..]), stride, height, x, y)
    {
      ghost var before := fb[..];
      for y := first to height
        invariant forall x, y' :: 0 <= x < stride && 0 <= y' < height ==>
          At(fb[..], stride, height, x, y') ==
          if first <= y' < y && x < width then BG else At(before, stride, height, x, y')
      {
        ClearRow(y);
      }
    }

    /** Scroll up by one text line, and clear the last line with the leftover pixel rows. */
    method Scroll()
      requires Mapped() && rows > 0 && rows == height / CHAR_HEIGHT
      modifies fb
      ensures forall x, y :: 0 <= x < width && 0 <= y < height ==>
        At(fb[..], stride, height, x, y) ==
        if y < (rows - 1) * CHAR_HEIGHT then At(old(fb[..]), stride, height, x, y + CHAR_HEIGHT) else BG
    {
      ghost var before := fb[..];
      MoveUp();
      ghost var moved := fb[..];
      ClearFrom((rows - 1) * CHAR_HEIGHT);
      forall x, y | 0 <= x < width && 0 <= y < (rows - 1) * CHAR_HEIGHT
        ensures At(fb[..], stride, height, x, y) == At(before, stride, height, x, y + CHAR_HEIGHT)
      {
        MovedUpAt(before, moved, stride, height, x, y);
      }
    }

    /** Line wrap and scroll, on a frame that shows the cells of `t`. */
    method SettleCursor(ghost t: Screen)
      requires Mapped() && t.cols == cols && t.rows == rows && Shows(font, fb[..], width, stride, height, t)
      modifies this, fb
      ensures cols == old(cols) && rows == old(rows)
      ensures var r := Settle(t.(x := old(cursorX), y := old(cursorY)));
        && cursorX == r.x && cursorY == r.y
        && Shows(font, fb[..], width, stride, height, t.(cells := r.cells))
    {
      if cursorX >= cols {
        cursorX, cursorY := 0, cursorY + 1;
      }
      if cursorY >= rows {
        ghost var before := fb[..];
        Scroll();
        ScrolledShows(font, before, fb[..], width, stride, height, t);
        cursorY := rows - 1;
      }
    }

    /** One character. A console without a text cell ignores it; otherwise frame and cursor follow the grid. */
    method PutC(c: int, ghost s: Screen) returns (ghost s': Screen)
      requires Mapped() && (cols > 0 && rows > 0 ==> Holds(s))
      modifies this, fb
      ensures cols == old(cols) && rows == old(rows)
      ensures cols > 0 && rows > 0 ==> WellFormed(s) && s' == PutChar(s, c) && Holds(s')
      ensures cols == 0 || rows == 0 ==> fb[..] == old(fb[..]) && s' == s
    {
      s' := s;
      if cols == 0 || rows == 0 {
        return;
      }
      if c == 10 {
        cursorX, cursorY := 0, cursorY + 1;
      } else if c == 13 {
        cursorX := 0;
      } else if c == 9 {
        cursorX := (cursorX + 8) / 8 * 8;
      } else if c == 8 {
        if cursorX > 0 {
          cursorX := cursorX - 1;
        }
      } else {
        DrawChar(cursorX * CHAR_WIDTH, cursorY * CHAR_HEIGHT, c);
        DrawnShows(font, old(fb[..]), fb[..], width, stride, height, s, GlyphOf(c));
        s' := WithCell(s, GlyphOf(c));
        cursorX := cursorX + 1;
      }
      SettleCursor(s');
      PutCharWellFormed(s, c);
      s' := PutChar(s, c);
    }

    /** A string: the frame is the picture of the grid after all its characters. */
    method PutS(cs: seq<int>, ghost s: Screen)
      requires Mapped() && cols > 0 && rows > 0 && Holds(s)
      modifies this, fb
      ensures WellFormed(s) && Holds(PutAll(s, cs))
    {
      ghost var t := s;
      for i := 0 to |cs|
        invariant cols > 0 && rows > 0 && WellFormed(s) && Holds(t) && t == PutAll(s, cs[..i])
      {
        t := PutC(cs[i], t);
        assert cs[..i + 1][..i] == cs[..i];
      }
      assert cs[..|cs|] == cs;
    }
  }
}
