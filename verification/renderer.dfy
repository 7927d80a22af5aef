/**
 The terminal renderer's layout arithmetic and its frame-buffer edits
 (src/renderer.rs). The terminal size is a parameter; flushing to the
 terminal and cursor visibility are not modelled.
 */
module Render {

  import opened Ints

  /** The glyph used for the padding around the playing field. */
  const Block: char := '\U{2588}'

  datatype TerminalRenderer = TerminalRenderer(
    width: int,
    height: int,
    scaleFactor: int,
    paddingLeft: int,
    paddingRight: int,
    paddingTop: int,
    paddingBottom: int,
    screen: seq<seq<char>>,
    gridW: int,
    gridH: int)

  /** Integer division rounding toward zero, as `/` on Rust's `i32`. */
  function TruncDiv(a: int, b: int): (q: int)
    requires b != 0
    ensures 0 <= a && 0 < b ==> q == a / b
    ensures 0 <= a && b < 0 ==> q == -(a / -b)
  {
    var m := Abs(a) / Abs(b);
    if (a < 0) == (b < 0) then m else -m
  }

  /** `height` rows of `width` spaces. */
  function Blank(width: nat, height: nat): (s: seq<seq<char>>)
    ensures |s| == height
    ensures forall y :: 0 <= y < height ==> |s[y]| == width && forall x :: 0 <= x < width ==> s[y][x] == ' '
  {
    seq(height, _ => seq(width, _ => ' '))
  }

  /**
   What every renderer keeps: a `height` x `width` buffer, and paddings that
   fit inside it.
   */
  predicate WellFormed(r: TerminalRenderer)
  {
    && |r.screen| == r.height
    && (forall y :: 0 <= y < |r.screen| ==> |r.screen[y]| == r.width)
    && 0 <= r.paddingTop <= r.height && 0 <= r.paddingBottom <= r.height
    && 0 <= r.paddingLeft <= r.width && 0 <= r.paddingRight <= r.width
  }

  /**
   Build a renderer for a `width` x `height` terminal and a square grid of
   `gridSize` cells: the largest multiple of the grid that fits, centred, the
   odd cell of a remainder going to the right and to the bottom.
   */
  function New(width: int, height: int, gridSize: int): (r: TerminalRenderer)
    requires 0 <= width && 0 <= height
    requires gridSize != 0
    ensures r.width == width && r.height == height
    ensures gridSize > 0 ==> r.scaleFactor == Min(width, height) / gridSize
    ensures gridSize < 0 ==> r.scaleFactor == -(Min(width, height) / -gridSize)
    ensures r.gridW == r.gridH == gridSize * r.scaleFactor
    ensures r.gridW == Abs(gridSize) * Abs(r.scaleFactor)
    ensures 0 <= r.gridW <= Min(width, height) < r.gridW + Abs(gridSize)
    ensures r.paddingLeft + r.gridW + r.paddingRight == width
    ensures r.paddingTop + r.gridH + r.paddingBottom == height
    ensures 0 <= r.paddingLeft <= r.paddingRight <= r.paddingLeft + 1
    ensures 0 <= r.paddingTop <= r.paddingBottom <= r.paddingTop + 1
    ensures r.screen == Blank(width, height)
    ensures WellFormed(r)
  {
    var scaleFactor := TruncDiv(Min(width, height), gridSize);
    var gridW := gridSize * scaleFactor;
    var gridH := gridSize * scaleFactor;
    GridFits(Min(width, height), gridSize);
    var paddingLeft := TruncDiv(width - gridW, 2);
    var paddingRight := width - gridW - paddingLeft;
    var paddingTop := TruncDiv(height - gridH, 2);
    var paddingBottom := height - gridH - paddingTop;
    TerminalRenderer(width, height, scaleFactor, paddingLeft, paddingRight,
                     paddingTop, paddingBottom, Blank(width, height), gridW, gridH)
  }

  /** `gridSize` times the truncated quotient is the largest multiple of `gridSize` up to `m`. */
  lemma GridFits(m: int, gridSize: int)
    requires 0 <= m && gridSize != 0
    ensures gridSize * TruncDiv(m, gridSize) == Abs(gridSize) * Abs(TruncDiv(m, gridSize))
    ensures 0 <= gridSize * TruncDiv(m, gridSize) <= m < gridSize * TruncDiv(m, gridSize) + Abs(gridSize)
  {
    var g := Abs(gridSize);
    var q := m / g;
    assert m == g * q + m % g;
    if gridSize < 0 {
      assert TruncDiv(m, gridSize) == -q;
      assert gridSize * -q == g * q;
    }
  }

  /** Reset every cell to a space, keeping the buffer's shape. */
  function Clear(r: TerminalRenderer): (r': TerminalRenderer)
    ensures r' == r.(screen := r'.screen)
    ensures |r'.screen| == |r.screen|
    ensures forall y :: 0 <= y < |r.screen| ==>
      |r'.screen[y]| == |r.screen[y]| && forall x :: 0 <= x < |r.screen[y]| ==> r'.screen[y][x] == ' '
  {
    r.(screen := seq(|r.screen|, y requires 0 <= y < |r.screen| => seq(|r.screen[y]|, _ => ' ')))
  }

  /** Write one glyph; src/renderer.rs indexes the buffer directly, so the cell must exist. */
  function PutChar(r: TerminalRenderer, x: int, y: int, ch: char): (r': TerminalRenderer)
    requires 0 <= y < |r.screen| && 0 <= x < |r.screen[y]|
    ensures r' == r.(screen := r'.screen)
    ensures |r'.screen| == |r.screen|
    ensures forall j :: 0 <= j < |r.screen| ==> |r'.screen[j]| == |r.screen[j]|
    ensures r'.screen[y][x] == ch
    ensures forall j, i :: 0 <= j < |r.screen| && 0 <= i < |r.screen[j]| && (j, i) != (y, x) ==>
      r'.screen[j][i] == r.screen[j][i]
  {
    r.(screen := r.screen[y := r.screen[y][x := ch]])
  }

  /** Text output is not implemented: the buffer is left as it is. */
  function DrawText(r: TerminalRenderer, text: string, x: int, y: int): (r': TerminalRenderer)
    ensures r' == r
  {
    r
  }

  /** The cells `DrawPadding` fills: the top and bottom bands and the left and right strips. */
  predicate IsPadding(r: TerminalRenderer, x: int, y: int)
  {
    y < r.paddingTop || y >= r.height - r.paddingBottom ||
    x < r.paddingLeft || x >= r.width - r.paddingRight
  }

  /** The buffer with every padding cell set to the block glyph and every other cell kept. */
  function Padded(r: TerminalRenderer): (s: seq<seq<char>>)
    requires WellFormed(r)
  {
    seq(r.height, y requires 0 <= y < r.height =>
      seq(r.width, x requires 0 <= x < r.width =>
        if IsPadding(r, x, y) then Block else r.screen[y][x]))
  }

  /** Set the cells x0 <= x < x1 of one row to `ch`. */
  method FillRow(row: seq<char>, x0: int, x1: int, ch: char) returns (out: seq<char>)
    requires 0 <= x0 <= x1 <= |row|
    ensures |out| == |row|
    ensures forall x :: 0 <= x < |row| ==> out[x] == if x0 <= x < x1 then ch else row[x]
  {
    out := row;
    var x := x0;
    while x < x1
      invariant x0 <= x <= x1
      invariant |out| == |row|
      invariant forall i :: 0 <= i < |row| ==> out[i] == if x0 <= i < x then ch else row[i]
    {
      out := out[x := ch];
      x := x + 1;
    }
  }

  /** Set the cells of rows y0 <= y < y1 and columns x0 <= x < x1 to `ch`: one of the nested loops of `draw_padding` in src/renderer.rs. */
  method FillRect(s: seq<seq<char>>, width: int, y0: int, y1: int, x0: int, x1: int, ch: char)
    returns (out: seq<seq<char>>)
    requires forall y :: 0 <= y < |s| ==> |s[y]| == width
    requires 0 <= y0 <= y1 <= |s| && 0 <= x0 <= x1 <= width
    ensures |out| == |s|
    ensures forall y :: 0 <= y < |s| ==> |out[y]| == width
    ensures forall y, x :: 0 <= y < |s| && 0 <= x < width ==>
      out[y][x] == if y0 <= y < y1 && x0 <= x < x1 then ch else s[y][x]
  {
    out := s;
    var y := y0;
    while y < y1
      invariant y0 <= y <= y1
      invariant |out| == |s|
      invariant forall j :: 0 <= j < |s| ==> |out[j]| == width
      invariant forall j, x :: 0 <= j < |s| && 0 <= x < width ==>
        out[j][x] == if y0 <= j < y && x0 <= x < x1 then ch else s[j][x]
    {
      var row := FillRow(out[y], x0, x1, ch);
      out := out[y := row];
      y := y + 1;
    }
  }

  /** Fill the four padding regions, as four rectangle fills, leaving the playing field alone. */
  method DrawPadding(r: TerminalRenderer) returns (r': TerminalRenderer)
    requires WellFormed(r)
    ensures r' == r.(screen := Padded(r))
    ensures WellFormed(r')
    ensures forall y, x :: 0 <= y < r.height && 0 <= x < r.width ==>
      r'.screen[y][x] == if IsPadding(r, x, y) then Block else r.screen[y][x]
  {
    var s := FillRect(r.screen, r.width, 0, r.paddingTop, 0, r.width, Block);
    s := FillRect(s, r.width, r.height - r.paddingBottom, r.height, 0, r.width, Block);
    s := FillRect(s, r.width, 0, r.height, 0, r.paddingLeft, Block);
    s := FillRect(s, r.width, 0, r.height, r.width - r.paddingRight, r.width, Block);
    var p := Padded(r);
    forall y | 0 <= y < r.height
      ensures s[y] == p[y]
    {
    }
    r' := r.(screen := s);
  }

  // ---------------------------------------------------------------------------
  // Properties relating the operations

  /** Clearing a well-formed renderer gives back the buffer it was built with. */
  lemma ClearRestoresBlank(r: TerminalRenderer)
    requires WellFormed(r)
    ensures Clear(r).screen == Blank(r.width, r.height)
  {
  }

  lemma ClearKeepsWellFormed(r: TerminalRenderer)
    requires WellFormed(r)
    ensures WellFormed(Clear(r))
  {
  }

  lemma PutCharKeepsWellFormed(r: TerminalRenderer, x: int, y: int, ch: char)
    requires WellFormed(r)
    requires 0 <= y < r.height && 0 <= x < r.width
    ensures WellFormed(PutChar(r, x, y, ch))
  {
  }

  /** Padding twice is the same as padding once. */
  lemma PaddingIdempotent(r: TerminalRenderer)
    requires WellFormed(r)
    ensures Padded(r.(screen := Padded(r))) == Padded(r)
  {
    var r' := r.(screen := Padded(r));
    assert WellFormed(r');
    var p, p' := Padded(r), Padded(r');
    forall y | 0 <= y < r.height
      ensures p'[y] == p[y]
    {
    }
  }

  /**
   On a freshly built renderer, the padding is exactly the complement of the
   centred gridW x gridH playing field.
   */
  lemma PaddingFramesField(width: int, height: int, gridSize: int, x: int, y: int)
    requires 0 <= width && 0 <= height && gridSize != 0
    requires 0 <= x < width && 0 <= y < height
    ensures var r := New(width, height, gridSize);
      !IsPadding(r, x, y) <==>
        r.paddingLeft <= x < r.paddingLeft + r.gridW && r.paddingTop <= y < r.paddingTop + r.gridH
  {
  }

  /** A cleared, padded frame of a fresh renderer: blocks around the field, spaces on it. */
  lemma FreshFrame(width: int, height: int, gridSize: int, x: int, y: int)
    requires 0 <= width && 0 <= height && gridSize != 0
    requires 0 <= x < width && 0 <= y < height
    ensures var r := New(width, height, gridSize);
      Padded(Clear(r))[y][x] ==
        if r.paddingLeft <= x < r.paddingLeft + r.gridW && r.paddingTop <= y < r.paddingTop + r.gridH
        then ' ' else Block
  {
    var r := New(width, height, gridSize);
    ClearKeepsWellFormed(r);
    PaddingFramesField(width, height, gridSize, x, y);
  }
}
