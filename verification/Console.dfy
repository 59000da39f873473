/**
 The text console of src/vga_buffer.rs.

 `Terminal` is the reference: an unbounded sequence of text lines whose cursor is always at the
 end of the last line, with no screen, no scrolling and no pixels.  `Console` is the framebuffer
 writer, proved to show the last lines of that text after every operation.
 */
module Terminal {
  import opened Machine

  datatype Color = Black | Green | LightGreen | White | Amber | Cyan | Magenta | Red

  /** A glyph and the foreground colour it was typed in. */
  datatype Cell = Glyph(code: byte, ink: Color)

  /** A byte together with the foreground colour in force when it is written. */
  datatype Key = Key(code: byte, ink: Color)

  type Line = seq<Cell>

  /** Every line typed since the last clear; there is always a current, last one. */
  type Text = t: seq<Line> | |t| > 0 witness [[]]

  const NEWLINE: byte := 10
  const BACKSPACE: byte := 8
  const SPACE: byte := 0x20

  function Last(t: Text): Line { t[|t| - 1] }

  function WithLast(t: Text, l: Line): Text { t[|t| - 1 := l] }

  function Put(t: Text, columns: nat, c: Cell): Text {
    var u := if |Last(t)| >= columns then t + [[]] else t;
    WithLast(u, Last(u) + [c])
  }

  function RubOut(t: Text): Text {
    if Last(t) == [] then t else WithLast(t, Last(t)[..|Last(t)| - 1])
  }

  /** One byte: a line feed, a same-line backspace, or a glyph with deferred wrap. */
  function Type(t: Text, columns: nat, k: Key): Text {
    if k.code == NEWLINE then t + [[]]
    else if k.code == BACKSPACE then RubOut(t)
    else Put(t, columns, Glyph(k.code, k.ink))
  }

  function TypeAll(t: Text, columns: nat, ks: seq<Key>): Text
    decreases |ks|
  {
    if ks == [] then t else
    var n := |ks| - 1;
    Type(TypeAll(t, columns, ks[..n]), columns, ks[n])
  }

  predicate Fits(t: Text, columns: nat) {
    forall l | l in t :: |l| <= columns
  }

  /** How many of the lines lie above a window of `rows` rows. */
  function Top(t: Text, rows: nat): nat {
    if |t| > rows then |t| - rows else 0
  }

  /** What the window onto the last `rows` lines shows in row r, column c. */
  function CellAt(t: Text, rows: nat, r: nat, c: nat): Option<Cell> {
    var k := Top(t, rows) + r;
    if r < rows && k < |t| && c < |t[k]| then Some(t[k][c]) else None
  }

  // ---- What typing does to the text ----

  /** Typing never shortens the text and never touches a line above the current one, so a line
      that has scrolled off or been left by a line feed is final. */
  lemma {:induction false} FinishedLinesAreFinal(t: Text, columns: nat, ks: seq<Key>)
    ensures |TypeAll(t, columns, ks)| >= |t|
    ensures TypeAll(t, columns, ks)[..|t| - 1] == t[..|t| - 1]
    decreases |ks|
  {
    if ks != [] {
      var n := |ks| - 1;
      FinishedLinesAreFinal(t, columns, ks[..n]);
      var u := TypeAll(t, columns, ks[..n]);
      var v := Type(u, columns, ks[n]);
      assert u[..|u| - 1] == v[..|u| - 1];
      assert v[..|t| - 1] == v[..|u| - 1][..|t| - 1];
    }
  }

  lemma {:induction false} LinesFit(t: Text, columns: nat, ks: seq<Key>)
    requires Fits(t, columns) && columns > 0
    ensures Fits(TypeAll(t, columns, ks), columns)
    decreases |ks|
  {
    if ks != [] {
      LinesFit(t, columns, ks[..|ks| - 1]);
    }
  }

  lemma {:induction false} TypeInPieces(t: Text, columns: nat, a: seq<Key>, b: seq<Key>)
    ensures TypeAll(t, columns, a + b) == TypeAll(TypeAll(t, columns, a), columns, b)
    decreases |b|
  {
    if b == [] {
      assert a + b == a;
    } else {
      var n := |b| - 1;
      assert (a + b)[..|a| + n] == a + b[..n];
      TypeInPieces(t, columns, a, b[..n]);
    }
  }

  /** A backspace takes back exactly the glyph before it, unless that glyph was the one that
      wrapped: then the line it opened stays. */
  lemma BackspaceUndoes(t: Text, columns: nat, k: Key, ink: Color)
    requires Fits(t, columns) && Printable([k])
    ensures var u := TypeAll(t, columns, [k, Key(8, ink)]);
            (u == t <==> |Last(t)| < columns)
            && (|Last(t)| == columns ==> u == t + [[]])
  {
    var ks := [k, Key(BACKSPACE, ink)];
    assert k in [k];
    assert ks[..1] == [k] && ks[..1][..0] == [];
    assert TypeAll(t, columns, ks[..1][..0]) == t;
    var u := TypeAll(t, columns, ks[..1]);
    assert u == Put(t, columns, Glyph(k.code, k.ink));
    var base := if |Last(t)| >= columns then t + [[]] else t;
    assert Last(u)[..|Last(u)| - 1] == Last(base);
    assert RubOut(u) == base;
  }

  predicate Printable(ks: seq<Key>) {
    forall k | k in ks :: k.code != NEWLINE && k.code != BACKSPACE
  }

  function Glyphs(ks: seq<Key>): (l: Line)
    ensures |l| == |ks|
  {
    seq(|ks|, i requires 0 <= i < |ks| => Glyph(ks[i].code, ks[i].ink))
  }

  /** A line cut into rows of `columns` cells, from the front. */
  function Chunks(l: Line, columns: nat): (t: Text)
    requires columns > 0
    decreases |l|
  {
    if |l| <= columns then [l] else [l[..columns]] + Chunks(l[columns..], columns)
  }

  lemma {:induction false} ChunksSnoc(l: Line, columns: nat, c: Cell)
    requires columns > 0
    ensures Chunks(l + [c], columns) == Put(Chunks(l, columns), columns, c)
    decreases |l|
  {
    if |l| < columns {
    } else if |l| == columns {
      assert (l + [c])[..columns] == l && (l + [c])[columns..] == [c];
      assert Chunks(l + [c], columns) == [l] + [[c]];
      assert [] + [c] == [c];
      assert Put([l], columns, c) == [l] + [[c]];
    } else {
      assert (l + [c])[..columns] == l[..columns];
      assert (l + [c])[columns..] == l[columns..] + [c];
      ChunksSnoc(l[columns..], columns, c);
    }
  }

  lemma PutAfter(above: seq<Line>, t: Text, columns: nat, c: Cell)
    ensures Put(above + t, columns, c) == above + Put(t, columns, c)
  {
    assert (above + t) + [[]] == above + (t + [[]]);
  }

  lemma GlyphsSnoc(l: Line, ks: seq<Key>, n: nat)
    requires |ks| == n + 1
    ensures l + Glyphs(ks) == (l + Glyphs(ks[..n])) + [Glyph(ks[n].code, ks[n].ink)]
  {
  }

  /** The closed form of deferred wrap: printable bytes typed after any text continue its last
      line, and the whole of that line is cut into rows of exactly `columns` glyphs. */
  lemma {:induction false} PrintableWraps(t: Text, columns: nat, ks: seq<Key>)
    requires columns > 0 && Fits(t, columns) && Printable(ks)
    ensures TypeAll(t, columns, ks) == t[..|t| - 1] + Chunks(Last(t) + Glyphs(ks), columns)
    decreases |ks|
  {
    var above := t[..|t| - 1];
    if ks == [] {
      assert Last(t) in t;
      assert Last(t) + Glyphs(ks) == Last(t);
      assert t == above + [Last(t)];
    } else {
      var n := |ks| - 1;
      var c := Glyph(ks[n].code, ks[n].ink);
      var l := Last(t) + Glyphs(ks[..n]);
      PrintableWraps(t, columns, ks[..n]);
      calc {
        TypeAll(t, columns, ks);
        Put(TypeAll(t, columns, ks[..n]), columns, c);
        Put(above + Chunks(l, columns), columns, c);
        { PutAfter(above, Chunks(l, columns), columns, c); }
        above + Put(Chunks(l, columns), columns, c);
        { ChunksSnoc(l, columns, c); }
        above + Chunks(l + [c], columns);
        { GlyphsSnoc(Last(t), ks, n); }
        above + Chunks(Last(t) + Glyphs(ks), columns);
      }
    }
  }

  /** Lines typed one after another, with a line feed between two of them. */
  function LineKeys(ls: seq<seq<Key>>, ink: Color): seq<Key>
    requires ls != []
    decreases |ls|
  {
    if |ls| == 1 then ls[0] else LineKeys(ls[..|ls| - 1], ink) + ([Key(10, ink)] + ls[|ls| - 1])
  }

  /** The rows that lines fill, the first of them behind what its line already held. */
  function LineRows(held: Line, ls: seq<seq<Key>>, columns: nat): seq<Line>
    requires ls != [] && columns > 0
    decreases |ls|
  {
    if |ls| == 1 then Chunks(held + Glyphs(ls[0]), columns)
    else LineRows(held, ls[..|ls| - 1], columns) + Chunks(Glyphs(ls[|ls| - 1]), columns)
  }

  lemma FeedAndLine(t: Text, columns: nat, before: seq<Key>, ink: Color, l: seq<Key>)
    requires columns > 0 && Fits(t, columns) && Printable(l)
    ensures TypeAll(t, columns, before + ([Key(10, ink)] + l))
         == TypeAll(t, columns, before) + Chunks(Glyphs(l), columns)
  {
    var u, feed := TypeAll(t, columns, before), [Key(10, ink)];
    TypeInPieces(t, columns, before, feed + l);
    TypeInPieces(u, columns, feed, l);
    assert feed[..0] == [] && TypeAll(u, columns, feed) == u + [[]];
    LinesFit(t, columns, before);
    PrintableWraps(u + [[]], columns, l);
    assert (u + [[]])[..|u|] == u && [] + Glyphs(l) == Glyphs(l);
  }

  /** The closed form of a text: every line, an empty one too, starts a row of its own and is cut
      into rows of `columns` glyphs. */
  lemma {:induction false} LinesTyped(t: Text, columns: nat, ls: seq<seq<Key>>, ink: Color)
    requires columns > 0 && Fits(t, columns) && ls != [] && forall i | 0 <= i < |ls| :: Printable(ls[i])
    ensures TypeAll(t, columns, LineKeys(ls, ink)) == t[..|t| - 1] + LineRows(Last(t), ls, columns)
    decreases |ls|
  {
    var n := |ls| - 1;
    if n == 0 {
      PrintableWraps(t, columns, ls[0]);
    } else {
      LinesTyped(t, columns, ls[..n], ink);
      FeedAndLine(t, columns, LineKeys(ls[..n], ink), ink, ls[n]);
      LineRowsMore(t[..|t| - 1], Last(t), ls, columns);
    }
  }

  lemma LineRowsMore(above: seq<Line>, held: Line, ls: seq<seq<Key>>, columns: nat)
    requires columns > 0 && |ls| > 1
    ensures (above + LineRows(held, ls[..|ls| - 1], columns)) + Chunks(Glyphs(ls[|ls| - 1]), columns)
         == above + LineRows(held, ls, columns)
  {
  }

  // ---- The window onto the last lines ----

  /** The row of the window that shows the current line. */
  function Row(t: Text, rows: nat): nat
    requires rows > 0
  {
    if |t| > rows then rows - 1 else |t| - 1
  }

  /** A new line scrolls the window by exactly one row, once the window is full. */
  lemma WindowNewLine(t: Text, rows: nat, r: nat, c: nat)
    ensures CellAt(t + [[]], rows, r, c) == CellAt(t, rows, if |t| < rows then r else r + 1, c)
  {
  }

  lemma WindowAppend(t: Text, rows: nat, g: Cell, r: nat, c: nat)
    requires rows > 0
    ensures CellAt(WithLast(t, Last(t) + [g]), rows, r, c)
         == if r == Row(t, rows) && c == |Last(t)| then Some(g) else CellAt(t, rows, r, c)
  {
  }

  lemma WindowRubOut(t: Text, rows: nat, r: nat, c: nat)
    requires rows > 0 && Last(t) != []
    ensures CellAt(RubOut(t), rows, r, c)
         == if r == Row(t, rows) && c == |Last(t)| - 1 then None else CellAt(t, rows, r, c)
  {
  }
}

/** Where a pixel lives in the framebuffer, and what it should look like. */
module Framebuffer {
  import opened Machine
  import opened Terminal

  const GLYPH_WIDTH := 8
  const GLYPH_HEIGHT := 16

  datatype PixelFormat = RgbOrder | BgrOrder

  /** Three colour bytes and the unused fourth one. */
  datatype Pixel = Pixel(first: byte, second: byte, third: byte, fourth: byte)

  datatype Rgb = Rgb(red: byte, green: byte, blue: byte)

  function RgbOf(c: Color): Rgb {
    match c
    case Black => Rgb(0, 0, 0)
    case Green => Rgb(0, 170, 0)
    case LightGreen => Rgb(85, 255, 85)
    case White => Rgb(255, 255, 255)
    case Amber => Rgb(255, 170, 0)
    case Cyan => Rgb(0, 255, 255)
    case Magenta => Rgb(255, 0, 255)
    case Red => Rgb(255, 85, 85)
  }

  function Encode(f: PixelFormat, c: Rgb): Pixel {
    match f
    case RgbOrder => Pixel(c.red, c.green, c.blue, 0)
    case BgrOrder => Pixel(c.blue, c.green, c.red, 0)
  }

  /** In either byte order the eight colours give eight different pixels. */
  lemma ColorsDistinct(f: PixelFormat, c: Color, d: Color)
    ensures Encode(f, RgbOf(c)) == Encode(f, RgbOf(d)) <==> c == d
  {
  }

  datatype Info = Info(byteLen: nat, width: nat, height: nat, stride: nat, format: PixelFormat) {
    /** The mode `Writer::init` accepts, with room for one glyph and a scan line at least as long
        as the visible width. */
    predicate Usable() {
      byteLen >= stride * height * 4 && GLYPH_WIDTH <= width <= stride && GLYPH_HEIGHT <= height
    }

    function Columns(): nat { width / GLYPH_WIDTH }

    function Rows(): nat { height / GLYPH_HEIGHT }

    predicate Visible(x: nat, y: nat) { x < width && y < height }

    function Offset(x: nat, y: nat): nat { (y * stride + x) * 4 }
  }

  /** The cells of the grid are exactly those that lie wholly on the screen. */
  lemma GridOnScreen(i: Info, c: nat, r: nat)
    ensures c < i.Columns() && r < i.Rows() <==> i.Visible(c * 8 + 7, r * 16 + 15)
  {
  }

  lemma {:induction false} RowsBelow(y: nat, y': nat, stride: nat)
    requires y < y'
    ensures y * stride + stride <= y' * stride
    decreases y'
  {
    assert y' * stride == (y' - 1) * stride + stride;
    if y + 1 < y' {
      RowsBelow(y, y' - 1, stride);
    }
  }

  lemma OffsetFits(i: Info, x: nat, y: nat)
    requires i.Usable() && i.Visible(x, y)
    ensures i.Offset(x, y) + 4 <= i.byteLen
  {
    RowsBelow(y, i.height, i.stride);
  }

  lemma OffsetsApart(i: Info, x: nat, y: nat, x': nat, y': nat)
    requires i.Usable() && i.Visible(x, y) && i.Visible(x', y') && (x, y) != (x', y')
    ensures i.Offset(x, y) + 4 <= i.Offset(x', y') || i.Offset(x', y') + 4 <= i.Offset(x, y)
  {
    if y < y' {
      RowsBelow(y, y', i.stride);
    } else if y' < y {
      RowsBelow(y', y, i.stride);
    }
  }

  lemma OffsetBelow(i: Info, x: nat, y: nat)
    ensures i.Offset(x, y + GLYPH_HEIGHT) == i.Offset(x, y) + GLYPH_HEIGHT * (i.stride * 4)
  {
    assert (y + GLYPH_HEIGHT) * i.stride == y * i.stride + GLYPH_HEIGHT * i.stride;
  }

  lemma ScrollFits(i: Info)
    requires i.Usable()
    ensures GLYPH_HEIGHT * (i.stride * 4) <= i.byteLen
  {
    if i.height > GLYPH_HEIGHT {
      RowsBelow(GLYPH_HEIGHT, i.height, i.stride);
    }
    assert i.stride * i.height == i.height * i.stride;
  }

  type Font = f: seq<bv8> | |f| == 4096 witness seq(4096, _ => 0)

  /** Glyph 0x20 has no lit pixel. */
  predicate BlankSpace(f: Font) {
    forall k | 0x200 <= k < 0x210 :: f[k] == 0
  }

  predicate Lit(bits: bv8, x: nat)
    requires x < GLYPH_WIDTH
  {
    bits & ((0x80 as bv8) >> x) != 0
  }

  /** Bit k, from the least significant. */
  predicate BitSet(bits: bv8, k: nat)
    requires k < 8
  {
    (bits >> k) & 1 == 1
  }

  /** A glyph row is drawn from its most significant bit. */
  lemma MostSignificantFirst(bits: bv8, x: nat)
    requires x < GLYPH_WIDTH
    ensures Lit(bits, x) <==> BitSet(bits, 7 - x)
  {
    match x
    case 0 => case 1 => case 2 => case 3 => case 4 => case 5 => case 6 => case _ =>
  }

  /** The colour of pixel (gx, gy) of a glyph. */
  function GlyphColor(f: Font, code: byte, ink: Color, paper: Color, gx: nat, gy: nat): Color
    requires gx < GLYPH_WIDTH && gy < GLYPH_HEIGHT
  {
    if Lit(f[code as nat * GLYPH_HEIGHT + gy], gx) then ink else paper
  }

  lemma GlyphPixel(f: Font, code: byte, ink: Color, paper: Color, gx: nat, gy: nat)
    requires gx < 8 && gy < 16
    ensures GlyphColor(f, code, ink, paper, gx, gy) == if BitSet(f[code as nat * 16 + gy], 7 - gx) then ink else paper
  {
    MostSignificantFirst(f[code as nat * 16 + gy], gx);
  }

  /** The picture of a text: its last lines in glyph cells, on paper that also fills the margins
      to the right of and below the cells. */
  function Picture(i: Info, f: Font, paper: Color, t: Text, x: nat, y: nat): Color {
    match CellAt(t, i.Rows(), y / GLYPH_HEIGHT, x / GLYPH_WIDTH)
    case None => paper
    case Some(g) => GlyphColor(f, g.code, g.ink, paper, x % GLYPH_WIDTH, y % GLYPH_HEIGHT)
  }

  lemma SpaceIsBlank(f: Font, ink: Color, paper: Color, gx: nat, gy: nat)
    requires BlankSpace(f) && gx < GLYPH_WIDTH && gy < GLYPH_HEIGHT
    ensures GlyphColor(f, SPACE, ink, paper, gx, gy) == paper
  {
    assert f[0x20 * GLYPH_HEIGHT + gy] == 0;
  }

  /** The picture of a scrolled text is the old picture moved up one glyph, above 16 rows of
      paper.  The height need not be a multiple of 16: what moves into the last text row is the
      bottom margin, which is paper too. */
  lemma PictureScrolls(i: Info, f: Font, paper: Color, t: Text, x: nat, y: nat)
    requires i.Usable() && |t| >= i.Rows() && i.Visible(x, y)
    ensures Picture(i, f, paper, t + [[]], x, y)
         == if y + GLYPH_HEIGHT < i.height then Picture(i, f, paper, t, x, y + GLYPH_HEIGHT) else paper
  {
    WindowNewLine(t, i.Rows(), y / GLYPH_HEIGHT, x / GLYPH_WIDTH);
    assert (y + GLYPH_HEIGHT) / GLYPH_HEIGHT == y / GLYPH_HEIGHT + 1;
  }

  /** Pixel (x, y) is a lit pixel of a glyph. */
  predicate Inked(i: Info, f: Font, t: Text, x: nat, y: nat) {
    match CellAt(t, i.Rows(), y / GLYPH_HEIGHT, x / GLYPH_WIDTH)
    case None => false
    case Some(g) => Lit(f[g.code as nat * GLYPH_HEIGHT + y % GLYPH_HEIGHT], x % GLYPH_WIDTH)
  }

  /** The paper shows nowhere. */
  ghost predicate AllInk(i: Info, f: Font, t: Text) {
    forall x: nat, y: nat | i.Visible(x, y) :: Inked(i, f, t, x, y)
  }

  /** On other paper exactly the inked pixels look the same. */
  lemma OtherPaper(i: Info, f: Font, p: Color, q: Color, t: Text, x: nat, y: nat)
    requires p != q
    ensures Encode(i.format, RgbOf(Picture(i, f, p, t, x, y))) == Encode(i.format, RgbOf(Picture(i, f, q, t, x, y)))
       <==> Inked(i, f, t, x, y)
  {
    ColorsDistinct(i.format, Picture(i, f, p, t, x, y), Picture(i, f, q, t, x, y));
  }

  lemma CellBounds(x: nat, y: nat, column: nat, row: nat)
    ensures InCell(x, y, column, row)
       <==> && column * GLYPH_WIDTH <= x < column * GLYPH_WIDTH + GLYPH_WIDTH
            && row * GLYPH_HEIGHT <= y < row * GLYPH_HEIGHT + GLYPH_HEIGHT
    ensures InCell(x, y, column, row)
      ==> x - column * GLYPH_WIDTH == x % GLYPH_WIDTH && y - row * GLYPH_HEIGHT == y % GLYPH_HEIGHT
  {
  }

  predicate InCell(x: nat, y: nat, column: nat, row: nat) {
    x / GLYPH_WIDTH == column && y / GLYPH_HEIGHT == row
  }

  lemma PictureAppend(i: Info, f: Font, paper: Color, t: Text, g: Cell, x: nat, y: nat)
    requires i.Usable()
    ensures Picture(i, f, paper, WithLast(t, Last(t) + [g]), x, y)
         == if InCell(x, y, |Last(t)|, Row(t, i.Rows()))
            then GlyphColor(f, g.code, g.ink, paper, x % GLYPH_WIDTH, y % GLYPH_HEIGHT)
            else Picture(i, f, paper, t, x, y)
  {
    WindowAppend(t, i.Rows(), g, y / GLYPH_HEIGHT, x / GLYPH_WIDTH);
  }

  lemma PictureRubOut(i: Info, f: Font, paper: Color, t: Text, x: nat, y: nat)
    requires i.Usable() && Last(t) != []
    ensures Picture(i, f, paper, RubOut(t), x, y)
         == if InCell(x, y, |Last(t)| - 1, Row(t, i.Rows())) then paper else Picture(i, f, paper, t, x, y)
  {
    WindowRubOut(t, i.Rows(), y / GLYPH_HEIGHT, x / GLYPH_WIDTH);
  }
}

module Console {
  import opened Machine
  import opened Terminal
  import opened Framebuffer

  /** The bytes `write_string` passes on: anything it cannot show becomes 0xfe. */
  function Shown(b: byte): byte {
    if 0x20 <= b <= 0x7e || b == NEWLINE || b == BACKSPACE then b else 0xfe
  }

  function Keys(bs: seq<byte>, ink: Color): seq<Key> {
    seq(|bs|, i requires 0 <= i < |bs| => Key(Shown(bs[i]), ink))
  }

  /** Bytes 0x20 to 0x7e. */
  predicate Ascii(bs: seq<byte>) {
    forall b | b in bs :: 0x20 <= b <= 0x7e
  }

  /** `ls.join("\n")` */
  function JoinLines(ls: seq<seq<byte>>): seq<byte>
    requires ls != []
    decreases |ls|
  {
    if |ls| == 1 then ls[0] else JoinLines(ls[..|ls| - 1]) + ([10] + ls[|ls| - 1])
  }

  function LinesIn(ls: seq<seq<byte>>, ink: Color): (ks: seq<seq<Key>>)
    ensures |ks| == |ls|
  {
    seq(|ls|, i requires 0 <= i < |ls| => Keys(ls[i], ink))
  }

  /** Exactly printable ASCII, line feeds and backspaces are typed as they are. */
  lemma KeysAsTheyAre(bs: seq<byte>, ink: Color)
    ensures Keys(bs, ink) == seq(|bs|, i requires 0 <= i < |bs| => Key(bs[i], ink))
       <==> forall b | b in bs :: 0x20 <= b <= 0x7e || b == 10 || b == 8 || b == 0xfe
    ensures Ascii(bs) ==> Printable(Keys(bs, ink))
  {
    var plain := seq(|bs|, i requires 0 <= i < |bs| => Key(bs[i], ink));
    assert forall i | 0 <= i < |bs| :: bs[i] in bs && plain[i] == Key(bs[i], ink);
    if Keys(bs, ink) == plain {
      forall b | b in bs ensures 0x20 <= b <= 0x7e || b == 10 || b == 8 || b == 0xfe {
        var i :| 0 <= i < |bs| && bs[i] == b;
        assert Keys(bs, ink)[i] == plain[i];
      }
    }
  }

  lemma KeysAppend(a: seq<byte>, b: seq<byte>, ink: Color)
    ensures Keys(a + ([10] + b), ink) == Keys(a, ink) + ([Key(10, ink)] + Keys(b, ink))
  {
  }

  lemma {:induction false} KeysOfLines(ls: seq<seq<byte>>, ink: Color)
    requires ls != []
    ensures Keys(JoinLines(ls), ink) == LineKeys(LinesIn(ls, ink), ink)
    decreases |ls|
  {
    var n := |ls| - 1;
    if n > 0 {
      KeysOfLines(ls[..n], ink);
      KeysAppend(JoinLines(ls[..n]), ls[n], ink);
      assert LinesIn(ls, ink)[..n] == LinesIn(ls[..n], ink);
    }
  }

  /** A text of printable ASCII lines fills rows with exactly its characters, each line from a row of
      its own on. */
  lemma TextWritten(t: Text, columns: nat, ls: seq<seq<byte>>, ink: Color)
    requires columns > 0 && Fits(t, columns) && ls != [] && forall l | l in ls :: Ascii(l)
    ensures TypeAll(t, columns, Keys(JoinLines(ls), ink))
         == t[..|t| - 1] + LineRows(Last(t), LinesIn(ls, ink), columns)
  {
    KeysOfLines(ls, ink);
    forall i | 0 <= i < |ls| ensures Printable(LinesIn(ls, ink)[i]) {
      assert ls[i] in ls;
      KeysAsTheyAre(ls[i], ink);
    }
    LinesTyped(t, columns, LinesIn(ls, ink), ink);
  }

  class Writer {
    const font: Font
    const info: Info
    const mem: array<byte>
    var column: nat
    var row: nat
    var foreground: Color
    var background: Color
    /** Everything typed since the last clear. */
    ghost var text: Text

    /** The bounds that hold in every reachable state, whatever the colours. */
    ghost predicate Bounded()
      reads this
    {
      && info.Usable() && mem.Length == info.byteLen && BlankSpace(font)
      && Fits(text, info.Columns())
      && column == |Last(text)| && row == Row(text, info.Rows())
    }

    ghost function PixelAt(x: nat, y: nat): Pixel
      requires info.Usable() && mem.Length == info.byteLen && info.Visible(x, y)
      reads mem
    {
      OffsetFits(info, x, y);
      var o := info.Offset(x, y);
      Pixel(mem[o], mem[o + 1], mem[o + 2], mem[o + 3])
    }

    /** A cell is wholly on the screen, and shows a glyph: the glyph's 16 bytes in the font from the
        top down, each from its most significant bit. */
    ghost predicate CellShows(code: byte, c: nat, r: nat)
      requires info.Usable() && mem.Length == info.byteLen
      reads this, mem
    {
      && c * 8 + 8 <= info.width && r * 16 + 16 <= info.height
      && forall x: nat, y: nat | c * 8 <= x < c * 8 + 8 && r * 16 <= y < r * 16 + 16 ::
           var lit := BitSet(font[code as nat * 16 + (y - r * 16)], 7 - (x - c * 8));
           PixelAt(x, y) == Encode(info.format, RgbOf(if lit then foreground else background))
    }

    /** Every visible pixel is the pixel of the text's picture. */
    ghost predicate Shows()
      requires Bounded()
      reads this, mem
    {
      forall x: nat, y: nat | info.Visible(x, y) ::
        PixelAt(x, y) == Encode(info.format, RgbOf(Picture(info, font, background, text, x, y)))
    }

    ghost predicate Valid()
      reads this, mem
    {
      Bounded() && Shows()
    }

    /** `Writer::init` on a fresh writer: white on black, and a cleared screen. */
    constructor (info: Info, mem: array<byte>, font: Font)
      requires info.Usable() && mem.Length == info.byteLen && BlankSpace(font)
      modifies mem
      ensures Valid() && text == [[]] && foreground == White && background == Black
      ensures this.info == info && this.mem == mem && this.font == font
    {
      this.info, this.mem, this.font := info, mem, font;
      foreground, background := White, Black;
      column, row, text := 0, 0, [[]];
      new;
      ClearScreen();
    }

    method WritePixel(x: nat, y: nat, c: Rgb)
      requires info.Usable() && mem.Length == info.byteLen
      modifies mem
      ensures forall x': nat, y': nat | info.Visible(x', y') ::
                PixelAt(x', y') == if x' == x && y' == y then Encode(info.format, c) else old(PixelAt(x', y'))
      ensures info.Visible(x, y) ==>
                var o := (y * info.stride + x) * 4;
                && o + 4 <= mem.Length
                && mem[o] == (if info.format == RgbOrder then c.red else c.blue)
                && mem[o + 1] == c.green
                && mem[o + 2] == (if info.format == RgbOrder then c.blue else c.red)
                && mem[o + 3] == 0
                && mem[..o] == old(mem[..o]) && mem[o + 4..] == old(mem[o + 4..])
      ensures !info.Visible(x, y) ==> mem[..] == old(mem[..])
    {
      if x >= info.width || y >= info.height {
        return;
      }
      var offset := info.Offset(x, y);
      var p := Encode(info.format, c);
      OffsetFits(info, x, y);
      mem[offset] := p.first;
      mem[offset + 1] := p.second;
      mem[offset + 2] := p.third;
      mem[offset + 3] := p.fourth;
      forall x': nat, y': nat | info.Visible(x', y') && (x', y') != (x, y)
        ensures PixelAt(x', y') == old(PixelAt(x', y'))
      {
        OffsetFits(info, x', y');
        OffsetsApart(info, x, y, x', y');
      }
    }

    /** Paints rows y0 up to the bottom of the screen in the background colour. */
    method FillFrom(y0: nat)
      requires info.Usable() && mem.Length == info.byteLen && y0 <= info.height
      modifies mem
      ensures forall x: nat, y: nat | info.Visible(x, y) ::
                PixelAt(x, y) == if y >= y0 then Encode(info.format, RgbOf(background)) else old(PixelAt(x, y))
    {
      var color := RgbOf(background);
      for y := y0 to info.height
        invariant forall x': nat, y': nat | info.Visible(x', y') ::
                    PixelAt(x', y') == if y0 <= y' < y then Encode(info.format, color) else old(PixelAt(x', y'))
      {
        for x := 0 to info.width
          invariant forall x': nat, y': nat | info.Visible(x', y') ::
                      PixelAt(x', y') == if y0 <= y' < y || (y' == y && x' < x)
                                         then Encode(info.format, color) else old(PixelAt(x', y'))
        {
          WritePixel(x, y, color);
        }
      }
    }

    method ClearScreen()
      requires Bounded()
      modifies this`column, this`row, this`text, mem
      ensures Valid() && text == [[]]
      ensures forall x: nat, y: nat | info.Visible(x, y) :: PixelAt(x, y) == Encode(info.format, RgbOf(background))
    {
      FillFrom(0);
      column := 0;
      row := 0;
      text := [[]];
    }

    /** The overlapping ascending copy at the start of `scroll`, over bytes. */
    method CopyDown(scrollBytes: nat)
      requires scrollBytes <= mem.Length
      modifies mem
      ensures forall k | 0 <= k < mem.Length - scrollBytes :: mem[k] == old(mem[k + scrollBytes])
    {
      for index := 0 to mem.Length - scrollBytes
        invariant forall k | 0 <= k < index :: mem[k] == old(mem[k + scrollBytes])
        invariant forall k | index <= k < mem.Length :: mem[k] == old(mem[k])
      {
        mem[index] := mem[index + scrollBytes];
      }
    }

    /** The same over pixels: what is 16 rows down comes up. */
    method MoveUp()
      requires info.Usable() && mem.Length == info.byteLen
      modifies mem
      ensures forall x: nat, y: nat | info.Visible(x, y + GLYPH_HEIGHT) ::
                PixelAt(x, y) == old(PixelAt(x, y + GLYPH_HEIGHT))
    {
      var rowBytes := info.stride * 4;
      var scrollBytes := GLYPH_HEIGHT * rowBytes;
      // A usable framebuffer is at least one glyph high, so the saturating subtraction never saturates.
      assert scrollBytes <= info.byteLen by {
        ScrollFits(info);
      }
      CopyDown(scrollBytes);
      forall x: nat, y: nat | info.Visible(x, y + GLYPH_HEIGHT)
        ensures PixelAt(x, y) == old(PixelAt(x, y + GLYPH_HEIGHT))
      {
        OffsetBelow(info, x, y);
        OffsetFits(info, x, y + GLYPH_HEIGHT);
      }
    }

    /** The rows below the last text row have one colour. */
    ghost predicate Margin(c: Color)
      requires info.Usable() && mem.Length == info.byteLen
      reads mem
    {
      forall x: nat, y: nat | info.Visible(x, y) && y >= info.Rows() * GLYPH_HEIGHT ::
        PixelAt(x, y) == Encode(info.format, RgbOf(c))
    }

    /** The last text row has one colour. */
    ghost predicate LastRow(c: Color)
      requires info.Usable() && mem.Length == info.byteLen
      reads mem
    {
      forall x: nat, y: nat | info.Visible(x, y) && y / GLYPH_HEIGHT == info.Rows() - 1 ::
        PixelAt(x, y) == Encode(info.format, RgbOf(c))
    }

    /** The last clause: over a bottom margin of some colour, the new last row is blank if and only
        if that colour is the background or there is no such margin. */
    method Scroll()
      requires info.Usable() && mem.Length == info.byteLen
      modifies this`row, mem
      ensures row == info.Rows() - 1
      ensures forall x: nat, y: nat | info.Visible(x, y) ::
                PixelAt(x, y) == if y + GLYPH_HEIGHT < info.height then old(PixelAt(x, y + GLYPH_HEIGHT))
                                 else Encode(info.format, RgbOf(background))
      ensures forall c | old(Margin(c)) ::
                LastRow(background) <==> c == background || info.height % GLYPH_HEIGHT == 0
    {
      MoveUp();
      FillFrom(info.height - GLYPH_HEIGHT);
      row := info.height / GLYPH_HEIGHT - 1;
      ghost var y := (info.Rows() - 1) * GLYPH_HEIGHT;
      assert info.Visible(0, y) && y / GLYPH_HEIGHT == info.Rows() - 1;
      forall c | old(Margin(c))
        ensures LastRow(background) <==> c == background || info.height % GLYPH_HEIGHT == 0
      {
        ColorsDistinct(info.format, c, background);
        if info.height % GLYPH_HEIGHT != 0 {
          assert info.Visible(0, y + GLYPH_HEIGHT);
          assert PixelAt(0, y) == old(PixelAt(0, y + GLYPH_HEIGHT));
        }
      }
    }

    method NewLine()
      requires Bounded()
      modifies this`column, this`row, this`text, mem
      ensures Bounded() && text == old(text) + [[]]
      ensures old(Valid()) ==> Valid()
    {
      column := 0;
      row := row + 1;
      if row >= info.Rows() {
        Scroll();
        forall x: nat, y: nat | info.Visible(x, y)
          ensures Picture(info, font, background, text + [[]], x, y)
               == if y + GLYPH_HEIGHT < info.height
                  then Picture(info, font, background, text, x, y + GLYPH_HEIGHT) else background
        {
          PictureScrolls(info, font, background, text, x, y);
        }
      } else {
        forall x: nat, y: nat | info.Visible(x, y)
          ensures Picture(info, font, background, text + [[]], x, y) == Picture(info, font, background, text, x, y)
        {
          WindowNewLine(text, info.Rows(), y / GLYPH_HEIGHT, x / GLYPH_WIDTH);
        }
      }
      text := text + [[]];
    }

    /** What pixel (gx, gy) of a glyph looks like in the current colours. */
    ghost function Drawn(code: byte, gx: nat, gy: nat): Pixel
      requires gx < GLYPH_WIDTH && gy < GLYPH_HEIGHT
      reads this
    {
      Encode(info.format, RgbOf(GlyphColor(font, code, foreground, background, gx, gy)))
    }

    method DrawGlyph(code: byte, x: nat, y: nat)
      requires info.Usable() && mem.Length == info.byteLen
      modifies mem
      ensures forall x': nat, y': nat | info.Visible(x', y') ::
                PixelAt(x', y') == if x <= x' < x + GLYPH_WIDTH && y <= y' < y + GLYPH_HEIGHT
                                   then Drawn(code, x' - x, y' - y) else old(PixelAt(x', y'))
    {
      for gy := 0 to GLYPH_HEIGHT
        invariant forall x': nat, y': nat | info.Visible(x', y') ::
                    PixelAt(x', y') == if x <= x' < x + GLYPH_WIDTH && y <= y' < y + gy
                                       then Drawn(code, x' - x, y' - y) else old(PixelAt(x', y'))
      {
        var bits := font[code as nat * GLYPH_HEIGHT + gy];
        for gx := 0 to GLYPH_WIDTH
          invariant forall x': nat, y': nat | info.Visible(x', y') ::
                      PixelAt(x', y') == if && x <= x' < x + GLYPH_WIDTH && y <= y' <= y + gy
                                            && (y' == y + gy ==> x' < x + gx)
                                         then Drawn(code, x' - x, y' - y) else old(PixelAt(x', y'))
        {
          var color := if Lit(bits, gx) then foreground else background;
          WritePixel(x + gx, y + gy, RgbOf(color));
        }
      }
    }

    lemma GlyphInPixel(code: byte, x: nat, y: nat, c: nat, r: nat)
      requires c * 8 <= x < c * 8 + 8 && r * 16 <= y < r * 16 + 16
      ensures InCell(x, y, c, r)
      ensures Drawn(code, x % GLYPH_WIDTH, y % GLYPH_HEIGHT)
           == Encode(info.format, RgbOf(if BitSet(font[code as nat * 16 + (y - r * 16)], 7 - (x - c * 8))
                                        then foreground else background))
    {
      CellBounds(x, y, c, r);
      GlyphPixel(font, code, foreground, background, x - c * 8, y - r * 16);
    }

    /** What the pixels of a drawn cell show. */
    lemma GlyphInCell(code: byte, c: nat, r: nat)
      requires info.Usable() && mem.Length == info.byteLen && c < info.Columns() && r < info.Rows()
      requires forall x: nat, y: nat | info.Visible(x, y) && InCell(x, y, c, r) ::
                 PixelAt(x, y) == Drawn(code, x % GLYPH_WIDTH, y % GLYPH_HEIGHT)
      ensures CellShows(code, c, r)
    {
      GridOnScreen(info, c, r);
      forall x: nat, y: nat | c * 8 <= x < c * 8 + 8 && r * 16 <= y < r * 16 + 16
        ensures info.Visible(x, y)
        ensures PixelAt(x, y)
             == Encode(info.format, RgbOf(if BitSet(font[code as nat * 16 + (y - r * 16)], 7 - (x - c * 8))
                                          then foreground else background))
      {
        GlyphInPixel(code, x, y, c, r);
      }
    }

    /** `draw_glyph` at a cell of the grid. */
    method DrawCell(code: byte, c: nat, r: nat)
      requires info.Usable() && mem.Length == info.byteLen && c < info.Columns() && r < info.Rows()
      modifies mem
      ensures forall x: nat, y: nat | info.Visible(x, y) ::
                PixelAt(x, y) == if InCell(x, y, c, r) then Drawn(code, x % GLYPH_WIDTH, y % GLYPH_HEIGHT)
                                 else old(PixelAt(x, y))
      ensures CellShows(code, c, r)
    {
      DrawGlyph(code, c * GLYPH_WIDTH, r * GLYPH_HEIGHT);
      forall x: nat, y: nat { CellBounds(x, y, c, r); }
      GlyphInCell(code, c, r);
    }

    method Backspace()
      requires Bounded()
      modifies this`column, this`text, mem
      ensures Bounded() && text == RubOut(old(text))
      ensures old(Valid()) ==> Valid()
      ensures old(column) > 0 ==> column == old(column) - 1 && CellShows(0x20, column, row)
      ensures old(column) == 0 ==> column == 0 && mem[..] == old(mem[..])
    {
      if column == 0 {
        return;
      }
      column := column - 1;
      DrawCell(SPACE, column, row);
      forall x: nat, y: nat | info.Visible(x, y)
        ensures Picture(info, font, background, RubOut(text), x, y)
             == if InCell(x, y, column, row) then background else Picture(info, font, background, text, x, y)
      {
        PictureRubOut(info, font, background, text, x, y);
      }
      forall gx: nat, gy: nat | gx < GLYPH_WIDTH && gy < GLYPH_HEIGHT
        ensures GlyphColor(font, SPACE, foreground, background, gx, gy) == background
      {
        SpaceIsBlank(font, foreground, background, gx, gy);
      }
      text := RubOut(text);
    }

    /** The end of `write_byte`: the glyph goes where the cursor is, and the cursor moves on. */
    method PlaceGlyph(code: byte)
      requires Bounded() && column < info.Columns()
      modifies this`column, this`text, mem
      ensures Bounded() && text == WithLast(old(text), Last(old(text)) + [Glyph(code, foreground)])
      ensures old(Valid()) ==> Valid()
      ensures column == old(column) + 1 && CellShows(code, old(column), row)
      ensures forall x: nat, y: nat | info.Visible(x, y) ::
                PixelAt(x, y) == old(PixelAt(x, y)) || (x / 8 == old(column) && y / 16 == row)
    {
      DrawCell(code, column, row);
      ghost var g := Glyph(code, foreground);
      forall x: nat, y: nat | info.Visible(x, y)
        ensures Picture(info, font, background, WithLast(text, Last(text) + [g]), x, y)
             == if InCell(x, y, column, row)
                then GlyphColor(font, code, foreground, background, x % GLYPH_WIDTH, y % GLYPH_HEIGHT)
                else Picture(info, font, background, text, x, y)
      {
        PictureAppend(info, font, background, text, g, x, y);
      }
      text := WithLast(text, Last(text) + [g]);
      column := column + 1;
    }

    method WriteByte(b: byte)
      requires Bounded()
      modifies this`column, this`row, this`text, mem
      ensures Bounded() && text == Type(old(text), info.Columns(), Key(b, foreground))
      ensures old(Valid()) ==> Valid()
      ensures b != 10 && b != 8 ==> column > 0 && CellShows(b, column - 1, row)
      ensures b != 10 && b != 8 && old(column) * 8 + 8 <= info.width ==>
                && column == old(column) + 1 && row == old(row)
                && forall x: nat, y: nat | info.Visible(x, y) ::
                     PixelAt(x, y) == old(PixelAt(x, y)) || (x / 8 == old(column) && y / 16 == row)
    {
      if b == NEWLINE {
        NewLine();
      } else if b == BACKSPACE {
        Backspace();
      } else {
        if column >= info.Columns() {
          NewLine();
        }
        if row >= info.Rows() {
          assert false;  // the second scroll test of `write_byte` never fires
        }
        PlaceGlyph(b);
      }
    }

    method WriteString(bs: seq<byte>)
      requires Bounded()
      modifies this`column, this`row, this`text, mem
      ensures Bounded() && text == TypeAll(old(text), info.Columns(), Keys(bs, foreground))
      ensures old(Valid()) ==> Valid()
    {
      for i := 0 to |bs|
        invariant Bounded() && (old(Valid()) ==> Valid())
        invariant text == TypeAll(old(text), info.Columns(), Keys(bs, foreground)[..i])
      {
        WriteByte(Shown(bs[i]));
        assert Keys(bs, foreground)[..i + 1][..i] == Keys(bs, foreground)[..i];
      }
      assert Keys(bs, foreground)[..|bs|] == Keys(bs, foreground);
    }

    /** The screen goes on showing the text exactly when the background stays or shows nowhere. */
    method SetColors(ink: Color, paper: Color)
      requires Bounded()
      modifies this`foreground, this`background
      ensures Bounded() && foreground == ink && background == paper
      ensures old(Valid()) ==> (Valid() <==> paper == old(background) || AllInk(info, font, text))
    {
      if paper != background {
        forall x: nat, y: nat | info.Visible(x, y)
          ensures Encode(info.format, RgbOf(Picture(info, font, background, text, x, y)))
               == Encode(info.format, RgbOf(Picture(info, font, paper, text, x, y)))
             <==> Inked(info, font, text, x, y)
        {
          OtherPaper(info, font, background, paper, text, x, y);
        }
      }
      foreground := ink;
      background := paper;
    }
  }

  /** From the boot to the screen: printable ASCII lines, on any geometry, are shown in white rows of
      `width / 8` glyphs, the last `height / 16` of them. */
  method ShowText(info: Info, mem: array<byte>, font: Font, ls: seq<seq<byte>>) returns (w: Writer)
    requires info.Usable() && mem.Length == info.byteLen && BlankSpace(font)
    requires ls != [] && forall l | l in ls :: Ascii(l)
    modifies mem
    ensures fresh(w) && w.info == info && w.mem == mem && w.font == font
    ensures w.Valid() && w.text == LineRows([], LinesIn(ls, White), info.width / 8)
  {
    w := new Writer(info, mem, font);
    TextWritten(w.text, info.Columns(), ls, White);
    w.WriteString(JoinLines(ls));
    assert w.text == [] + LineRows([], LinesIn(ls, White), info.width / 8);
  }

  /** It happens: on any screen, a new background right after the boot leaves a screen that no longer
      shows the (empty) text. */
  method RecolorAfterBoot(info: Info, mem: array<byte>, font: Font) returns (w: Writer)
    requires info.Usable() && mem.Length == info.byteLen && BlankSpace(font)
    modifies mem
    ensures fresh(w) && w.Bounded() && w.text == [[]] && !w.Valid()
    ensures w.info == info && w.mem == mem && w.background == Green && w.Margin(Black)
  {
    w := new Writer(info, mem, font);
    assert info.Visible(0, 0) && !Inked(info, font, w.text, 0, 0);
    w.SetColors(White, Green);
  }

  /** And where the height is not a multiple of 16, a scroll on such a screen opens a row that is not
      blank. */
  method ScrollAfterRecolor(info: Info, mem: array<byte>, font: Font) returns (w: Writer)
    requires info.Usable() && mem.Length == info.byteLen && BlankSpace(font) && info.height % GLYPH_HEIGHT != 0
    modifies mem
    ensures fresh(w) && w.info == info && w.mem == mem && !w.LastRow(w.background)
  {
    w := RecolorAfterBoot(info, mem, font);
    w.Scroll();
  }
}
