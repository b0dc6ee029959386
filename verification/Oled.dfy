/** Text on the display: lib/ssd1306xled/ssd1306xled/yos_ssd1306_font.c, whose loops compute glyph
    positions in 8- and 16-bit arithmetic, against a description of the picture. */
module Oled {
  import opened Arith

  const WIDTH := 128
  const HEIGHT := 64
  const UNIT := 8
  const PAGES := HEIGHT / UNIT
  const U16 := 0x1_0000

  /** `struct yos_ssd1306_font`; `data` is what get_font_byte reads, if there is one. */
  datatype Font =
    | NullFont
    | Font(width: nat, height: nat, rowTake: nat, startChar: int, dataLen: nat, data: seq<Byte>, hasGetter: bool)

  function FontByte(f: Font, index: nat): Byte
    requires f.Font?
  {
    if index < |f.data| then f.data[index] else 0
  }

  function Cell(f: Font): nat
    requires f.Font?
  {
    f.width * f.rowTake
  }

  /** A font that holds whole glyphs, few and small enough for 16-bit positions: a character before the
      first one wraps to a position past the end, never to another glyph. */
  ghost predicate FontOk(f: Font) {
    && f.Font? && f.hasGetter && 0 < f.width && 0 < f.height && 0 < f.rowTake
    && 0 <= f.startChar < 128 && |f.data| == f.dataLen
    && 0 < Cell(f) <= 256 && f.dataLen % Cell(f) == 0
    && f.dataLen + 255 * Cell(f) <= U16
  }

  /** The two fonts shipped: 92 glyphs of 6 by 8, and 95 of 8 by 16. */
  lemma ShippedFontsAreOk(small: seq<Byte>, large: seq<Byte>)
    requires |small| == 552 && |large| == 1520
    ensures FontOk(Font(6, 8, 1, 0x20, 552, small, true))
    ensures FontOk(Font(8, 16, 2, 0x20, 1520, large, true))
  {
  }

  predicate HasGlyph(f: Font, ch: int)
    requires f.Font? && 0 < Cell(f)
  {
    0 <= ch - f.startChar < f.dataLen / Cell(f)
  }

  /** A `char`, signed or unsigned. */
  predicate IsChar(ch: int) {
    -128 <= ch < 256
  }

  // ----- The picture -----

  datatype Option<T> = None | Some(value: T)

  /** `_yos_ssd1306_is_out_of_range` */
  predicate OutOfRange(f: Font, x: nat, y: nat)
    requires f.Font?
  {
    x + f.width >= WIDTH || y + f.rowTake > PAGES
  }

  /** The characters that get a cell, from column `x` on. */
  function Visible(f: Font, x: nat, y: nat, s: seq<int>): seq<int>
    requires f.Font?
    decreases |s|
  {
    if s == [] || OutOfRange(f, x, y) then [] else [s[0]] + Visible(f, x + f.width, y, s[1..])
  }

  predicate InCell(f: Font, x: nat, y: nat, p: nat, c: nat)
    requires f.Font?
  {
    y <= p < y + f.rowTake && x <= c < x + f.width
  }

  /** Where the code reads row `j` of a character from, in 16-bit arithmetic. */
  function RowStart(f: Font, ch: int, j: nat): (start: nat)
    requires f.Font?
    ensures start < 0x1_0000
  {
    ((ch - f.startChar) * Cell(f) + j * f.width) % U16
  }

  /** What a character puts at row `j`, byte `i` of its cell, in any font: nothing past the font's data. */
  function Shown(f: Font, ch: int, j: nat, i: nat): Option<Byte>
    requires f.Font?
  {
    var at := RowStart(f, ch, j) + i;
    if at < f.dataLen then Some(FontByte(f, at)) else None
  }

  /** That is byte `i` of row `j` of its own glyph, at its place in the font's data; or nothing, if the
      data holds no glyph for it. */
  ghost predicate IsOwnGlyph(f: Font, ch: int, j: nat, i: nat, drawn: Option<Byte>)
    requires f.Font?
  {
    var g, cell := ch - f.startChar, f.width * f.rowTake;
    if 0 <= g && (g + 1) * cell <= |f.data| then
      var at := g * cell + j * f.width + i;
      0 <= at < |f.data| && drawn == Some(f.data[at])
    else drawn == None
  }

  /** What the characters of `s` from `n` up to `m`, in cells from column `x` on, put at page `p` and
      column `c`. */
  function Drawn(f: Font, x: nat, y: nat, s: seq<int>, n: nat, m: nat, p: nat, c: nat): Option<Byte>
    requires f.Font? && m <= |s|
    decreases if n < m then m - n else 0
  {
    if n >= m then None
    else if InCell(f, x, y, p, c) then Shown(f, s[n], p - y, c - x)
    else Drawn(f, x + f.width, y, s, n + 1, m, p, c)
  }

  function Over(was: Byte, drawn: Option<Byte>): Byte {
    if drawn.Some? then drawn.value else was
  }

  /** How many characters fit. */
  function Count(f: Font, x: nat, y: nat, len: nat): nat
    requires f.Font? && 0 < f.width
    ensures Count(f, x, y, len) <= len
  {
    if x > WIDTH - 1 || y + f.rowTake > PAGES then 0 else Min(len, (WIDTH - 1 - x) / f.width)
  }

  lemma CountNext(f: Font, x: nat, y: nat, len: nat)
    requires f.Font? && 0 < f.width && 0 < len
    ensures Count(f, x, y, len) == if OutOfRange(f, x, y) then 0 else 1 + Count(f, x + f.width, y, len - 1)
  {
    if !OutOfRange(f, x, y) {
      DivStep(WIDTH - 1 - x - f.width, f.width);
    } else if x <= WIDTH - 1 && y + f.rowTake <= PAGES {
      DivSmall(WIDTH - 1 - x, f.width);
    }
  }

  /** Exactly the first min(len, (127 - x) / width) characters get a cell. */
  lemma {:induction false} VisibleIsCount(f: Font, x: nat, y: nat, s: seq<int>)
    requires f.Font? && 0 < f.width
    ensures Count(f, x, y, |s|) <= |s| && Visible(f, x, y, s) == s[..Count(f, x, y, |s|)]
    decreases |s|
  {
    if s != [] {
      CountNext(f, x, y, |s|);
      if !OutOfRange(f, x, y) {
        VisibleIsCount(f, x + f.width, y, s[1..]);
      }
    }
  }

  /** Cells to the right leave everything to their left alone. */
  lemma {:induction false} NothingToTheLeft(f: Font, x: nat, y: nat, s: seq<int>, n: nat, m: nat, p: nat, c: nat)
    requires f.Font? && m <= |s| && (c < x || !(y <= p < y + f.rowTake))
    ensures Drawn(f, x, y, s, n, m, p, c) == None
    decreases if n < m then m - n else 0
  {
    if n < m { NothingToTheLeft(f, x + f.width, y, s, n + 1, m, p, c); }
  }

  /** The picture in closed form: cell `k` is at column x + k * width and holds what character `k` shows,
      or what was there before; outside the cells nothing is drawn. */
  lemma {:induction false} DrawnCell(f: Font, x: nat, y: nat, s: seq<int>, n: nat, m: nat, k: nat, j: nat, i: nat)
    requires f.Font? && n + k < m <= |s| && j < f.rowTake && i < f.width
    ensures Drawn(f, x, y, s, n, m, y + j, x + k * f.width + i) == Shown(f, s[n + k], j, i)
    decreases k
  {
    if k > 0 {
      MultiplesApart(0, k, f.width);
      OneMore(k - 1, f.width);
      DrawnCell(f, x + f.width, y, s, n + 1, m, k - 1, j, i);
    }
  }

  lemma {:induction false} DrawnOutside(f: Font, x: nat, y: nat, s: seq<int>, n: nat, m: nat, p: nat, c: nat)
    requires f.Font? && n <= m <= |s| && !(y <= p < y + f.rowTake && x <= c < x + (m - n) * f.width)
    ensures Drawn(f, x, y, s, n, m, p, c) == None
    decreases m - n
  {
    if n < m {
      OneMore(m - n - 1, f.width);
      DrawnOutside(f, x + f.width, y, s, n + 1, m, p, c);
    }
  }

  /** In a font that is fit for 16-bit positions, that is the character's own glyph, byte for byte. */
  lemma DrawnGlyph(f: Font, x: nat, y: nat, s: seq<int>, m: nat, k: nat, j: nat, i: nat)
    requires FontOk(f) && k < m <= |s| && IsChar(s[k]) && j < f.rowTake && i < f.width
    ensures IsOwnGlyph(f, s[k], j, i, Drawn(f, x, y, s, 0, m, y + j, x + k * f.width + i))
  {
    DrawnCell(f, x, y, s, 0, m, k, j, i);
    ShownIsGlyph(f, s[k], j, i);
  }

  /** The last character drawn ends by column 126 and its rows by page 7; one more would not fit. */
  lemma CountIsExact(f: Font, x: nat, y: nat, len: nat)
    requires f.Font? && 0 < f.width
    ensures var n := Count(f, x, y, len);
            && n <= len && (n > 0 ==> y + f.rowTake <= 8 && x + n * f.width <= 127)
            && (n < len ==> y + f.rowTake > 8 || x + (n + 1) * f.width >= 128)
  {
    var n := Count(f, x, y, len);
    if n > 0 {
      DivBounds(127 - x, f.width);
      MultiplesApart(n, (127 - x) / f.width, f.width);
    }
    if n < len { NextDoesNotFit(f, x, y, n); }
  }

  lemma NextDoesNotFit(f: Font, x: nat, y: nat, n: nat)
    requires f.Font? && 0 < f.width
    requires x <= 127 && y + f.rowTake <= 8 ==> n == (127 - x) / f.width
    ensures y + f.rowTake > 8 || x + (n + 1) * f.width >= 128
  {
    if x <= 127 {
      DivBounds(127 - x, f.width);
    } else {
      OneMore(n, f.width);
      MultiplesApart(0, n, f.width);
    }
  }

  // ----- The display and the code -----

  class Display {
    const fb: array2<Byte>
    var page: nat
    var col: nat

    constructor ()
      ensures Valid() && fresh(fb) && fb.Length0 == 8 && fb.Length1 == 128
    {
      fb := new Byte[PAGES, WIDTH]((_, _) => 0);
      page, col := 0, 0;
    }

    ghost predicate Valid()
      reads this
    {
      fb.Length0 == PAGES && fb.Length1 == WIDTH && page < PAGES && col < WIDTH
    }

    /** `ssd1306_setpos`, as moving a cursor */
    method SetPos(x: nat, y: nat)
      requires Valid() && x < WIDTH
      modifies this`page, this`col
      ensures Valid() && page == y % PAGES && col == x
    {
      page := y % PAGES;
      col := x;
    }

    /** `ssd1306_byte` in a data transaction: one byte at the cursor, which moves on */
    method SendByte(b: Byte)
      requires Valid()
      modifies this`page, this`col, fb
      ensures Valid()
      ensures forall p, c :: 0 <= p < PAGES && 0 <= c < WIDTH ==>
                fb[p, c] == if p == old(page) && c == old(col) then b else old(fb[p, c])
      ensures old(col) + 1 < WIDTH ==> page == old(page) && col == old(col) + 1
    {
      fb[page, col] := b;
      if col + 1 < WIDTH {
        col := col + 1;
      } else {
        page, col := (page + 1) % PAGES, 0;
      }
    }

    /** One row of a character: the inner loop of `yos_ssd1306_puts` */
    method PutRow(f: Font, x: nat, y: nat, index: nat)
      requires Valid() && f.Font? && x + f.width < WIDTH && y < PAGES
      modifies this`page, this`col, fb
      ensures Valid()
      ensures forall p, c :: 0 <= p < PAGES && 0 <= c < WIDTH ==>
                fb[p, c] == if p == y && x <= c < x + f.width && index + (c - x) < f.dataLen then FontByte(f, index + (c - x))
                            else old(fb[p, c])
    {
      var i := 0;
      SetPos(x, y);
      while i < f.width
        invariant Valid() && 0 <= i <= f.width && (i < f.width ==> page == y && col == x + i)
        invariant i > 0 ==> index + i - 1 < f.dataLen
        invariant forall p, c :: 0 <= p < PAGES && 0 <= c < WIDTH ==>
          fb[p, c] == if p == y && x <= c < x + i then FontByte(f, index + (c - x)) else old(fb[p, c])
      {
        if index + i < f.dataLen {
          SendByte(FontByte(f, index + i));
        } else {
          break;
        }
        i := i + 1;
      }
    }

    /** One character: the body of the outer loop */
    method PutChar(f: Font, x: nat, y: nat, ch: int)
      requires Valid() && f.Font? && !OutOfRange(f, x, y)
      modifies this`page, this`col, fb
      ensures Valid()
      ensures forall p, c :: 0 <= p < PAGES && 0 <= c < WIDTH ==>
                var d := if InCell(f, x, y, p, c) then Shown(f, ch, p - y, c - x) else None;
                fb[p, c] == if d.Some? then d.value else old(fb[p, c])
    {
      var index := ((ch - f.startChar) * Cell(f)) % U16;
      var j := 0;
      while j < f.rowTake
        invariant Valid() && 0 <= j <= f.rowTake && index == RowStart(f, ch, j)
        invariant forall p, c :: 0 <= p < PAGES && 0 <= c < WIDTH ==>
          fb[p, c] == if y <= p < y + j && x <= c < x + f.width then Over(old(fb[p, c]), Shown(f, ch, p - y, c - x))
                      else old(fb[p, c])
      {
        PutRow(f, x, y + j, index);
        RowNext(f, ch, j);
        index := (index + f.width) % U16;
        j := j + 1;
      }
    }

    /** `yos_ssd1306_puts`. Exactly the characters that fit are drawn, one cell each, and nothing else
        changes. */
    method Puts(f: Font, x0: nat, y: nat, str: Option<seq<int>>)
      requires Valid() && x0 < 256 && y < 256
      modifies this`page, this`col, fb
      ensures Valid()
      ensures !(f.Font? && str.Some? && f.hasGetter && f.width > 0 && f.height > 0) ==>
                forall p, c :: 0 <= p < PAGES && 0 <= c < WIDTH ==> fb[p, c] == old(fb[p, c])
      ensures f.Font? && str.Some? && f.hasGetter && f.width > 0 && f.height > 0 ==>
                forall p, c :: 0 <= p < PAGES && 0 <= c < WIDTH ==>
                  var d := Drawn(f, x0, y, str.value, 0, Count(f, x0, y, |str.value|), p, c);
                  fb[p, c] == if d.Some? then d.value else old(fb[p, c])
    {
      if f.NullFont? || str.None? || f.width == 0 || f.height == 0 || !f.hasGetter {
        return;
      }
      var s := str.value;
      var x, n := x0, 0;
      ghost var m := Count(f, x0, y, |s|);
      while n < |s|
        invariant Valid() && 0 <= n <= m <= |s| && 0 <= x < 256 && m == n + Count(f, x, y, |s| - n)
        invariant forall p, c :: 0 <= p < PAGES && 0 <= c < WIDTH ==>
          Over(fb[p, c], Drawn(f, x, y, s, n, m, p, c)) == Over(old(fb[p, c]), Drawn(f, x0, y, s, 0, m, p, c))
      {
        CountNext(f, x, y, |s| - n);
        if OutOfRange(f, x, y) {
          break;
        }
        forall p, c | 0 <= p < PAGES && 0 <= c < WIDTH && InCell(f, x, y, p, c)
          ensures Drawn(f, x + f.width, y, s, n + 1, m, p, c) == None
        {
          NothingToTheLeft(f, x + f.width, y, s, n + 1, m, p, c);
        }
        PutChar(f, x, y, s[n]);
        x := (x + f.width) % 256;
        n := n + 1;
      }
    }
  }

  /** Where 16-bit arithmetic puts a glyph: in its place, or past all the data. */
  lemma GlyphPosition(f: Font, ch: int)
    requires FontOk(f) && IsChar(ch)
    ensures var start := ((ch - f.startChar) * Cell(f)) % U16;
            && start + Cell(f) <= U16
            && (HasGlyph(f, ch) ==> start == (ch - f.startChar) * Cell(f) && start + Cell(f) <= f.dataLen)
            && (!HasGlyph(f, ch) ==> f.dataLen <= start)
  {
    WholeGlyphs(f.dataLen, Cell(f));
    var d, g, n := ch - f.startChar, Cell(f), f.dataLen / Cell(f);
    GlyphOffset(d, n, g);
    WrapOnce(d * g);
  }

  lemma WholeGlyphs(len: nat, g: nat)
    requires 0 < g && len % g == 0
    ensures 0 <= len / g && len == (len / g) * g
  {
  }

  lemma WrapOnce(v: int)
    requires -U16 <= v < U16
    ensures v % U16 == if v < 0 then v + U16 else v
  {
  }

  /** Cell `d` among `n`: in its place, past the last one, or before the first one. */
  lemma GlyphOffset(d: int, n: nat, g: nat)
    requires 0 < g <= 256 && -256 < d < 256 && n * g + 255 * g <= U16
    ensures 0 <= d < n ==> 0 <= d * g && d * g + g <= n * g
    ensures n <= d ==> n * g <= d * g
    ensures 0 <= d ==> 0 <= d * g && d * g + g <= U16
    ensures d < 0 ==> n * g <= d * g + U16 && d * g + g <= 0
  {
    if d >= 0 {
      MultiplesApart(d, n, g);
      MultiplesApart(n, d, g);
      MultiplesApart(d, 256, g);
    } else {
      MultiplesApart(0, -d, g);
      MultiplesApart(-d, 255, g);
      assert d * g == -((-d) * g);
    }
  }

  /** Row `j` starts `j` widths after its glyph, with no wrap on the way; what the code's bound check lets
      through is the character's own glyph if it has one, and nothing if it has none. */
  lemma ShownIsGlyph(f: Font, ch: int, j: nat, i: nat)
    requires FontOk(f) && IsChar(ch) && j < f.rowTake && i < f.width
    ensures IsOwnGlyph(f, ch, j, i, Shown(f, ch, j, i))
  {
    var offset, row := (ch - f.startChar) * Cell(f), j * f.width;
    GlyphPosition(f, ch);
    GlyphCount(f, ch);
    RowInCell(f.width, f.rowTake, j);
    NoWrap(offset, row);
    GlyphAt(f, ch, j, i, offset, row);
  }

  /** A glyph number is in the font if its glyph ends within the data. */
  lemma GlyphCount(f: Font, ch: int)
    requires FontOk(f)
    ensures HasGlyph(f, ch) <==> 0 <= ch - f.startChar && (ch - f.startChar + 1) * (f.width * f.rowTake) <= |f.data|
  {
    var g, n := ch - f.startChar, f.dataLen / Cell(f);
    WholeGlyphs(f.dataLen, Cell(f));
    if g >= 0 {
      MultiplesApart(g + 1, n, Cell(f));
      MultiplesApart(n, g + 1, Cell(f));
    }
  }

  lemma NoWrap(x: int, y: nat)
    requires x % U16 + y < U16
    ensures (x + y) % U16 == x % U16 + y
  {
    ModAdd(x, y);
  }

  lemma GlyphAt(f: Font, ch: int, j: nat, i: nat, offset: int, row: nat)
    requires FontOk(f) && offset == (ch - f.startChar) * Cell(f) && row == j * f.width
    requires row + i < Cell(f) && RowStart(f, ch, j) == offset % U16 + row
    requires HasGlyph(f, ch) ==> offset >= 0 && offset % U16 == offset && offset + Cell(f) <= f.dataLen
    requires !HasGlyph(f, ch) ==> f.dataLen <= offset % U16
    requires HasGlyph(f, ch) <==> 0 <= ch - f.startChar && (ch - f.startChar + 1) * (f.width * f.rowTake) <= |f.data|
    ensures IsOwnGlyph(f, ch, j, i, Shown(f, ch, j, i))
  {
  }

  lemma RowInCell(width: nat, rows: nat, j: nat)
    requires j < rows
    ensures j * width + width <= width * rows
  {
    MultiplesApart(j, rows, width);
  }

  lemma ModAdd(x: int, y: int)
    ensures (x % U16 + y) % U16 == (x + y) % U16
  {
  }

  lemma RowNext(f: Font, ch: int, j: nat)
    requires f.Font?
    ensures (RowStart(f, ch, j) + f.width) % U16 == RowStart(f, ch, j + 1)
  {
    OneMore(j, f.width);
    ModAdd((ch - f.startChar) * Cell(f) + j * f.width, f.width);
  }
}
