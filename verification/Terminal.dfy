/** The text-mode terminal: 80 columns, 20 rows, wrapping and scrolling. */
module Terminal {
  import opened MachineWords

  const WIDTH := 80
  const HEIGHT := 20
  const NEWLINE: byte := 10

  const WHITE_ON_BLUE: byte := 0x1f
  const BLUE_ON_BLUE: byte := 0x11
  const SPACE: byte := 32

  /** The video cell of a character, `(colour << 8) | c`: a `char` from 128 on is negative and its sign
      bits cover the colour. */
  function MakeChar(c: byte, colour: byte): half {
    if c < 0x80 then colour * 0x100 + c else 0xff00 + c
  }

  /** It is what C makes of the expression: the character is converted to a signed word first, and the
      result is cut to 16 bits. */
  lemma MakeCharBits(c: byte, colour: byte)
    ensures MakeChar(c, colour) == BitOr(Shl(colour, 8), ToWord(if c < 0x80 then c else c - 0x100)) % 0x1_0000
    ensures MakeChar(c, colour) % 0x100 == c && MakeChar(c, colour) / 0x100 == if c < 0x80 then colour else 0xff
  {
    hide BitOr;
    var upper := if c < 0x80 then 0 else 0xff_ffff;
    ShiftsOfEight(colour);
    ShiftsOfEight(upper);
    OrSplit(8, colour, 0, upper, c);
    OrZero(c);
    OrZero(colour);
    OrOnes(24, colour);
    ShiftsOfEight(BitOr(colour, upper));
  }

  lemma ShiftsOfEight(x: nat)
    ensures Shl(x, 8) == 0x100 * x && Shl(1, 8) == 0x100 && Shl(1, 24) == 0x100_0000
  {
    ShlIsProduct(x, 8);
    PageShift(0);
    assert Shl(1, 4) == 16;
    assert Shl(1, 8) == 0x100;
    assert Shl(1, 22) == 0x40_0000;
  }

  // ---------------------------------------------------------------- the transcript

  /** One written character with its colour. */
  datatype Glyph = Glyph(c: byte, colour: byte)

  function Cells(text: seq<Glyph>): (r: seq<half>)
    ensures |r| == |text|
  {
    seq(|text|, i requires 0 <= i < |text| => MakeChar(text[i].c, text[i].colour))
  }

  /** A paragraph cut into lines of 80 cells; the last line, shorter than 80, may be empty. */
  function Wrap(p: seq<half>): (r: seq<seq<half>>)
    ensures r != []
  {
    if |p| < WIDTH then [p] else [p[..WIDTH]] + Wrap(p[WIDTH..])
  }

  /** The lines one after the other. */
  function Flat(lines: seq<seq<half>>): seq<half> {
    if lines == [] then [] else lines[0] + Flat(lines[1..])
  }

  /** Wrapping keeps every cell in its place; every line but the last fills the row. */
  lemma {:induction false} WrapKeeps(p: seq<half>)
    ensures Flat(Wrap(p)) == p
    ensures forall i :: 0 <= i < |Wrap(p)| - 1 ==> |Wrap(p)[i]| == WIDTH
    decreases |p|
  {
    if WIDTH <= |p| {
      WrapKeeps(p[WIDTH..]);
      assert Wrap(p)[1..] == Wrap(p[WIDTH..]);
    }
  }

  /** Cutting a paragraph that way is possible in one way only. */
  lemma {:induction false} WrapUnique(p: seq<half>, lines: seq<seq<half>>)
    requires lines != [] && Flat(lines) == p && |lines[|lines| - 1]| < WIDTH
    requires forall i :: 0 <= i < |lines| - 1 ==> |lines[i]| == WIDTH
    ensures Wrap(p) == lines
    decreases |lines|
  {
    if |lines| == 1 {
      assert p == lines[0] + Flat(lines[1..]) == lines[0];
    } else {
      assert p[..WIDTH] == lines[0] && p[WIDTH..] == Flat(lines[1..]);
      WrapUnique(p[WIDTH..], lines[1..]);
    }
  }

  function FirstNewline(text: seq<Glyph>): (k: nat)
    ensures k <= |text| && (k < |text| ==> text[k].c == NEWLINE)
    ensures forall i :: 0 <= i < k ==> text[i].c != NEWLINE
  {
    if text == [] || text[0].c == NEWLINE then 0 else FirstNewline(text[1..]) + 1
  }

  /** The unbounded transcript: paragraphs end at newlines, each is wrapped at 80 columns. */
  function Lines(text: seq<Glyph>): (r: seq<seq<half>>)
    ensures r != []
    decreases |text|
  {
    var k := FirstNewline(text);
    if k == |text| then Wrap(Cells(text)) else Wrap(Cells(text[..k])) + Lines(text[k + 1..])
  }

  /** The transcript's lines after one more character. */
  function AddGlyph(lines: seq<seq<half>>, g: Glyph): (r: seq<seq<half>>)
    requires lines != []
    ensures r != []
  {
    var n := |lines| - 1;
    if g.c == NEWLINE then lines + [[]]
    else
      var line := lines[n] + [MakeChar(g.c, g.colour)];
      if |line| < WIDTH then lines[..n] + [line] else lines[..n] + [line, []]
  }

  lemma {:induction false} WrapAdd(p: seq<half>, g: Glyph)
    requires g.c != NEWLINE
    ensures Wrap(p + [MakeChar(g.c, g.colour)]) == AddGlyph(Wrap(p), g)
    decreases |p|
  {
    var more := p + [MakeChar(g.c, g.colour)];
    if |p| < WIDTH {
      if |more| == WIDTH {
        assert more[..WIDTH] == more && more[WIDTH..] == [];
        assert Wrap(more) == [more] + Wrap([]);
      }
    } else {
      WrapAdd(p[WIDTH..], g);
      assert more[..WIDTH] == p[..WIDTH] && more[WIDTH..] == p[WIDTH..] + [MakeChar(g.c, g.colour)];
      AddGlyphAfter([p[..WIDTH]], Wrap(p[WIDTH..]), g);
    }
  }

  lemma AddGlyphAfter(before: seq<seq<half>>, lines: seq<seq<half>>, g: Glyph)
    requires lines != []
    ensures AddGlyph(before + lines, g) == before + AddGlyph(lines, g)
  {
    var n := |lines| - 1;
    assert (before + lines)[..|before + lines| - 1] == before + lines[..n];
  }

  lemma {:induction false} FirstNewlineAdd(text: seq<Glyph>, g: Glyph)
    ensures FirstNewline(text + [g]) ==
      if FirstNewline(text) < |text| || g.c == NEWLINE then FirstNewline(text) else |text| + 1
  {
    if text != [] && text[0].c != NEWLINE {
      assert (text + [g])[1..] == text[1..] + [g];
      FirstNewlineAdd(text[1..], g);
    } else if text == [] {
      assert (text + [g])[1..] == [];
    }
  }

  /** Writing a character changes the transcript's last line only: it grows, and a new empty line
      follows when it is full or the character is a newline. */
  lemma {:induction false} LinesAdd(text: seq<Glyph>, g: Glyph)
    ensures Lines(text + [g]) == AddGlyph(Lines(text), g)
    decreases |text|
  {
    hide Wrap;
    hide AddGlyph;
    hide FirstNewline;
    var k, more := FirstNewline(text), text + [g];
    FirstNewlineAdd(text, g);
    if k < |text| {
      assert more[..k] == text[..k] && more[k + 1..] == text[k + 1..] + [g];
      LinesAdd(text[k + 1..], g);
      AddGlyphAfter(Wrap(Cells(text[..k])), Lines(text[k + 1..]), g);
    } else {
      LinesAddToLast(text, g);
    }
  }

  /** The case of a text without a newline so far. */
  lemma LinesAddToLast(text: seq<Glyph>, g: Glyph)
    requires FirstNewline(text) == |text|
    ensures Lines(text + [g]) == AddGlyph(Wrap(Cells(text)), g)
  {
    hide Wrap;
    hide FirstNewline;
    hide Lines;
    var more := text + [g];
    FirstNewlineAdd(text, g);
    if g.c == NEWLINE {
      assert more[..|text|] == text && more[|text| + 1..] == [];
      LinesStep(more);
      EmptyText();
    } else {
      hide AddGlyph;
      LinesStep(more);
      WrapAdd(Cells(text), g);
      assert Cells(more) == Cells(text) + [MakeChar(g.c, g.colour)];
    }
  }

  lemma LinesStep(text: seq<Glyph>)
    ensures var k := FirstNewline(text);
      Lines(text) == if k == |text| then Wrap(Cells(text)) else Wrap(Cells(text[..k])) + Lines(text[k + 1..])
  {
    hide Wrap;
    hide FirstNewline;
    hide Cells;
  }

  lemma EmptyText()
    ensures Lines([]) == [[]]
  {
  }

  /** A newline separates what stands before it from what follows; text without one is wrapped. */
  lemma {:induction false} NewlineSeparates(a: seq<Glyph>, colour: byte, b: seq<Glyph>)
    ensures Lines(a + [Glyph(10, colour)] + b) == Lines(a) + Lines(b)
    ensures (forall i :: 0 <= i < |a| ==> a[i].c != 10) ==> Lines(a) == Wrap(Cells(a))
    decreases |a|
  {
    hide Wrap, Cells, FirstNewline, Lines;
    var all, k := a + [Glyph(10, colour)] + b, FirstNewline(a);
    LinesStep(a);
    LinesStep(all);
    assert all[..k] == a[..k] && all[k].c == 10;
    assert forall i :: 0 <= i < k ==> all[i] == a[i];
    assert FirstNewline(all) == k;
    if k < |a| {
      NewlineSeparates(a[k + 1..], colour, b);
      assert all[k + 1..] == a[k + 1..] + [Glyph(10, colour)] + b;
    } else {
      assert all[k + 1..] == b && a[..k] == a;
    }
  }

  lemma {:induction false} WrapLast(p: seq<half>)
    ensures |Wrap(p)[|Wrap(p)| - 1]| < WIDTH
    decreases |p|
  {
    if WIDTH <= |p| {
      WrapLast(p[WIDTH..]);
    }
  }

  /** The transcript's last line never fills the row. */
  lemma {:induction false} LastLineOpen(text: seq<Glyph>)
    ensures |Lines(text)[|Lines(text)| - 1]| < WIDTH
    decreases |text|
  {
    var k := FirstNewline(text);
    if k == |text| {
      WrapLast(Cells(text));
    } else {
      LastLineOpen(text[k + 1..]);
    }
  }

  // ---------------------------------------------------------------- the screen

  function Scrolls(absoluteRow: nat): nat {
    if absoluteRow < HEIGHT then 0 else absoluteRow - (HEIGHT - 1)
  }

  /** What a row shows where nothing is written: the first 20 rows come from initialization, the later
      ones from scrolling. */
  function Blank(absoluteRow: nat): half {
    MakeChar(SPACE, if absoluteRow < HEIGHT then BLUE_ON_BLUE else WHITE_ON_BLUE)
  }

  function CellAt(lines: seq<seq<half>>, r: nat, x: nat): half {
    if r < |lines| && x < |lines[r]| then lines[r][x] else Blank(r)
  }

  /** Line r of the transcript, filled up to 80 cells. */
  function Padded(lines: seq<seq<half>>, r: nat): (row: seq<half>)
    ensures |row| == WIDTH
  {
    seq(WIDTH, x requires 0 <= x < WIDTH => CellAt(lines, r, x))
  }

  function EmptyRow(cell: half): (row: seq<half>)
    ensures |row| == WIDTH
    ensures forall x :: 0 <= x < WIDTH ==> row[x] == cell
  {
    seq(WIDTH, x => cell)
  }

  function ScreenRow(mem: seq<half>, y: nat): (row: seq<half>)
    requires (y + 1) * WIDTH <= |mem|
    ensures |row| == WIDTH
  {
    mem[y * WIDTH..(y + 1) * WIDTH]
  }

  class Screen {
    const videoMem: array<half>
    var row: nat
    var col: nat
    /** Everything written since initialization. */
    ghost var transcript: seq<Glyph>

    constructor (videoMem: array<half>)
      ensures this.videoMem == videoMem
    {
      this.videoMem := videoMem;
    }

    /** Cursor and screen are those of the transcript: screen row y shows its line number
        scrolls + y. */
    ghost predicate Valid()
      reads this, videoMem
    {
      var lines := Lines(transcript);
      var last := |lines| - 1;
      && (HEIGHT + 10) * WIDTH <= videoMem.Length
      && row == last - Scrolls(last)
      && col == |lines[last]|
      && ShowsRows(videoMem[..], lines, Scrolls(last))
    }

    method PutChar(x: nat, y: nat, c: byte, colour: byte)
      requires x < WIDTH && (y + 1) * WIDTH <= videoMem.Length
      modifies videoMem
      ensures videoMem[..] == old(videoMem[..])[y * WIDTH + x := MakeChar(c, colour)]
    {
      videoMem[y * WIDTH + x] := MakeChar(c, colour);
    }

    /** The inner loop of the scroll: copies row y over the row above it. */
    method CopyRowUp(y: nat)
      requires 1 <= y && (y + 1) * WIDTH <= videoMem.Length
      modifies videoMem
      ensures forall i :: 0 <= i < videoMem.Length ==>
        videoMem[i] == if (y - 1) * WIDTH <= i < y * WIDTH then old(videoMem[i + WIDTH]) else old(videoMem[i])
    {
      var x := 0;
      while x < WIDTH
        invariant 0 <= x <= WIDTH
        invariant forall i :: 0 <= i < videoMem.Length ==>
          videoMem[i] == if (y - 1) * WIDTH <= i < (y - 1) * WIDTH + x then old(videoMem[i + WIDTH]) else old(videoMem[i])
      {
        videoMem[(y - 1) * WIDTH + x] := videoMem[y * WIDTH + x];
        x := x + 1;
      }
    }

    method ClearLastRow()
      requires HEIGHT * WIDTH <= videoMem.Length
      modifies videoMem
      ensures forall i :: 0 <= i < videoMem.Length ==>
        videoMem[i] == if (HEIGHT - 1) * WIDTH <= i < HEIGHT * WIDTH then MakeChar(SPACE, WHITE_ON_BLUE) else old(videoMem[i])
    {
      var x := 0;
      while x < WIDTH
        invariant 0 <= x <= WIDTH
        invariant forall i :: 0 <= i < videoMem.Length ==>
          videoMem[i] == if (HEIGHT - 1) * WIDTH <= i < (HEIGHT - 1) * WIDTH + x then MakeChar(SPACE, WHITE_ON_BLUE)
                         else old(videoMem[i])
      {
        videoMem[(HEIGHT - 1) * WIDTH + x] := MakeChar(SPACE, WHITE_ON_BLUE);
        x := x + 1;
      }
    }

    /** The loops of the scroll, cell by cell. */
    method MoveUp()
      requires HEIGHT * WIDTH <= videoMem.Length
      modifies videoMem
      ensures forall i :: 0 <= i < (HEIGHT - 1) * WIDTH ==> videoMem[i] == old(videoMem[i + WIDTH])
      ensures forall i :: (HEIGHT - 1) * WIDTH <= i < HEIGHT * WIDTH ==> videoMem[i] == MakeChar(SPACE, WHITE_ON_BLUE)
      ensures forall i :: HEIGHT * WIDTH <= i < videoMem.Length ==> videoMem[i] == old(videoMem[i])
    {
      var y := 1;
      while y < HEIGHT
        invariant 1 <= y <= HEIGHT
        invariant forall i :: 0 <= i < (y - 1) * WIDTH ==> videoMem[i] == old(videoMem[i + WIDTH])
        invariant forall i :: (y - 1) * WIDTH <= i < videoMem.Length ==> videoMem[i] == old(videoMem[i])
      {
        CopyRowUp(y);
        y := y + 1;
      }
      ClearLastRow();
    }

    method Scroll()
      requires HEIGHT * WIDTH <= videoMem.Length
      modifies videoMem
      ensures forall y :: 0 <= y < HEIGHT - 1 ==> ScreenRow(videoMem[..], y) == ScreenRow(old(videoMem[..]), y + 1)
      ensures ScreenRow(videoMem[..], HEIGHT - 1) == EmptyRow(MakeChar(SPACE, WHITE_ON_BLUE))
    {
      hide MakeChar;
      ghost var before := videoMem[..];
      MoveUp();
      ghost var after := videoMem[..];
      forall y | 0 <= y < HEIGHT - 1
        ensures ScreenRow(after, y) == ScreenRow(before, y + 1)
      {
        forall x | 0 <= x < WIDTH
          ensures ScreenRow(after, y)[x] == ScreenRow(before, y + 1)[x]
        {
          assert after[y * WIDTH + x] == before[y * WIDTH + x + WIDTH];
        }
      }
    }

    /** The screen keeps showing the transcript, one character longer. */
    method WriteChar(c: byte, colour: byte)
      requires Valid()
      modifies this, videoMem
      ensures Valid() && transcript == old(transcript) + [Glyph(c, colour)]
      ensures row < HEIGHT && col < WIDTH
    {
      hide Lines;
      hide AddGlyph;
      hide MakeChar;
      hide ShowsRows;
      ghost var g := Glyph(c, colour);
      ghost var lines, before := Lines(transcript), videoMem[..];
      ghost var more, s := AddGlyph(lines, g), Scrolls(|lines| - 1);
      LastLineOpen(transcript);
      LinesAdd(transcript, g);
      CursorAfterGlyph(lines, g);
      RowsAfterGlyph(before, lines, row, col, g);
      transcript := transcript + [g];
      if c == NEWLINE {
        col := 0;
        row := row + 1;
      } else {
        PutChar(col, row, c, colour);
        col := col + 1;
        if col >= WIDTH {
          col := 0;
          row := row + 1;
        }
      }
      ghost var written := videoMem[..];
      assert ShowsRows(written, more, s);
      if row >= HEIGHT {
        Scroll();
        RowsAfterScroll(written, videoMem[..], more, s);
        row := HEIGHT - 1;
      }
    }

    /** Blanks the screen and ten rows below it. */
    method Initialize()
      requires (HEIGHT + 10) * WIDTH <= videoMem.Length
      modifies this, videoMem
      ensures Valid() && transcript == []
      ensures row == 0 && col == 0
    {
      row, col, transcript := 0, 0, [];
      var y := 0;
      while y < HEIGHT + 10
        invariant 0 <= y <= HEIGHT + 10
        invariant forall i :: 0 <= i < y * WIDTH ==> videoMem[i] == MakeChar(SPACE, BLUE_ON_BLUE)
        invariant row == 0 && col == 0 && transcript == []
      {
        var x := 0;
        while x < WIDTH
          invariant 0 <= x <= WIDTH
          invariant forall i :: 0 <= i < y * WIDTH + x ==> videoMem[i] == MakeChar(SPACE, BLUE_ON_BLUE)
          invariant row == 0 && col == 0 && transcript == []
        {
          PutChar(x, y, SPACE, BLUE_ON_BLUE);
          x := x + 1;
        }
        y := y + 1;
      }
      EmptyText();
      BlankScreen(videoMem[..]);
    }

    /** `print`: every character of the string, white on blue. */
    method Print(str: seq<byte>)
      requires Valid()
      modifies this, videoMem
      ensures Valid() && transcript == old(transcript) + Glyphs(str)
    {
      var i := 0;
      while i < |str|
        invariant 0 <= i <= |str|
        invariant Valid() && transcript == old(transcript) + Glyphs(str[..i])
      {
        WriteChar(str[i], WHITE_ON_BLUE);
        assert Glyphs(str[..i + 1]) == Glyphs(str[..i]) + [Glyph(str[i], WHITE_ON_BLUE)];
        i := i + 1;
      }
      assert str[..i] == str;
    }
  }

  function Glyphs(str: seq<byte>): (r: seq<Glyph>)
    ensures |r| == |str|
  {
    seq(|str|, i requires 0 <= i < |str| => Glyph(str[i], WHITE_ON_BLUE))
  }

  /** The 20 rows of the screen show the lines from number `scrolls` on. */
  ghost predicate ShowsRows(mem: seq<half>, lines: seq<seq<half>>, scrolls: nat) {
    HEIGHT * WIDTH <= |mem| && forall y :: 0 <= y < HEIGHT ==> ScreenRow(mem, y) == Padded(lines, scrolls + y)
  }

  /** The screen is the transcript's last 20 lines, or all of them above blank rows; the cursor stands
      behind the last one. Untouched cells are spaces, blue on blue in the first 20 rows written and
      white on blue in all later ones. */
  lemma ScreenShowsEnd(s: Screen)
    requires s.Valid()
    ensures
      var lines := Lines(s.transcript);
      var top := if |lines| <= 20 then 0 else |lines| - 20;
      && 1600 <= s.videoMem.Length
      && s.row == |lines| - 1 - top && s.col == |lines[|lines| - 1]|
      && forall i :: 0 <= i < 1600 ==>
           var r, x := top + i / 80, i % 80;
           s.videoMem[i] == if r < |lines| && x < |lines[r]| then lines[r][x] else if r < 20 then 0x1120 else 0x1f20
  {
    hide Lines;
    var lines := Lines(s.transcript);
    var top := if |lines| <= 20 then 0 else |lines| - 20;
    forall i | 0 <= i < 1600
      ensures s.videoMem[i] == CellAt(lines, top + i / 80, i % 80)
    {
      CellShown(s.videoMem[..], lines, top, i / 80, i % 80);
    }
  }

  lemma CellShown(mem: seq<half>, lines: seq<seq<half>>, top: nat, y: nat, x: nat)
    requires ShowsRows(mem, lines, top) && y < 20 && x < 80
    ensures 80 * y + x < |mem| && mem[80 * y + x] == CellAt(lines, top + y, x)
  {
    assert ScreenRow(mem, y) == Padded(lines, top + y);
    hide CellAt;
    assert ScreenRow(mem, y)[x] == mem[y * WIDTH + x];
  }

  /** Where the cursor goes, before any scroll. */
  lemma CursorAfterGlyph(lines: seq<seq<half>>, g: Glyph)
    requires lines != [] && |lines[|lines| - 1]| < WIDTH
    ensures
      var last, more := |lines| - 1, AddGlyph(lines, g);
      var next := |more| - 1;
      && (next == last + 1 <==> g.c == NEWLINE || |lines[last]| + 1 == WIDTH)
      && (next == last + 1 ==> more[next] == [])
      && (next != last + 1 ==> next == last && |more[next]| == |lines[last]| + 1)
      && |more[next]| < WIDTH
      && (last - Scrolls(last) < HEIGHT)
      && (next - Scrolls(last) < HEIGHT ==> Scrolls(next) == Scrolls(last))
      && (next - Scrolls(last) >= HEIGHT ==> next == Scrolls(last) + HEIGHT && Scrolls(next) == Scrolls(last) + 1)
  {
  }

  lemma PaddedAfterGlyph(lines: seq<seq<half>>, g: Glyph, r: nat)
    requires lines != [] && |lines[|lines| - 1]| < WIDTH
    ensures
      var last := |lines| - 1;
      Padded(AddGlyph(lines, g), r) ==
        if g.c != NEWLINE && r == last then Padded(lines, r)[|lines[last]| := MakeChar(g.c, g.colour)]
        else Padded(lines, r)
  {
    hide MakeChar;
  }

  lemma RowAfterPut(mem: seq<half>, y: nat, x: nat, cell: half, z: nat)
    requires HEIGHT * WIDTH <= |mem| && y < HEIGHT && x < WIDTH && z < HEIGHT
    ensures ScreenRow(mem[y * WIDTH + x := cell], z) ==
      if z == y then ScreenRow(mem, y)[x := cell] else ScreenRow(mem, z)
  {
  }

  lemma RowsAfterGlyph(mem: seq<half>, lines: seq<seq<half>>, row: nat, col: nat, g: Glyph)
    requires lines != [] && |lines[|lines| - 1]| < WIDTH && col == |lines[|lines| - 1]|
    requires row == |lines| - 1 - Scrolls(|lines| - 1) && ShowsRows(mem, lines, Scrolls(|lines| - 1))
    ensures row < HEIGHT
    ensures ShowsRows(if g.c == NEWLINE then mem else mem[row * WIDTH + col := MakeChar(g.c, g.colour)],
                      AddGlyph(lines, g), Scrolls(|lines| - 1))
  {
    hide AddGlyph;
    hide MakeChar;
    hide Padded;
    hide ScreenRow;
    var s, cell := Scrolls(|lines| - 1), MakeChar(g.c, g.colour);
    var u := if g.c == NEWLINE then mem else mem[row * WIDTH + col := cell];
    forall y | 0 <= y < HEIGHT
      ensures ScreenRow(u, y) == Padded(AddGlyph(lines, g), s + y)
    {
      PaddedAfterGlyph(lines, g, s + y);
      RowAfterPut(mem, row, col, cell, y);
    }
  }

  lemma RowsAfterScroll(before: seq<half>, after: seq<half>, lines: seq<seq<half>>, s: nat)
    requires |before| == |after| && ShowsRows(before, lines, s)
    requires |lines| == s + HEIGHT + 1 && lines[s + HEIGHT] == []
    requires forall y :: 0 <= y < HEIGHT - 1 ==> ScreenRow(after, y) == ScreenRow(before, y + 1)
    requires ScreenRow(after, HEIGHT - 1) == EmptyRow(MakeChar(SPACE, WHITE_ON_BLUE))
    ensures ShowsRows(after, lines, s + 1)
  {
    assert EmptyRow(MakeChar(SPACE, WHITE_ON_BLUE)) == Padded(lines, s + HEIGHT);
    var t := s + 1;
    forall y | 0 <= y < HEIGHT
      ensures ScreenRow(after, y) == Padded(lines, t + y)
    {
      if y < HEIGHT - 1 {
        var z := y + 1;
        assert ScreenRow(before, z) == Padded(lines, s + z);
      }
    }
  }

  lemma BlankScreen(mem: seq<half>)
    requires HEIGHT * WIDTH <= |mem|
    requires forall i :: 0 <= i < HEIGHT * WIDTH ==> mem[i] == MakeChar(SPACE, BLUE_ON_BLUE)
    ensures ShowsRows(mem, [[]], 0)
  {
  }
}
