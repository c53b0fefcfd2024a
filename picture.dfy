/**
 * The image buffer of camera/camera.go: a grid of colours indexed [y][x],
 * its construction (NewImage), the in-place map over every cell (MapPixels)
 * and the plain-text PPM encoder (ToPPM).
 */
module Picture {
  import opened Options
  import opened Primitives
  import opened PpmReader

  const Black: Color := Color(0, 0, 0)

  /** Every row of the grid has w cells. */
  predicate Rectangular(rows: seq<seq<Color>>, w: nat) {
    forall y :: 0 <= y < |rows| ==> |rows[y]| == w
  }

  /** The PPM header "P3\n<w> <h>\n255\n". */
  function Header(w: nat, h: nat): seq<byte> {
    Magic + DecimalText(w) + [Space] + DecimalText(h) + MaxvalLine
  }

  /** One pixel's line: its marshalled text and a newline. */
  function PixelLine(c: Color): seq<byte> {
    ColorText(c) + [Newline]
  }

  /** The pixel lines of cs, in order. */
  function Lines(cs: seq<Color>): seq<byte>
    decreases |cs|
  {
    if cs == [] then [] else Lines(cs[..|cs| - 1]) + PixelLine(cs[|cs| - 1])
  }

  /** The pixels in the order ToPPM writes them: last row first, each row left to right. */
  function Emitted(rows: seq<seq<Color>>): seq<Color>
    decreases |rows|
  {
    if rows == [] then [] else Emitted(rows[1..]) + rows[0]
  }

  function Zeros(n: nat): (z: seq<byte>)
    ensures |z| == n
  {
    seq(n, _ => 0)
  }

  lemma {:induction false} LinesAppend(cs: seq<Color>, c: Color)
    ensures Lines(cs + [c]) == Lines(cs) + PixelLine(c)
  {
    assert (cs + [c])[..|cs|] == cs;
  }

  lemma {:induction false} LinesCons(c: Color, cs: seq<Color>)
    ensures Lines([c] + cs) == PixelLine(c) + Lines(cs)
    decreases |cs|
  {
    if cs == [] {
      assert [c] + cs == [c];
      assert Lines([c]) == Lines([]) + PixelLine(c);
    } else {
      var init, last := cs[..|cs| - 1], cs[|cs| - 1];
      assert cs == init + [last];
      Assoc([c], init, [last]);
      LinesCons(c, init);
      LinesAppend([c] + init, last);
      LinesAppend(init, last);
      Assoc(PixelLine(c), Lines(init), PixelLine(last));
    }
  }

  lemma {:induction false} LinesConcat(a: seq<Color>, b: seq<Color>)
    ensures Lines(a + b) == Lines(a) + Lines(b)
    decreases |b|
  {
    if b == [] {
      assert a + b == a;
      assert Lines(a) + Lines(b) == Lines(a);
    } else {
      var init, last := b[..|b| - 1], b[|b| - 1];
      assert b == init + [last];
      Assoc(a, init, [last]);
      LinesConcat(a, init);
      LinesAppend(a + init, last);
      LinesAppend(init, last);
      Assoc(Lines(a), Lines(init), PixelLine(last));
    }
  }

  /** Each pixel line is 6 to 12 bytes, so n pixels take 6n to 12n bytes. */
  lemma {:induction false} LinesLength(cs: seq<Color>)
    ensures 6 * |cs| <= |Lines(cs)| <= 12 * |cs|
    decreases |cs|
  {
    if cs != [] {
      LinesLength(cs[..|cs| - 1]);
    }
  }

  lemma {:induction false} EmittedLength(rows: seq<seq<Color>>, w: nat)
    requires Rectangular(rows, w)
    ensures |Emitted(rows)| == |rows| * w
    decreases |rows|
  {
    if rows != [] {
      EmittedLength(rows[1..], w);
    }
  }

  /**
   * Rows are written from the last stored row to the first: the rows after
   * y, then row y, then the rows before it.
   */
  lemma {:induction false} EmittedSplit(rows: seq<seq<Color>>, y: nat)
    requires y < |rows|
    ensures Emitted(rows) == Emitted(rows[y + 1..]) + rows[y] + Emitted(rows[..y])
    decreases y
  {
    if y == 0 {
      assert rows[..0] == [];
    } else {
      EmittedSplit(rows[1..], y - 1);
      assert rows[1..][y..] == rows[y + 1..];
      assert rows[1..][..y - 1] == rows[1..y];
      assert rows[..y][1..] == rows[1..y];
      assert rows[..y][0] == rows[0];
    }
  }

  /** s followed by zero bytes up to length n (s itself when it is longer). */
  function Padded(s: seq<byte>, n: nat): (r: seq<byte>)
  {
    if |s| <= n then s + Zeros(n - |s|) else s
  }

  /** The file ToPPM returns for a w-by-h grid: header, pixel lines, zero tail. */
  function PpmText(w: nat, h: nat, rows: seq<seq<Color>>): seq<byte>
    requires |rows| == h && Rectangular(rows, w)
  {
    Header(w, h) + Padded(Lines(Emitted(rows)), w * h * 12)
  }

  /** n pixel lines read back as the n pixels, whatever follows them. */
  lemma {:induction false} ReadColorsOfLines(cs: seq<Color>, rest: seq<byte>)
    ensures ReadColors(Lines(cs) + rest, |cs|) == Some((cs, rest))
    decreases |cs|
  {
    if cs != [] {
      LinesCons(cs[0], cs[1..]);
      assert [cs[0]] + cs[1..] == cs;
      var tail := Lines(cs[1..]) + rest;
      Assoc(PixelLine(cs[0]), Lines(cs[1..]), rest);
      assert Lines(cs) + rest == ColorText(cs[0]) + [Newline] + tail;
      ReadLineOfColorText(cs[0], tail);
      ReadColorsOfLines(cs[1..], rest);
      assert ReadLine(Lines(cs) + rest) == Some((cs[0], tail));
      assert ReadColors(tail, |cs| - 1) == Some((cs[1..], rest));
      assert ReadColors(Lines(cs) + rest, |cs|) == Some(([cs[0]] + cs[1..], rest));
    } else {
      assert Lines(cs) + rest == rest;
    }
  }

  /** ReadSize succeeds when each of its steps does. */
  lemma ReadSizeSteps(s: seq<byte>, s1: seq<byte>, s2: seq<byte>, body: seq<byte>, w: nat, h: nat)
    requires s == Magic + s1
    requires ReadNumber(s1) == Some((w, [Space] + s2))
    requires ReadNumber(s2) == Some((h, MaxvalLine + body))
    ensures ReadSize(s) == Some((w, h, body))
  {
    ExpectLiteral(Magic, s1);
    ExpectLiteral([Space], s2);
    ExpectLiteral(MaxvalLine, body);
  }

  /** The header reads back as the width and height, leaving what follows it. */
  lemma ReadSizeOfHeader(w: nat, h: nat, body: seq<byte>)
    ensures ReadSize(Header(w, h) + body) == Some((w, h, body))
  {
    var dw, dh := DecimalText(w), DecimalText(h);
    var s2 := dh + (MaxvalLine + body);
    var s1 := dw + ([Space] + s2);
    assert Header(w, h) + body == Magic + s1 by {
      Assoc(Magic + dw + [Space] + dh, MaxvalLine, body);
      Assoc(Magic + dw + [Space], dh, MaxvalLine + body);
      Assoc(Magic + dw, [Space], s2);
      Assoc(Magic, dw, [Space] + s2);
    }
    ReadNumberOfDecimalText(w, [Space] + s2);
    ReadNumberOfDecimalText(h, MaxvalLine + body);
    ReadSizeSteps(Header(w, h) + body, s1, s2, body, w, h);
  }

  /** A header for w * h pixels followed by their lines reads back as those pixels. */
  lemma ReadPpmOfLines(w: nat, h: nat, px: seq<Color>, tail: seq<byte>)
    requires |px| == w * h
    ensures ReadPpm(Header(w, h) + (Lines(px) + tail)) == Some((w, h, px))
  {
    ReadSizeOfHeader(w, h, Lines(px) + tail);
    ReadColorsOfLines(px, tail);
  }

  /**
   * Round trip of the encoder: reading what ToPPM writes gives back the
   * width, the height and the pixels in file order.
   */
  lemma PpmRoundTrip(w: nat, h: nat, rows: seq<seq<Color>>)
    requires |rows| == h && Rectangular(rows, w)
    ensures ReadPpm(PpmText(w, h, rows)) == Some((w, h, Emitted(rows)))
  {
    var px := Emitted(rows);
    EmittedLength(rows, w);
    LinesLength(px);
    var n := w * h * 12;
    assert |px| == w * h;
    assert |Lines(px)| <= n;
    var tail := Zeros(n - |Lines(px)|);
    assert Padded(Lines(px), n) == Lines(px) + tail;
    ReadPpmOfLines(w, h, px, tail);
  }

  /** Writing text t at the front of a zero tail. */
  lemma OverwriteZeros(pre: seq<byte>, t: seq<byte>, n: nat)
    requires |t| <= n
    ensures Overwrite(pre + Zeros(n), |pre|, t) == pre + t + Zeros(n - |t|)
  {
    var s := pre + Zeros(n);
    assert s[..|pre|] == pre;
    assert s[|pre| + |t|..] == Zeros(n - |t|);
  }

  /**
   * One pixel line of ToPPM: Marshal's write, then the newline, extend the
   * written prefix by that pixel's line and shorten the zero tail. The
   * buffer snapshots b0, b1, b2 are parameters so that the step is proved
   * once, apart from the loop that takes it.
   */
  lemma LineStep(prefix: seq<byte>, sofar: seq<Color>, c: Color, total: nat, i: nat,
                 b0: seq<byte>, b1: seq<byte>, b2: seq<byte>)
    requires i == |prefix| + |Lines(sofar)| && i + |ColorText(c)| + 1 <= total
    requires b0 == prefix + Lines(sofar) + Zeros(total - i)
    requires b1 == Overwrite(b0, i, ColorText(c))
    requires b2 == b1[i + |ColorText(c)| := Newline]
    ensures i + |ColorText(c)| + 1 == |prefix| + |Lines(sofar + [c])| <= total
    ensures b2 == prefix + Lines(sofar + [c]) + Zeros(total - (i + |ColorText(c)| + 1))
  {
    var t := ColorText(c);
    OverwriteZeros(prefix + Lines(sofar), t, total - i);
    StoreIsOverwrite(b1, i + |t|, Newline);
    OverwriteZeros(prefix + Lines(sofar) + t, [Newline], total - i - |t|);
    LinesAppend(sofar, c);
    Assoc(prefix + Lines(sofar), t, [Newline]);
    Assoc(prefix, Lines(sofar), PixelLine(c));
  }

  /** LineStep for the cell x of a row whose first x cells are written. */
  lemma CellStep(written: seq<byte>, row: seq<Color>, x: nat, total: nat, i: nat, at: nat,
                 b0: seq<byte>, b1: seq<byte>, b2: seq<byte>)
    requires x < |row|
    requires i == |written| + |Lines(row[..x])| && i + 12 * (|row| - x) <= total
    requires b0 == written + Lines(row[..x]) + Zeros(total - i)
    requires b1 == Overwrite(b0, i, ColorText(row[x]))
    requires at == i + |ColorText(row[x])| && at < |b1|
    requires b2 == b1[at := Newline]
    ensures at + 1 == |written| + |Lines(row[..x + 1])|
    ensures at + 1 + 12 * (|row| - (x + 1)) <= total
    ensures b2 == written + Lines(row[..x + 1]) + Zeros(total - (at + 1))
  {
    LineStep(written, row[..x], row[x], total, i, b0, b1, b2);
    PrefixStep(row, x);
  }

  /**
   * Before ToPPM writes row y of an h-by-w grid, the rows written so far
   * leave room for w more lines of 12 bytes.
   */
  lemma RoomForRow(h: nat, w: nat, y: nat, written: nat, lines: nat)
    requires y < h
    requires written == (h - 1 - y) * w
    requires lines <= 12 * written
    ensures lines + 12 * w <= w * h * 12
  {
    assert written + w == (h - y) * w;
    assert (h - y) * w <= h * w;
  }

  /** The room ToPPM needs for row y, in terms of the rows written before it. */
  lemma RowPlan(w: nat, h: nat, rows: seq<seq<Color>>, y: nat, header: seq<byte>, i: nat, total: nat)
    requires |rows| == h && Rectangular(rows, w) && y < h
    requires total == |header| + w * h * 12
    requires i == |header| + |Lines(Emitted(rows[y + 1..]))|
    ensures |header + Lines(Emitted(rows[y + 1..]))| == i
    ensures i + 12 * |rows[y]| <= total
  {
    var done := Emitted(rows[y + 1..]);
    EmittedLength(rows[y + 1..], w);
    LinesLength(done);
    RoomForRow(h, w, y, |done|, |Lines(done)|);
  }

  /** Once every row is written, the buffer is the text PpmText describes. */
  lemma BufferIsPpmText(w: nat, h: nat, rows: seq<seq<Color>>, i: nat, total: nat, b: seq<byte>)
    requires |rows| == h && Rectangular(rows, w)
    requires total == |Header(w, h)| + w * h * 12
    requires i == |Header(w, h)| + |Lines(Emitted(rows[0..]))| <= total
    requires b == Header(w, h) + Lines(Emitted(rows[0..])) + Zeros(total - i)
    ensures b == PpmText(w, h, rows) && |b| == total
  {
    assert rows[0..] == rows;
    var lines := Lines(Emitted(rows));
    assert Padded(lines, w * h * 12) == lines + Zeros(total - i);
    Assoc(Header(w, h), lines, Zeros(total - i));
  }

  /**
   * The inner loop of Image.ToPPM: writes the line of each pixel of row,
   * in order, at buffer[i..], over the zero tail of the buffer.
   */
  method MarshalRow(row: seq<Color>, buffer: array<byte>, i: nat, ghost written: seq<byte>)
    returns (next: nat)
    requires |written| == i && i + 12 * |row| <= buffer.Length
    requires buffer[..] == written + Zeros(buffer.Length - i)
    modifies buffer
    ensures next == i + |Lines(row)| <= buffer.Length
    ensures buffer[..] == written + Lines(row) + Zeros(buffer.Length - next)
  {
    next := i;
    var x := 0;
    while x < |row|
      invariant 0 <= x <= |row|
      invariant next == i + |Lines(row[..x])| && next + 12 * (|row| - x) <= buffer.Length
      invariant buffer[..] == written + Lines(row[..x]) + Zeros(buffer.Length - next)
    {
      ghost var b0 := buffer[..];
      var mid := Marshal(row[x], buffer, next);
      ghost var b1 := buffer[..];
      buffer[mid] := Newline;
      CellStep(written, row, x, buffer.Length, next, mid, b0, b1, buffer[..]);
      next := mid + 1;
      x := x + 1;
    }
    assert row[..x] == row;
  }

  /** Emitting rows y.. is emitting rows y+1.. and then row y. */
  lemma EmittedStep(rows: seq<seq<Color>>, y: nat)
    requires y < |rows|
    ensures Emitted(rows[y..]) == Emitted(rows[y + 1..]) + rows[y]
  {
    assert rows[y..][1..] == rows[y + 1..];
  }

  /** After row y, the written text covers the rows y.. in file order. */
  lemma RowStep(header: seq<byte>, rows: seq<seq<Color>>, y: nat)
    requires y < |rows|
    ensures header + Lines(Emitted(rows[y + 1..])) + Lines(rows[y]) == header + Lines(Emitted(rows[y..]))
  {
    LinesConcat(Emitted(rows[y + 1..]), rows[y]);
    EmittedStep(rows, y);
    Assoc(header, Lines(Emitted(rows[y + 1..])), Lines(rows[y]));
  }

  /** copy(buffer, header): the header at the front of an all-zero buffer. */
  method CopyHeader(header: seq<byte>, buffer: array<byte>)
    requires |header| <= buffer.Length
    requires forall j :: 0 <= j < buffer.Length ==> buffer[j] == 0
    modifies buffer
    ensures buffer[..] == header + Zeros(buffer.Length - |header|)
  {
    forall j | 0 <= j < |header| {
      buffer[j] := header[j];
    }
  }

  /**
   * One pass of ToPPM's outer loop: the lines of row y follow those of the
   * rows after it, over the zero tail of the buffer.
   */
  method WriteRow(w: nat, h: nat, rows: seq<seq<Color>>, y: nat, header: seq<byte>,
                  buffer: array<byte>, i: nat) returns (next: nat)
    requires |rows| == h && Rectangular(rows, w) && y < h
    requires buffer.Length == |header| + w * h * 12
    requires i == |header| + |Lines(Emitted(rows[y + 1..]))| <= buffer.Length
    requires buffer[..] == header + Lines(Emitted(rows[y + 1..])) + Zeros(buffer.Length - i)
    modifies buffer
    ensures next == |header| + |Lines(Emitted(rows[y..]))| <= buffer.Length
    ensures buffer[..] == header + Lines(Emitted(rows[y..])) + Zeros(buffer.Length - next)
  {
    RowPlan(w, h, rows, y, header, i, buffer.Length);
    next := MarshalRow(rows[y], buffer, i, header + Lines(Emitted(rows[y + 1..])));
    RowStep(header, rows, y);
  }

  /**
   * The body of Image.ToPPM: the header, then one line per pixel, rows from
   * the last stored row to the first, in a buffer sized for 12 bytes per
   * pixel whose unused tail stays zero.
   */
  method EncodePpm(w: nat, h: nat, rows: seq<seq<Color>>) returns (s: seq<byte>)
    requires |rows| == h && Rectangular(rows, w)
    ensures |s| == |Header(w, h)| + w * h * 12
    ensures s == PpmText(w, h, rows)
  {
    var header := Header(w, h);
    var buffer := new byte[|header| + w * h * 12](_ => 0);
    CopyHeader(header, buffer);
    var i := WriteRows(w, h, rows, header, buffer);
    BufferIsPpmText(w, h, rows, i, buffer.Length, buffer[..]);
    s := buffer[..];
  }

  /** ToPPM's loop over the rows, from the last stored row to the first. */
  method WriteRows(w: nat, h: nat, rows: seq<seq<Color>>, header: seq<byte>, buffer: array<byte>)
    returns (i: nat)
    requires |rows| == h && Rectangular(rows, w)
    requires buffer.Length == |header| + w * h * 12
    requires buffer[..] == header + Zeros(buffer.Length - |header|)
    modifies buffer
    ensures i == |header| + |Lines(Emitted(rows[0..]))| <= buffer.Length
    ensures buffer[..] == header + Lines(Emitted(rows[0..])) + Zeros(buffer.Length - i)
  {
    i := |header|;
    var y := |rows| - 1;
    while y >= 0
      invariant -1 <= y < |rows|
      invariant i == |header| + |Lines(Emitted(rows[y + 1..]))| <= buffer.Length
      invariant buffer[..] == header + Lines(Emitted(rows[y + 1..])) + Zeros(buffer.Length - i)
    {
      i := WriteRow(w, h, rows, y, header, buffer, i);
      y := y - 1;
    }
  }

  /** Applies m to the cells of g in row-major order, up to row y, column x. */
  function MapPrefix(g: seq<seq<Color>>, m: (nat, nat, seq<seq<Color>>) -> Color, y: nat, x: nat)
    : (r: seq<seq<Color>>)
    requires y <= |g| && (y < |g| ==> x <= |g[y]|) && (y == |g| ==> x == 0)
    ensures |r| == |g| && forall i :: 0 <= i < |g| ==> |r[i]| == |g[i]|
    decreases y, x
  {
    if x > 0 then
      var p := MapPrefix(g, m, y, x - 1);
      p[y := p[y][x - 1 := m(x - 1, y, p)]]
    else if y > 0 then
      MapPrefix(g, m, y - 1, |g[y - 1]|)
    else
      g
  }

  /** (y', x') comes before (y, x) in row-major order. */
  predicate Before(y': nat, x': nat, y: nat, x: nat) {
    y' < y || (y' == y && x' < x)
  }

  /**
   * The grid after the cells before (y, x) are mapped: each of those cells
   * holds what m returned when it was reached, seeing the grid as it then
   * was; every later cell still holds its original colour.
   */
  lemma {:induction false} MapPrefixAt(g: seq<seq<Color>>, m: (nat, nat, seq<seq<Color>>) -> Color,
                                       y: nat, x: nat, y': nat, x': nat)
    requires y <= |g| && (y < |g| ==> x <= |g[y]|) && (y == |g| ==> x == 0)
    requires y' < |g| && x' < |g[y']|
    ensures Before(y', x', y, x) ==> MapPrefix(g, m, y, x)[y'][x'] == m(x', y', MapPrefix(g, m, y', x'))
    ensures !Before(y', x', y, x) ==> MapPrefix(g, m, y, x)[y'][x'] == g[y'][x']
    decreases y, x
  {
    if x > 0 {
      MapPrefixAt(g, m, y, x - 1, y', x');
    } else if y > 0 {
      MapPrefixAt(g, m, y - 1, |g[y - 1]|, y', x');
    }
  }

  /** The image buffer. Data holds Height rows of Width colours each. */
  class Image {
    var width: nat
    var height: nat
    var data: seq<seq<Color>>

    ghost predicate Valid()
      reads this
    {
      |data| == height && Rectangular(data, width)
    }

    /** NewImage, with the height given: Height rows of Width black cells. */
    constructor (width: nat, height: nat)
      ensures this.width == width && this.height == height
      ensures Valid()
      ensures forall y, x :: 0 <= y < height && 0 <= x < width ==> data[y][x] == Black
    {
      var a: seq<seq<Color>> := seq(height, _ => []);
      var i := 0;
      while i < height
        invariant 0 <= i <= height
        invariant |a| == height
        invariant forall y :: 0 <= y < i ==> a[y] == seq(width, _ => Black)
      {
        a := a[i := seq(width, _ => Black)];
        i := i + 1;
      }
      this.width := width;
      this.height := height;
      this.data := a;
    }

    /**
     * Sets every cell [y][x], in row-major order, to m(x, y, grid), where grid
     * is the image as it stands when the cell is reached; dimensions are kept.
     */
    method MapPixels(m: (nat, nat, seq<seq<Color>>) -> Color)
      requires Valid()
      modifies this
      ensures Valid() && width == old(width) && height == old(height)
      ensures data == MapPrefix(old(data), m, |old(data)|, 0)
    {
      ghost var g := data;
      var y := 0;
      while y < |data|
        invariant 0 <= y <= |data| == |g|
        invariant data == MapPrefix(g, m, y, 0)
        invariant width == old(width) && height == old(height) && Valid()
      {
        var x := 0;
        while x < |data[y]|
          invariant y < |data| == |g|
          invariant 0 <= x <= |data[y]| == |g[y]|
          invariant data == MapPrefix(g, m, y, x)
          invariant width == old(width) && height == old(height) && Valid()
        {
          data := data[y := data[y][x := m(x, y, data)]];
          x := x + 1;
        }
        y := y + 1;
      }
    }

    /**
     * ToPPM: the header, then one line per pixel, rows from the last stored
     * row to the first, in a buffer sized for 12 bytes per pixel whose unused
     * tail stays zero.
     */
    method ToPPM() returns (s: seq<byte>)
      requires Valid()
      ensures |s| == |Header(width, height)| + width * height * 12
      ensures s == PpmText(width, height, data)
    {
      s := EncodePpm(width, height, data);
    }
  }
}
