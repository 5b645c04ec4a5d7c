/** Output assembler of the glyph path: the engine leaves `width * height`
    glyphs in one flat buffer, and the assembler copies them into the result
    text with a newline between consecutive rows and none after the last. */
module Assembler {
  import opened Arith

  /** Longest encoding of one character in any server encoding
      (PostgreSQL's MAX_MULTIBYTE_CHAR_LEN); the result buffer reserves that
      many bytes per cell. */
  const MaxMultibyteCharLen: nat := 4

  /** Bytes in the result buffer: `(width + 1) * height * MAX_MULTIBYTE_CHAR_LEN`.
      The assembled text always fits in it. */
  function Capacity(width: nat, height: nat): (c: nat)
    ensures ReflowLength(width, height) <= c
  {
    var m := (width + 1) * height;
    assert ReflowLength(width, height) <= m;
    MulLe(1, MaxMultibyteCharLen, m);
    m * MaxMultibyteCharLen
  }

  /** Length of the assembled text: `height` rows of `width` glyphs and
      `height - 1` separating newlines. */
  function ReflowLength(width: nat, height: nat): (n: nat)
    ensures height > 0 ==> n + 1 == height * (width + 1)
    ensures height == 0 ==> n == 0
  {
    if height == 0 then 0 else height * width + height - 1
  }

  lemma RowBounds(width: nat, h: nat)
    requires h > 0
    ensures (h - 1) * width <= h * width
    ensures (h - 1) * width + width == h * width
  {
  }

  /** The first `height` rows of `s`, each `width` glyphs long, joined by
      newlines: the text the assembler produces, row by row. */
  function Reflowed(s: seq<char>, width: nat, height: nat): seq<char>
    requires height * width <= |s|
    decreases height
  {
    if height == 0 then []
    else
      RowBounds(width, height);
      if height == 1 then s[..width]
      else Reflowed(s, width, height - 1) + ['\n'] + s[(height - 1) * width .. height * width]
  }

  /** The assembled text has exactly ReflowLength characters. */
  lemma {:induction false} ReflowedLength(s: seq<char>, width: nat, height: nat)
    requires height * width <= |s|
    ensures |Reflowed(s, width, height)| == ReflowLength(width, height)
  {
    if height > 1 {
      RowBounds(width, height);
      ReflowedLength(s, width, height - 1);
    }
  }

  /** Glyph `c` of row `r` lands at `r * (width + 1) + c`: every cell of the
      engine's grid appears, in order, at its place in the text. */
  lemma {:induction false} ReflowedAt(s: seq<char>, width: nat, height: nat, r: nat, c: nat)
    requires height * width <= |s|
    requires r < height && c < width
    ensures r * width + c < |s|
    ensures r * (width + 1) + c < |Reflowed(s, width, height)|
    ensures Reflowed(s, width, height)[r * (width + 1) + c] == s[r * width + c]
    decreases height
  {
    RowBounds(width, height);
    ReflowedLength(s, width, height);
    assert r * width + c < (r + 1) * width <= height * width by {
      MulLe(r + 1, height, width);
    }
    if height > 1 {
      var prev := Reflowed(s, width, height - 1);
      ReflowedLength(s, width, height - 1);
      assert |prev| == (height - 1) * (width + 1) - 1;
      if r < height - 1 {
        ReflowedAt(s, width, height - 1, r, c);
      } else {
        assert r * (width + 1) + c == |prev| + 1 + c;
        assert r * width + c == (height - 1) * width + c;
      }
    }
  }

  /** Each row after the first is preceded by a newline, at
      `r * (width + 1) - 1`. */
  lemma {:induction false} ReflowedNewlineAt(s: seq<char>, width: nat, height: nat, r: nat)
    requires height * width <= |s|
    requires 1 <= r < height
    ensures r * (width + 1) - 1 < |Reflowed(s, width, height)|
    ensures Reflowed(s, width, height)[r * (width + 1) - 1] == '\n'
    decreases height
  {
    RowBounds(width, height);
    var prev := Reflowed(s, width, height - 1);
    var row := s[(height - 1) * width .. height * width];
    assert Reflowed(s, width, height) == prev + ['\n'] + row;
    ReflowedLength(s, width, height - 1);
    assert |prev| == (height - 1) * width + (height - 1) - 1;
    if r < height - 1 {
      ReflowedNewlineAt(s, width, height - 1, r);
    } else {
      assert r * (width + 1) - 1 == |prev|;
    }
  }

  /** No newline follows the last row: with at least one non-empty row the
      text ends with the last glyph of the grid. */
  lemma ReflowedEndsWithGlyph(s: seq<char>, width: nat, height: nat)
    requires height * width <= |s|
    requires height > 0 && width > 0
    ensures |Reflowed(s, width, height)| == height * width + height - 1
    ensures Reflowed(s, width, height)[height * width + height - 2] == s[height * width - 1]
  {
    ReflowedLength(s, width, height);
    ReflowedAt(s, width, height, height - 1, width - 1);
    assert (height - 1) * (width + 1) + (width - 1) == height * width + height - 2;
    assert (height - 1) * width + (width - 1) == height * width - 1;
  }

  /** Only the first `width * height` glyphs are consumed: anything the buffer
      holds beyond them has no effect on the text. */
  lemma {:induction false} ReflowedConsumesGrid(s: seq<char>, width: nat, height: nat)
    requires height * width <= |s|
    ensures Reflowed(s, width, height) == Reflowed(s[..height * width], width, height)
    decreases height
  {
    if height > 1 {
      RowBounds(width, height);
      var g := s[..height * width];
      assert g[..(height - 1) * width] == s[..(height - 1) * width];
      ReflowedConsumesGrid(s, width, height - 1);
      ReflowedConsumesGrid(g, width, height - 1);
      assert g[(height - 1) * width .. height * width] == s[(height - 1) * width .. height * width];
    }
  }

  /** Appending one more row: a newline (unless it is the first row) and
      the row's `width` glyphs. */
  lemma ReflowedNextRow(s: seq<char>, width: nat, i: nat)
    requires (i + 1) * width <= |s|
    ensures i * width + width == (i + 1) * width
    ensures Reflowed(s, width, i + 1)
         == Reflowed(s, width, i) + (if i > 0 then ['\n'] else []) + s[i * width .. i * width + width]
    ensures ReflowLength(width, i + 1) == ReflowLength(width, i) + (if i > 0 then 1 else 0) + width
  {
    RowBounds(width, i + 1);
  }

  /** The reflow loop: copies `height` rows of `width` glyphs from `s` into
      `d`, writing a newline before every row but the first, and returns the
      number of bytes written. Nothing past them is touched. */
  method Reflow(s: array<char>, width: nat, height: nat, d: array<char>) returns (len: nat)
    requires height * width <= s.Length
    requires d.Length == Capacity(width, height)
    requires s != d
    modifies d
    ensures len == ReflowLength(width, height) && len <= d.Length
    ensures d[..len] == Reflowed(s[..], width, height)
    ensures d[len..] == old(d[len..])
  {
    ghost var text := s[..];
    ghost var total := ReflowLength(width, height);
    var i, si, di := 0, 0, 0;
    while i < height
      invariant 0 <= i <= height
      invariant si == i * width
      invariant di == ReflowLength(width, i) <= total
      invariant d[..di] == Reflowed(text, width, i)
      invariant d[di..] == old(d[di..])
    {
      MulLe(i + 1, height, width);
      ReflowedNextRow(text, width, i);
      di := EmitRow(s, si, width, i > 0, d, di);
      si := si + width;
      i := i + 1;
    }
    len := di;
  }

  /** One pass of the outer loop: a newline when `separate`, then the `n`
      glyphs of `s[si..]`, written at `d[di..]`; returns the new write
      position. */
  method EmitRow(s: array<char>, si: nat, n: nat, separate: bool, d: array<char>, di: nat)
    returns (next: nat)
    requires si + n <= s.Length && di + (if separate then 1 else 0) + n <= d.Length
    requires s != d
    modifies d
    ensures next == di + (if separate then 1 else 0) + n
    ensures d[..next] == old(d[..di]) + (if separate then ['\n'] else []) + s[si .. si + n]
    ensures d[next..] == old(d[next..])
  {
    next := di;
    if separate {
      d[next] := '\n';
      next := next + 1;
    }
    ghost var lead := d[..next];
    assert lead == old(d[..di]) + (if separate then ['\n'] else []);
    var j := 0;
    while j < n
      invariant 0 <= j <= n
      invariant next == di + (if separate then 1 else 0) + j
      invariant d[..next] == lead + s[si .. si + j]
      invariant d[next..] == old(d[next..])
    {
      d[next] := s[si + j];
      assert s[si .. si + j + 1] == s[si .. si + j] + [s[si + j]];
      next, j := next + 1, j + 1;
      assert d[..next] == d[..next - 1] + [d[next - 1]];
    }
  }
}
