/** Pixel grids and the two traversals over them: the row-major flattening
    that fills a packed pixel buffer, and the column-major feed of intensity
    samples into the glyph engine. A pixel source is an abstract function
    from a column `x` and a row `y` to a value. */
module Raster {
  import opened Arith

  /** An 8-bit intensity sample or text byte. */
  newtype byte = b: int | 0 <= b < 0x100

  /** A 32-bit packed true-colour pixel as the image library stores it. */
  newtype u32 = v: int | 0 <= v < 0x1_0000_0000

  /** One call `aa_putpixel(context, x, y, value)`. */
  datatype Put = Put(x: nat, y: nat, value: byte)

  /** The `w` by `h` picture of `pixel`, flattened row by row: what
      `pixels[k++] = pixel(j, i)` produces for rows `i` and columns `j`. */
  function RowMajor<T>(w: nat, h: nat, pixel: (nat, nat) -> T): (s: seq<T>)
    ensures |s| == w * h
  {
    seq(w * h, k requires 0 <= k < w * h => pixel(k % w, k / w))
  }

  /** Cell `(x, y)` of the flattened picture is `pixel(x, y)`, and every
      position of the buffer is some such cell. */
  lemma {:induction false} RowMajorAt<T>(w: nat, h: nat, pixel: (nat, nat) -> T, x: nat, y: nat)
    requires x < w && y < h
    ensures y * w + x < |RowMajor(w, h, pixel)|
    ensures RowMajor(w, h, pixel)[y * w + x] == pixel(x, y)
  {
    CellInGrid(x, y, w, h);
    RowMajorIndex(x, y, w);
  }

  /** The feed order of the glyph path: the outer loop runs over columns
      `i < w`, the inner over rows `j < h`, and each step puts the sample of
      cell `(i, j)`. */
  function FeedOrder(w: nat, h: nat, sample: (nat, nat) -> byte): (s: seq<Put>)
    ensures |s| == w * h
  {
    seq(w * h, k requires 0 <= k < w * h => Put(k / h, k % h, sample(k / h, k % h)))
  }

  /** Every cell of the working grid is put, at step `x * h + y`, with its own
      sample. */
  lemma {:induction false} FeedOrderAt(w: nat, h: nat, sample: (nat, nat) -> byte, x: nat, y: nat)
    requires x < w && y < h
    ensures x * h + y < |FeedOrder(w, h, sample)|
    ensures FeedOrder(w, h, sample)[x * h + y] == Put(x, y, sample(x, y))
  {
    CellInGrid(y, x, h, w);
    assert h * w == w * h;
    RowMajorIndex(y, x, h);
  }

  /** No cell is put twice: the only step that puts cell `(x, y)` is step
      `x * h + y`. Together with FeedOrderAt, each cell of the grid is put
      exactly once. */
  lemma {:induction false} FeedOrderOnce(w: nat, h: nat, sample: (nat, nat) -> byte, k: nat)
    requires k < w * h
    ensures FeedOrder(w, h, sample)[k].x < w && FeedOrder(w, h, sample)[k].y < h
    ensures k == FeedOrder(w, h, sample)[k].x * h + FeedOrder(w, h, sample)[k].y
  {
    assert k < h * w;
    RowOfIndex(k, h, w);
    assert k == (k / h) * h + k % h;
  }

  /** Intensity samples of a true-colour pixel source: what
      `get_intensity(tb, x, y)` returns, with the luminance formula taken as
      an opaque function of the packed pixel. */
  function Samples(pixel: (nat, nat) -> u32, luminance: u32 -> byte): (nat, nat) -> byte
  {
    (x: nat, y: nat) => luminance(pixel(x, y))
  }

  /** Cell `(x, y)` has been fed once the column-major loop has passed
      column `x`, or is in column `i` above row `j`. */
  predicate Fed(x: nat, y: nat, i: nat, j: nat)
  {
    x < i || (x == i && y < j)
  }

  /** The image buffer, `w` columns wide, after the feed loop has reached cell
      `(i, j)`: fed cells hold their sample, the rest hold what `base` had. */
  function FedBuffer(base: seq<byte>, w: nat, sample: (nat, nat) -> byte, i: nat, j: nat): (s: seq<byte>)
    requires w > 0
    ensures |s| == |base|
  {
    seq(|base|, k requires 0 <= k < |base| =>
      if Fed(k % w, k / w, i, j) then sample(k % w, k / w) else base[k])
  }

  lemma FedBufferStart(base: seq<byte>, w: nat, sample: (nat, nat) -> byte)
    requires w > 0
    ensures FedBuffer(base, w, sample, 0, 0) == base
  {
    var s := FedBuffer(base, w, sample, 0, 0);
    forall k | 0 <= k < |base| ensures s[k] == base[k] {
      assert !Fed(k % w, k / w, 0, 0);
    }
  }

  /** Feeding cell `(i, j)` stores its sample at its row-major position and
      changes nothing else. */
  lemma {:induction false} FedBufferStep(base: seq<byte>, w: nat, h: nat, sample: (nat, nat) -> byte, i: nat, j: nat)
    requires i < w && j < h && |base| == w * h
    ensures j * w + i < |base|
    ensures FedBuffer(base, w, sample, i, j + 1) == FedBuffer(base, w, sample, i, j)[j * w + i := sample(i, j)]
  {
    CellInGrid(i, j, w, h);
    RowMajorIndex(i, j, w);
    var before := FedBuffer(base, w, sample, i, j);
    var after := FedBuffer(base, w, sample, i, j + 1);
    forall k | 0 <= k < |base|
      ensures after[k] == before[j * w + i := sample(i, j)][k]
    {
      if k == j * w + i {
        assert k % w == i && k / w == j;
        assert Fed(k % w, k / w, i, j + 1);
        assert after[k] == sample(i, j);
      } else {
        assert k == (k / w) * w + k % w;
        assert !(k % w == i && k / w == j);
        assert Fed(k % w, k / w, i, j + 1) == Fed(k % w, k / w, i, j);
        assert after[k] == before[k];
      }
    }
  }

  /** After the last row of column `i` comes the first row of column `i + 1`. */
  lemma {:induction false} FedBufferColumn(base: seq<byte>, w: nat, h: nat, sample: (nat, nat) -> byte, i: nat)
    requires w > 0 && |base| == w * h
    ensures FedBuffer(base, w, sample, i, h) == FedBuffer(base, w, sample, i + 1, 0)
  {
    var before := FedBuffer(base, w, sample, i, h);
    var after := FedBuffer(base, w, sample, i + 1, 0);
    forall k | 0 <= k < |base|
      ensures before[k] == after[k]
    {
      RowOfIndex(k, w, h);
      assert Fed(k % w, k / w, i, h) == Fed(k % w, k / w, i + 1, 0);
    }
  }

  /** Once every column is fed, the buffer is the row-major picture of the
      samples, whatever it held before. */
  lemma FedBufferDone(base: seq<byte>, w: nat, h: nat, sample: (nat, nat) -> byte)
    requires w > 0 && |base| == w * h
    ensures FedBuffer(base, w, sample, w, 0) == RowMajor(w, h, sample)
  {
    var s := FedBuffer(base, w, sample, w, 0);
    var r := RowMajor(w, h, sample);
    forall k | 0 <= k < |base| ensures s[k] == r[k] {
      assert Fed(k % w, k / w, w, 0);
    }
  }

  /** A true-colour image held by the image library; `pixel` is its content,
      which resampling into the image replaces. */
  class GdImage {
    const sx: nat
    const sy: nat
    var pixel: (nat, nat) -> u32

    constructor (sx: nat, sy: nat, pixel: (nat, nat) -> u32)
      ensures this.sx == sx && this.sy == sy && this.pixel == pixel
    {
      this.sx, this.sy, this.pixel := sx, sy, pixel;
    }
  }

  /** The glyph engine's context as the memory driver sets it up: a screen of
      `scrWidth` by `scrHeight` characters over an image buffer of
      `2 * scrWidth` by `2 * scrHeight` intensity samples, and a text buffer of
      one glyph per character cell. `puts` records every pixel put. */
  class AaContext {
    const scrWidth: nat
    const scrHeight: nat
    const imgWidth: nat
    const imgHeight: nat
    const imageBuffer: array<byte>
    const textBuffer: array<char>
    ghost var puts: seq<Put>

    ghost predicate Valid()
      reads this
    {
      imgWidth == 2 * scrWidth && imgHeight == 2 * scrHeight &&
      imageBuffer.Length == imgWidth * imgHeight &&
      textBuffer.Length == scrWidth * scrHeight &&
      imageBuffer as object != textBuffer as object
    }

    constructor (width: nat, height: nat)
      ensures Valid() && scrWidth == width && scrHeight == height
      ensures fresh(imageBuffer) && fresh(textBuffer) && puts == []
    {
      scrWidth, scrHeight := width, height;
      imgWidth, imgHeight := 2 * width, 2 * height;
      imageBuffer := new byte[2 * width * (2 * height)];
      textBuffer := new char[width * height];
      puts := [];
    }

    /** `aa_putpixel`: the sample is stored at its row-major position in the
        image buffer. */
    method PutPixel(x: nat, y: nat, value: byte)
      requires Valid()
      requires x < imgWidth && y < imgHeight
      modifies this, imageBuffer
      ensures puts == old(puts) + [Put(x, y, value)]
      ensures y * imgWidth + x < imageBuffer.Length
      ensures imageBuffer[..] == old(imageBuffer[..])[y * imgWidth + x := value]
    {
      CellInGrid(x, y, imgWidth, imgHeight);
      imageBuffer[y * imgWidth + x] := value;
      puts := puts + [Put(x, y, value)];
    }

    /** `aa_render` followed by `aa_flush`: the glyph engine fills the text
        buffer from the image buffer. Its glyph choice is opaque (`engine`)
        and depends on the character-classification locale in force. */
    method Render(engine: (seq<byte>, nat, nat, string) -> seq<char>, locale: string)
      requires Valid()
      requires |engine(imageBuffer[..], scrWidth, scrHeight, locale)| == textBuffer.Length
      modifies textBuffer
      ensures textBuffer[..] == engine(imageBuffer[..], scrWidth, scrHeight, locale)
    {
      var glyphs := engine(imageBuffer[..], scrWidth, scrHeight, locale);
      forall k | 0 <= k < textBuffer.Length {
        textBuffer[k] := glyphs[k];
      }
      assert textBuffer[..] == glyphs;
      assert imageBuffer[..] == old(imageBuffer[..]);
      assert glyphs == engine(old(imageBuffer[..]), scrWidth, scrHeight, locale);
    }
  }

  /** The feed loop of the glyph path: for each column `i` of the working
      image and each row `j`, `aa_putpixel(context, i, j, get_intensity(tb, i, j))`.
      Every cell is put exactly once (FeedOrderAt, FeedOrderOnce), and the
      context's image buffer ends up holding the row-major picture of the
      samples. */
  method FeedPixels(ctx: AaContext, tb: GdImage, luminance: u32 -> byte)
    requires ctx.Valid() && tb.sx == ctx.imgWidth && tb.sy == ctx.imgHeight
    modifies ctx, ctx.imageBuffer
    ensures ctx.puts == old(ctx.puts) + FeedOrder(tb.sx, tb.sy, Samples(tb.pixel, luminance))
    ensures ctx.imageBuffer[..] == RowMajor(tb.sx, tb.sy, Samples(tb.pixel, luminance))
  {
    var sample := Samples(tb.pixel, luminance);
    var w, h := tb.sx, tb.sy;
    if w == 0 {
      assert ctx.imageBuffer[..] == [];
      return;
    }
    ghost var order := FeedOrder(w, h, sample);
    ghost var base := ctx.imageBuffer[..];
    FedBufferStart(base, w, sample);
    var i := 0;
    while i < w
      invariant 0 <= i <= w
      invariant ctx.Valid() && ctx.imgWidth == w && ctx.imgHeight == h
      invariant i * h <= w * h
      invariant ctx.puts == old(ctx.puts) + order[..i * h]
      invariant ctx.imageBuffer[..] == FedBuffer(base, w, sample, i, 0)
    {
      MulLe(i + 1, w, h);
      FeedColumn(ctx, i, sample, base);
      i := i + 1;
    }
    FedBufferDone(base, w, h, sample);
  }

  /** The inner loop of the feed: rows `j` of column `i`. */
  method FeedColumn(ctx: AaContext, i: nat, sample: (nat, nat) -> byte, ghost base: seq<byte>)
    requires ctx.Valid() && i < ctx.imgWidth && |base| == ctx.imgWidth * ctx.imgHeight
    requires (i + 1) * ctx.imgHeight <= ctx.imgWidth * ctx.imgHeight
    requires ctx.imageBuffer[..] == FedBuffer(base, ctx.imgWidth, sample, i, 0)
    modifies ctx, ctx.imageBuffer
    ensures ctx.Valid()
    ensures ctx.puts == old(ctx.puts) + FeedOrder(ctx.imgWidth, ctx.imgHeight, sample)[i * ctx.imgHeight .. (i + 1) * ctx.imgHeight]
    ensures ctx.imageBuffer[..] == FedBuffer(base, ctx.imgWidth, sample, i + 1, 0)
  {
    var w, h := ctx.imgWidth, ctx.imgHeight;
    ghost var order := FeedOrder(w, h, sample);
    var j := 0;
    while j < h
      invariant 0 <= j <= h
      invariant ctx.Valid() && ctx.imgWidth == w && ctx.imgHeight == h
      invariant ctx.puts == old(ctx.puts) + order[i * h .. i * h + j]
      invariant ctx.imageBuffer[..] == FedBuffer(base, w, sample, i, j)
    {
      FeedOrderAt(w, h, sample, i, j);
      FedBufferStep(base, w, h, sample, i, j);
      ctx.PutPixel(i, j, sample(i, j));
      assert order[i * h .. i * h + j + 1] == order[i * h .. i * h + j] + [order[i * h + j]];
      j := j + 1;
    }
    FedBufferColumn(base, w, h, sample, i);
    assert i * h + h == (i + 1) * h;
  }

  /** The flatten loop of the dithered path: `pixels[k++] = pixel(j, i)` for
      each row `i` and column `j` of the decoded image, filling the buffer of
      `sx * sy` pixels exactly. */
  method Flatten(im: GdImage, pixels: array<u32>) returns (k: nat)
    requires pixels.Length == im.sx * im.sy
    modifies pixels
    ensures k == im.sx * im.sy == pixels.Length
    ensures pixels[..] == RowMajor(im.sx, im.sy, im.pixel)
  {
    ghost var picture := RowMajor(im.sx, im.sy, im.pixel);
    k := 0;
    var i := 0;
    while i < im.sy
      invariant 0 <= i <= im.sy
      invariant k == i * im.sx <= pixels.Length
      invariant pixels[..k] == picture[..k]
    {
      var j := 0;
      while j < im.sx
        invariant 0 <= j <= im.sx
        invariant k == i * im.sx + j <= pixels.Length
        invariant pixels[..k] == picture[..k]
      {
        RowMajorAt(im.sx, im.sy, im.pixel, j, i);
        pixels[k] := im.pixel(j, i);
        assert pixels[..k + 1] == pixels[..k] + [pixels[k]];
        assert picture[..k + 1] == picture[..k] + [picture[k]];
        k := k + 1;
        j := j + 1;
      }
      MulLe(i + 1, im.sy, im.sx);
      i := i + 1;
    }
    assert pixels[..] == pixels[..k];
  }
}
