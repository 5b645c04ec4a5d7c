/** The two SQL-callable entry points: `aa_out`, which renders a PNG as ASCII
    glyphs, and `caca_out`, which renders it as dithered character-cell art.
    Both decode the image, plan the output height, drive a foreign rendering
    engine and assemble the engine's output into text. The image library,
    aalib and libcaca are opaque: their outcomes and outputs are parameters. */
module Pipeline {
  import opened Raster
  import Geometry
  import Assembler
  import Export

  /** The errors reported with `ereport(ERROR, ...)`. */
  datatype Error =
    | ErrorLoadingPng         // "error loading png"
    | ErrorCreatingImage      // "error creating image"
    | CannotInitializeLibaa   // "cannot initialize libaa"

  datatype Result<T> = Ok(value: T) | Err(error: Error)

  datatype Option<T> = None | Some(value: T)

  /** A decoded PNG: a true-colour picture `sx` pixels wide and `sy` high. */
  datatype Picture = Picture(sx: nat, sy: nat, pixel: (nat, nat) -> u32)

  /** The pixel format a libcaca dither is created with. */
  datatype DitherFormat = DitherFormat(
    bpp: nat, width: nat, height: nat, pitch: nat,
    rmask: u32, gmask: u32, bmask: u32, amask: u32)

  /** `caca_create_dither(32, sx, sy, 4 * sx, 0x00ff0000, 0x0000ff00,
      0x000000ff, 0x0)`: 32-bit pixels, red, green and blue in one byte each
      from the top, rows of `4 * sx` bytes, no alpha. */
  function SourceFormat(sx: nat, sy: nat): (f: DitherFormat)
    ensures f.pitch == 4 * f.width && f.amask == 0
  {
    DitherFormat(32, sx, sy, 4 * sx, 0x00ff0000, 0x0000ff00, 0x000000ff, 0x0)
  }

  /** The dither reads exactly the buffer the flattening loop fills: one
      32-bit pixel per `u32` of the row-major buffer, `sy` rows of `pitch`
      bytes that together span the buffer's `4 * sx * sy` bytes. */
  lemma SourceFormatCoversPixels(p: Picture)
    ensures SourceFormat(p.sx, p.sy).bpp == 32
    ensures SourceFormat(p.sx, p.sy).width == p.sx && SourceFormat(p.sx, p.sy).height == p.sy
    ensures SourceFormat(p.sx, p.sy).pitch * p.sy == 4 * |RowMajor(p.sx, p.sy, p.pixel)|
  {
    assert |RowMajor(p.sx, p.sy, p.pixel)| == p.sx * p.sy;
    assert (4 * p.sx) * p.sy == 4 * (p.sx * p.sy);
  }

  /** The glyph engine's contract: one glyph per character cell. */
  ghost predicate FullScreen(render: (seq<byte>, nat, nat, string) -> seq<char>)
  {
    forall b: seq<byte>, w: nat, h: nat, l: string :: |render(b, w, h, l)| == w * h
  }

  /** The dither-and-export engine's contract: the export holds at least one
      byte, the one the caller overwrites with NUL. */
  ghost predicate Terminated(ditherExport: (seq<u32>, DitherFormat, nat, nat) -> seq<byte>)
  {
    forall p: seq<u32>, f: DitherFormat, w: nat, h: nat :: |ditherExport(p, f, w, h)| >= 1
  }

  /** The text `aa_out` returns for a decoded picture `p`: the picture
      resampled to the `2 * width` by `2 * height` working grid, its intensity
      samples rendered by the glyph engine under the "C" locale, and the
      engine's `width * height` glyphs reflowed into `height` lines. */
  function GlyphText(p: Picture, width: nat,
                     resample: (Picture, nat, nat) -> ((nat, nat) -> u32),
                     luminance: u32 -> byte,
                     render: (seq<byte>, nat, nat, string) -> seq<char>): seq<char>
    requires p.sx > 0 && FullScreen(render)
  {
    var height := Geometry.CharHeight(width, p.sx, p.sy);
    var grid := Geometry.WorkingSize(width);
    var rows := Geometry.WorkingSize(height);
    var samples := RowMajor(grid, rows, Samples(resample(p, grid, rows), luminance));
    var glyphs := render(samples, width, height, "C");
    assert |glyphs| == width * height;
    Assembler.Reflowed(glyphs, width, height)
  }

  /** The text of `aa_out` is `height` lines of `width` glyphs with a newline
      between lines: `height * width + height - 1` characters, or none when
      the height is zero. */
  lemma GlyphTextShape(p: Picture, width: nat,
                       resample: (Picture, nat, nat) -> ((nat, nat) -> u32),
                       luminance: u32 -> byte,
                       render: (seq<byte>, nat, nat, string) -> seq<char>)
    requires p.sx > 0 && FullScreen(render)
    ensures |GlyphText(p, width, resample, luminance, render)|
         == Assembler.ReflowLength(width, Geometry.CharHeight(width, p.sx, p.sy))
  {
    var height := Geometry.CharHeight(width, p.sx, p.sy);
    var grid := Geometry.WorkingSize(width);
    var rows := Geometry.WorkingSize(height);
    var samples := RowMajor(grid, rows, Samples(resample(p, grid, rows), luminance));
    var glyphs := render(samples, width, height, "C");
    assert |glyphs| == height * width;
    Assembler.ReflowedLength(glyphs, width, height);
  }

  /** The text `caca_out` returns for a decoded picture `p`: its pixels in
      row-major order, dithered onto a `width` by `height` canvas and
      exported, with the export's last byte stripped. */
  function CacaText(p: Picture, width: nat,
                    ditherExport: (seq<u32>, DitherFormat, nat, nat) -> seq<byte>): (t: seq<byte>)
    requires p.sx > 0 && Terminated(ditherExport)
    ensures Export.NoNul(t)
    ensures |t| < |ditherExport(RowMajor(p.sx, p.sy, p.pixel), SourceFormat(p.sx, p.sy),
                                 width, Geometry.CharHeight(width, p.sx, p.sy))|
  {
    var height := Geometry.CharHeight(width, p.sx, p.sy);
    Export.ExportText(ditherExport(RowMajor(p.sx, p.sy, p.pixel), SourceFormat(p.sx, p.sy), width, height))
  }

  /** A libcaca dither object. */
  class CacaDither {
    const format: DitherFormat

    constructor (format: DitherFormat)
      ensures this.format == format
    {
      this.format := format;
    }
  }

  /** A libcaca canvas of `width` by `height` character cells. `art` is what
      exporting it produces; dithering a bitmap onto it sets that. */
  class CacaCanvas {
    const width: nat
    const height: nat
    var art: seq<byte>

    constructor (width: nat, height: nat)
      ensures this.width == width && this.height == height && art == []
    {
      this.width, this.height, art := width, height, [];
    }

    /** `caca_dither_bitmap(cv, 0, 0, width, height, dither, pixels)` over the
        whole canvas. */
    method DitherBitmap(dither: CacaDither, pixels: array<u32>,
                        ditherExport: (seq<u32>, DitherFormat, nat, nat) -> seq<byte>)
      modifies this
      ensures art == ditherExport(pixels[..], dither.format, width, height)
    {
      art := ditherExport(pixels[..], dither.format, width, height);
    }
  }

  /** The server process as one call sees it: the LC_CTYPE locale, a
      process-wide setting, and the foreign objects currently allocated
      (gd images, aalib contexts, libcaca canvases and dithers, and export
      buffers). */
  class Process {
    var ctype: string
    ghost var live: set<object>

    constructor (ctype: string)
      ensures this.ctype == ctype && live == {}
    {
      this.ctype := ctype;
      live := {};
    }

    /** `setlocale(LC_CTYPE, NULL)`. */
    method QueryLocale() returns (l: string)
      ensures l == ctype
    {
      l := ctype;
    }

    /** `setlocale(LC_CTYPE, l)`. */
    method SetLocale(l: string)
      modifies this
      ensures ctype == l && live == old(live)
    {
      ctype := l;
    }

    /** `gdImageCreateFromPngPtr`: the decoder's outcome is `decoded`. */
    method CreateFromPng(decoded: Option<Picture>) returns (im: GdImage?)
      modifies this
      ensures ctype == old(ctype)
      ensures decoded.None? ==> im == null && live == old(live)
      ensures decoded.Some? ==>
        im != null && fresh(im) && live == old(live) + {im} &&
        im.sx == decoded.value.sx && im.sy == decoded.value.sy && im.pixel == decoded.value.pixel
    {
      if decoded.None? {
        im := null;
      } else {
        im := new GdImage(decoded.value.sx, decoded.value.sy, decoded.value.pixel);
        live := live + {im};
      }
    }

    /** `gdImageCreateTrueColor(sx, sy)`: a black image, or null when
        allocation fails (`ok` is false). */
    method CreateTrueColor(sx: nat, sy: nat, ok: bool) returns (tb: GdImage?)
      modifies this
      ensures ctype == old(ctype)
      ensures !ok ==> tb == null && live == old(live)
      ensures ok ==> tb != null && fresh(tb) && live == old(live) + {tb} && tb.sx == sx && tb.sy == sy
    {
      if !ok {
        tb := null;
      } else {
        tb := new GdImage(sx, sy, (x: nat, y: nat) => 0);
        live := live + {tb};
      }
    }

    /** `aa_init(&mem_d, &params, NULL)` with a `width` by `height` screen, or
        null when the engine cannot be set up (`ok` is false). */
    method AaInit(width: nat, height: nat, ok: bool) returns (ctx: AaContext?)
      modifies this
      ensures ctype == old(ctype)
      ensures !ok ==> ctx == null && live == old(live)
      ensures ok ==>
        ctx != null && fresh(ctx) && fresh(ctx.imageBuffer) && fresh(ctx.textBuffer) &&
        ctx.Valid() && ctx.scrWidth == width && ctx.scrHeight == height &&
        live == old(live) + {ctx}
    {
      if !ok {
        ctx := null;
      } else {
        ctx := new AaContext(width, height);
        live := live + {ctx};
      }
    }

    /** `caca_create_canvas(width, height)`. */
    method CreateCanvas(width: nat, height: nat) returns (cv: CacaCanvas)
      modifies this
      ensures ctype == old(ctype)
      ensures fresh(cv) && live == old(live) + {cv} && cv.width == width && cv.height == height
    {
      cv := new CacaCanvas(width, height);
      live := live + {cv};
    }

    /** `caca_create_dither` with the given pixel format. */
    method CreateDither(format: DitherFormat) returns (dither: CacaDither)
      modifies this
      ensures ctype == old(ctype)
      ensures fresh(dither) && live == old(live) + {dither} && dither.format == format
    {
      dither := new CacaDither(format);
      live := live + {dither};
    }

    /** `caca_export_canvas_to_memory(cv, "utf8", &len)`: a freshly allocated
        buffer of `len` bytes holding the canvas's export. */
    method ExportCanvas(cv: CacaCanvas) returns (buffer: array<byte>)
      modifies this
      ensures ctype == old(ctype)
      ensures fresh(buffer) && live == old(live) + {buffer} && buffer[..] == cv.art
    {
      buffer := new byte[|cv.art|](k requires 0 <= k < |cv.art| reads cv => cv.art[k]);
      live := live + {buffer};
    }

    /** `gdImageDestroy`, `aa_close`, `caca_free_dither`, `caca_free_canvas`
        and `free`: the object is no longer live. */
    method Release(o: object)
      requires o in live
      modifies this
      ensures ctype == old(ctype) && live == old(live) - {o}
    {
      live := live - {o};
    }
  }

  /** `gdImageCopyResampled(tb, im, 0, 0, 0, 0, tb.sx, tb.sy, im.sx, im.sy)`:
      the whole of `src`, resampled by the image library onto the whole of
      `dst`. */
  method CopyResampled(dst: GdImage, src: GdImage,
                       resample: (Picture, nat, nat) -> ((nat, nat) -> u32))
    modifies dst
    ensures dst.pixel == resample(Picture(src.sx, src.sy, old(src.pixel)), dst.sx, dst.sy)
  {
    dst.pixel := resample(Picture(src.sx, src.sy, src.pixel), dst.sx, dst.sy);
  }

  /** `aa_out(img, width)`. LC_CTYPE is saved and forced to "C" for the whole
      call, so that the glyph engine emits ASCII only. On each of the three
      error exits and on success the saved locale is restored and every
      object allocated so far is released. */
  method AaOut(host: Process, decoded: Option<Picture>, width: nat,
               tbAllocates: bool, aaInitSucceeds: bool,
               resample: (Picture, nat, nat) -> ((nat, nat) -> u32),
               luminance: u32 -> byte,
               render: (seq<byte>, nat, nat, string) -> seq<char>)
    returns (r: Result<seq<char>>)
    requires width > 0
    requires decoded.Some? ==> decoded.value.sx > 0
    requires FullScreen(render)
    modifies host
    ensures host.ctype == old(host.ctype) && host.live == old(host.live)
    ensures decoded.None? ==> r == Err(ErrorLoadingPng)
    ensures decoded.Some? && !tbAllocates ==> r == Err(ErrorCreatingImage)
    ensures decoded.Some? && tbAllocates && !aaInitSucceeds ==> r == Err(CannotInitializeLibaa)
    ensures decoded.Some? && tbAllocates && aaInitSucceeds ==>
      r == Ok(GlyphText(decoded.value, width, resample, luminance, render))
  {
    var oldLocale := host.QueryLocale();
    host.SetLocale("C");

    var im := host.CreateFromPng(decoded);
    if im == null {
      host.SetLocale(oldLocale);
      return Err(ErrorLoadingPng);
    }

    var height := Geometry.CharHeight(width, im.sx, im.sy);

    var tb := host.CreateTrueColor(Geometry.WorkingSize(width), Geometry.WorkingSize(height), tbAllocates);
    if tb == null {
      host.Release(im);
      host.SetLocale(oldLocale);
      return Err(ErrorCreatingImage);
    }
    CopyResampled(tb, im, resample);
    host.Release(im);

    var context := host.AaInit(width, height, aaInitSucceeds);
    if context == null {
      host.Release(tb);
      host.SetLocale(oldLocale);
      return Err(CannotInitializeLibaa);
    }

    FeedPixels(context, tb, luminance);
    context.Render(render, host.ctype);
    var s := context.textBuffer;

    var result := new char[Assembler.Capacity(width, height)];
    var len := Assembler.Reflow(s, width, height, result);

    host.Release(tb);
    host.Release(context);
    host.SetLocale(oldLocale);
    r := Ok(result[..len]);
  }

  /** The body of `caca_out` after a successful decode: plan the canvas,
      flatten the picture into a buffer of `sx * sy` pixels, dither it onto
      the canvas, export it and strip the export's terminator. Every object
      this allocates is released before it returns. */
  method CacaRender(host: Process, im: GdImage, width: nat,
                    ditherExport: (seq<u32>, DitherFormat, nat, nat) -> seq<byte>)
    returns (text: seq<byte>)
    requires im.sx > 0 && Terminated(ditherExport)
    modifies host
    ensures host.ctype == old(host.ctype) && host.live == old(host.live)
    ensures text == CacaText(Picture(im.sx, im.sy, im.pixel), width, ditherExport)
  {
    var height := Geometry.CharHeight(width, im.sx, im.sy);
    var cv := host.CreateCanvas(width, height);

    var pixels := new u32[im.sx * im.sy];
    var k := Flatten(im, pixels);

    var dither := host.CreateDither(SourceFormat(im.sx, im.sy));
    cv.DitherBitmap(dither, pixels, ditherExport);
    host.Release(dither);

    var buffer := host.ExportCanvas(cv);
    text := Export.StripTerminator(buffer);

    host.Release(buffer);
    host.Release(cv);
  }

  /** `caca_out(img, width)` as written: the decoded image is never passed to
      `gdImageDestroy`, so each successful call leaves one more live object
      behind. */
  method CacaOutAsWritten(host: Process, decoded: Option<Picture>, width: nat,
                          ditherExport: (seq<u32>, DitherFormat, nat, nat) -> seq<byte>)
    returns (r: Result<seq<byte>>)
    requires width > 0
    requires decoded.Some? ==> decoded.value.sx > 0
    requires Terminated(ditherExport)
    modifies host
    ensures host.ctype == old(host.ctype)
    ensures decoded.None? ==> r == Err(ErrorLoadingPng) && host.live == old(host.live)
    ensures decoded.Some? ==> r == Ok(CacaText(decoded.value, width, ditherExport))
    ensures decoded.Some? ==> old(host.live) < host.live
  {
    var im := host.CreateFromPng(decoded);
    if im == null {
      return Err(ErrorLoadingPng);
    }
    var text := CacaRender(host, im, width, ditherExport);
    r := Ok(text);
  }

  /** `caca_out(img, width)` with the decoded image destroyed once the pixels
      are exported: the same text, and no object outlives the call. */
  method CacaOut(host: Process, decoded: Option<Picture>, width: nat,
                 ditherExport: (seq<u32>, DitherFormat, nat, nat) -> seq<byte>)
    returns (r: Result<seq<byte>>)
    requires width > 0
    requires decoded.Some? ==> decoded.value.sx > 0
    requires Terminated(ditherExport)
    modifies host
    ensures host.ctype == old(host.ctype) && host.live == old(host.live)
    ensures decoded.None? ==> r == Err(ErrorLoadingPng)
    ensures decoded.Some? ==> r == Ok(CacaText(decoded.value, width, ditherExport))
  {
    var im := host.CreateFromPng(decoded);
    if im == null {
      return Err(ErrorLoadingPng);
    }
    var text := CacaRender(host, im, width, ditherExport);
    host.Release(im);
    r := Ok(text);
  }

  /** A concrete call that shows the leak: one 1x1 PNG rendered at width 1
      through `caca_out` as written, in a process with no live objects,
      leaves a live object behind. */
  method CacaOutLeakWitness(host: Process)
    requires host.live == {}
    modifies host
    ensures host.live != {}
  {
    var picture := Picture(1, 1, (x: nat, y: nat) => 0);
    var engine := (p: seq<u32>, f: DitherFormat, w: nat, h: nat) => [Export.Nul];
    var r := CacaOutAsWritten(host, Some(picture), 1, engine);
  }
}
