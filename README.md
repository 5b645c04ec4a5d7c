# pg_aa: image to character-art conversion, modelled in Dafny

pg_aa is a PostgreSQL extension with two SQL functions that turn a PNG
(`bytea`) and a width in characters into text:

- `aa_out` renders the image as ASCII glyphs with aalib. It decodes the PNG with gd.
  It computes the output height as `width * SY / SX / 2`, because a character
  cell is taken to be twice as tall as it is wide. It resamples the image onto
  a `2*width` by `2*height` working image. Each pixel's intensity goes to
  aalib, which renders `width * height` glyphs. The glyphs are then reflowed
  into `height` lines joined by newlines. `LC_CTYPE` is forced to `"C"` for
  the whole call, so that aalib emits ASCII only. On each of its four
  explicit exits (three `ereport(ERROR)` calls and the normal return) the
  caller's locale is restored and every gd and aalib object is released.
- `caca_out` renders the image as dithered character-cell art with libcaca.
  It computes the same height and flattens the decoded pixels row by row into
  a packed buffer. It dithers that buffer onto a `width` by `height` canvas
  and exports the canvas as UTF-8. The export's last byte is replaced by NUL
  and the buffer is read as a C string.

The model has one module per concern:

- `Arith` (arith.dfy): multiplication and floor-division facts for grid
  indices.
- `Geometry` (geometry.dfy): the height formula that both entry points use.
- `Raster` (raster.dfy): the pixel types, the two grid traversals and the
  aalib context.
- `Assembler` (assembler.dfy): the newline reflow of `aa_out`.
- `Export` (export.dfy): the terminator strip of `caca_out`.
- `Pipeline` (pipeline.dfy): both entry points. Its `Process` class holds the
  process-wide `LC_CTYPE` value and the ghost set of live foreign objects.

The foreign libraries are opaque. The decoder's result, the outcomes of
`gdImageCreateTrueColor` and `aa_init`, the resampler, the luminance formula,
aalib's glyph choice and libcaca's dither-and-export are all inputs to the
model. One thing is kept from aalib's contract: the glyph choice takes the
locale as an argument. `AaOut` therefore shows that the text is the
`"C"`-locale rendering, whatever locale the caller had.

Some behaviour of the code worth stating plainly:

- The code validates nothing about the geometry. `width > 0` and the
  decoder's `sx > 0` are preconditions.
- All three failures use the same errcode, each with its own message:
  "error loading png", "error creating image", "cannot initialize libaa".
- The dithered path reads the export as a C string, so a NUL inside the
  export cuts the text short there (`Export.ExportText`).

## Model

| member | source | states |
|---|---|---|
| Geometry.CharHeight | pg_aa.c:82-83 | the height `h` satisfies `2*h*SX <= width*SY < 2*(h+1)*SX`, so it is the largest row count the halved aspect ratio allows |
| Geometry.WorkingSize | pg_aa.c:85-86 | the working grid has two pixels per character along each axis |
| Geometry.WorkingCell | pg_aa.c:85-86 | a working pixel `x` is inside the `2*chars` grid exactly when its character cell `x / 2` is inside the `chars` cells |
| Geometry.CharHeightSingleDivision | pg_aa.c:176-177 | truncating by `SX` then by 2 equals one truncation by `2*SX` |
| Geometry.CharHeightZero | pg_aa.c:83 | the height is zero exactly when `width*SY < 2*SX`. The text is then empty only if the zero-height working image can be allocated |
| Geometry.CharHeightMonotone | pg_aa.c:83 | a wider request never gives fewer rows |
| Raster.RowMajorAt | pg_aa.c:181-185 | in the row-major flattening, position `y*SX + x` lies inside the `SX*SY` buffer and holds `pixel(x, y)` |
| Raster.FeedOrderAt | pg_aa.c:116-120 | step `x*H + y` of the feed loop puts cell `(x, y)` with its own sample, for every cell of the `W` by `H` working grid |
| Raster.FeedOrderOnce | pg_aa.c:116-120 | every step puts a cell inside the grid, and only step `x*H + y` puts cell `(x, y)`: each cell is put exactly once |
| Raster.Samples | pg_aa.c:37-47 | `get_intensity(tb, x, y)` is the luminance of `tb`'s true-colour pixel at `(x, y)`, with the formula opaque |
| Raster.FedBufferStart | pg_aa.c:116 | before the first column is fed, the image buffer is what it was |
| Raster.FedBufferStep | pg_aa.c:119 | feeding cell `(i, j)` changes the context's image buffer only at `j*W + i` |
| Raster.FedBufferColumn | pg_aa.c:116-118 | finishing column `i` is the same as starting column `i + 1` |
| Raster.FedBufferDone | pg_aa.c:116-120 | once every column is fed, the image buffer is the row-major picture of the samples, whatever it held before |
| Raster.AaContext.PutPixel | pg_aa.c:119 | `aa_putpixel` appends the call to the log and stores the value at the cell's row-major index, changing nothing else |
| Raster.AaContext.Render | pg_aa.c:123-126 | the text buffer becomes the engine's glyphs for the image buffer, the screen size and the current locale |
| Raster.FeedPixels | pg_aa.c:115-120 | the putpixel log grows by exactly the column-major feed order of `get_intensity(tb, i, j)` over the `2w` by `2h` grid, and the image buffer ends as the row-major picture of those samples |
| Raster.FeedColumn | pg_aa.c:118-119 | the inner loop puts column `i`'s cells in row order and leaves the buffer with column `i` fed |
| Raster.Flatten | pg_aa.c:181-185 | `pixels[k++] = pixel(j, i)` ends with `k == SX*SY`, which is the allocated length, and the buffer equals the row-major picture |
| Assembler.Capacity | pg_aa.c:129-130 | the result buffer holds `(width+1)*height*MAX_MULTIBYTE_CHAR_LEN` bytes, and the assembled text never exceeds that |
| Assembler.ReflowLength | pg_aa.c:132-139 | with `height >= 1` rows, the length plus one is `height` rows of `width` glyphs each followed by a newline. With no rows it is zero |
| Assembler.Reflowed | pg_aa.c:132-139 | the text built row by row: the rows of `width` glyphs joined by newlines. The lemmas below state its properties |
| Assembler.ReflowedLength | pg_aa.c:132-139 | the payload is `height*width + height - 1` bytes when `height >= 1` and empty when `height == 0` |
| Assembler.ReflowedAt | pg_aa.c:136-137 | `out[r*(width+1) + c] == s[r*width + c]` for every row `r < height` and column `c < width` |
| Assembler.ReflowedNewlineAt | pg_aa.c:134-135 | `out[r*(width+1) - 1] == '\n'` for `1 <= r < height` |
| Assembler.ReflowedEndsWithGlyph | pg_aa.c:132-139 | no newline after the last row: the text ends with glyph `s[height*width - 1]` |
| Assembler.ReflowedConsumesGrid | pg_aa.c:132-138 | only the first `width*height` glyphs of `s` are consumed |
| Assembler.ReflowedNextRow | pg_aa.c:133-137 | one more outer iteration appends a newline (except before the first row) and the row's glyphs |
| Assembler.Reflow | pg_aa.c:128-139 | the loop writes exactly the reflowed text, whose length is the payload length and fits the buffer, and leaves the rest of the buffer untouched |
| Assembler.EmitRow | pg_aa.c:134-137 | one outer iteration writes an optional newline and then `n` glyphs in order, and returns the advanced write position |
| Export.CString | pg_aa.c:197 | the text `cstring_to_text` copies is a prefix of the buffer. It holds no NUL and stops just before the first NUL |
| Export.CStringTerminated | pg_aa.c:196-197 | reading `p + [NUL]` as a C string gives the same text as reading `p` |
| Export.ExportText | pg_aa.c:195-197 | the text is a prefix of the first `len-1` bytes. It is exactly those bytes when none of them is NUL, and an earlier NUL ends it |
| Export.StripTerminator | pg_aa.c:196-197 | the last byte becomes NUL and the text read is ExportText of the original buffer |
| Pipeline.SourceFormatCoversPixels | pg_aa.c:181-189 | the dither reads 32-bit pixels from an `SX` by `SY` bitmap whose `SY` rows of `pitch` bytes span exactly the `4 * SX*SY` bytes that the flattening loop fills |
| Pipeline.GlyphText | pg_aa.c:83-139 | `aa_out`'s text: the resampled `2w` by `2h` samples, rendered under `"C"` and reflowed |
| Pipeline.GlyphTextShape | pg_aa.c:129-139 | the text `aa_out` returns has exactly `height*width + height - 1` characters. When `height == 0` it has none, if the zero-height working image can be allocated at all |
| Pipeline.CacaText | pg_aa.c:177-197 | `caca_out`'s text holds no NUL and is shorter than the export it is read from |
| Pipeline.Process.QueryLocale | pg_aa.c:68 | `setlocale(LC_CTYPE, NULL)` returns the current locale |
| Pipeline.Process.SetLocale | pg_aa.c:69 | `setlocale(LC_CTYPE, l)` sets the locale and allocates nothing |
| Pipeline.Process.CreateFromPng | pg_aa.c:72-74 | a failed decode yields null and allocates nothing. A successful one yields a fresh live image with the decoded size and pixels |
| Pipeline.Process.CreateTrueColor | pg_aa.c:86-87 | the image is a fresh live `sx` by `sy` image, or null with nothing allocated |
| Pipeline.Process.AaInit | pg_aa.c:101-106 | the context is a fresh live context over a `width` by `height` screen and a `2*width` by `2*height` image buffer, or null with nothing allocated |
| Pipeline.Process.CreateCanvas | pg_aa.c:180 | the canvas is a fresh live `width` by `height` canvas |
| Pipeline.Process.CreateDither | pg_aa.c:188-189 | the dither is a fresh live object with the given pixel format |
| Pipeline.Process.ExportCanvas | pg_aa.c:195 | the buffer is a fresh live buffer holding the canvas's export |
| Pipeline.Process.Release | pg_aa.c:142-143 | the released object is no longer live, and nothing else changes |
| Pipeline.CopyResampled | pg_aa.c:95-97 | the working image's pixels become the resampling of the whole source onto the whole working image |
| Pipeline.CacaCanvas.DitherBitmap | pg_aa.c:190-191 | the canvas holds the engine's rendering of the whole pixel buffer in the dither's format at the canvas size |
| Pipeline.AaOut | pg_aa.c:50-148 | on all four exits the caller's `LC_CTYPE` is restored and the live set is what it was at entry. Each failure gives its own error. On success the text is the reflowed `"C"`-locale rendering of the resampled `2w` by `2h` samples, with `h` from the shared height formula |
| Pipeline.CacaRender | pg_aa.c:176-201 | canvas, dither and export buffer are all released, and the text is the export of the row-major pixels with the export's last byte stripped |
| Pipeline.CacaOutAsWritten | pg_aa.c:150-204 | `caca_out` as written: a failed decode allocates nothing, but after a successful one the live set strictly grows |
| Pipeline.CacaOutLeakWitness | pg_aa.c:167-203 | a 1x1 PNG at width 1, in a process with nothing live, leaves a live object behind |
| Pipeline.CacaOut | pg_aa.c:150-204 | corrected `caca_out`: the same error and text, with the live set unchanged on both exits |

## Findings

| source | as written | input that shows it | evidently intended | confidence | as-written member | corrected member |
|---|---|---|---|---|---|---|
| pg_aa.c:167-203 | the image from `gdImageCreateFromPngPtr` is never passed to `gdImageDestroy`, so gd's allocation outlives the call | any PNG that decodes, at any width (a 1x1 image at width 1) | destroy `im` once its pixels are copied, as `aa_out` does at line 98 | high; not executed | Pipeline.CacaOutAsWritten | Pipeline.CacaOut |

## Left out

- PNG decoding, `gdImageCopyResampled` and the rest of gd's internals: the decoder's result is an input (`Option<Picture>`) and resampling is an opaque function.
- The floating-point luminance formula of `get_intensity` (pg_aa.c:42-46). It is an opaque function from a packed pixel to a byte.
- aalib's glyph selection (`aa_render`, `aa_flush`, `aa_text`) and libcaca's dithering and export. These are opaque functions. The model assumes their output sizes: one glyph per cell, and an export of at least one byte. That includes the zero-height canvas `caca_out` creates when `width*SY < 2*SX`. If libcaca's export were empty there, `buffer[len - 1]` at pg_aa.c:196 would write before the buffer.
- Whether gd accepts a zero-size image. gd's source is not part of this model. `gdImageCreateTrueColor`'s outcome is an input, so a zero height may lead either to an empty text or to "error creating image".
- Raster.AaContext.PutPixel: requires the cell inside the image buffer. aalib's own definition of `aa_putpixel` is not part of this model, and the feed loop only passes cells inside the grid.
- Pipeline.Process.AaInit: assumes the memory driver honours the requested screen size, with a 2x2 image cell per character. aalib's internals are not part of this model.
- Pipeline.CacaCanvas.DitherBitmap: dithering and export are folded into one opaque function whose result the canvas stores. The canvas cells themselves are not modelled.
- The PostgreSQL function-call and varlena machinery (`PG_GETARG_*`, `PG_FREE_IF_COPY`, `VARDATA`, `SET_VARSIZE`, `cstring_to_text`'s copy, `palloc`, `pfree`). Results are returned as the text payload without its header. `ereport(ERROR)` becomes an `Err` result.
- Memory from `palloc` (the saved locale string, the result buffer, the pixel buffer). The server's memory context frees it, so it is not in the live set.
- Pipeline.AaOut: a failing `palloc` is a fifth exit, which the model does not have. On out-of-memory, or a request over 1 GB (e.g. width 23200 on a square image), the `palloc` of the result at pg_aa.c:129-130 raises ERROR. By then LC_CTYPE is already "C" (line 69), and `tb` (line 86) and `context` (line 105) are live. That exit restores no locale and leaks both objects. The four-exit promise covers only the exits the code writes out.
- The real `setlocale` call and callers that share the process locale at the same time. The locale is a field of `Process`.
- The 32-bit overflow of `width * SY`, `width * 2` and `(width+1)*height*MAX_MULTIBYTE_CHAR_LEN`, and C division of a negative width. The code does not check for them, so `width > 0` is a precondition and the arithmetic is unbounded.
- Null results that `caca_out` never checks (`caca_create_canvas`, the export buffer). None of these is modelled.
- Palette PNGs. For such an image gd keeps no true-colour pixel table, so `gdImageTrueColorPixel` at pg_aa.c:185 would read through a null pointer and crash the backend. The model's `Picture` is always true-colour. This crash is not modelled, and nothing was executed to confirm it.
