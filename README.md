# gogray grayscale conversion, modelled in Dafny

gogray turns a decoded colour image into several grayscale images. Each
one comes from a different per-pixel mapper. This project models the
program's core, all in `main.go`:

- the five mappers `stdGrayConvert`, `avgGrayConvert`, `redGrayConvert`,
  `greenGrayConvert` and `blueGrayConvert` (module `Mappers`, file
  `mappers.dfy`);
- the allocate-and-fill part of `convert`. It creates an `image.Gray` with
  the source's bounds, then walks those bounds row by row and stores
  `mapper(img.At(x, y))` at every point (module `Conversion`, file
  `convert.dfy`).

Supporting modules:

- `Colors` (`colors.dfy`) holds the 16-bit colour sample that `RGBA()`
  returns and the mappers' result type (`Gray(y)` or an unchanged
  `Sample(c)`). It also writes out Go's `uint32` addition, `>> 8` and
  `uint8(...)` narrowing, so that "no wrap-around and no truncation" is
  proved rather than assumed.
- `Raster` (`raster.dfy`) holds points, the half-open bounds rectangle,
  the decoded source image and the row-major visiting order of a
  rectangle, with lemmas about that order.

The mappers are pure, so they are functions. `convert` fills a buffer in
place, so it is a method with nested `while` loops over a class that
wraps an `array2` of bytes. The loop invariants say that every visited
cell already holds its mapped value and every unvisited cell is still 0.
A ghost trace records the points in the order the loops reach them. The
method proves that this trace is exactly the rectangle's row-major
sequence. Lemmas about that sequence show that it covers every in-bounds
point exactly once, in strictly increasing (y, x) order, and never leaves
the bounds.

`image.Gray.Set` converts its argument with the colour model before
storing it. A `color.Gray` is stored unchanged. A colour that is not a
`color.Gray` goes through the library's luminance weighting, which is not
part of this model, so it is the parameter `luminance`. The four
gray-valued mappers never reach it (`GrayMappersBypassLuminance`). The
model keeps only a sample's four channel values, not its Go colour type,
so `stdGrayConvert`'s output is always routed through `luminance`
(`StdGrayUsesLuminance`).

## Model

| member | source | states |
|---|---|---|
| `Colors.AddU32` | main.go:30 | the `uint32` sum stays below 2^32 and equals the true sum whenever that fits |
| `Colors.Shr8` | main.go:30 | `v >> 8` is the s with s*256 <= v < (s+1)*256 |
| `Colors.Uint8` | main.go:31 | `uint8(v)` keeps v unchanged when v < 256, and otherwise differs from v by a multiple of 256 |
| `Mappers.StdGray` | main.go:22-25 | the standard mapper hands back the sample itself, unchanged |
| `Mappers.AvgGray` | main.go:28-32 | the result is a gray value equal to ((r+g+b)/3)>>8 exactly, so neither the uint32 sum nor the uint8 narrowing loses information; equivalently y*768 <= r+g+b < (y+1)*768 |
| `Mappers.RedGray` | main.go:35-39 | the result is the gray value y with y*256 <= r < (y+1)*256, the red channel's high byte |
| `Mappers.GreenGray` | main.go:42-46 | the result is the gray value y with y*256 <= g < (y+1)*256 |
| `Mappers.BlueGray` | main.go:49-53 | the result is the gray value y with y*256 <= b < (y+1)*256 |
| `Mappers.AlphaIgnored` | main.go:28-53 | changing only alpha changes none of the average, red, green and blue results |
| `Mappers.SingleChannelIsolation` | main.go:35-53 | two samples that agree on red (green, blue) give the same red (green, blue) result, whatever their other channels |
| `Mappers.AchromaticAgreement` | main.go:28-53 | when r = g = b, the average, red, green and blue mappers return the same value |
| `Mappers.AvgWithinChannels` | main.go:28-32 | the average lies between the high bytes of the smallest and the largest of r, g, b |
| `Mappers.AvgMonotone` | main.go:28-32 | raising any channel never lowers the average |
| `Mappers.WidenedChannelRoundTrip` | main.go:28-53 | for an 8-bit gray v widened to v*0x101 in every channel, all four gray-valued mappers return v again |
| `Mappers.AvgExamples` | main.go:30 | full red alone gives 85, white gives 255, black gives 0, whatever alpha is |
| `Mappers.PrimaryColoursExample` | main.go:28-39 | opaque red, green, blue and white 8-bit pixels give 255, 0, 0, 255 under the red mapper and 85, 85, 85, 255 under the average mapper |
| `Raster.RowMajorVisitsEachOnce` | main.go:63-64 | the nested loops' visiting order has Dx*Dy entries, all inside the bounds, strictly increasing in (y, x) order so none repeats, and (x, y) is entry (y-minY)*Dx + (x-minX) |
| `Raster.EmptyRectangleNotVisited` | main.go:63-64 | when min >= max on either axis, no point is visited |
| `Raster.RowsOrdered` | main.go:63-64 | the rows visited so far come out in strictly increasing row-major order |
| `Raster.RowsIndex` | main.go:63-64 | among the rows visited so far, the point (x, y) sits at index (y-minY)*Dx + (x-minX) |
| `Conversion.GrayImage.constructor` | main.go:60 | the new buffer has exactly the given bounds, dimensions Dx by Dy, and every cell is 0 |
| `Conversion.GrayImage.Set` | main.go:65 | stores the colour model's gray value of c at (x, y) when that point is in bounds, and changes no other cell |
| `Conversion.Convert` | main.go:60-67 | the result is a fresh buffer with the source's bounds and dimensions, every in-bounds point holds the mapper's value stored through the colour model, and the loops visit exactly the row-major sequence of the bounds |
| `Conversion.GrayMappersBypassLuminance` | main.go:65 | the average, red, green and blue mappers have their own value stored, ((r+g+b)/3)>>8 or the channel's high byte, whatever the luminance weighting |
| `Conversion.StdGrayUsesLuminance` | main.go:65 | with the standard mapper, the stored intensity is the colour model's luminance of the source sample |

## Left out

- File output is not modelled: `os.Create`, `png.Encode`, closing the file and the process abort in `check` on an I/O error (main.go:13-17, 70-75). These are I/O through library code that is not part of this model.
- Decoding the input is not modelled (`jpeg.Decode`, main.go:89-94). The model takes an already-decoded image as input.
- Logging and timing (`log.Println`, `time.Now`, `time.Since`) are left out. They only serve observability.
- `main` is not modelled: its argument check and its fixed list of output names (main.go:81-101) are command-line glue.
- The luminance weighting of `color.GrayModel` is library code that is not part of this model. It is the parameter `luminance`, so nothing is claimed about what `stdGrayConvert` finally stores beyond "the luminance of the sample".
- How `RGBA()` derives 16-bit channels from the decoded pixel format is not modelled. Channels are inputs in 0..65535. `WidenedChannelRoundTrip` and `PrimaryColoursExample` assume the usual v*0x101 widening of 8-bit data.
- The normalized-difference mapper is not modelled. It does not appear in `main.go`, and it uses floating point.
- The Go colour type of a source sample is not modelled: a sample is its four `RGBA()` channels only. For a grayscale JPEG, `img.At` yields a `color.Gray`, which `stdGrayConvert` passes on and `Set` stores unchanged. The model instead sends every `stdGrayConvert` result through `luminance` and says nothing about what that parameter returns, so it does not show that such a pixel keeps its own gray value.
- Mappers.AlphaIgnored: does not cover `stdGrayConvert`. That mapper passes the whole sample, alpha included, to the colour model.
- Inverted bounds are not modelled (min greater than max on an axis). `image.NewGray` panics on them, and a decoded image never has them, so `Convert` requires well-formed bounds.
- `img.At` outside the bounds is not modelled. The source image's `At` requires an in-bounds point, so verification shows that `convert` never reads outside the bounds.
- The buffer is an `array2` indexed by (x - min.x, y - min.y). Go's flat `Pix` slice with a `Stride` is not modelled.
- Coordinates are unbounded integers. Go's `int` overflow of coordinates is not modelled.
