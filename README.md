# make_frame: the encoder test driver's picture generator

The avclj repository's native test driver (`library/testencode.cpp`) encodes
300 synthetic frames through the avclj bridge and decodes them back. Only one
function in it holds logic of its own: `make_frame`. It fills a caller-supplied
`char` buffer with a packed, interleaved picture of `height * width *
n_channels` bytes. The row stride is `linesize = width * n_channels`. Every
channel of pixel (h, w) is white (255) when both `((h + frame) / 32) % 2` and
`((w + frame) / 32) % 2` are 0, and black (0) otherwise. The result is white
32 by 32 squares on black, one in the top-left corner of every 64 by 64 block.
It is not a checkerboard: only one square in four is white, and neighbouring
squares can both be black. The pattern slides one pixel up and to the left
with each frame.

The model has two modules.

- `CInt` (`c_int.dfy`) holds the C `int` arithmetic the function uses: a
  32-bit `int32` newtype, so that every arithmetic step of the method is
  checked for signed overflow, and C's truncating `/` and `%` as `Quot` and
  `Rem`.
- `TestEncode` (`test_encode.dfy`) holds the rest:
  - `PixelValue` is the per-pixel expression of lines 12-14.
  - `Render` gives the buffer after the call as a function of the buffer
    before it. `RenderUpTo` is the same with only the first `k` bytes written.
  - `MakeFrame` is the function itself. It works in place on an
    `array<byte>` with the same three nested loops. Its postcondition is
    `frameData[..] == Render(old(frameData[..]), ...)`, and the loop
    invariants say which prefix has been written so far. A second
    postcondition says the written bytes are the packed row-major picture
    `Picture`, which is defined separately, row after row.
  - The lemmas state the function's properties: the index layout, the value
    of each byte, channel agreement, idempotence, the 64-frame period and the
    diagonal shift. All of them hold for all inputs except the period and the
    64-cycle form, which hold for the inputs listed under "## Left out".

Bytes are the values 0..255 (`newtype byte`). Whether the C `char` is
signed is left out. Non-positive dimensions are accepted as the C accepts them.
`Extent(height, width, n_channels)` is the number of bytes written: the
product when all three dimensions are positive, else 0. With `height <= 0`
the row loop runs zero times. With `height > 0` and `width <= 0` the row loop
runs but the pixel loop runs zero times. With `height > 0`, `width > 0` and
`n_channels <= 0` the row and pixel loops run, and compute `h + frame` and
`w + frame`, but the channel loop runs zero times. In each of these cases the
buffer is unchanged.

## Model

| member | source | states |
|---|---|---|
| `CInt.Quot` | library/testencode.cpp:12-13 | C's `/`: the remainder `a - q*b` is smaller in magnitude than `b` and has the sign of `a`, so the quotient truncates toward zero |
| `CInt.Rem` | library/testencode.cpp:12-13 | C's `%`: `(a/b)*b + a%b == a`, the remainder is smaller in magnitude than `b`, and it has the sign of the dividend |
| `TestEncode.PixelValue` | library/testencode.cpp:12-14 | every pixel value is white (255) or black (0) |
| `TestEncode.PixelValueIsWhiteCorner` | library/testencode.cpp:12-14 | for non-negative shifted coordinates, a pixel is white iff both `h+frame` and `w+frame` lie in the first 32 of each 64 positions; this is an independent form of the C expression |
| `TestEncode.Render` | library/testencode.cpp:10-18 | the buffer keeps its length, each of its first `Extent(height, width, n_channels)` bytes (the product when all three dimensions are positive, else none) is 0 or 255, and every byte beyond them keeps its old value |
| `TestEncode.PosDecompose` | library/testencode.cpp:9-16 | the write offset `h*linesize + w*n_channels + c` of an in-range (h, w, c) lies in `[0, Extent(height, width, n_channels))`, and row, column and channel are recovered from it |
| `TestEncode.PosCovers` | library/testencode.cpp:9-16 | every offset in `[0, Extent(height, width, n_channels))` (the product when all three dimensions are positive, else no offset) is the write offset of some in-range (h, w, c) |
| `TestEncode.PosInjective` | library/testencode.cpp:10-16 | no two in-range (h, w, c) triples write the same offset, so each byte is written exactly once |
| `TestEncode.RenderAt` | library/testencode.cpp:12-16 | whatever the buffer held before, channel c of pixel (h, w) holds `PixelValue(h, w, frame)` afterwards |
| `TestEncode.RenderChannelsAgree` | library/testencode.cpp:15-16 | all channels of one pixel hold the same value |
| `TestEncode.RenderIgnoresPriorContents` | library/testencode.cpp:10-18 | the written picture is the same whatever the buffer held before |
| `TestEncode.RenderIdempotent` | library/testencode.cpp:10-18 | calling `make_frame` twice with the same arguments leaves the buffer as one call does |
| `TestEncode.RowBytes` | library/testencode.cpp:11-17 | an independent description of one row: `width` pixels of `n_channels` bytes each, so `width*n_channels` bytes, all 0 or 255 |
| `TestEncode.Picture` | library/testencode.cpp:10-19 | an independent description of the picture as its rows one after the other, for non-negative dimensions: `height*(width*n_channels)` bytes, all 0 or 255 |
| `TestEncode.RowBytesAt` | library/testencode.cpp:11-17 | in that row description, channel c of pixel w is at offset `w*n_channels + c` and holds the pixel's value |
| `TestEncode.PictureAt` | library/testencode.cpp:10-19 | in the row-after-row picture, channel c of pixel (h, w) is at offset `h*linesize + w*n_channels + c` and holds the pixel's value |
| `TestEncode.RenderIsPicture` | library/testencode.cpp:8-20 | for non-negative dimensions and whatever the buffer held, its first `Extent(height, width, n_channels)` bytes afterwards are exactly the packed row-major interleaved picture |
| `TestEncode.PixelPeriod` | library/testencode.cpp:12-13 | when `h+frame` and `w+frame` are both non-negative, or both at most -64, pixel (h, w) is the same in frames `f` and `f+64` |
| `TestEncode.RenderPeriod` | library/testencode.cpp:10-16 | for a non-negative frame number, or one so negative that every shifted coordinate stays at most -64, or when nothing is written, frames `f` and `f+64` produce identical buffers |
| `TestEncode.NeighbouringSquaresBothBlack` | library/testencode.cpp:12-14 | the squares at square indices (1, 0) and (1, 1), side by side, are both black, so the picture is not a checkerboard |
| `TestEncode.NegativeFrameBreaksPeriod` | library/testencode.cpp:12-13 | with C's truncating division the period fails where a shifted coordinate crosses zero: frames -64 and 0 differ at pixel (33, 0) |
| `TestEncode.RenderDiagonalShift` | library/testencode.cpp:12-16 | for `h+1 < height` and `w+1 < width`, channel c of pixel (h, w) in frame `f+1` equals channel c of pixel (h+1, w+1) in frame `f` |
| `TestEncode.DriverCallsDefined` | library/testencode.cpp:38-41 | the driver's calls (256 by 256, 3 channels, frames 0 to 299) meet the no-overflow precondition, and `n_bytes` equals the picture size |
| `TestEncode.MakeFrame` | library/testencode.cpp:8-20 | with the three nested loops in place, the buffer afterwards equals `Render` of the buffer before. So the first `Extent(height, width, n_channels)` bytes (the product when all three dimensions are positive, else none) hold the picture of white corner squares and every later byte is unchanged; for non-negative dimensions those bytes equal `Picture` |

## Left out

- `main` in `library/testencode.cpp` (lines 23-63) is not modelled. It creates a GraalVM isolate and calls the avclj bridge: encoder and decoder creation, `encode_frame`, `decode_frame` and the close calls. That bridge is not part of this model, so nothing it does can be stated. This includes the 300-frame round trip and the aspect-preserving 100-pixel-wide decode. Only the driver's arguments to `make_frame` are covered, by `DriverCallsDefined`.
- `cpptest/avcodec.cpp` is not modelled. It only prints the size and member offsets of FFmpeg's `AVCodecContext`, which depend on the compiler, the ABI and the library version.
- Signed overflow of C `int` is undefined behaviour, so it is not modelled as wrap-around. `MakeFrame` instead requires (`MakeFrameDefined`) that `width*n_channels`, the largest offset written (`Extent - 1`) and `frame + height - 1`, `frame + width - 1` fit in 32 bits. The `int32` newtype then checks every intermediate value of the loops.
- Whether `char` is signed is not modelled: storing 255 into a signed `char` is implementation-defined. Bytes are the values 0..255.
- The caller's allocation (`malloc`/`free`) and the console output are not modelled. The buffer is an `array<byte>` that is at least as long as the picture.
- PixelPeriod: stated only when `h+frame` and `w+frame` are both non-negative or both at most -64, because C's division truncates toward zero and the 64-frame period does not hold where a coordinate crosses zero (see `NegativeFrameBreaksPeriod`). Mixed cases, where one coordinate is non-negative and the other at most -64, are not stated.
- RenderPeriod: stated only for `frame >= 0`, for `frame + max(height, width) + 63 <= 0`, or when `Extent` is 0, for the same reason. The driver uses frames 0 to 299.
- PixelValueIsWhiteCorner: stated only for non-negative shifted coordinates. For negative ones, the C expression is the definition of `PixelValue` itself.
