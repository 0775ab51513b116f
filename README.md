# The Ripper, modelled in Dafny

The Ripper reads a video, keeps frames at a target rate and removes a key
colour from each frame it keeps. Each kept frame is written as a transparent
PNG. This project models the integer-level core of `ripper.py` and proves
properties of it. The core has five parts:

- **Colour-key parser** (`ColorKey`). `hex_to_rgb` strips every leading `#`
  and reads the groups at offsets 0, 2 and 4. The decimal path is
  `map(int, s.split(','))`. `parse_color_range` then builds BGR bounds. It
  does this in NumPy `uint8` arithmetic, so `color_bgr - tolerance` and
  `color_bgr + tolerance` wrap modulo 256 before `np.clip` sees them.
  `KeyBoundsAsWritten` models that wrap, and the run uses it. `KeyBounds`
  models the clamp the code evidently intends (see Findings).
- **Mask builder** (`MaskBuilder`). It runs cv2.inRange, then
  cv2.bitwise_not, then a 3x3 closing (dilate, then erode), then a 3x3
  opening (erode, then dilate), then a blur when `feather > 0`. OpenCV's
  default morphology border leaves out the pixels outside the image. For
  8-bit values that is the same as padding a dilation with 0 and an erosion
  with 255, and the model does exactly that.
- **Sampling scheduler** (`Scheduler`, `Ripper.SampleFrames`). This is the
  loop over decoded frames, with `frame_count`, `saved_count` and
  `next_frame_to_save`. The interval is an exact `real`, and the threshold
  grows by the interval at each save. The k-th save falls on frame
  `SaveFrame(k, interval) = max(k, ceil(k * interval))`.
- **Compositing and naming** (`Ripper`). Each saved pixel `(b, g, r)`
  becomes `(r, g, b, alpha)`, and the file is named
  `frame_{saved_count:04d}.png`.
- **Argument checks and the run** (`Ripper.CheckArgs`, `Ripper.Run`,
  `Ripper.ProcessVideo`). These cover the ordered checks of `main` and the
  error paths of `process_video`, which all end in exit status 1.

Shared modules: `Base` (Option, Result, Min, Max), `Decimal` (digit strings,
`int()` on canonical digits, zero padding) and `Image` (bytes, pixels,
grids).

The video is a value: the reported frame rate and frame count, plus the
sequence of frames that `cap.read()` would return (`None` when the file
cannot be opened). Whether the input file exists is a boolean parameter.
The Gaussian blur is a parameter `kernel(mask, ksize, i, j)` that gives each
blurred pixel.

For an interval of 2.5 the loop saves frames 0, 3, 5 and 8
(`Scheduler.TwoAndAHalfTrace`).

## Model

| member | source | states |
|---|---|---|
| `ColorKey.StripHashes` | ripper.py:17 | `lstrip('#')`: the result is a suffix of the input, does not start with `#`, and everything removed was `#` |
| `ColorKey.Slice` | ripper.py:18 | Python slice `s[i:j]` with non-negative bounds: the bounds are clipped to the string, so a slice past the end is the rest or empty |
| `ColorKey.HexToRgb` | ripper.py:15-18 | success needs at least five characters after the `#`s; what it reads is stated by `ColorKey.HexToRgbReadsSixDigits`, `ColorKey.HexToRgbNeedsHexDigits` and `ColorKey.HexToRgbTooShort` |
| `ColorKey.HexToRgbNeedsHexDigits` | ripper.py:15-18 | when parsing succeeds, the first six characters after the `#`s (or all of them, if fewer) are hex digits |
| `ColorKey.HexGroup` | ripper.py:18 | `int(g, 16)` on a slice of at most two characters succeeds exactly when the slice is non-empty and all hex digits; the value is the digit, or 16·hi + lo |
| `ColorKey.HexToRgbReadsSixDigits` | ripper.py:15-18 | any number of leading `#`s, six hex digits, then anything: the result is the three two-digit groups as bytes, and whatever follows the sixth digit is ignored |
| `ColorKey.HexToRgbTooShort` | ripper.py:15-18 | with four or fewer characters after the `#`s, a group slice is empty and parsing fails |
| `ColorKey.Split` | ripper.py:35 | `split(',')`: no field contains a comma, and a string without a comma is a single field |
| `ColorKey.SplitNoComma` | ripper.py:35 | `split(',')` of a string with no comma is that string alone |
| `ColorKey.SplitAtComma` | ripper.py:35 | `split(',')` cuts at the first comma: the field before it, then the split of the rest |
| `ColorKey.DecimalComponent` | ripper.py:35 | `int(part)` accepts a field exactly when it is a non-empty canonical digit string, and the result is its value |
| `ColorKey.DecimalTriple` | ripper.py:35 | when `r, g, b = map(int, s.split(','))` succeeds, there are three fields, and they read back as the three channels |
| `ColorKey.DecimalTripleOutcome` | ripper.py:35 | the lazy unpacking converts the fields in order, up to a fourth: `int()` fails exactly when one of the first min(n, 4) fields is refused; the count fails exactly when those all parse and n ≠ 3; otherwise a component above 255 is refused, else the colour is read |
| `ColorKey.FourthFieldDecides` | ripper.py:35 | with three accepted fields and a fourth, the fourth is converted as well: the result is `int()`'s error if it is refused, the unpacking error if not |
| `ColorKey.FourthFieldIsConverted` | ripper.py:35 | `1,2,3,x` fails in `int()`, not in the unpacking |
| `ColorKey.FieldErrorBeforeCount` | ripper.py:35 | `a,b` fails in `int()`; `1,2` fails to unpack |
| `ColorKey.BareHexIsRefusedByInt` | ripper.py:32-35 | `00FF00` without its `#` takes the decimal path and fails in `int()` |
| `ColorKey.ParseColor` | ripper.py:32-35 | a colour parses only when it starts with `#` or contains a comma; the two round trips below say which strings parse to what |
| `ColorKey.ParseColorHexRoundTrip` | ripper.py:32-33 | every colour written as `#RRGGBB` parses back to itself |
| `ColorKey.ParseColorDecimalRoundTrip` | ripper.py:34-35 | every colour written as `R,G,B` in decimal parses back to itself |
| `ColorKey.ParseColorNeedsCommas` | ripper.py:32-35 | a string with no leading `#` and no comma is never a colour: it fails in `int()` unless it is a number, and a lone number fails to unpack |
| `ColorKey.Wrap8` | ripper.py:38-41 | `uint8` arithmetic: the result is in 0..255 and differs from the exact value by a multiple of 256 |
| `ColorKey.Clip` | ripper.py:40-41 | `np.clip(x, 0, 255)`: the identity on 0..255, 0 below, 255 above |
| `ColorKey.KeyBoundsAsWritten` | ripper.py:38-41 | as written, each bound channel is (c - t) mod 256 or (c + t) mod 256 in BGR order: the clip never acts on the wrapped values |
| `ColorKey.WrapChannel` | ripper.py:38-41 | on one channel, the wrapped band holds the key value exactly when it does not wrap (`t <= c <= 255 - t`), and exactly then it equals the clamped band |
| `ColorKey.KeyBounds` | ripper.py:38-41 | intended bounds: each channel's band holds the key colour, and a pixel is in the band exactly when every channel is within the tolerance of the key |
| `ColorKey.AsWrittenIsClampedIff` | ripper.py:38-41 | the wrapped bounds equal the clamped bounds exactly when `t <= c <= 255 - t` on every channel |
| `ColorKey.AsWrittenKeyIsBackgroundIff` | ripper.py:38-41 | with the wrapped bounds, the key colour is itself background exactly when no channel's band wraps |
| `ColorKey.GreenScreenAsWritten` | ripper.py:38-41 | `#00FF00` with tolerance 30 gives lower (226,225,226) and upper (30,29,30), and no pixel lies in that band |
| `ColorKey.ParseColorRangeAsWritten` | ripper.py:21-43 | as written: fails exactly when the colour does not parse; otherwise gives the wrapped bounds of the parsed colour in BGR order. The key colour lies in those bounds exactly when no channel's band wraps, and when none wraps a pixel is in the bounds exactly when it is within the tolerance of the key |
| `ColorKey.ParseColorRangeAgree` | ripper.py:21-43 | the as-written and intended parsers fail on the same inputs, and give the same bounds whenever no channel's band reaches past 0 or 255 |
| `ColorKey.ParseColorRange` | ripper.py:21-43 | as intended: fails exactly when the colour does not parse; otherwise a pixel is in the bounds exactly when it is within the tolerance of the parsed colour |
| `Decimal.ParseNat` | ripper.py:35 | `int(s)` on canonical input succeeds exactly on non-empty digit strings, with their decimal value |
| `Decimal.ParseDigits` | ripper.py:35 | the shortest decimal form of n parses back to n |
| `Decimal.Digits` | ripper.py:144 | the decimal form of n is a non-empty digit string with no leading zero; its value is stated by `Decimal.ValueOfDigits` |
| `Decimal.ZeroPad` | ripper.py:144 | `{:04d}`-style padding is a digit string at least as long as the width; its value is stated by `Decimal.ZeroPadRoundTrip` |
| `Decimal.ValueOfDigits` | ripper.py:144 | the digits the formatter writes read back as the number |
| `Decimal.ValueLeadingZeros` | ripper.py:144 | leading zeros do not change the value of a digit string |
| `Decimal.DigitsLength` | ripper.py:144 | the decimal form of n has at most d digits exactly when n < 10^d |
| `Decimal.ZeroPadRoundTrip` | ripper.py:144 | `{:04d}` padding reads back as n, is at least 4 characters long, and is exactly 4 long exactly when n < 10000 |
| `MaskBuilder.InRange` | ripper.py:60 | cv2.inRange gives a mask with the frame's dimensions |
| `MaskBuilder.BitwiseNot` | ripper.py:63 | cv2.bitwise_not keeps the dimensions |
| `MaskBuilder.KeyMask` | ripper.py:60-63 | before morphology, a pixel is 0 exactly when all three channels lie within their bounds, and 255 exactly when they do not; the mask is binary and has the frame's dimensions |
| `MaskBuilder.Dilate` | ripper.py:67-68 | dilation keeps the dimensions |
| `MaskBuilder.Erode` | ripper.py:67-68 | erosion keeps the dimensions |
| `MaskBuilder.Close` | ripper.py:67 | closing keeps the dimensions |
| `MaskBuilder.Open` | ripper.py:68 | opening keeps the dimensions |
| `MaskBuilder.DilateBound` | ripper.py:66-68 | a dilated pixel is at least every in-image pixel of its 3x3 window |
| `MaskBuilder.DilateAttained` | ripper.py:66-68 | a dilated pixel equals some in-image pixel of its 3x3 window |
| `MaskBuilder.DilateAt` | ripper.py:66-68 | a dilated pixel is the maximum over its 3x3 window clipped to the image |
| `MaskBuilder.ErodeBound` | ripper.py:66-68 | an eroded pixel is at most every in-image pixel of its 3x3 window |
| `MaskBuilder.ErodeAttained` | ripper.py:66-68 | an eroded pixel equals some in-image pixel of its 3x3 window |
| `MaskBuilder.ErodeAt` | ripper.py:66-68 | an eroded pixel is the minimum over its 3x3 window clipped to the image |
| `MaskBuilder.CloseExtensive` | ripper.py:67 | closing never lowers a pixel: `close(m) >= m` pointwise |
| `MaskBuilder.OpenAntiExtensive` | ripper.py:68 | opening never raises a pixel: `open(m) <= m` pointwise |
| `MaskBuilder.DilateValuesIn` | ripper.py:66-68 | dilation introduces no new pixel value |
| `MaskBuilder.ErodeValuesIn` | ripper.py:66-68 | erosion introduces no new pixel value |
| `MaskBuilder.MorphologyValuesIn` | ripper.py:66-68 | closing then opening introduces no new value, so a binary mask stays in {0, 255} and a uniform mask stays uniform |
| `MaskBuilder.GaussianBlur` | ripper.py:72 | the blur is called with an odd kernel size and keeps the dimensions |
| `MaskBuilder.CreateAlphaMask` | ripper.py:46-74 | the alpha mask has the frame's dimensions and, without a positive feather, every value is 0 or 255 |
| `MaskBuilder.AlphaMaskStages` | ripper.py:71-74 | with `feather <= 0`, negative ones included, the result is the opened mask; otherwise it is that mask blurred with kernel size `2*feather+1` |
| `MaskBuilder.BackgroundFrameIsTransparent` | ripper.py:60-74 | a frame that is background everywhere gives an all-zero mask when there is no feathering |
| `MaskBuilder.ForegroundFrameIsOpaque` | ripper.py:60-74 | a frame with no background pixel gives an all-255 mask when there is no feathering |
| `MaskBuilder.KeyColourIsTransparent` | ripper.py:60-63 | with the intended bounds, a pixel equal to the key is 0 before morphology, and one farther than the tolerance on some channel is 255 |
| `MaskBuilder.GreenScreenAsWrittenIsOpaque` | ripper.py:38-74 | as written, the key `#00FF00` with tolerance 30 leaves every frame fully opaque without feathering |
| `MaskBuilder.SolidKeyFrameAsWrittenIsOpaque` | ripper.py:38-74 | as written, a frame of solid key colour stays fully opaque without feathering whenever some channel's band wraps |
| `MaskBuilder.SolidGreenToleranceTenAsWritten` | ripper.py:38-74 | as written, a solid `#00FF00` frame keyed on `#00FF00` with tolerance 10 stays fully opaque without feathering |
| `MaskBuilder.SolidKeyFrameIsTransparent` | ripper.py:60-74 | with the intended bounds, a frame of solid key colour is fully transparent without feathering |
| `Scheduler.Threshold` | ripper.py:125-148 | `next_frame_to_save` after k saves; it carries no contract of its own, and its meaning is stated by `Scheduler.ThresholdIsProduct` |
| `Scheduler.ThresholdIsProduct` | ripper.py:125-148 | adding the interval at each save leaves the threshold at exactly k·interval after k saves |
| `Scheduler.SaveFrame` | ripper.py:134-148 | the frame of save k is the first frame at or after k and at or above k·interval: it is k, or the frame before it is below k·interval |
| `Scheduler.SaveFrameZero` | ripper.py:125-134 | the first save is frame 0 |
| `Scheduler.SaveFrameIncreasing` | ripper.py:134-153 | each save falls on a later frame than the one before |
| `Scheduler.SaveFramesIncrease` | ripper.py:134-153 | saved frame indices are strictly increasing |
| `Scheduler.SaveFrameIsCeiling` | ripper.py:107-148 | for interval >= 1 the k-th save is at frame ceil(k·interval) |
| `Scheduler.SaveFrameIsEveryFrame` | ripper.py:107-148 | for interval <= 1 the k-th save is at frame k, so every frame is saved |
| `Scheduler.SaveDecision` | ripper.py:134 | after m saves before frame n, with the next not yet due, the test `frame_count >= next_frame_to_save` holds at n exactly when n is save m |
| `Scheduler.SavedCount` | ripper.py:123-153 | the number of saves among the first n frames: at most n, every earlier save falls below n and the next does not |
| `Scheduler.SavedCountUnique` | ripper.py:123-153 | those two facts determine the count |
| `Scheduler.SavedCountClosedForm` | ripper.py:107-153 | after n >= 1 frames the count is min(n, floor((n-1)/interval) + 1) |
| `Scheduler.TwoAndAHalfTrace` | ripper.py:107-153 | interval 2.5 over frames 0..9 saves frames 0, 3, 5, 8 |
| `Scheduler.OneSecondAtOneFps` | ripper.py:107-153 | 30 frames at interval 30 give one save |
| `Ripper.Composite` | ripper.py:139-140 | the RGBA raster has the frame's dimensions |
| `Ripper.CompositeAt` | ripper.py:139-140 | each pixel (b,g,r) with alpha a becomes (r,g,b,a) |
| `Ripper.CompositeRoundTrip` | ripper.py:139-140 | swapping back and splitting off the alpha recovers the frame and the mask, so nothing is lost |
| `Ripper.FileName` | ripper.py:144 | a name starts with `frame_`, ends with `.png` and is at least 14 characters; `Ripper.FileNameNumber` states that the number reads back |
| `Ripper.FileNameNumber` | ripper.py:144 | the digits between `frame_` and `.png` read back as the save number |
| `Ripper.FileNamesDistinct` | ripper.py:144 | two different save numbers never give the same file name |
| `Ripper.FileNameWidth` | ripper.py:144 | a name is 14 characters, `frame_` + 4 digits + `.png`, exactly when the number is below 10000 |
| `Ripper.Output` | ripper.py:136-145 | the file for save k is named `FileName(k)`, has the frame's dimensions, and holds the frame's colours in RGB order; its alpha is stated by `Ripper.OutputAt` |
| `Ripper.OutputAt` | ripper.py:136-140 | each pixel of the file is the frame's (r, g, b) with the value of `create_alpha_mask` at that pixel as alpha |
| `Ripper.ExpectedOutputs` | ripper.py:123-153 | one file per save among the decoded frames |
| `Ripper.SampleFrames` | ripper.py:123-153 | the loop writes exactly the expected files (save k shows frame `SaveFrame(k)` under `FileName(k)`); it ends with `frame_count` equal to the number of frames, `saved_count` equal to the number of files, and `next_frame_to_save = saved_count·interval` |
| `Ripper.FirstFrameSaved` | ripper.py:123-153 | no more files than frames, and a non-empty video always saves frame 0 as the first file |
| `Ripper.OutputCount` | ripper.py:107-153 | after n >= 1 frames, min(n, floor((n-1)/interval) + 1) files are written |
| `Ripper.OutputNames` | ripper.py:144-147 | files are named contiguously from `frame_0000.png`, and all names are distinct |
| `Ripper.CorrectedRunAgrees` | ripper.py:38-153 | when the colour parses and no channel's band wraps, the run with the as-written bounds writes exactly the files of the run with the intended bounds |
| `Ripper.SolidGreenSecondAsWritten` | ripper.py:38-153 | as written, one second (30 frames at interval 30) of solid `#00FF00` keyed on `#00FF00` with tolerance 10 and no feathering writes one file, `frame_0000.png`, with alpha 255 on every pixel |
| `Ripper.DurationIsZero` | ripper.py:98 | the duration is zero exactly when the reported frame count is zero |
| `Ripper.ProcessVideo` | ripper.py:77-159 | the video cannot be opened, a zero frame rate, or a colour that does not parse each fail with that error and no files; otherwise it writes exactly the expected files, keyed with the wrapped `uint8` bounds of ripper.py:38-41 at interval `native_fps / fps`, and then fails exactly when the reported frame count is zero |
| `Ripper.CheckArgs` | ripper.py:192-204 | the checks run in order: a missing file wins, then a tolerance outside 0..255, then fps <= 0; feather is never checked |
| `Ripper.Run` | ripper.py:192-221 | the exit status is 0 or 1. A failed check gives 1 with no files. Once the checks pass, a video that does not open, a zero frame rate or a bad colour gives 1 with no files; otherwise the expected files (wrapped bounds) are written, and the status is 0 exactly when the reported frame count is non-zero, so a zero count leaves those files behind and still exits 1 |

## Findings

| source | as written | input that shows it | evidently intended | confidence | as-written member | corrected member |
|---|---|---|---|---|---|---|
| ripper.py:38-41 | `color_bgr - tolerance` and `color_bgr + tolerance` are `uint8` arrays, so they wrap modulo 256 and `np.clip` never changes anything | `--color "#00FF00" --tolerance 30` (the documented example) gives lower (226,225,226) and upper (30,29,30). Every band is empty, so no pixel is removed. Likewise a solid `#00FF00` frame with tolerance 10 comes out fully opaque without feathering. | each band is `[max(0, c-t), min(255, c+t)]`, so a pixel is background exactly when every channel is within t of the key | high; not executed | `ColorKey.GreenScreenAsWritten`, `MaskBuilder.GreenScreenAsWrittenIsOpaque`, `MaskBuilder.SolidGreenToleranceTenAsWritten`, `Ripper.SolidGreenSecondAsWritten` (on `ColorKey.ParseColorRangeAsWritten`) | `ColorKey.KeyBounds`, `ColorKey.ParseColorRange`, `MaskBuilder.SolidKeyFrameIsTransparent` |

`Ripper.ProcessVideo` and `Ripper.Run` model the program as written, with
the wrapped bounds. The corrected `ColorKey.ParseColorRange` fails on the
same colours. It gives the same bounds exactly when no channel's band
reaches past 0 or 255 (`ColorKey.ParseColorRangeAgree`,
`ColorKey.AsWrittenIsClampedIff`). Under that condition the as-written run
writes the same files as a corrected one (`Ripper.CorrectedRunAgrees`).

## Left out

- Video decoding, `cap.release()`, PIL's `Image.save` and `mkdir` are file and codec I/O. The video is a value (frame rate, reported frame count, frames), and a written file is a name plus its RGBA pixels.
- A failure while writing a file or decoding a frame is not modelled. Only the errors the code itself raises are.
- The Gaussian blur kernel is floating-point and fixed-point code inside OpenCV. It is a parameter; the model keeps only that the kernel size `2*feather+1` is odd and that the output has the input's shape.
- Floating-point rounding is not modelled. `frame_interval` is an exact real. The reported `duration`, `expected_frames` and "Average FPS" values are not modelled. Only their division-by-zero failures are: ripper.py:98 and ripper.py:159.
- A NaN frame rate or frame count from OpenCV is out of scope, along with what `int()` does with it.
- Progress and diagnostic prints and the traceback are not modelled.
- Argument parsing is out of scope. When argparse refuses the command line (a missing `--color`, a `--tolerance` that is not an integer), it exits with status 2 at ripper.py:190, before the checks at ripper.py:192 run. `Ripper.Run` starts from already parsed arguments.
- ColorKey.HexGroup: Python's `int(g, 16)` also accepts surrounding whitespace, a sign and non-ASCII digits. The model refuses them.
- ColorKey.DecimalComponent: Python's `int()` also accepts whitespace (so `"0, 255, 0"` parses), signs, underscores and non-ASCII digits. The model refuses them.
- ColorKey.DecimalTriple: after unpacking, a component above 255 is refused, because how NumPy then converts it to `uint8` depends on the NumPy version.
- ColorKey.ParseColorRangeAsWritten: requires a tolerance in 0..255. `main` checks this before `process_video` runs, and NumPy's behaviour outside that range depends on the version.
- Ripper.ProcessVideo: requires a tolerance in 0..255 and fps > 0, which `main` establishes.
- The error kinds in `ColorError` tell apart failures that Python reports differently. `BadHexGroup`, `WrongFieldCount` and `BadDecimal` are all a `ValueError`. `ComponentTooLarge` is not: NumPy 2 raises `OverflowError` for a value above 255, and older NumPy wraps it with at most a `DeprecationWarning`. `main` catches every exception and exits with status 1, so the model turns every kind into exit status 1.
- The mask builder's determinism (same inputs, same mask) holds because it is a function. It needs no lemma.
