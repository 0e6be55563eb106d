# VideoOCR extraction core, modelled in Dafny

VideoOCR samples a video at a fixed frame interval. For each sampled
frame it reads every operator-drawn region into one row of a table. A
region is read in one of three ways:

- as a vertical bar, which is not implemented and leaves its cell empty;
- as a horizontal bar, where the value is the position of the strongest
  brightness edge along the bar, as a fraction of the bar's length;
- as text, through a recogniser whose first candidate is kept only when
  its confidence is strictly above a threshold, and is then normalised to
  digits, `:` and `.`.

Two helpers post-process the table. One turns `HH:MM:SS:FF` clock strings
into minutes. The other coerces whole columns to floats, all or nothing.

The model consists of these modules:

- `Sampling` (sampling.dfy): the sampling arithmetic.
  - The start frame is `int(start*fps)`, truncated toward zero.
  - The k-th sample's relative time is `k*interval/fps` and its frame
    index is `start_frame + k*interval`.
  - The loop guard compares the relative time with the window
    `end - start`.
  - fps and times are exact reals.
- `BarGauge` (bar_gauge.dfy): the horizontal-bar reader.
  - Strip geometry.
  - Per-column truncated mean, as `np.mean(...).astype(uint8)`.
  - The 8-bit difference of neighbours, which wraps modulo 256 like
    `np.diff` on `uint8`.
  - First-maximum `argmax`, and the value `argmax / len(gradients)`.
  - Frames are grey images of bytes. The grey conversion works per pixel,
    so cropping and converting commute.
- `TextNormaliser` (text_normaliser.dfy): the cleanup of recognised text.
  - For timestamp columns, `.` becomes `:`, then `::` collapses once,
    in a single non-overlapping pass as `str.replace` does.
  - ASCII lower-casing.
  - The look-alike substitutions `o→0`, `i→1`, `s→5`, `a→4`, and comma
    removal.
  - Finally everything outside `[0-9:.]` is dropped.
- `RegionProcessor` (region_processor.dfy): dispatch on the two bar flags,
  the confidence gate, and the fold of all regions over one row.
- `Extraction` (extraction.dfy): the sampling loop as a method over an
  abstract frame source, `int -> Option<Image>`.
- `Conversion` (conversion.dfy): `time_string_to_minutes` and
  `convert_to_float`. This includes Python's `str.split`, `int(str)` and
  decimal `float(str)`. Both parsers skip the ASCII whitespace Python's
  number parsers skip (space and `\t` to `\r`; not the separators `\x1c`
  to `\x1f`, which `str.strip` would remove but `int()` and `float()`
  refuse) and accept a sign and single underscores between digits.
- `Cells` and `Wrappers`: the table cell type (a missing key is an
  absent, NaN cell), and `Option` and `Result`.

In the horizontal-bar branch, the source computes the strip height from
`roi.shape[0]` (ExtractText.py:84) before this branch assigns `roi`. The
variable still holds what the last horizontal bar or text region left
there: the grey strip of a bar, or the crop of a text region,
contrast-enhanced when that is switched on. Vertical bars assign nothing.
The variable carries over from one frame to the next, so it is unbound
only when the first frame reaches its first horizontal bar with no text
region before it. The model uses the height of the region itself,
`y2 - y1`, and `BarGauge.StripRows` says so.

## Model

| member | source | states |
|---|---|---|
| Sampling.Trunc | ExtractText.py:57 | `int()` of a real truncates toward zero: the result is within one of the input, on the side of zero |
| Sampling.StartFrame | ExtractText.py:57 | the start frame is `start*fps` truncated toward zero: within one frame of it, on the side of zero |
| Sampling.FrameIndex | ExtractText.py:138 | with an interval of at least one frame, sample `k` is read at least `k` frames past the start frame, and every sample after the first strictly past it |
| Sampling.RelTime | ExtractText.py:66 | the relative time is never negative, and multiplied by fps it gives back the frame offset `k*interval` |
| Sampling.NumSamples | ExtractText.py:62 | no sample for an empty or negative window; otherwise at least one, and the count is the ceiling of the window measured in intervals |
| Sampling.FrameIndexAdvance | ExtractText.py:57-139 | the first sample is read from frame `int(start*fps)`, and each later sample from exactly `interval` frames past the previous one |
| Sampling.RelTimeStartsAtZero | ExtractText.py:66 | the first sample's relative time is 0 |
| Sampling.RelTimeStrictlyIncreasing | ExtractText.py:66 | relative times strictly increase with the sample index |
| Sampling.InRangeIff | ExtractText.py:62 | the loop guard `k*interval/fps < end - start` admits exactly the indices below `NumSamples`, which is 0 for an empty or negative window and otherwise the ceiling of `(end-start)*fps/interval` |
| Sampling.TwoSecondsEveryThirtyFrames | ExtractText.py:57-66 | two seconds of 30 fps video sampled every 30 frames gives two samples, at 0 s and 1 s, from frames 0 and 30 |
| BarGauge.SliceBound | ExtractText.py:94 | a slice bound in `[0, len]` is kept. A negative bound is first counted from the end, `i + len`, and lands at 0 only when that is still negative. A bound past the end lands at `len` |
| BarGauge.Slice | ExtractText.py:94 | the slice is as long as the distance between the two landed bounds, or empty when they cross, and for in-range bounds it is the plain slice |
| BarGauge.SliceElements | ExtractText.py:94 | for any bounds, element `j` of the slice is the element `j` places past where the lower bound lands |
| BarGauge.Crop | ExtractText.py:94 | a crop `frame[top:bot, left:right]` has as many rows and columns as the landed row and column bounds span, and for in-range bounds holds the frame's pixels at the shifted positions |
| BarGauge.CropPixels | ExtractText.py:94 | for any bounds, negative or past the edge, pixel `(r, x)` of the crop is the frame's pixel `r` rows below and `x` columns right of where the top and left bounds land |
| BarGauge.StripHalfHeight | ExtractText.py:85-89 | the half-height is `height // 10` clamped to 1..6: 1 below height 20, 6 from height 60 |
| BarGauge.StripRows | ExtractText.py:84-92 | the strip is twice the half-height tall, centred on the row `y1 + abs(y2-y1)//2`, which it strictly contains |
| BarGauge.StripWithinRegion | ExtractText.py:84-92 | for a region at least two rows tall, the strip stays inside the region's rows |
| BarGauge.Profile | ExtractText.py:95 | one value per column, each the truncated mean of that column's bytes |
| BarGauge.MeanOf | ExtractText.py:95 | the uint8 mean `m` is the floor of `sum / n`: `m*n <= sum < (m+1)*n` |
| BarGauge.Gradients | ExtractText.py:97 | one fewer value than the profile, each the neighbour difference modulo 256 |
| BarGauge.ArgMax | ExtractText.py:99 | the index of a maximum, with every earlier value strictly smaller |
| BarGauge.FirstMaxUnique | ExtractText.py:99 | at most one index is a maximum with every earlier value strictly smaller, so `argmax` is fully determined |
| BarGauge.ZeroArgMax | ExtractText.py:99 | on all-equal gradients `argmax` is 0 |
| BarGauge.EdgeFraction | ExtractText.py:108 | `argmax / len(gradients)` is in `[0, 1)` |
| BarGauge.EdgeFractionIsFirstMax | ExtractText.py:97-108 | for a profile of two or more columns, a first index `k` of the largest gradient exists, and the fraction is `k / (width-1)` for every such `k` |
| BarGauge.BarValue | ExtractText.py:94-108 | a bar has a value exactly when its strip has rows and is at least two columns wide, and the value is in `[0, 1)` |
| BarGauge.BarValueIsFirstMax | ExtractText.py:94-108 | for such a strip, the value is `k / (width-1)` where `k` is the first index of the largest gradient of its column profile |
| BarGauge.SingleStep | ExtractText.py:97-108 | a profile with one step after column `k`, rising or falling, reads `k / (width-1)` |
| BarGauge.ConstantProfile | ExtractText.py:97-108 | a profile with no edge reads 0, since the first of the equal gradients wins |
| BarGauge.UniformStrip | ExtractText.py:94-108 | a strip of one uniform colour reads 0 |
| BarGauge.RisingStepExample | ExtractText.py:95-108 | two dark and three bright columns read 1/4 |
| BarGauge.FallingEdgeWraps | ExtractText.py:96-99 | in `[200,10,10,100]` the fall of 190 wraps to 66 and loses to the rise of 90, so the bar reads 2/3 |
| TextNormaliser.ContainsIff | ExtractText.py:127 | `'timestamp' in col_name` holds exactly when the pattern occurs at some position |
| TextNormaliser.ReplaceChar | ExtractText.py:128-129 | a one-character `replace` keeps the length and swaps exactly the matching characters |
| TextNormaliser.DropChar | ExtractText.py:129 | `replace(',', '')` leaves no comma, never lengthens, adds nothing, and leaves comma-free text unchanged |
| TextNormaliser.DropCharConcat | ExtractText.py:129 | removing a character works piece by piece over a concatenation |
| TextNormaliser.DropCharChar | ExtractText.py:129 | on one character, removal deletes exactly the dropped character and keeps any other; with the previous row, every other character survives in order |
| TextNormaliser.CollapseColons | ExtractText.py:128 | the collapse never lengthens, adds no character, and leaves text without `::` unchanged; CollapseConcat and CollapseColonRun pin it down completely |
| TextNormaliser.CollapseConcat | ExtractText.py:128 | the collapse works piece by piece at any cut that does not fall between two colons, so text outside colon runs passes through unchanged, in order |
| TextNormaliser.CollapseColonRun | ExtractText.py:128 | a run of `n` colons becomes a run of `(n+1)//2`: each pair is halved once and an odd last colon stays |
| TextNormaliser.CollapseIsOnePass | ExtractText.py:128 | `':::'` collapses to `'::'`, not to `':'`, both alone and through the whole normaliser |
| TextNormaliser.RepairTimestamp | ExtractText.py:128 | the timestamp repair leaves no `.` |
| TextNormaliser.Lower | ExtractText.py:129 | lower-casing keeps the length and touches neither digits, `:` nor `.`, nor produces them from other characters |
| TextNormaliser.SubstituteIsReplaceChain | ExtractText.py:129 | the per-character substitution equals the chain of five `replace` calls applied in order |
| TextNormaliser.SubstituteLookalikes | ExtractText.py:129 | the substitutions never lengthen the text and leave no comma and no `o`, `i`, `s` or `a` in either case |
| TextNormaliser.MapLookalikes | ExtractText.py:129 | the look-alike mapping keeps the length |
| TextNormaliser.SubstituteAddsNoPeriod | ExtractText.py:129 | the substitutions never introduce a `.` |
| TextNormaliser.SubstitutionFixesNumeric | ExtractText.py:129 | the substitutions leave text made of digits, `:` and `.` unchanged |
| TextNormaliser.KeepNumeric | ExtractText.py:130 | the output's characters are exactly the digits, `:` and `.` that occur in the input, and the filter is the identity on text made of them |
| TextNormaliser.KeepNumericConcat | ExtractText.py:130 | the filter works piece by piece over a concatenation |
| TextNormaliser.KeepNumericChar | ExtractText.py:130 | on one character, the filter keeps it exactly when it is a digit, `:` or `.`; with the previous row, the output is the input's kept characters in order, with their multiplicity |
| TextNormaliser.Normalise | ExtractText.py:127-130 | every character of the output is a digit, `:` or `.` |
| TextNormaliser.TimestampHasNoPeriod | ExtractText.py:127-130 | a timestamp column's text never contains `.` after normalising |
| TextNormaliser.NumericTextUnchanged | ExtractText.py:129-130 | outside timestamp columns, text already made of digits, `:` and `.` comes through unchanged |
| TextNormaliser.CleanTimestampUnchanged | ExtractText.py:127-130 | a timestamp of digits and single colons comes through unchanged |
| TextNormaliser.LookalikeExample | ExtractText.py:127-130 | `"o1:2a:5s"` and `"O1:2A:5S"` in column `race_timestamp` both read `"01:24:55"` |
| TextNormaliser.CommaExample | ExtractText.py:129-130 | `"1,234 m"` in column `altitude` reads `"1234"` |
| RegionProcessor.Dispatch | ExtractText.py:78-112 | a region is read as a vertical bar exactly when its vertical flag is set, as a horizontal bar exactly when only its horizontal flag is set, and as text exactly when neither is |
| RegionProcessor.Gate | ExtractText.py:121-134 | with no candidate only the reset empty cell is written. The confidence is recorded, when asked, whatever its value. The value is set, normalised, exactly when the first candidate's confidence is strictly above the threshold |
| RegionProcessor.GateIsStrict | ExtractText.py:125 | a confidence equal to the threshold leaves the value empty but is still recorded |
| RegionProcessor.GateUsesFirstOnly | ExtractText.py:122-132 | only the first candidate influences the cells |
| RegionProcessor.LowConfidenceExample | ExtractText.py:121-134 | `"1O5"` at 0.2 against 0.3 leaves `speed` empty and records `speed_conf` = 0.2 |
| RegionProcessor.RegionWrites | ExtractText.py:73-134 | the vertical flag wins and writes only an empty cell. A horizontal bar fails exactly when its strip is empty, which `cvtColor` refuses, or one column wide, whose empty gradient `argmax` refuses, or when its middle row is negative, which `np.tile` refuses as a repeat count; otherwise it writes the bar value. A text region fails exactly when its crop is empty, and otherwise writes what the gate gives. A region writes only its own column and its `_conf` column |
| RegionProcessor.ZeroWidthTextFails | ExtractText.py:113 | a text region with no width makes the grey conversion fail |
| RegionProcessor.TopRowBarFails | ExtractText.py:84-94 | a one-row bar on the top row gets the strip `[-1:1]`, which is empty, so the grey conversion fails |
| RegionProcessor.BarAboveFrameFails | ExtractText.py:88-102 | a bar over rows -20 to -4 of a 100-row, 10-column frame has a strip made of exactly the frame's rows 87 and 88, but its middle row -12 makes the marker image's `np.tile` fail |
| RegionProcessor.VerticalBarStaysEmpty | ExtractText.py:75-79 | a region flagged vertical is dispatched as vertical, whatever the horizontal flag, and both its cells stay empty |
| RegionProcessor.ProcessRegions | ExtractText.py:73-134 | the frame's row is produced exactly when every region's read succeeds, and no existing column is dropped; otherwise the error is that of the first region, in declaration order, whose read fails |
| RegionProcessor.FirstFailureShift | ExtractText.py:73-134 | a region that succeeds moves the first failure of the regions after it one place later |
| RegionProcessor.Untouched | ExtractText.py:73-134 | a column no region owns keeps its earlier value |
| RegionProcessor.Isolation | ExtractText.py:73-134 | with distinct column names, each column owned by region `i` holds exactly what region `i` wrote |
| RegionProcessor.SampleCellsAreOwn | ExtractText.py:66-134 | in a sample's row, each region's columns hold that region's own writes, or are empty |
| RegionProcessor.SampleTime | ExtractText.py:66 | a sample's `time` column holds its relative time, untouched by the regions |
| RegionProcessor.SampleRow | ExtractText.py:66-75 | a sample's row exists exactly when every region's read succeeds, and it has a `time` column; otherwise the error is the first failing region's |
| RegionProcessor.KernelPreservesBrightness | ExtractText.py:48-52 | the sharpening kernel's weights, scaled by `-1/256`, sum to exactly 1 |
| Extraction.Extract | ExtractText.py:57-141 | row `k` is sample `k`'s row and there are at most `NumSamples` rows. Stopping early means the next frame could not be read. An error is that of the first admitted sample that fails, every earlier sample having built its row, and within that sample it is the first failing region's |
| Extraction.Collect | ExtractText.py:62-139 | the sampling loop over any guard admitting exactly the indices below `n`: row `k` is sample `k`'s row and there are at most `n` rows; stopping early means the next sample is missing; an error is the first failing sample's, every earlier sample having built its row |
| Extraction.TimeColumnConverts | ConversionUtils.py:15-21 | in a table the extraction returns, the `time` column survives `convert_to_float` whole: its cell `k` is sample `k`'s relative time |
| Extraction.SampleAt | ExtractText.py:63-66 | sample `k` is missing exactly when the frame at its index cannot be read, and a row it builds has a `time` column |
| Extraction.TimeOnlyRows | ExtractText.py:62-66 | with every frame readable and no region, every sample's row holds only its relative time |
| Extraction.TimeOnlyTable | ExtractText.py:62-66 | with every frame readable and no region, there is exactly one row per admitted sample, holding only its time |
| Extraction.SampleTimes | ExtractText.py:62-66 | with every frame readable, the time column lists every admitted sample's relative time in order |
| Extraction.TwoSampleTimes | ExtractText.py:62-66 | a plan admitting two samples, with every frame readable, yields the times of samples 0 and 1 |
| Extraction.TwoSecondsEveryThirtyFrames | ExtractText.py:57-66 | two seconds of 30 fps video every 30 frames yields the time column `[0, 1]` |
| Conversion.Split | ConversionUtils.py:7 | `str.split(':')` gives at least one field, no field contains the separator, and joining the fields restores the string |
| Conversion.SplitJoin | ConversionUtils.py:7 | splitting the join of separator-free fields gives the fields back |
| Conversion.ParseInt | ConversionUtils.py:7 | `int()` of a string without `-` is never negative; ParseIntAccepts states which strings it accepts and what it reads |
| Conversion.ValidDigitsIff | ConversionUtils.py:7 | the digit grouping the parser checks is exactly: every character a digit, or an underscore between two digits |
| Conversion.ParseIntAccepts | ConversionUtils.py:7 | `int()` accepts exactly grouped digits after stripping, possibly after one sign, and reads their decimal value, negated after `-` |
| Conversion.ParseIntRefuses | ConversionUtils.py:7 | `int()` refuses `'1a'`, `'--5'` and `'\x1c5'` |
| Conversion.SeparatorRefused | ConversionUtils.py:7-18 | an information separator before the hours makes the time string give no value, and makes `float()` refuse the same kind of text |
| Conversion.Strip | ConversionUtils.py:7 | the surrounding whitespace `int()` and `float()` skip, only space and `\t` to `\r`, is removed, and no character is added |
| Conversion.StripTrims | ConversionUtils.py:7 | for the whitespace `int()` and `float()` skip (space and `\t` to `\r`, not `\x1c` to `\x1f`): the result keeps every non-space character of the input, adds none, and neither starts nor ends with whitespace |
| Conversion.StripLeftIsSuffix | ConversionUtils.py:7 | leading whitespace removal gives a suffix of the input, and all that was removed is whitespace |
| Conversion.StripRightIsPrefix | ConversionUtils.py:7 | trailing whitespace removal gives a prefix of the input, and all that was removed is whitespace |
| Conversion.ParseDigitString | ConversionUtils.py:7 | `int()` of a plain digit string is its decimal value |
| Conversion.TimeStringToMinutes | ConversionUtils.py:3-12 | a value is returned only for a string cell |
| Conversion.MinutesOfFields | ConversionUtils.py:7-10 | the fields give minutes exactly when there are four of them and each parses as an integer |
| Conversion.TimeStringDefinedIff | ConversionUtils.py:3-12 | a value is returned exactly for a string with four `:`-separated fields that all parse as integers |
| Conversion.TimeStringRoundTrip | ConversionUtils.py:7-10 | four digit fields joined by `:` give `(h*3600 + m*60 + s)/60` minutes |
| Conversion.FramesIgnored | ConversionUtils.py:7-10 | the frames field only has to parse; its value never affects the result |
| Conversion.UnsignedIsNonNegative | ConversionUtils.py:7-10 | a time string without a minus sign gives a non-negative number of minutes |
| Conversion.TimeStringExamples | ConversionUtils.py:3-12 | `"01:30:00:12"` is 90 minutes and `"00:01:30:00"` is 1.5 |
| Conversion.MalformedTimeStrings | ConversionUtils.py:3-12 | three fields, a letter in a field, a number cell or an empty cell all give no value instead of raising |
| Conversion.CellToFloat | ConversionUtils.py:18 | empty cells and numbers pass through, and a coerced cell is never a string |
| Conversion.ParseDecimal | ConversionUtils.py:18 | an unsigned decimal that parses has a non-negative value; ParseDecimalAccepts states which bodies it accepts and what it reads |
| Conversion.ParseDecimalAccepts | ConversionUtils.py:18 | an unsigned body parses exactly when it is grouped digits, or has one point with grouped digits or nothing on each side and at least one digit; it reads the digits' value, or the decimal value of the two sides of the point |
| Conversion.ParseFloat | ConversionUtils.py:18 | `float()` of a string without `-` is never negative; ParseFloatAccepts states which strings it accepts and what it reads |
| Conversion.ParseFloatAccepts | ConversionUtils.py:18 | `float()` accepts exactly an unsigned decimal after stripping, possibly after one sign, and reads its value, negated after `-` |
| Conversion.ParseFloatExamples | ConversionUtils.py:18 | `float(' -1_0.5')` is -10.5, and `float('1.2.3')` and `float('.')` raise |
| Conversion.UnsignedDecimal | ConversionUtils.py:18 | an unsigned `a.b` of two digit runs reads as the decimal value of its two groups |
| Conversion.DecimalValueOfDigits | ConversionUtils.py:18 | the decimal value of `a.b`, with `b` a run of `n` plain digits, is `a + b / 10^n` |
| Conversion.FloatOfDigits | ConversionUtils.py:18 | `float()` of a plain digit run is its decimal value |
| Conversion.FloatOfDecimal | ConversionUtils.py:18 | `float('a.b')` for digit runs `a` and `b` is the decimal value of the two groups, which `DecimalValueOfDigits` spells out as `a + b / 10^len(b)` |
| Conversion.FloatUnsigned | ConversionUtils.py:18 | text with no surrounding whitespace and no sign reads as an unsigned decimal |
| Conversion.FloatNegated | ConversionUtils.py:18 | a leading `-` negates the unsigned reading of the rest, and fails exactly when it does |
| Conversion.FloatPlus | ConversionUtils.py:18 | a leading `+` leaves the unsigned reading of the rest unchanged |
| Conversion.FloatExamples | ConversionUtils.py:18 | `float('12.5')` is 12.5, `float('3')` is 3.0, and `float('12:34')` raises |
| Conversion.ToColumns | ConversionUtils.py:16 | the table laid out as columns has one column per name, each as long as the table, and cell `k` of a column is row `k`'s value under that name, empty where the row has none |
| Conversion.CoerceColumn | ConversionUtils.py:16-20 | a column keeps its name and length and comes out numeric |
| Conversion.ConvertToFloat | ConversionUtils.py:15-21 | every column keeps its name and length and comes out numeric |
| Conversion.AllOrNothing | ConversionUtils.py:17-20 | a column where every cell converts is converted cell by cell; otherwise every cell becomes empty |
| Conversion.NulledIff | ConversionUtils.py:17-20 | a column ends up all empty because of coercion exactly when some cell fails to convert |
| Conversion.ColumnsIndependent | ConversionUtils.py:16-20 | changing one column never changes the conversion of another |
| Conversion.ConvertIdempotent | ConversionUtils.py:15-21 | converting twice is the same as converting once |
| Conversion.CoerceExamples | ConversionUtils.py:15-21 | `["12.5", empty, "3"]` becomes `[12.5, empty, 3.0]`, and `["12:34", "5"]` becomes all empty |

## Left out

- Frame display, region previews, the progress print and Qt event pumping
  (ExtractText.py:68-71, 109-110, 118-119, 131, 134) produce no table
  output, so they are left out.
- The marker image's pixels and `top_3_indices` (ExtractText.py:100-103)
  are only displayed, so they are left out. Building the marker image can
  fail, when the bar's middle row is negative; that failure is modelled.
- The video is a parameter, `int -> Option<Image>` from frame index to
  frame. `isOpened()` and a failed `read()` both become `None`, which ends
  the loop.
- Colour-to-grey conversion is not modelled: frames are grey already.
  Only its refusal of an empty image is kept.
- The text recogniser (easyocr) is an oracle parameter. The contrast
  stretch (`convertScaleAbs`) and the sharpening filter (`filter2D`) happen
  inside it, selected by the enhance flag. Only the kernel's weights are
  modelled.
- Reading parameters from the GUI (ExtractText.py:22-39) is left out. The
  model takes the values directly.
- Extraction.Extract requires `fps > 0` and `interval >= 1`. With `fps`
  equal to 0 the source divides by zero. The interval is
  `int(gui_ref.interval.text())` (ExtractText.py:27) and nothing checks it.
  With an interval of 0 the source re-reads the same frame forever. With a
  negative interval the guard's left side only decreases, so the window
  never closes, and each seek goes further back from the start frame; the
  loop ends only when a read fails. Neither case is modelled.
- Sampling: fps and times are exact reals. The source uses binary floats,
  whose rounding can move a sample across the end of the window. That
  rounding is not modelled.
- BarGauge.EdgeFraction returns the exact quotient
  `argmax / len(gradients)`. The source divides in binary64
  (ExtractText.py:108), which rounds that quotient; the rounding is not
  modelled.
- The source's comment calls the gradients "absolute differences", but
  `np.diff` on `uint8` wraps modulo 256 before `np.abs` is applied. The
  model keeps the wrap, and `BarGauge.FallingEdgeWraps` shows its effect.
- An error in one region aborts the whole extraction in the model, with
  the region's column named. In the source it is an uncaught exception:
  `cv2.error` from `cvtColor` on an empty crop, numpy's `ValueError`
  from `argmax` of an empty gradient, or numpy's `ValueError` from `tile`
  given a negative repeat count.
- The unbound `roi` (a `NameError` in the source), met when the first
  frame reaches its first horizontal bar with no text region before it,
  is not modelled: the model takes the strip height from the region
  itself.
- TextNormaliser.Lower lower-cases ASCII letters only. Python's
  `str.lower` also maps other Unicode letters, which the later filter
  drops anyway, except characters such as `İ`, which lower to more than
  one character.
- Conversion.ParseInt accepts ASCII whitespace, a sign and
  single underscores between ASCII digits. Python also strips non-ASCII
  whitespace (`\x85`, `\xa0` and the Unicode spaces) and accepts Unicode
  digits; the model does not.
- Conversion.ParseFloat accepts ASCII whitespace, an optional sign and
  decimals of the form `digits`, `digits.`, `digits.digits` or `.digits`,
  with single underscores between digits. Exponents, `inf` and `nan` are
  not accepted, nor are non-ASCII whitespace and Unicode digits.
- Conversion.Minutes and Conversion.ParseFloat compute with exact reals
  and unbounded integers. The source's `float()` rounds to binary64 (so
  `float('0.1')` is not exactly 1/10) and gives `inf` for very long digit
  runs. `total_seconds / 60` raises an uncaught `OverflowError` for an
  hours field of about 306 digits or more. CPython's `int()` refuses a
  field of more than 4300 digits, giving `None`. In each of these cases
  the model returns the exact value instead.
- pandas details are left out: column order, dtype upcasting, the
  interpolation and the CSV export. A row is a map from column names to
  cells, and a missing key is an empty (NaN) cell.
- The vertical-bar branch (ExtractText.py:78-79) has no body in the
  source. The model writes an empty cell for it, as line 75 does.
