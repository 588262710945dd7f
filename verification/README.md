# JIPS scale-bar metadata, modelled in Dafny

JIPS is a set of ImageJ plugins for electron-microscope images. This project
models the pure logic inside them that turns instrument metadata into a pixel
calibration and a rounded scale-bar length. It proves properties of that model.

- **JEOL JSM sidecar** (`JSM_ScaleBar`). `exec` names the `.txt` sidecar after
  the image. `getCalibration` then handles the sidecar text in four steps:
  - it splits the text into lines on `\r\n`, `\n` or `\r`;
  - it matches each line against a chain of sixteen literal prefixes;
  - it stores the rest of a matching line under a key, as a number or as text;
  - it derives an isotropic pixel size from the image width, the bar length
    and the bar's length in pixels.
- **Megaview** (`Megaview_ScaleBar.getCalibrationFromFile`). The image file is
  read as text. The last line that starts with `Mode ` supplies a
  magnification token. Its final character is dropped, the rest is parsed as a
  number, and the number is looked up in a nine-entry table of nanometre pixel
  sizes.
- **Scale-bar length** (`Batch_Converter.addScaleBar`). The candidate length is
  a quarter of the calibrated image width. A decade is chosen from strict
  thresholds, and the candidate is rounded to the nearest multiple of that
  decade, with halves rounding up.

Doubles are modelled as `real`. A Java exception that escapes is a `Failure`
of a `Result`; the `NullPointerException` the JSM plugin catches is a branch
that changes nothing. File contents and the loaded image are
parameters: the sidecar or image text arrives as
`Option<string>`, where `None` means the read threw, and the measured image
width arrives as a number.

Modules:
- `Wrappers`: `Option` and `Result`.
- `Text`: Java's line split, `String.split` on a character class, and `Join`.
- `Numbers`: the decimal number parser, and `NatToString` as its partner.
- `Calibrations`: ImageJ's `Calibration`, either a fresh default or one with a
  unit and a pixel size.
- `LineRecords`: the generic fold of per-line entries into a record.
- `JsmScaleBar`, `MegaviewScaleBar` and `BatchConverter`: one module per plugin.

## Model

| member | source | states |
|---|---|---|
| Text.RawLines | src/JSM_ScaleBar.java:242 | Splitting at `\r\n`, `\n` or `\r` gives at least one line, and no line contains `\r` or `\n` |
| Text.RawLinesSingle | src/JSM_ScaleBar.java:242 | Text without a line break is one line, itself, and only such text gives exactly one line |
| Text.SplitLines | src/JSM_ScaleBar.java:242 | Java's `split` result is a prefix of the raw split, and every line is break-free. Only empty lines are removed. A text without a break stays one line, even an empty one. Otherwise the last line kept is not empty |
| Text.RawLinesJoin | src/JSM_ScaleBar.java:242 | Round trip: break-free lines joined with any of `\r\n`, `\n` or `\r` split back into exactly those lines |
| Text.SplitLinesJoin | src/JSM_ScaleBar.java:242 | The same round trip through Java's `split`, when the last line is non-empty |
| Text.JoinRawLines | src/JSM_ScaleBar.java:242 | Joining the split lines with `\n` gives the text with every `\r\n` and lone `\r` turned into `\n`: the split loses nothing but the kind of break |
| Text.SplitOn | src/JSM_ScaleBar.java:260 | Splitting at separator characters gives separator-free pieces, and a single piece exactly when the text has no separator |
| Text.JavaSplit | src/JSM_ScaleBar.java:260 | `split` on a character class is a prefix of the raw pieces, all separator-free. Every piece it drops is empty. A text without a separator stays one piece. Otherwise the last piece kept is not empty |
| Text.JavaPieces | src/JSM_ScaleBar.java:242 | Java's rule for trailing empty strings at limit 0: a one-piece split is kept as is; otherwise exactly the trailing empty pieces go |
| Text.DropTrailingEmpty | src/JSM_ScaleBar.java:242 | The result is a prefix of the pieces, every dropped piece is empty, and the last piece kept is not empty |
| Text.DropTrailingEmptyUnique | src/JSM_ScaleBar.java:260 | The rule fixes the result: any prefix that drops only empty pieces and ends in a non-empty one is the split's result |
| Text.SplitOnPrefix | src/Megaview_ScaleBar.java:96 | A separator-free piece followed by a separator splits off as the first piece |
| Text.JoinSplitOn | src/JSM_ScaleBar.java:260 | Joining the pieces with the one separator rebuilds the text |
| Text.SplitOnJoin | src/JSM_ScaleBar.java:314 | Separator-free pieces joined by a separator split back into the same pieces |
| Numbers.ParseNumber | src/JSM_ScaleBar.java:250 | `new Double(text)` on the decimal subset: a negative value comes only from text whose trimmed form starts with `-` |
| Numbers.ParseUnsignedAccepts | src/JSM_ScaleBar.java:250 | The unsigned parser succeeds exactly on digits with at most one point and at least one digit |
| Numbers.ParseNumberAccepts | src/JSM_ScaleBar.java:250 | `new Double(text)` succeeds exactly when the trimmed text is an optional sign followed by such a literal |
| Numbers.ParseNatToString | src/JSM_ScaleBar.java:250 | Round trip: the decimal digits of a natural number parse back to that number |
| Numbers.ParseNegatedNatToString | src/JSM_ScaleBar.java:250 | A minus sign before the digits of `n` parses to `-n` |
| Numbers.ParseFraction | src/JSM_ScaleBar.java:250 | `whole.frac` parses to the whole part's value plus the fraction's value |
| Numbers.DigitsValueOfNatToString | src/JSM_ScaleBar.java:250 | The digits `NatToString` produces have the value they were made from |
| Calibrations.SquarePixels | src/JSM_ScaleBar.java:339-342 | A fresh calibration with the given unit and equal pixel width and height |
| LineRecords.Fold | src/JSM_ScaleBar.java:246-327 | Merging each line's entries into the record, stopping at the first exception; characterised by FoldOutcome, FoldFailurePersists, FoldKeys and FoldLastWrite |
| LineRecords.FoldOutcome | src/JSM_ScaleBar.java:246-327 | A read succeeds exactly when every line's handling succeeds; otherwise it reports the first failing line's error |
| LineRecords.FoldFailurePersists | src/JSM_ScaleBar.java:246-327 | Once a line throws, the later lines cannot change the outcome |
| LineRecords.FoldKeys | src/JSM_ScaleBar.java:246-327 | A key is present exactly when some line writes it |
| LineRecords.FoldLastWrite | src/JSM_ScaleBar.java:246-327 | A key holds the value the last line writing it wrote |
| JsmScaleBar.NameInjective | src/JSM_ScaleBar.java:248-326 | Different keys have different names, so the record's keys stand for the plugin's map keys one to one |
| JsmScaleBar.RulesOffsets | src/JSM_ScaleBar.java:248-326 | There are sixteen branches, and each `substring` offset is its prefix's length, keyword plus space |
| JsmScaleBar.RulesDistinct | src/JSM_ScaleBar.java:248-326 | The sixteen keywords are pairwise different |
| JsmScaleBar.RulesTyped | src/JSM_ScaleBar.java:248-326 | Every branch stores numbers under numeric keys and text under text keys, and its token keys are distinct |
| JsmScaleBar.FirstRuleFrom | src/JSM_ScaleBar.java:248-326 | The branch found is the first from `i` on whose prefix starts the line: it matches, and every matching branch from `i` on is at or after it |
| JsmScaleBar.MatchingRule | src/JSM_ScaleBar.java:248-326 | The branch that fires has a prefix that starts the line, and no branch fires exactly when no prefix of the chain starts it; `MatchedRule` pins which one |
| JsmScaleBar.ActionFields | src/JSM_ScaleBar.java:248-326 | One branch's entries or exception; characterised by TextFieldVerbatim, NumberFieldParsed, MarkerSplit, MarkerTooShortFails, FullSizeStored and TokenValues |
| JsmScaleBar.LineFields | src/JSM_ScaleBar.java:247-326 | One pass of the if/else-if chain; characterised by MatchedRule, UnmatchedLineIgnored and the ActionFields lemmas |
| JsmScaleBar.KeywordPrefixesAgree | src/JSM_ScaleBar.java:248-326 | Two space-free keywords that each, followed by a space, start the same line are equal |
| JsmScaleBar.AtMostOneRule | src/JSM_ScaleBar.java:248-326 | At most one prefix of the chain matches any line, so branch order does not matter |
| JsmScaleBar.MatchedRule | src/JSM_ScaleBar.java:248-326 | A line that starts with prefix `i` is handled by branch `i` |
| JsmScaleBar.UnmatchedLineIgnored | src/JSM_ScaleBar.java:246-327 | A line that matches no prefix adds no entries |
| JsmScaleBar.TextFieldVerbatim | src/JSM_ScaleBar.java:264-311 | A text branch stores exactly the line with its prefix removed, and the prefix plus that text is the line |
| JsmScaleBar.NumberFieldParsed | src/JSM_ScaleBar.java:248-250 | A numeric branch stores the parsed remainder, or fails naming the key and the text when it is not a number |
| JsmScaleBar.NumberEntry | src/JSM_ScaleBar.java:300-307 | A numeric entry succeeds exactly when the text is a number, and then holds that number |
| JsmScaleBar.MarkerSplit | src/JSM_ScaleBar.java:252-256 | Prefix, value text and unit rebuild the line; the unit is the last two characters; bar and unit are stored together or the line fails |
| JsmScaleBar.MarkerTooShortFails | src/JSM_ScaleBar.java:253 | A marker line shorter than 21 characters throws, since its value would end before it starts |
| JsmScaleBar.FullSizeStored | src/JSM_ScaleBar.java:258-262 | Two numeric tokens store exactly image width and image height as the first and second token |
| JsmScaleBar.FullSizeTooFewTokens | src/JSM_ScaleBar.java:258-262 | A full-size line with fewer than two tokens fails |
| JsmScaleBar.StagePosTooFewTokens | src/JSM_ScaleBar.java:312-319 | A stage-position line with fewer than five tokens fails |
| JsmScaleBar.TokenValues | src/JSM_ScaleBar.java:312-325 | The tokens fill the keys exactly when there are enough and each is a number; then the keys are exactly those listed, all numeric |
| JsmScaleBar.TokenValuesStored | src/JSM_ScaleBar.java:312-325 | With distinct keys, the `i`-th key holds the `i`-th token's number |
| JsmScaleBar.TokenValuesMissing | src/JSM_ScaleBar.java:314-319 | Too few numeric tokens fail at the first key without a token |
| JsmScaleBar.ParseSidecar | src/JSM_ScaleBar.java:246-327 | The plugin's loop, stopping at the first exception, builds the same record as the fold over lines |
| JsmScaleBar.ParseLines | src/JSM_ScaleBar.java:246-327 | The loop over the lines as a fold of LineFields; characterised by ParseSidecar, SidecarOutcome, SidecarKeys, SidecarLastWrite and ParseLinesConsistent |
| JsmScaleBar.SidecarOutcome | src/JSM_ScaleBar.java:246-327 | The sidecar parses exactly when no line throws; otherwise the first throwing line's error is the result |
| JsmScaleBar.SidecarKeys | src/JSM_ScaleBar.java:246-327 | Keys no line writes are absent from the record |
| JsmScaleBar.SidecarLastWrite | src/JSM_ScaleBar.java:246-327 | A later line writing the same key overwrites the earlier value |
| JsmScaleBar.ParseLinesConsistent | src/JSM_ScaleBar.java:246-327 | Every parsed record is well typed, holds micron bar and its unit together, and has no scaling factor |
| JsmScaleBar.Derive | src/JSM_ScaleBar.java:329-348 | With all three fields: factor times declared width is the measured width; the factor is stored; pixel size times corrected pixel count is the bar length; the calibration is isotropic in the bar's unit. With any missing, nothing changes |
| JsmScaleBar.DeriveExample | src/JSM_ScaleBar.java:331-342 | Declared 1024, measured 512, bar 10 over 100 px gives factor 0.5 and pixel size 0.2 |
| JsmScaleBar.GetCalibration | src/JSM_ScaleBar.java:230-348 | An unreadable sidecar gives an empty record and the default calibration, and a readable one gives its first failing line's exception or else the calibration derived from its parsed record starting from the current one |
| JsmScaleBar.LastIndexOf | src/JSM_ScaleBar.java:197 | `lastIndexOf`: the position holds the character and none follows it, or -1 |
| JsmScaleBar.NamesFor | src/JSM_ScaleBar.java:197-199 | Base name, point and extension rebuild the file name; the extension has no point; the sidecar is base name plus `.txt`; no point means `substring` throws |
| JsmScaleBar.NamesForJoin | src/JSM_ScaleBar.java:197-199 | Round trip: a base name and a point-free extension are recovered from their join |
| MegaviewScaleBar.ModeLineTokens | src/Megaview_ScaleBar.java:96 | The whitespace split of a Mode line starts with `Mode` and drops only trailing empty pieces |
| MegaviewScaleBar.ModeToken | src/Megaview_ScaleBar.java:96-97 | The token is a non-empty, whitespace-free word of the line |
| MegaviewScaleBar.ModeTokenIsLastWord | src/Megaview_ScaleBar.java:96-97 | The token is the last word: only empty pieces follow it in the raw split |
| MegaviewScaleBar.LastModeLine | src/Megaview_ScaleBar.java:93-99 | The index found is a Mode line with no Mode line after it; none exactly when there is no Mode line |
| MegaviewScaleBar.MagnificationText | src/Megaview_ScaleBar.java:90-99 | `mag_string` after the scan; characterised by LastModeLineWins, MagnificationTextEmpty, OnlyModeLinesMatter and ScanModeLines |
| MegaviewScaleBar.LastModeLineWins | src/Megaview_ScaleBar.java:93-99 | With several Mode lines, the token comes from the last one |
| MegaviewScaleBar.MagnificationTextEmpty | src/Megaview_ScaleBar.java:90-99 | The token stays empty exactly when there is no Mode line |
| MegaviewScaleBar.OnlyModeLinesMatter | src/Megaview_ScaleBar.java:95 | Dropping every line that is not a Mode line does not change the token |
| MegaviewScaleBar.ScanModeLines | src/Megaview_ScaleBar.java:90-99 | The plugin's loop yields the empty text exactly when there is no Mode line, and otherwise the last Mode line's token |
| MegaviewScaleBar.Magnification | src/Megaview_ScaleBar.java:102 | No Mode line fails; otherwise success exactly when the token minus its last character is a number, which is the result |
| MegaviewScaleBar.PixelSizeFor | src/Megaview_ScaleBar.java:104-135 | The pixel size is always positive |
| MegaviewScaleBar.PixelSizeForTable | src/Megaview_ScaleBar.java:106-135 | The nine known magnifications map to their table sizes, and every other value maps to 1.0 |
| MegaviewScaleBar.GetCalibrationFromFile | src/Megaview_ScaleBar.java:75-143 | An unreadable file gives the default calibration, and a readable one gives the magnification's failure or else an isotropic `nm` calibration whose pixel size is the table's entry for the magnification, or 1.0 when the table has none |
| MegaviewScaleBar.SingleModeLineText | src/Megaview_ScaleBar.java:90-99 | A text that is one Mode line yields that line's token |
| MegaviewScaleBar.KnownMagnificationExample | src/Megaview_ScaleBar.java:93-140 | `Mode TEM 150000x` gives an `nm` calibration of 0.5419 both ways |
| BatchConverter.Decade | src/Batch_Converter.java:179-193 | The decade is one of the seven, positive, below the width when the width exceeds 0.01, and at least a tenth of it up to 1000 |
| BatchConverter.DecadeIsFirstExceeded | src/Batch_Converter.java:180-193 | The chain picks the first decade, largest first, that the width strictly exceeds, or 0.001 |
| BatchConverter.DecadePosition | src/Batch_Converter.java:180-193 | Every larger decade is at least the width, and the chosen one is below it unless it is the fallback |
| BatchConverter.RoundToMultiple | src/Batch_Converter.java:195 | `Math.floor(w / d + 0.5) * d`; characterised by RoundToMultipleWindow and RoundToMultipleUnique |
| BatchConverter.RoundToMultipleWindow | src/Batch_Converter.java:195 | `floor(w/d + 0.5) * d` is a multiple of `d` in the window `(w - d/2, w + d/2]` |
| BatchConverter.RoundToMultipleUnique | src/Batch_Converter.java:195 | It is the only multiple in that window, so exact halves round up |
| BatchConverter.RoundToDecade | src/Batch_Converter.java:195 | The bar is a multiple of the chosen decade within half a decade of the width, halves going up |
| BatchConverter.RoundToDecadeUnique | src/Batch_Converter.java:195 | No other multiple of the decade lies in that window |
| BatchConverter.RoundToDecadeRange | src/Batch_Converter.java:180-195 | For widths in `(0.01, 1000]` the bar lies between one and ten decades |
| BatchConverter.RoundToDecadeLarge | src/Batch_Converter.java:180-195 | Widths above 1000 give a bar of at least 1000 |
| BatchConverter.RoundToDecadeSign | src/Batch_Converter.java:180-195 | A non-negative width gives a non-negative bar, a width in `[0, 0.0005)` gives 0, and a negative width gives a non-positive bar |
| BatchConverter.ScaleBarLength | src/Batch_Converter.java:178-195 | The bar is a multiple of the decade for a quarter of the image width, within half a decade of that quarter |
| BatchConverter.HalfRoundsUpExample | src/Batch_Converter.java:178-195 | A 10000-unit image gives a 2500 candidate, exactly halfway, which rounds up to 3000 |
| BatchConverter.SmallWidthExample | src/Batch_Converter.java:190-195 | A 0.05 candidate uses the 0.01 decade and stays 0.05 |

## Left out

- File reading (`readFileAsString`), `IJ.openImage`, `IJ.saveAs` and directory iteration are I/O. The text read, or `None` when the read throws, is a parameter.
- The ImageJ dialogs, `run`, `showDialog` and `main` are UI and global option state.
- Image operations are calls into ImageJ: 8-bit and RGB conversion, cropping, contrast, smoothing, resizing, overlay drawing and `flatten`.
- `Calibration.getX` (src/Batch_Converter.java:176) belongs to ImageJ. The calibrated image width is an input of `BatchConverter.ScaleBarLength`.
- The contents of a fresh `new Calibration()` belong to ImageJ. It is the opaque constructor `Default`.
- `MyHashMap.toString` (src/JSM_ScaleBar.java:355-365) prints in `HashMap` iteration order, which Java leaves unspecified.
- The JSM scale-bar drawing in `run` passes the micron bar to ImageJ unrounded. It involves no computation beyond reading the record.
- The naming step in `Megaview_ScaleBar.run` (src/Megaview_ScaleBar.java:51-52) is the same as in the JSM plugin, and its result is unused.
- Numbers.ParseNumber: accepts only the decimal subset of `Double.valueOf`: an optional sign, digits, and an optional point and digits, after trimming characters up to U+0020, the language `IsDecimalLiteral` defines and `ParseNumberAccepts` matches. Java also accepts exponents, `NaN`, `Infinity`, hexadecimal literals and `d`/`f` suffixes. For these the model reports "not a number" where Java returns a value.
- JsmScaleBar.Derive: requires a declared image width and a bar pixel count that are not zero. Java divides anyway and stores IEEE infinities or NaN, which `real` cannot represent.
- JsmScaleBar.GetCalibration: requires the same non-zero divisors of any sidecar that parses, for the same reason.
- Strings are sequences of Unicode scalar values, while Java indexes UTF-16 code units. A character outside the Basic Multilingual Plane is two code units in Java and one character here. For `"$$SM_MICRON_MARKER 1\U{1D707}m"`, `substring(19, length() - 2)` (src/JSM_ScaleBar.java:253-254) splits the surrogate pair, so `new Double` throws. The model parses `1` with the unit `\U{1D707}m` instead. Megaview's removal of the token's final character (src/Megaview_ScaleBar.java:102) differs in the same way.
- Megaview parses the magnification to a `double` before the exact table comparisons (src/Megaview_ScaleBar.java:102-131). The model parses it to an exact `real`. A token with more than 17 significant digits, such as `150000.000000000000001x`, rounds to 150000 in Java and matches the table. The model misses the table and uses 1.0.
- Rounding is exact over `real`. The effect of binary floating point on `w / d + 0.5` near a half is not modelled.
- The image's pixel dimensions are the source's `int`s. Only the measured width enters the model, as a positive number.

### Behaviour of the code that the model follows

- `getCalibration` has no guard against a zero declared width or a zero bar pixel count. It divides by both, so the model requires them to be non-zero instead of adding a fallback.
- A missing calibration field makes `getCalibration` throw a `NullPointerException`. The plugin catches it and leaves the calibration as it was, and the model does the same.
- An unreadable JSM sidecar resets the calibration to a fresh `new Calibration()`. The empty text is then parsed as one empty line, which stores nothing. An unreadable Megaview file returns a fresh `new Calibration()`.
- `addScaleBar` has no guard for a negative candidate. It rounds it to a non-positive multiple of 0.001, and `RoundToDecadeSign` states this.
- A JSM marker line shorter than 21 characters makes `substring(19, length - 2)` throw. The model reports this as a parse failure.
