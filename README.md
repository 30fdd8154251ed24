# Focus-plane selection and output names of the Fiji scripts

This project models two pieces of logic from three Jython scripts for Fiji
(ImageJ). Everything else in those scripts calls into the host imaging
library.

- **Focus-plane selection** (`calc_focusplane.py`).
  - `calc_normvar` scores one z-slice. It sums the squared deviations of the
    slice's pixels from the slice mean, then divides by
    `height * width * mean`. It is modelled as the method
    `FocusPlane.CalcNormVar`, with the nested x/y loop of the script.
  - `calc_focus` scores every slice of a stack in order. It appends each
    score to `fv` and keeps a running maximum that starts at 0 and moves only
    to a strictly larger score. It is modelled as the method
    `FocusPlane.CalcFocus`.
  - A slice is a grid of integer pixels (`seq<seq<int>>`). Scores are exact
    reals. `Pixel` reads 0 outside the grid, as ImageJ's `getPixel` does.
  - A zero divisor is not excluded by a precondition. Python raises
    ZeroDivisionError there, so the model returns `ZeroDivision`. That
    happens when the mean is 0 or the slice has no pixels; a negative mean
    is allowed.
  - If no slice scores above 0, `new_imp` is never bound and the script's
    `return` fails. This outcome is modelled as `NothingSelected`.
  - The script does not pick "the slice with the largest score"
    unconditionally. It picks the first slice that attains the largest
    score, and only if that score is positive. `FocusPlane.NothingSelectedIff`
    shows that, when every slice has a defined score, nothing is picked
    exactly when every slice has a negative mean or is uniform.
- **Output-file names**, derived the same way in all three scripts.
  - Take the input's file name (`PyPath.Basename`) and drop its last
    extension (`PyPath.Splitext`).
  - Strip one trailing ".ome" (`OutputNames.StripOme`).
  - Reassemble as `stem + suffix + '.' + format`, plus a copy path
    `stem + '.' + format` (`OutputNames.Reassemble`).
  - The posixpath functions the scripts use are modelled in module `PyPath`:
    `rfind`, `basename`, `dirname`, two-argument `join`, and `splitext`,
    including its rule that a leading-dot name has no extension.
  - `str(n)` for the slice number in titles is modelled in `Numerals`, with
    its decimal reading.

Modules: `PyPath`, `Numerals`, `OutputNames`, `FocusPlane`
(calc_focusplane.py), `ThresholdLocal` (threshold_fiji_local_new.py) and
`ParticleAnalysis` (test_pa_local.py).

## Model

| member | source | states |
|---|---|---|
| FocusPlane.CalcNormVar | Fiji/scripts/calc_focusplane.py:26-39 | The nested loop's result is the normalized variance: the sum over every x < width and y < height of (p(x,y) − mean)², each cell added once, divided by height·width·mean, or ZeroDivision when that divisor is 0. |
| FocusPlane.NormalizedVariance | Fiji/scripts/calc_focusplane.py:37 | The division `b / (height * width * mean)` fails with ZeroDivisionError exactly when width·height is 0 or the mean is 0. |
| FocusPlane.Score | Fiji/scripts/calc_focusplane.py:51-55 | The score calc_focus obtains for a slice (its own mean, width and height) fails exactly for a slice without pixels or with mean 0, and is ≥ 0 whenever the mean is positive. |
| FocusPlane.GridSumConstant | Fiji/scripts/calc_focusplane.py:30-35 | Summing a constant c over the loop's grid gives width·height·c, so every pixel is visited exactly once. |
| FocusPlane.GridSumNonNegative | Fiji/scripts/calc_focusplane.py:34-35 | An accumulator that only adds non-negative terms is never negative. |
| FocusPlane.GridSumZeroIff | Fiji/scripts/calc_focusplane.py:34-35 | A sum of non-negative terms over the grid is 0 exactly when every term is 0. |
| FocusPlane.SquaredDeviationNonNegative | Fiji/scripts/calc_focusplane.py:34 | Every term `(p - mean) * (p - mean)` is non-negative. |
| FocusPlane.SquaredDeviationZeroIff | Fiji/scripts/calc_focusplane.py:34 | A term is 0 exactly when the pixel equals the mean. |
| FocusPlane.NormalizedVarianceNonNegative | Fiji/scripts/calc_focusplane.py:34-37 | With a positive mean and a non-empty region, the division is defined and its result is ≥ 0. |
| FocusPlane.UniformMean | Fiji/scripts/calc_focusplane.py:54 | A non-empty slice whose pixels all hold c has mean c. |
| FocusPlane.DeviationZeroIffUniform | Fiji/scripts/calc_focusplane.py:28-35 | The deviation sum around the slice's own mean is 0 exactly when the slice is uniform. |
| FocusPlane.ScorePositiveIff | Fiji/scripts/calc_focusplane.py:54-58 | A defined score beats the initial maximum 0 exactly when the slice mean is positive and the slice is not uniform. |
| FocusPlane.RunningMaxStep | Fiji/scripts/calc_focusplane.py:57-60 | One iteration keeps the running-maximum invariant: a strictly larger score moves the maximum to the new slice, and any other score leaves it, so ties keep the earlier slice. |
| FocusPlane.SliceTitle | Fiji/scripts/calc_focusplane.py:61 | The title is name + "_Z=" followed by a numeral of the slice index: non-empty digits, no leading zero, reading back as the index, which by Numerals.NumeralUnique is exactly `str(index)`. |
| FocusPlane.CalcFocus | Fiji/scripts/calc_focusplane.py:42-63 | (1) ZeroDivision on the first slice whose score fails, iff some slice fails. (2) Otherwise fv has one score per slice, fv[i-1] being the score of slice i. (3) A slice is selected iff some score is > 0. (4) When selected, fv_max_index is the first 1-based position of the maximum of fv, fv_max is that maximum, and the plane is (name_Z=index, that slice). (5) When nothing is selected, fv_max and fv_max_index are both 0. |
| FocusPlane.NothingSelectedIff | Fiji/scripts/calc_focusplane.py:46-63 | When every slice has a score: no score exceeds 0 (new_imp stays unbound) exactly when every slice has a negative mean or is uniform. |
| FocusPlane.ChannelName | Fiji/scripts/calc_focusplane.py:118 | A channel's name is the input's file name + "_CH=" followed by a numeral of the channel number (digits, no leading zero, reading back as the number), which by Numerals.NumeralUnique is exactly `str(ch)`. |
| FocusPlane.ChannelNamesDistinct | Fiji/scripts/calc_focusplane.py:114-120 | Different channels of one file get different names. |
| FocusPlane.OutputImagePath | Fiji/scripts/calc_focusplane.py:176-185 | The output path begins with dirname(IMAGEPATH) and ends with "_SHARPEST.ome.tiff". |
| FocusPlane.OutputImagePathLocation | Fiji/scripts/calc_focusplane.py:176-185 | The output path lies directly in the input's directory: its dirname is dirname(IMAGEPATH), it begins with it, and its file name is the input's stem followed by "_SHARPEST.ome.tiff". |
| FocusPlane.OutputImagePathOfOmeTiff | Fiji/scripts/calc_focusplane.py:170-185 | An input named s.ome.tiff is saved as s_SHARPEST.ome.tiff. |
| Numerals.NatToString | Fiji/scripts/calc_focusplane.py:61 | `str(n)` is a non-empty digit string with no leading zero. |
| Numerals.DecimalRoundTrip | Fiji/scripts/calc_focusplane.py:61 | Reading back `str(n)` gives n. |
| Numerals.NatToStringInjective | Fiji/scripts/calc_focusplane.py:118 | Different numbers give different numerals. |
| Numerals.NatToStringIsNumeral | Fiji/scripts/calc_focusplane.py:61 | `str(n)` is a numeral of n: non-empty digits, no leading zero, reading back as n. |
| Numerals.NumeralUnique | Fiji/scripts/calc_focusplane.py:61 | A numeral of n is `str(n)`: these properties determine the string. |
| PyPath.RFind | Fiji/scripts/calc_focusplane.py:177 | rfind returns the last index of the character, or -1 when there is none. |
| PyPath.RFindAppend | Fiji/scripts/calc_focusplane.py:177 | rfind on a concatenation finds the right part's last occurrence if it has one, else the left part's. |
| PyPath.Basename | Fiji/scripts/calc_focusplane.py:177 | basename contains no '/'. |
| PyPath.BasenameSuffix | Fiji/scripts/calc_focusplane.py:177 | basename is the suffix of the path that follows its last '/', or the whole path. |
| PyPath.BasenameUnique | Fiji/scripts/calc_focusplane.py:177 | Any '/'-free suffix that follows a '/' or is the whole path is the basename. |
| PyPath.BasenameUnderDir | Fiji/scripts/threshold_fiji_local_new.py:224 | A '/'-free name after a directory part is that path's basename. |
| PyPath.RStripSlashes | Fiji/scripts/calc_focusplane.py:176 | `rstrip('/')` leaves a prefix without a trailing '/' and removes only slashes. |
| PyPath.Dirname | Fiji/scripts/calc_focusplane.py:176 | dirname is a prefix of the text up to the last '/'. It is empty iff the path has no '/'. Only slashes are dropped after it. It ends in '/' only when it is all slashes, and when the text up to the last '/' is all slashes it is that text unchanged. |
| PyPath.Join | Fiji/scripts/test_pa_local.py:114 | An absolute second part replaces the first. Otherwise join begins with the first part and ends with the second; it is exactly their concatenation when the first part is empty or ends in '/', and otherwise one character longer, that character being '/'. Joining the empty name leaves a directory form. |
| PyPath.JoinRelative | Fiji/scripts/test_pa_local.py:114 | Joining a relative name is joining the empty name and appending the name. |
| PyPath.BasenameOfJoin | Fiji/scripts/test_pa_local.py:114 | The basename of join(dir, name) is name, for a '/'-free name. |
| PyPath.DirnameOfJoin | Fiji/scripts/calc_focusplane.py:176-185 | A directory as dirname returns it is the dirname of any '/'-free name joined onto it. |
| PyPath.Splitext | Fiji/scripts/calc_focusplane.py:177 | The two parts concatenate to the path. The extension is empty or starts with its only '.' and has no '/'. |
| PyPath.SplitextUnderDir | Fiji/scripts/threshold_fiji_local_new.py:228 | splitext of directory + name splits inside the name only. |
| PyPath.SplitextFindsExtension | Fiji/scripts/calc_focusplane.py:177 | For a file name, splitext finds an extension exactly when some '.' follows a non-dot character. |
| PyPath.SplitextExtensionOfBasename | Fiji/scripts/threshold_fiji_local_new.py:228 | For any path, splitext finds an extension exactly when the path's basename has one. |
| OutputNames.StripOme | Fiji/scripts/calc_focusplane.py:180-181 | Exactly one trailing ".ome" is removed when present. Otherwise the name is unchanged. The result plus ".ome" gives back the input. |
| OutputNames.Stem | Fiji/scripts/calc_focusplane.py:177-181 | The stem is a prefix of the path. |
| OutputNames.StemOfName | Fiji/scripts/calc_focusplane.py:177-181 | The stem of a file name contains no '/'. |
| OutputNames.StripOmeUnderDir | Fiji/scripts/threshold_fiji_local_new.py:230-231 | Stripping ".ome" never reaches into the directory part. |
| OutputNames.StemUnderDir | Fiji/scripts/threshold_fiji_local_new.py:228-231 | The stem of directory + name is directory + stem of name. |
| OutputNames.StemOfOmeTiff | Fiji/scripts/calc_focusplane.py:177-181 | The stem of s + ".ome.tiff" is s, for any s. |
| OutputNames.Reassemble | Fiji/scripts/threshold_fiji_local_new.py:235-236 | The copy path is the stem, then "." + format, and nothing else (length and both ends fixed). The processed path ends with suffix + "." + format and differs from the copy only by the suffix infix. |
| ThresholdLocal.EffectiveSaveFormat | Fiji/scripts/threshold_fiji_local_new.py:176-184 | An empty save format is replaced by "ome.tiff". A non-empty one is kept unchanged. The result is never empty. |
| ThresholdLocal.EffectiveSaveFormatIdempotent | Fiji/scripts/threshold_fiji_local_new.py:183-184 | Applying the fallback twice is applying it once. |
| ThresholdLocal.WorkingPath | Fiji/scripts/threshold_fiji_local_new.py:224 | The working path is exactly "C:/Temp/output/" followed by the input's basename: it begins with the directory, has the input's basename, and is no longer than the two together. |
| ThresholdLocal.OutputPaths | Fiji/scripts/threshold_fiji_local_new.py:224-236 | Both paths begin with the output directory. The threshold path ends with "_TH." + format and differs from the copy path only by "_TH". |
| ThresholdLocal.OutputPathsLocation | Fiji/scripts/threshold_fiji_local_new.py:224-236 | The threshold path is "C:/Temp/output/" + stem of the input's file name + "_TH." + format, and the copy path is the same without "_TH". |
| ThresholdLocal.OriginalCopyKeepsName | Fiji/scripts/threshold_fiji_local_new.py:229-236 | For an s.ome.tiff input saved as ome.tiff (given or by default), the copy is the output directory + the input's own file name, and the threshold image is s_TH.ome.tiff there. |
| ParticleAnalysis.OutputPaths | Fiji/scripts/test_pa_local.py:114-127 | Both paths begin with outputdir. The particle path ends with "_PA." + format and differs from the copy only by "_PA". |
| ParticleAnalysis.OutputPathsLocation | Fiji/scripts/test_pa_local.py:114-127 | Both paths are join(outputdir, '') followed by the stem of the input's file name, then "_PA." + format or "." + format. |
| ParticleAnalysis.ScriptOutputPaths | Fiji/scripts/test_pa_local.py:114-127 | With the script's outputdir, "_PA" and "ome.tiff", an s.ome.tiff input gives outputdir + s + "_PA.ome.tiff", and the copy keeps the input's file name. |

## Left out

- Image input and output are left out: `ImportTools.openfile`, `ExportTools.savedata`, `results.saveAs` and `os.path.exists`. They are filesystem and host-library calls.
- Host image operations are left out, being foreign calls whose code is not part of this model: filters, rolling ball, threshold, watershed, particle analysis, LUTs, `IJ.run`, `MiscTools.splitchannel` and `setproperties`, `Duplicator`, `getZstackfrom5d`.
- Stack assembly in `run` of calc_focusplane.py (lines 110-161) is left out, except the channel name at line 118. It only wraps host objects (`jarray`, `ImageStack.create`, `ImagePlus`).
- The multi-channel stack title at line 144 (`splitext(basename)[0] + '_SHARPEST'`, without the ".ome" strip) is left out with the stack assembly.
- FocusPlane.Mean: `ip.getStatistics().mean` is the exact real mean of the pixels. Java double rounding, NaN and infinities are not modelled, and neither are scores as doubles.
- FocusPlane.Pixel: slices are grids of integers. `getPixel` on a 32-bit float processor returns raw float bits, which is not modelled.
- FocusPlane.Pixel: RGB slices are not modelled. On a `ColorProcessor`, `getPixel` returns the packed RGB value while `getStatistics().mean` is a brightness mean, so pixel and mean are on different scales.
- Logging, console clearing and timing (`time.clock`) are left out: they are side effects with no result.
- Windows path rules (backslashes, drive letters) are left out. '/' is the only separator, as in posixpath.
- PyPath.Join: only the two-argument form the scripts use is modelled.
