/** The output names of threshold_fiji_local_new.py: the input's file name
    is placed in a fixed output directory, reduced to its stem, and
    reassembled into the path of the thresholded image ("_TH") and the path
    of the copy of the original. */
module ThresholdLocal {
  import opened PyPath
  import opened OutputNames

  const SaveFormatDefault := "ome.tiff"
  const SuffixTh := "_TH"
  const OutputDir := "C:/Temp/output/"

  /** `if SAVEFORMAT == '': SAVEFORMAT = SAVEFORMAT_DEFAULT`: an empty save
      format falls back to the default, any other is kept. */
  function EffectiveSaveFormat(saveFormat: string): (r: string)
    ensures r != []
    ensures saveFormat != [] ==> r == saveFormat
    ensures saveFormat == [] ==> r == SaveFormatDefault
  {
    if saveFormat == [] then SaveFormatDefault else saveFormat
  }

  /** Applying the fallback a second time changes nothing. */
  lemma EffectiveSaveFormatIdempotent(saveFormat: string)
    ensures EffectiveSaveFormat(EffectiveSaveFormat(saveFormat)) == EffectiveSaveFormat(saveFormat)
  {
  }

  /** The working path `'C:/Temp/output/' + os.path.basename(IMAGEPATH)`. */
  function WorkingPath(imagePath: string): (r: string)
    ensures OutputDir <= r
    ensures Basename(r) == Basename(imagePath)
    ensures |r| == |OutputDir| + |Basename(imagePath)|
  {
    BasenameUnderDir(OutputDir, Basename(imagePath));
    OutputDir + Basename(imagePath)
  }

  /** The threshold output path and the original-copy path, with the save
      format after the empty-string fallback. Both lie in the output
      directory; the threshold path ends in "_TH." + format, and the two
      differ only by the "_TH" infix. */
  function OutputPaths(imagePath: string, saveFormat: string): (r: SavePaths)
    ensures OutputDir <= r.processed && OutputDir <= r.original
    ensures EndsWith(r.processed, SuffixTh + "." + EffectiveSaveFormat(saveFormat))
    ensures InfixOnly(r, SuffixTh, EffectiveSaveFormat(saveFormat))
  {
    hide Stem, Basename, Reassemble, EffectiveSaveFormat;
    var stem := Stem(WorkingPath(imagePath));
    assert OutputDir <= stem by {
      StemUnderDir(OutputDir, Basename(imagePath));
    }
    Reassemble(stem, SuffixTh, EffectiveSaveFormat(saveFormat))
  }

  /** Both paths lie in the output directory and are built from the stem of
      the input's file name: the directory of the input plays no role. */
  lemma OutputPathsLocation(imagePath: string, saveFormat: string)
    ensures OutputPaths(imagePath, saveFormat).processed
      == OutputDir + Stem(Basename(imagePath)) + SuffixTh + "." + EffectiveSaveFormat(saveFormat)
    ensures OutputPaths(imagePath, saveFormat).original
      == OutputDir + Stem(Basename(imagePath)) + "." + EffectiveSaveFormat(saveFormat)
  {
    StemUnderDir(OutputDir, Basename(imagePath));
  }

  /** For an "s.ome.tiff" input saved as "ome.tiff" (given, or by default),
      the copy of the original gets the input's own file name, which is
      what stripping ".ome" is for. */
  lemma OriginalCopyKeepsName(imagePath: string, saveFormat: string, s: string)
    requires Basename(imagePath) == s + ".ome.tiff"
    requires EffectiveSaveFormat(saveFormat) == SaveFormatDefault
    ensures OutputPaths(imagePath, saveFormat).original == OutputDir + Basename(imagePath)
    ensures OutputPaths(imagePath, saveFormat).processed == OutputDir + s + SuffixTh + "." + SaveFormatDefault
  {
    OutputPathsLocation(imagePath, saveFormat);
    StemOfOmeTiff(s);
    ConcatOmeTiff(OutputDir, s);
  }
}
