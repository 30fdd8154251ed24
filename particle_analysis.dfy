/** The output names of test_pa_local.py: the input's file name is joined
    onto the output directory, reduced to its stem, and reassembled into the
    path of the particle stack ("_PA") and the path of the copy of the
    original. */
module ParticleAnalysis {
  import opened PyPath
  import opened OutputNames

  const OutputDirectory := "/datadisk1/tuxedo/temp/output/"
  const SuffixPa := "_PA"
  const SaveFormat := "ome.tiff"

  /** The particle-stack path and the original-copy path for `imageFile`
      under `outputDir`. Both begin with the output directory; the particle
      path ends in "_PA." + format, and the two differ only by the "_PA"
      infix. */
  function OutputPaths(outputDir: string, imageFile: string, saveFormat: string): (r: SavePaths)
    ensures outputDir <= r.processed && outputDir <= r.original
    ensures EndsWith(r.processed, SuffixPa + "." + saveFormat)
    ensures InfixOnly(r, SuffixPa, saveFormat)
  {
    var name := Basename(imageFile);
    JoinRelative(outputDir, name);
    StemUnderDir(Join(outputDir, []), name);
    assert outputDir <= Join(outputDir, []);
    Reassemble(Stem(Join(outputDir, name)), SuffixPa, saveFormat)
  }

  /** Both paths are the directory as join leaves it (ending in '/' unless
      empty) followed by the stem of the input's file name. */
  lemma OutputPathsLocation(outputDir: string, imageFile: string, saveFormat: string)
    ensures OutputPaths(outputDir, imageFile, saveFormat).processed
      == Join(outputDir, []) + Stem(Basename(imageFile)) + SuffixPa + "." + saveFormat
    ensures OutputPaths(outputDir, imageFile, saveFormat).original
      == Join(outputDir, []) + Stem(Basename(imageFile)) + "." + saveFormat
  {
    var name := Basename(imageFile);
    JoinRelative(outputDir, name);
    StemUnderDir(Join(outputDir, []), name);
  }

  /** With the script's settings an "s.ome.tiff" input gives
      "<output directory>s_PA.ome.tiff", and the copy keeps the input's
      file name. */
  lemma ScriptOutputPaths(imageFile: string, s: string)
    requires Basename(imageFile) == s + ".ome.tiff"
    ensures OutputPaths(OutputDirectory, imageFile, SaveFormat).processed == OutputDirectory + s + SuffixPa + "." + SaveFormat
    ensures OutputPaths(OutputDirectory, imageFile, SaveFormat).original == OutputDirectory + Basename(imageFile)
  {
    OutputPathsLocation(OutputDirectory, imageFile, SaveFormat);
    StemOfOmeTiff(s);
    assert Join(OutputDirectory, []) == OutputDirectory;
    ConcatOmeTiff(OutputDirectory, s);
  }
}
