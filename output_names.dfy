/** The output-name derivation that all three scripts repeat: take a path,
    drop its last extension with splitext, strip one trailing ".ome" so that
    an "x.ome.tiff" input yields the stem "x", and reassemble the stem with
    a suffix and the save format. */
module OutputNames {
  import opened PyPath

  const OmeTag := ".ome"

  predicate EndsWith(s: string, t: string) {
    |t| <= |s| && s[|s| - |t|..] == t
  }

  /** `if basename[-4:] == '.ome': basename = basename[:-4]`. For a string
      shorter than four characters Python's `basename[-4:]` is the whole
      string, which cannot equal ".ome". Removes one trailing ".ome" and
      nothing else. */
  function StripOme(b: string): (r: string)
    ensures r <= b
    ensures |r| == |b| <==> !EndsWith(b, OmeTag)
    ensures |r| < |b| ==> r + OmeTag == b
  {
    if |b| >= 4 && b[|b| - 4..] == OmeTag then b[..|b| - 4] else b
  }

  /** `os.path.splitext(path)[0]` with one trailing ".ome" removed. */
  function Stem(path: string): (r: string)
    ensures r <= path
  {
    StripOme(Splitext(path).0)
  }

  /** The stem of a file name contains no '/'. */
  lemma StemOfName(n: string)
    requires '/' !in n
    ensures '/' !in Stem(n)
  {
    var r := Stem(n);
    forall k | 0 <= k < |r|
      ensures r[k] != '/'
    {
      assert r[k] == n[k];
    }
  }

  /** Stripping ".ome" never reaches into a directory part. */
  lemma StripOmeUnderDir(d: string, n: string)
    requires DirForm(d) && '/' !in n
    ensures StripOme(d + n) == d + StripOme(n)
  {
    var p := d + n;
    if |n| < 4 && |p| >= 4 {
      assert p[|p| - 4..][3 - |n|] == '/';
    }
    if |n| >= 4 {
      assert p[|p| - 4..] == n[|n| - 4..];
      assert p[..|p| - 4] == d + n[..|n| - 4];
    }
  }

  /** The stem of a path in a directory is the directory followed by the
      stem of the file name: the derivation works on the last component only. */
  lemma StemUnderDir(d: string, n: string)
    requires DirForm(d) && '/' !in n
    ensures Stem(d + n) == d + Stem(n)
  {
    SplitextUnderDir(d, n);
    var root := Splitext(n).0;
    assert '/' !in root by {
      forall k | 0 <= k < |root|
        ensures root[k] != '/'
      {
        assert root[k] == n[k];
      }
    }
    StripOmeUnderDir(d, root);
  }

  /** An "s.ome.tiff" name yields the stem "s", whatever `s` holds. */
  lemma StemOfOmeTiff(s: string)
    ensures Stem(s + ".ome.tiff") == s
  {
    var p := s + ".ome.tiff";
    var dot := |s| + 4;
    RFindUnique(p, '.', dot);
    assert RFind(p, '/') < |s| by {
      RFindAppend(s, ".ome.tiff", '/');
    }
    assert p[|s| + 1] == 'o';
    assert HasNonDot(p, RFind(p, '/') + 1, dot);
    assert Splitext(p).0 == s + OmeTag;
  }

  lemma ConcatOmeTiff(d: string, s: string)
    ensures d + s + "." + "ome.tiff" == d + (s + ".ome.tiff")
  {
    assert "." + "ome.tiff" == ".ome.tiff";
  }

  /** The two paths a script saves: the processed result and the copy of the original. */
  datatype SavePaths = SavePaths(processed: string, original: string)

  /** The processed path is the original-copy path with `suffix` inserted
      just before ".format". */
  predicate InfixOnly(paths: SavePaths, suffix: string, format: string) {
    var o := paths.original;
    |o| >= |format| + 1 && paths.processed == o[..|o| - |format| - 1] + suffix + o[|o| - |format| - 1..]
  }

  /** `basename + suffix + '.' + saveformat` and `basename + '.' + saveformat`. */
  function Reassemble(stem: string, suffix: string, format: string): (r: SavePaths)
    ensures stem <= r.processed && stem <= r.original
    ensures EndsWith(r.processed, suffix + "." + format)
    ensures EndsWith(r.original, "." + format)
    ensures InfixOnly(r, suffix, format)
    ensures |r.original| == |stem| + 1 + |format|
  {
    var r := SavePaths(stem + suffix + "." + format, stem + "." + format);
    assert r.original[..|r.original| - |format| - 1] == stem;
    assert r.original[|r.original| - |format| - 1..] == "." + format;
    r
  }
}
