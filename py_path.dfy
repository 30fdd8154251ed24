/** The part of Python's posixpath module that the scripts use to derive
    output file names: str.rfind on one character, basename, dirname, the
    two-argument join and splitext. Paths are strings; '/' is the only
    separator and '.' the extension separator. */
module PyPath {

  /** `s.rfind(c)`: the last index of `c` in `s`, or -1 when there is none. */
  function RFind(s: string, c: char): (i: int)
    ensures -1 <= i < |s|
    ensures 0 <= i ==> s[i] == c
    ensures forall k :: i < k < |s| ==> s[k] != c
  {
    if s == [] then -1
    else if s[|s| - 1] == c then |s| - 1
    else RFind(s[..|s| - 1], c)
  }

  /** The three properties of RFind's contract single out one index. */
  lemma RFindUnique(s: string, c: char, i: int)
    requires -1 <= i < |s|
    requires 0 <= i ==> s[i] == c
    requires forall k :: i < k < |s| ==> s[k] != c
    ensures RFind(s, c) == i
  {
  }

  /** Searching a concatenation finds the last `c` of the right part, if any. */
  lemma RFindAppend(a: string, b: string, c: char)
    ensures RFind(a + b, c) == if c in b then |a| + RFind(b, c) else RFind(a, c)
  {
    if c in b {
      RFindUnique(a + b, c, |a| + RFind(b, c));
    } else {
      RFindUnique(a + b, c, RFind(a, c));
    }
  }

  /** `posixpath.basename(p)`: everything after the last '/'. */
  function Basename(p: string): (r: string)
    ensures '/' !in r
  {
    p[RFind(p, '/') + 1..]
  }

  /** The basename is the suffix of the path after a '/' (or the whole
      path); with BasenameUnique, these properties determine it. */
  lemma BasenameSuffix(p: string)
    ensures |Basename(p)| <= |p| && p[|p| - |Basename(p)|..] == Basename(p)
    ensures |Basename(p)| < |p| ==> p[|p| - |Basename(p)| - 1] == '/'
  {
  }

  lemma BasenameUnique(p: string, r: string)
    requires '/' !in r
    requires |r| <= |p| && p[|p| - |r|..] == r
    requires |r| < |p| ==> p[|p| - |r| - 1] == '/'
    ensures Basename(p) == r
  {
    forall k | |p| - |r| - 1 < k < |p|
      ensures p[k] != '/'
    {
      assert p[k] == r[k - (|p| - |r|)];
    }
    RFindUnique(p, '/', |p| - |r| - 1);
  }

  /** A directory part as join and dirname leave it for a following name:
      empty, or ending in '/'. */
  predicate DirForm(d: string) {
    d == [] || d[|d| - 1] == '/'
  }

  lemma BasenameUnderDir(d: string, n: string)
    requires DirForm(d) && '/' !in n
    ensures Basename(d + n) == n
  {
    BasenameUnique(d + n, n);
  }

  predicate AllSlashes(s: string) {
    forall k :: 0 <= k < |s| ==> s[k] == '/'
  }

  /** `s.rstrip('/')`. */
  function RStripSlashes(s: string): (r: string)
    ensures |r| <= |s| && s[..|r|] == r
    ensures AllSlashes(s[|r|..])
    ensures r == [] || r[|r| - 1] != '/'
  {
    if s != [] && s[|s| - 1] == '/' then
      var r := RStripSlashes(s[..|s| - 1]);
      assert s[|r|..] == s[..|s| - 1][|r|..] + ['/'];
      r
    else
      s
  }

  /** `posixpath.dirname(p)`: the text up to the last '/', with trailing
      slashes removed unless it is made of slashes only. */
  function Dirname(p: string): (r: string)
    ensures |r| <= RFind(p, '/') + 1 && p[..|r|] == r
    ensures r == [] <==> '/' !in p
    ensures AllSlashes(p[|r|..RFind(p, '/') + 1])
    ensures r != [] && r[|r| - 1] == '/' ==> AllSlashes(r)
    ensures AllSlashes(p[..RFind(p, '/') + 1]) ==> r == p[..RFind(p, '/') + 1]
  {
    var head := p[..RFind(p, '/') + 1];
    if head != [] && !AllSlashes(head) then
      var r := RStripSlashes(head);
      assert r != [] by {
        var k :| 0 <= k < |head| && head[k] != '/';
      }
      r
    else
      head
  }

  /** `posixpath.join(a, b)` for two components: an absolute `b` replaces
      `a`; otherwise a '/' is inserted unless `a` is empty or ends in one. */
  function Join(a: string, b: string): (r: string)
    ensures |b| <= |r| && r[|r| - |b|..] == b
    ensures (b == [] || b[0] != '/') ==> a <= r
    ensures b == [] ==> DirForm(r)
    ensures b != [] && b[0] == '/' ==> r == b
    ensures (b == [] || b[0] != '/') ==>
      && |r| <= |a| + 1 + |b|
      && (|r| == |a| + |b| <==> DirForm(a))
      && (|r| > |a| + |b| ==> r[|a|] == '/')
    ensures (b == [] || b[0] != '/') && !DirForm(a) ==> |r| == |a| + 1 + |b|
  {
    if b != [] && b[0] == '/' then b
    else if a == [] || a[|a| - 1] == '/' then a + b
    else a + "/" + b
  }

  /** Joining a relative name is joining the empty name and appending. */
  lemma JoinRelative(a: string, b: string)
    requires b == [] || b[0] != '/'
    ensures Join(a, b) == Join(a, []) + b
  {
  }

  /** A directory as dirname returns it is given back by dirname once a
      file name is joined onto it. */
  lemma DirnameOfJoin(d: string, n: string)
    requires '/' !in n
    requires d != [] && d[|d| - 1] == '/' ==> AllSlashes(d)
    ensures Dirname(Join(d, n)) == d
  {
    if d == [] {
      assert Join(d, n) == n;
    } else if d[|d| - 1] == '/' {
      DirnameOfDirJoin(d, n);
    } else {
      DirnameOfSepJoin(d, n);
    }
  }

  lemma DirnameOfDirJoin(d: string, n: string)
    requires '/' !in n && d != [] && AllSlashes(d)
    ensures Dirname(d + n) == d
  {
    SepIndexUnderDir(d, n);
    assert (d + n)[..|d|] == d;
  }

  lemma DirnameOfSepJoin(d: string, n: string)
    requires '/' !in n && d != [] && d[|d| - 1] != '/'
    ensures Dirname(d + "/" + n) == d
  {
    var h := d + "/";
    SepIndexUnderDir(h, n);
    assert (h + n)[..|h|] == h;
    assert !AllSlashes(h) by {
      assert h[|d| - 1] != '/';
    }
    assert RStripSlashes(h) == RStripSlashes(d);
  }

  lemma NoSlashInConcat(a: string, b: string)
    requires '/' !in a && '/' !in b
    ensures '/' !in a + b
  {
  }

  /** The name joined onto a directory is the basename of the result. */
  lemma BasenameOfJoin(a: string, b: string)
    requires '/' !in b
    ensures Basename(Join(a, b)) == b
  {
    JoinRelative(a, b);
    BasenameUnderDir(Join(a, []), b);
  }

  /** Some character of `s[lo..hi]` is not a dot. */
  predicate HasNonDot(s: string, lo: int, hi: int)
    requires 0 <= lo <= hi <= |s|
  {
    exists k :: lo <= k < hi && s[k] != '.'
  }

  /** `posixpath.splitext(p)`: split at the last '.' of the last path
      component, unless everything before that dot in the component is dots
      (a leading-dot name such as ".profile" has no extension). */
  function Splitext(p: string): (r: (string, string))
    ensures r.0 + r.1 == p
    ensures r.1 == [] || (r.1[0] == '.' && '.' !in r.1[1..] && '/' !in r.1)
  {
    var sepIndex := RFind(p, '/');
    var dotIndex := RFind(p, '.');
    if dotIndex > sepIndex && HasNonDot(p, sepIndex + 1, dotIndex) then
      (p[..dotIndex], p[dotIndex..])
    else
      (p, [])
  }

  /** A file name has an extension when some dot follows a non-dot. */
  predicate HasExtension(n: string) {
    exists j, k :: 0 <= j < k < |n| && n[j] != '.' && n[k] == '.'
  }

  /** In a path made of a directory part and a file name, the last '/' is
      the one that ends the directory part. */
  lemma SepIndexUnderDir(d: string, n: string)
    requires DirForm(d) && '/' !in n
    ensures RFind(d + n, '/') == |d| - 1
  {
    RFindAppend(d, n, '/');
    if d != [] {
      RFindUnique(d, '/', |d| - 1);
    }
  }

  lemma HasNonDotShift(d: string, n: string, hi: int)
    requires 0 <= hi <= |n|
    ensures HasNonDot(d + n, |d|, |d| + hi) <==> HasNonDot(n, 0, hi)
  {
    var p := d + n;
    if HasNonDot(n, 0, hi) {
      var k :| 0 <= k < hi && n[k] != '.';
      assert p[|d| + k] == n[k];
    }
    if HasNonDot(p, |d|, |d| + hi) {
      var k :| |d| <= k < |d| + hi && p[k] != '.';
      assert n[k - |d|] == p[k];
    }
  }

  lemma SlicesOfConcat(d: string, n: string, k: nat)
    requires k <= |n|
    ensures (d + n)[..|d| + k] == d + n[..k] && (d + n)[|d| + k..] == n[k..]
  {
  }

  /** Splitext in terms of the positions of the last '/' and the last '.'. */
  lemma SplitextAt(p: string, sep: int, dot: int)
    requires RFind(p, '/') == sep && RFind(p, '.') == dot
    ensures Splitext(p) == if dot > sep && HasNonDot(p, sep + 1, dot) then (p[..dot], p[dot..]) else (p, [])
  {
  }

  lemma SplitextUnderDirNoDot(d: string, n: string)
    requires DirForm(d) && '/' !in n && '.' !in n
    ensures Splitext(d + n) == (d + n, []) && Splitext(n) == (n, [])
  {
    SepIndexUnderDir(d, n);
    RFindAppend(d, n, '.');
    SplitextAt(d + n, |d| - 1, RFind(d, '.'));
  }

  lemma SplitextUnderDirDot(d: string, n: string)
    requires DirForm(d) && '/' !in n && '.' in n
    ensures Splitext(d + n) == (d + Splitext(n).0, Splitext(n).1)
  {
    hide Splitext;
    var dn := RFind(n, '.');
    assert RFind(n, '/') == -1;
    SplitextAt(n, -1, dn);
    SepIndexUnderDir(d, n);
    RFindAppend(d, n, '.');
    SplitextAt(d + n, |d| - 1, |d| + dn);
    HasNonDotShift(d, n, dn);
    SlicesOfConcat(d, n, dn);
  }

  /** The directory part plays no role in splitext: the split happens
      inside the last component. */
  lemma SplitextUnderDir(d: string, n: string)
    requires DirForm(d) && '/' !in n
    ensures Splitext(d + n) == (d + Splitext(n).0, Splitext(n).1)
  {
    if '.' in n {
      SplitextUnderDirDot(d, n);
    } else {
      SplitextUnderDirNoDot(d, n);
    }
  }

  /** splitext finds an extension exactly when the file name has one. */
  lemma SplitextFindsExtension(n: string)
    requires '/' !in n
    ensures Splitext(n).1 != [] <==> HasExtension(n)
  {
    var dotIndex := RFind(n, '.');
    assert RFind(n, '/') == -1;
    if HasExtension(n) {
      var j, k :| 0 <= j < k < |n| && n[j] != '.' && n[k] == '.';
      assert HasNonDot(n, 0, dotIndex);
    }
    if Splitext(n).1 != [] {
      var j :| 0 <= j < dotIndex && n[j] != '.';
      assert n[dotIndex] == '.';
    }
  }

  /** For any path, splitext finds an extension exactly when the basename has one. */
  lemma SplitextExtensionOfBasename(p: string)
    ensures Splitext(p).1 != [] <==> HasExtension(Basename(p))
  {
    var n := Basename(p);
    BasenameSuffix(p);
    var d := p[..|p| - |n|];
    assert p == d + n;
    SplitextUnderDir(d, n);
    SplitextFindsExtension(n);
  }
}
