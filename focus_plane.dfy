/** Focus-plane selection of calc_focusplane.py: every z-slice of a stack
    gets a normalized-variance score, and the first slice with the largest
    positive score is taken as the sharpest. Also the output path under
    which the script saves the result. */
module FocusPlane {
  import opened Numerals
  import opened PyPath
  import opened OutputNames

  /** One z-slice as an ImageJ processor holds it: rows (y) of integer
      pixels (x). The width is that of the first row; an ImageJ slice is
      rectangular, and nothing below depends on it, since Pixel reads 0
      wherever a row is short. */
  type Slice = seq<seq<int>>

  function Width(s: Slice): nat {
    if s == [] then 0 else |s[0]|
  }

  function Height(s: Slice): nat {
    |s|
  }

  /** `ip.getPixel(x, y)`; a read outside the slice gives 0, as ImageJ's
      processors do. */
  function Pixel(s: Slice, x: nat, y: nat): int {
    if y < |s| && x < |s[y]| then s[y][x] else 0
  }

  /** Every pixel of the slice has one value. */
  predicate Uniform(s: Slice) {
    forall x: nat, y: nat :: x < Width(s) && y < Height(s) ==> Pixel(s, x, y) == Pixel(s, 0, 0)
  }

  // Sums over a width-by-height grid, columns outer and rows inner, in the
  // order of calc_normvar's two loops: each cell is added exactly once.

  function ColumnSum(f: (nat, nat) -> real, x: nat, h: nat): real {
    if h == 0 then 0.0 else ColumnSum(f, x, h - 1) + f(x, h - 1)
  }

  function GridSum(f: (nat, nat) -> real, w: nat, h: nat): real {
    if w == 0 then 0.0 else GridSum(f, w - 1, h) + ColumnSum(f, w - 1, h)
  }

  function Intensity(s: Slice): (nat, nat) -> real {
    (x: nat, y: nat) => Pixel(s, x, y) as real
  }

  function Square(d: real): real {
    d * d
  }

  function SquaredDeviation(s: Slice, mean: real): (nat, nat) -> real {
    (x: nat, y: nat) => Square(Pixel(s, x, y) as real - mean)
  }

  /** `ip.getStatistics().mean`, exactly: the arithmetic mean of the pixels
      (0 for a slice without pixels, whose score fails anyway). */
  function Mean(s: Slice): real {
    if Width(s) * Height(s) == 0 then 0.0
    else GridSum(Intensity(s), Width(s), Height(s)) / (Width(s) * Height(s)) as real
  }

  /** The outcome of a division in Python: a value, or ZeroDivisionError. */
  datatype Quotient = Defined(value: real) | ZeroDivision

  /** The normalized variance: the sum of the squared deviations of the
      first `width` columns and `height` rows from `mean`, divided by
      height * width * mean. The division fails with ZeroDivisionError
      exactly when the region is empty or the mean is 0. */
  function NormalizedVariance(s: Slice, mean: real, width: nat, height: nat): (r: Quotient)
    ensures r.Defined? <==> width * height > 0 && mean != 0.0
  {
    ProductZeroIff(height * width, mean);
    var divisor := (height * width) as real * mean;
    if divisor == 0.0 then ZeroDivision
    else Defined(GridSum(SquaredDeviation(s, mean), width, height) / divisor)
  }

  /** The focus score calc_focus gives a slice: its normalized variance
      around its own mean, over all of its pixels. It fails only for a
      slice without pixels or with mean 0, and a slice with a positive
      mean never scores below 0. */
  function Score(s: Slice): (r: Quotient)
    ensures r.Defined? <==> Width(s) * Height(s) > 0 && Mean(s) != 0.0
    ensures r.Defined? && Mean(s) > 0.0 ==> r.value >= 0.0
  {
    var q := NormalizedVariance(s, Mean(s), Width(s), Height(s));
    if Width(s) * Height(s) > 0 && Mean(s) > 0.0 then
      NormalizedVarianceNonNegative(s, Mean(s), Width(s), Height(s));
      q
    else
      q
  }

  /** calc_normvar: the nested x/y loop accumulates the squared deviations
      in `b`, then divides. */
  method CalcNormVar(ip: Slice, mean: real, width: nat, height: nat) returns (normvar: Quotient)
    ensures normvar == NormalizedVariance(ip, mean, width, height)
  {
    hide Pixel, Square, SquaredDeviation, NormalizedVariance;
    ghost var f := SquaredDeviation(ip, mean);
    var b := 0.0;
    var x := 0;
    while x < width
      invariant 0 <= x <= width
      invariant b == GridSum(f, x, height)
    {
      var y := 0;
      while y < height
        invariant 0 <= y <= height
        invariant b == GridSum(f, x, height) + ColumnSum(f, x, y)
      {
        var p := Pixel(ip, x, y);
        var t := (p as real - mean) * (p as real - mean);
        SquaredDeviationAt(ip, mean, x, y);
        b := b + t;
        y := y + 1;
      }
      x := x + 1;
    }
    var divisor := (height * width) as real * mean;
    if divisor == 0.0 {
      normvar := ZeroDivision;
    } else {
      normvar := Defined(b / divisor);
    }
    NormalizedVarianceOfSum(ip, mean, width, height, b);
  }

  /** The division at the end of calc_normvar, once the sum is known. */
  lemma NormalizedVarianceOfSum(s: Slice, mean: real, width: nat, height: nat, b: real)
    requires b == GridSum(SquaredDeviation(s, mean), width, height)
    ensures NormalizedVariance(s, mean, width, height)
      == if (height * width) as real * mean == 0.0 then ZeroDivision else Defined(b / ((height * width) as real * mean))
  {
  }

  /** The term `(p - mean) * (p - mean)` added for pixel (x, y). */
  lemma SquaredDeviationAt(s: Slice, mean: real, x: nat, y: nat)
    ensures SquaredDeviation(s, mean)(x, y) == (Pixel(s, x, y) as real - mean) * (Pixel(s, x, y) as real - mean)
  {
  }

  // ---------------------------------------------------------------------
  // Properties of the sums and of the score.

  lemma ProductZeroIff(k: nat, m: real)
    ensures k as real * m == 0.0 <==> k == 0 || m == 0.0
  {
    if k > 0 && m > 0.0 {
      assert k as real * m > 0.0;
    } else if k > 0 && m < 0.0 {
      assert k as real * m < 0.0;
    }
  }

  lemma MulPositive(a: real, b: real)
    requires a > 0.0 && b > 0.0
    ensures a * b > 0.0
  {
  }

  lemma MulNegative(a: real, b: real)
    requires a < 0.0 && b < 0.0
    ensures a * b > 0.0
  {
  }

  /** The square of a non-zero deviation is positive. */
  lemma SquarePositive(d: real)
    requires d != 0.0
    ensures Square(d) > 0.0
  {
    calc {
      Square(d);
      d * d;
    > { if d > 0.0 { MulPositive(d, d); } else { MulNegative(d, d); } }
      0.0;
    }
  }

  lemma {:induction false} ColumnSumNonNegative(f: (nat, nat) -> real, x: nat, h: nat)
    requires forall i: nat, j: nat :: f(i, j) >= 0.0
    ensures ColumnSum(f, x, h) >= 0.0
  {
    if h > 0 {
      ColumnSumNonNegative(f, x, h - 1);
    }
  }

  /** A sum of non-negative terms is non-negative. */
  lemma {:induction false} GridSumNonNegative(f: (nat, nat) -> real, w: nat, h: nat)
    requires forall i: nat, j: nat :: f(i, j) >= 0.0
    ensures GridSum(f, w, h) >= 0.0
  {
    if w > 0 {
      GridSumNonNegative(f, w - 1, h);
      ColumnSumNonNegative(f, w - 1, h);
    }
  }

  lemma {:induction false} ColumnSumZeroIff(f: (nat, nat) -> real, x: nat, h: nat)
    requires forall i: nat, j: nat :: f(i, j) >= 0.0
    ensures ColumnSum(f, x, h) == 0.0 <==> forall y: nat :: y < h ==> f(x, y) == 0.0
  {
    if h > 0 {
      ColumnSumZeroIff(f, x, h - 1);
      ColumnSumNonNegative(f, x, h - 1);
    }
  }

  /** A sum of non-negative terms is zero exactly when every term is. */
  lemma {:induction false} GridSumZeroIff(f: (nat, nat) -> real, w: nat, h: nat)
    requires forall i: nat, j: nat :: f(i, j) >= 0.0
    ensures GridSum(f, w, h) == 0.0 <==> forall x: nat, y: nat :: x < w && y < h ==> f(x, y) == 0.0
  {
    if w > 0 {
      GridSumZeroIff(f, w - 1, h);
      GridSumNonNegative(f, w - 1, h);
      ColumnSumZeroIff(f, w - 1, h);
      ColumnSumNonNegative(f, w - 1, h);
    }
  }

  lemma {:induction false} ColumnSumConstant(f: (nat, nat) -> real, x: nat, h: nat, c: real)
    requires forall y: nat :: y < h ==> f(x, y) == c
    ensures ColumnSum(f, x, h) == h as real * c
  {
    if h > 0 {
      calc {
        ColumnSum(f, x, h);
        ColumnSum(f, x, h - 1) + f(x, h - 1);
        { ColumnSumConstant(f, x, h - 1, c); }
        (h - 1) as real * c + c;
        ((h - 1) as real + 1.0) * c;
        h as real * c;
      }
    }
  }

  /** Summing one value over every cell gives cells * value. */
  lemma {:induction false} GridSumConstant(f: (nat, nat) -> real, w: nat, h: nat, c: real)
    requires forall x: nat, y: nat :: x < w && y < h ==> f(x, y) == c
    ensures GridSum(f, w, h) == (w * h) as real * c
  {
    if w > 0 {
      calc {
        GridSum(f, w, h);
        GridSum(f, w - 1, h) + ColumnSum(f, w - 1, h);
        { GridSumConstant(f, w - 1, h, c); ColumnSumConstant(f, w - 1, h, c); }
        ((w - 1) * h) as real * c + h as real * c;
        (((w - 1) * h) as real + h as real) * c;
        { assert ((w - 1) * h) as real + h as real == (w * h) as real; }
        (w * h) as real * c;
      }
    }
  }

  lemma SquaredDeviationNonNegative(s: Slice, mean: real)
    ensures forall i: nat, j: nat :: SquaredDeviation(s, mean)(i, j) >= 0.0
  {
    forall i: nat, j: nat
      ensures SquaredDeviation(s, mean)(i, j) >= 0.0
    {
      var d := Pixel(s, i, j) as real - mean;
      if d != 0.0 {
        SquarePositive(d);
      }
    }
  }

  /** A squared deviation vanishes exactly where the pixel equals the mean. */
  lemma SquaredDeviationZeroIff(s: Slice, mean: real, x: nat, y: nat)
    ensures SquaredDeviation(s, mean)(x, y) == 0.0 <==> Pixel(s, x, y) as real == mean
  {
    var d := Pixel(s, x, y) as real - mean;
    if d != 0.0 {
      SquarePositive(d);
    }
  }

  /** The accumulator of calc_normvar never goes negative, so the score is
      non-negative whenever the mean is positive and the slice not empty. */
  lemma NormalizedVarianceNonNegative(s: Slice, mean: real, width: nat, height: nat)
    requires mean > 0.0 && width * height > 0
    ensures NormalizedVariance(s, mean, width, height).Defined?
    ensures NormalizedVariance(s, mean, width, height).value >= 0.0
  {
    SquaredDeviationNonNegative(s, mean);
    GridSumNonNegative(SquaredDeviation(s, mean), width, height);
    var divisor := (height * width) as real * mean;
    assert divisor > 0.0;
  }

  /** A slice all of whose pixels hold `c` has mean `c`. */
  lemma UniformMean(s: Slice, c: int)
    requires Width(s) * Height(s) > 0
    requires forall x: nat, y: nat :: x < Width(s) && y < Height(s) ==> Pixel(s, x, y) == c
    ensures Mean(s) == c as real
  {
    GridSumConstant(Intensity(s), Width(s), Height(s), c as real);
  }

  /** The deviation sum around the slice's own mean vanishes exactly for a
      uniform slice. */
  lemma DeviationZeroIffUniform(s: Slice)
    requires Width(s) * Height(s) > 0
    ensures GridSum(SquaredDeviation(s, Mean(s)), Width(s), Height(s)) == 0.0 <==> Uniform(s)
  {
    var m := Mean(s);
    var f := SquaredDeviation(s, m);
    SquaredDeviationNonNegative(s, m);
    GridSumZeroIff(f, Width(s), Height(s));
    forall x: nat, y: nat
      ensures f(x, y) == 0.0 <==> Pixel(s, x, y) as real == m
    {
      SquaredDeviationZeroIff(s, m, x, y);
    }
    if Uniform(s) {
      UniformMean(s, Pixel(s, 0, 0));
    }
    if GridSum(f, Width(s), Height(s)) == 0.0 {
      assert Pixel(s, 0, 0) as real == Mean(s);
    }
  }

  /** A scored slice beats the initial maximum 0 exactly when its mean is
      positive and it is not uniform: a uniform slice scores 0, and a
      negative mean makes the score non-positive. */
  lemma ScorePositiveIff(s: Slice)
    requires Score(s).Defined?
    ensures Score(s).value > 0.0 <==> Mean(s) > 0.0 && !Uniform(s)
  {
    var sum := GridSum(SquaredDeviation(s, Mean(s)), Width(s), Height(s));
    SquaredDeviationNonNegative(s, Mean(s));
    GridSumNonNegative(SquaredDeviation(s, Mean(s)), Width(s), Height(s));
    DeviationZeroIffUniform(s);
    var divisor := (Width(s) * Height(s)) as real * Mean(s);
    assert Height(s) * Width(s) == Width(s) * Height(s);
    assert Score(s).value == sum / divisor;
    assert divisor > 0.0 <==> Mean(s) > 0.0;
    if sum > 0.0 && divisor > 0.0 {
      assert sum / divisor > 0.0;
    } else if sum > 0.0 {
      assert divisor < 0.0;
      assert sum / divisor < 0.0;
    }
  }

  // ---------------------------------------------------------------------
  // calc_focus.

  /** `ImagePlus(title, ip)`: a titled single plane. */
  datatype Plane = Plane(title: string, pixels: Slice)

  datatype Option<T> = None | Some(value: T)

  /** What calc_focus leaves behind. `NothingSelected`: no slice scored above
      0, so `new_imp` was never bound and the return statement fails; the
      loop has left fv_max and fv_max_index at 0. `SliceDivisionByZero`:
      calc_normvar raised ZeroDivisionError on the given 1-based slice. */
  datatype FocusOutcome =
    | Selected(sharpest: Plane, fv: seq<real>, fvMax: real, fvMaxIndex: nat)
    | NothingSelected(fv: seq<real>, fvMax: real, fvMaxIndex: nat)
    | SliceDivisionByZero(slice: nat)

  /** `k` is the first position holding the maximum of `fv`. */
  predicate IsFirstMax(fv: seq<real>, k: nat) {
    && k < |fv|
    && (forall i :: 0 <= i < |fv| ==> fv[i] <= fv[k])
    && (forall i :: 0 <= i < k ==> fv[i] < fv[k])
  }

  /** The state calc_focus keeps over the scores `fv` seen so far: either no
      score exceeded the initial 0 and fv_max, fv_max_index are still 0, or
      fv_max is positive and fv_max_index is the 1-based position of the
      first maximum. */
  predicate RunningMax(fv: seq<real>, fvMax: real, fvMaxIndex: nat) {
    || (fvMaxIndex == 0 && fvMax == 0.0 && forall i :: 0 <= i < |fv| ==> fv[i] <= 0.0)
    || (1 <= fvMaxIndex <= |fv| && fvMax > 0.0 && IsFirstMax(fv, fvMaxIndex - 1) && fvMax == fv[fvMaxIndex - 1])
  }

  /** One iteration of calc_focus, `if normvar_curr > fv_max`, keeps the
      running maximum: a strictly larger score moves it to the new slice,
      any other score leaves it, so ties keep the earliest slice. */
  lemma RunningMaxStep(fv: seq<real>, fvMax: real, fvMaxIndex: nat, v: real)
    requires RunningMax(fv, fvMax, fvMaxIndex)
    ensures v > fvMax ==> RunningMax(fv + [v], v, |fv| + 1)
    ensures v <= fvMax ==> RunningMax(fv + [v], fvMax, fvMaxIndex)
  {
    var fv' := fv + [v];
    if v > fvMax {
      assert fv'[|fv|] == v;
      forall i | 0 <= i < |fv|
        ensures fv'[i] < v
      {
        assert fv'[i] == fv[i];
      }
      assert IsFirstMax(fv', |fv|);
    } else if fvMaxIndex != 0 {
      assert fv'[fvMaxIndex - 1] == fvMax;
      assert IsFirstMax(fv', fvMaxIndex - 1);
    }
  }

  /** calc_focus calls calc_normvar with the slice's own mean and size, so
      what it gets back is the slice's score. */
  lemma CalcNormVarScores(ip: Slice, q: Quotient)
    requires q == NormalizedVariance(ip, Mean(ip), Width(ip), Height(ip))
    ensures Score(ip) == q
  {
  }

  /** The title of the selected plane: `name + '_Z=' + str(index)`. */
  function SliceTitle(name: string, index: nat): (t: string)
    ensures |name| + 3 < |t| && t[..|name| + 3] == name + "_Z="
    ensures IsNumeral(t[|name| + 3..], index)
  {
    var t := name + "_Z=" + NatToString(index);
    assert t[|name| + 3..] == NatToString(index);
    NatToStringIsNumeral(index);
    t
  }

  /** calc_focus: score the slices in order (1-based), append each score to
      `fv`, and keep the running maximum, replaced only by a strictly larger
      score, starting from 0. */
  method CalcFocus(stack: seq<Slice>, name: string) returns (r: FocusOutcome)
    ensures r.SliceDivisionByZero? <==> exists i :: 0 <= i < |stack| && Score(stack[i]).ZeroDivision?
    ensures r.SliceDivisionByZero? ==>
      && 1 <= r.slice <= |stack|
      && Score(stack[r.slice - 1]).ZeroDivision?
      && forall i :: 0 <= i < r.slice - 1 ==> Score(stack[i]).Defined?
    ensures !r.SliceDivisionByZero? ==>
      |r.fv| == |stack| && forall i :: 0 <= i < |stack| ==> Score(stack[i]) == Defined(r.fv[i])
    ensures r.Selected? <==> !r.SliceDivisionByZero? && exists i :: 0 <= i < |r.fv| && r.fv[i] > 0.0
    ensures r.Selected? ==>
      && 1 <= r.fvMaxIndex <= |stack|
      && IsFirstMax(r.fv, r.fvMaxIndex - 1)
      && r.fvMax == r.fv[r.fvMaxIndex - 1]
      && r.sharpest == Plane(SliceTitle(name, r.fvMaxIndex), stack[r.fvMaxIndex - 1])
    ensures r.NothingSelected? ==> r.fvMax == 0.0 && r.fvMaxIndex == 0
  {
    hide Score, NormalizedVariance, Mean, SliceTitle, Width, Height, Pixel, GridSum, ColumnSum, SquaredDeviation, Square, Intensity;
    var fv: seq<real> := [];
    var fvMax := 0.0;
    var fvMaxIndex: nat := 0;
    var newImp: Option<Plane> := None;
    var index := 1;
    while index <= |stack|
      invariant 1 <= index <= |stack| + 1
      invariant |fv| == index - 1
      invariant forall i :: 0 <= i < index - 1 ==> Score(stack[i]) == Defined(fv[i])
      invariant RunningMax(fv, fvMax, fvMaxIndex)
      invariant newImp.None? <==> fvMaxIndex == 0
      invariant fvMaxIndex != 0 ==> newImp.value == Plane(SliceTitle(name, fvMaxIndex), stack[fvMaxIndex - 1])
    {
      var ip := stack[index - 1];
      var meanCurrent := Mean(ip);
      var normvarCurr := CalcNormVar(ip, meanCurrent, Width(ip), Height(ip));
      CalcNormVarScores(ip, normvarCurr);
      if normvarCurr.ZeroDivision? {
        r := SliceDivisionByZero(index);
        return;
      }
      RunningMaxStep(fv, fvMax, fvMaxIndex, normvarCurr.value);
      ghost var fv0 := fv;
      fv := fv + [normvarCurr.value];
      assert forall i :: 0 <= i < index - 1 ==> fv[i] == fv0[i];
      if normvarCurr.value > fvMax {
        fvMax := normvarCurr.value;
        fvMaxIndex := index;
        newImp := Some(Plane(SliceTitle(name, index), ip));
      }
      index := index + 1;
    }
    if newImp.None? {
      r := NothingSelected(fv, fvMax, fvMaxIndex);
    } else {
      r := Selected(newImp.value, fv, fvMax, fvMaxIndex);
    }
  }

  /** The precise failure condition of calc_focus on a stack whose slices
      all have a score: nothing is selected exactly when every slice has a
      negative mean or is uniform. */
  lemma NothingSelectedIff(stack: seq<Slice>)
    requires forall i :: 0 <= i < |stack| ==> Score(stack[i]).Defined?
    ensures (forall i :: 0 <= i < |stack| ==> Score(stack[i]).value <= 0.0)
        <==> (forall i :: 0 <= i < |stack| ==> Mean(stack[i]) < 0.0 || Uniform(stack[i]))
  {
    forall i | 0 <= i < |stack|
      ensures Score(stack[i]).value <= 0.0 <==> Mean(stack[i]) < 0.0 || Uniform(stack[i])
    {
      ScorePositiveIff(stack[i]);
    }
  }

  /** `os.path.basename(imagefile) + '_CH=' + str(ch)`: the name under
      which run() hands channel `ch` to calc_focus. */
  function ChannelName(imageFile: string, ch: nat): (n: string)
    ensures |Basename(imageFile)| + 4 < |n| && n[..|Basename(imageFile)| + 4] == Basename(imageFile) + "_CH="
    ensures IsNumeral(n[|Basename(imageFile)| + 4..], ch)
  {
    var n := Basename(imageFile) + "_CH=" + NatToString(ch);
    assert n[|Basename(imageFile)| + 4..] == NatToString(ch);
    NatToStringIsNumeral(ch);
    n
  }

  /** Different channels of one file are processed under different names. */
  lemma ChannelNamesDistinct(imageFile: string, ch1: nat, ch2: nat)
    requires ch1 != ch2
    ensures ChannelName(imageFile, ch1) != ChannelName(imageFile, ch2)
  {
    var k := |Basename(imageFile)| + 4;
    assert DecimalValue(ChannelName(imageFile, ch1)[k..]) == ch1;
    assert DecimalValue(ChannelName(imageFile, ch2)[k..]) == ch2;
  }

  // ---------------------------------------------------------------------
  // Where the script saves the sharpest planes.

  const Suffix := "_SHARPEST"
  const SaveFormat := "ome.tiff"

  /** `os.path.join(os.path.dirname(IMAGEPATH), basename + SUFFIX + '.' + SAVEFORMAT)`,
      with `basename` the stem of the input's file name. The path begins with
      the input's directory and ends in "_SHARPEST.ome.tiff". */
  function OutputImagePath(imagePath: string): (r: string)
    ensures Dirname(imagePath) <= r
    ensures EndsWith(r, Suffix + "." + SaveFormat)
  {
    var name := Stem(Basename(imagePath));
    StemOfName(Basename(imagePath));
    JoinedNameEndsWith(Dirname(imagePath), name, Suffix + "." + SaveFormat);
    ConcatAssociates(name, Suffix, ".", SaveFormat);
    Join(Dirname(imagePath), name + Suffix + "." + SaveFormat)
  }

  lemma ConcatAssociates(a: string, b: string, c: string, e: string)
    ensures a + b + c + e == a + (b + c + e)
  {
  }

  /** A '/'-free name with a relative tail, joined onto a directory, gives
      a path that begins with the directory and ends with the tail. */
  lemma JoinedNameEndsWith(d: string, n: string, t: string)
    requires '/' !in n && (t == [] || t[0] != '/')
    ensures d <= Join(d, n + t) && EndsWith(Join(d, n + t), t)
  {
    JoinRelative(d, n + t);
    var j := Join(d, []) + (n + t);
    assert j[|j| - |t|..] == t;
  }

  /** The sharpest planes are saved directly in the input's directory, not
      below it, under the stem of the input's file name followed by
      "_SHARPEST.ome.tiff". */
  lemma OutputImagePathLocation(imagePath: string)
    ensures Dirname(imagePath) <= OutputImagePath(imagePath)
    ensures Dirname(OutputImagePath(imagePath)) == Dirname(imagePath)
    ensures Basename(OutputImagePath(imagePath)) == Stem(Basename(imagePath)) + Suffix + "." + SaveFormat
  {
    hide Stem, Dirname, Basename;
    var name := Stem(Basename(imagePath)) + Suffix + "." + SaveFormat;
    assert '/' !in name by {
      StemOfName(Basename(imagePath));
      NoSlashInConcat(Stem(Basename(imagePath)), Suffix + "." + SaveFormat);
    }
    var dir := Dirname(imagePath);
    assert Basename(Join(dir, name)) == name by {
      BasenameOfJoin(dir, name);
    }
    assert dir <= Join(dir, name) by {
      assert name == [] || name[0] != '/';
    }
    assert Dirname(Join(dir, name)) == dir by {
      DirnameOfJoin(dir, name);
    }
  }

  /** An input "s.ome.tiff" is saved as "s_SHARPEST.ome.tiff". */
  lemma OutputImagePathOfOmeTiff(imagePath: string, s: string)
    requires Basename(imagePath) == s + ".ome.tiff"
    ensures Basename(OutputImagePath(imagePath)) == s + Suffix + "." + SaveFormat
  {
    OutputImagePathLocation(imagePath);
    StemOfOmeTiff(s);
  }
}
