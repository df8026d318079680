/** The resize pass over the image cache (`resize_cached_images`,
    display/cache_builder.py lines 336-364): an image larger than the
    800x600 screen in either direction is scaled so that it fills the
    screen, keeping its aspect ratio. Sizes are computed in exact
    arithmetic; the pixels themselves are not modelled. */
module CacheResize {
  import opened Wrappers
  import opened FileStore

  const TargetWidth: nat := 800
  const TargetHeight: nat := 600

  /** What happens to one cached image. */
  datatype Decision =
    | Skip                                // already within the screen
    | Scale(width: nat, height: nat)      // resized to this size and saved
    | Raises                              // the scale divides by a zero side

  /** The width factor 800/w is at least the height factor 600/h. */
  predicate WidthFactorLarger(w: nat, h: nat) {
    TargetWidth * h >= TargetHeight * w
  }

  /** The decision for an image of `w` by `h` pixels: the larger of the two
      scale factors 800/w and 600/h is applied and each side truncated. */
  function ResizeDecision(w: nat, h: nat): Decision {
    if w <= TargetWidth && h <= TargetHeight then Skip
    else if w == 0 || h == 0 then Raises
    else if WidthFactorLarger(w, h) then Scale(TargetWidth, h * TargetWidth / w)
    else Scale(w * TargetHeight / h, TargetHeight)
  }

  /** Truncating division brackets the quotient. */
  lemma DivBounds(a: nat, b: nat)
    requires b > 0
    ensures (a / b) * b <= a < (a / b + 1) * b
  {
    assert a == (a / b) * b + a % b;
  }

  /** Products with the same positive factor compare as the other factors. */
  lemma MulCancel(x: nat, y: nat, w: nat)
    requires w > 0
    ensures x * w <= y * w <==> x <= y
  {
    if x <= y {
      assert y * w == x * w + (y - x) * w;
    } else {
      assert x * w == y * w + (x - y) * w;
    }
  }

  /** A side scaled by `t / s`, with `t * other >= t2 * s`, reaches `t2`. */
  lemma ScaledSide(side: nat, s: nat, t: nat, t2: nat)
    requires s > 0 && side * t >= t2 * s
    ensures side * t / s >= t2
    ensures (side * t / s) * s <= side * t < (side * t / s + 1) * s
  {
    DivBounds(side * t, s);
    MulCancel(side * t / s + 1, t2, s);
  }

  /** A resized image fills the screen: both sides reach the target; the
      side with the larger factor hits its target exactly and the other is
      the old side scaled by the same factor, truncated. */
  lemma ResizeFills(w: nat, h: nat)
    requires ResizeDecision(w, h).Scale?
    ensures var d := ResizeDecision(w, h);
            && w > 0 && h > 0
            && d.width >= TargetWidth && d.height >= TargetHeight
            && (WidthFactorLarger(w, h) ==>
                  d.width == TargetWidth && d.height * w <= h * TargetWidth < (d.height + 1) * w)
            && (!WidthFactorLarger(w, h) ==>
                  d.height == TargetHeight && d.width * h <= w * TargetHeight < (d.width + 1) * h)
  {
    if WidthFactorLarger(w, h) {
      ScaledSide(h, w, TargetWidth, TargetHeight);
    } else {
      ScaledSide(w, h, TargetHeight, TargetWidth);
    }
  }

  /** An image is made no larger in either direction exactly when it is at
      least 800 by 600; an image larger in one direction only is enlarged
      in the other (1000x300 becomes 2000x600). */
  lemma ResizeShrinksOnlyLargeImages(w: nat, h: nat)
    requires ResizeDecision(w, h).Scale?
    ensures var d := ResizeDecision(w, h);
            (d.width <= w && d.height <= h) <==> (w >= TargetWidth && h >= TargetHeight)
  {
    ResizeFills(w, h);
    var d := ResizeDecision(w, h);
    if WidthFactorLarger(w, h) {
      MulCancel(TargetWidth, w, h);
      MulCancel(d.height, h, w);
    } else {
      MulCancel(TargetHeight, h, w);
      MulCancel(d.width, w, h);
    }
  }

  /** A cached file as the walk meets it: its name and, when it opens as an
      image, its size. */
  datatype CachedFile = CachedFile(name: string, size: Option<(nat, nat)>)

  /** The outcome of the pass for one image file. */
  datatype Step = Step(name: string, decision: Decision)

  /** The files the pass examines: those with an image extension. A file
      that does not open as an image raises, as a zero side does. */
  function PassOver(files: seq<CachedFile>): (steps: seq<Step>)
    ensures |steps| <= |files|
  {
    if files == [] then []
    else
      var rest := PassOver(files[1..]);
      var f := files[0];
      if !IsImageName(f.name) then rest
      else
        var decision := match f.size
          case None => Raises
          case Some(wh) => ResizeDecision(wh.0, wh.1);
        [Step(f.name, decision)] + rest
  }

  /** The pass: one decision per image file, in walk order; the others are
      skipped silently. */
  method ResizeCachedImages(files: seq<CachedFile>) returns (steps: seq<Step>)
    ensures steps == PassOver(files)
  {
    steps := [];
    var i := |files|;
    while i > 0
      invariant 0 <= i <= |files|
      invariant steps == PassOver(files[i..])
    {
      i := i - 1;
      var f := files[i];
      assert files[i..][1..] == files[i + 1..];
      if IsImageName(f.name) {
        var decision := Raises;
        if f.size.Some? {
          decision := ResizeDecision(f.size.value.0, f.size.value.1);
        }
        steps := [Step(f.name, decision)] + steps;
      }
    }
    assert files[0..] == files;
  }

  /** The first step of the pass belongs to the first file when that is an
      image file; the rest of the steps are those of the remaining files. */
  lemma PassOverUnfold(files: seq<CachedFile>)
    requires files != []
    ensures IsImageName(files[0].name) ==>
              |PassOver(files)| == |PassOver(files[1..])| + 1
              && PassOver(files)[0].name == files[0].name
              && PassOver(files)[1..] == PassOver(files[1..])
    ensures !IsImageName(files[0].name) ==> PassOver(files) == PassOver(files[1..])
  {
  }

  /** Every image file gets a step. */
  lemma {:induction false} ImageFilesHaveSteps(files: seq<CachedFile>, j: nat) returns (k: nat)
    requires j < |files| && IsImageName(files[j].name)
    ensures k < |PassOver(files)| && PassOver(files)[k].name == files[j].name
  {
    PassOverUnfold(files);
    if j == 0 {
      k := 0;
    } else {
      var k' := ImageFilesHaveSteps(files[1..], j - 1);
      assert files[1..][j - 1] == files[j];
      k := if IsImageName(files[0].name) then k' + 1 else k';
      assert PassOver(files)[k] == PassOver(files[1..])[k'];
    }
  }

  /** Every step belongs to an image file. */
  lemma {:induction false} StepsAreOfImageFiles(files: seq<CachedFile>, k: nat)
    requires k < |PassOver(files)|
    ensures exists j :: 0 <= j < |files| && files[j].name == PassOver(files)[k].name && IsImageName(files[j].name)
  {
    PassOverUnfold(files);
    var p := PassOver(files);
    var rest := PassOver(files[1..]);
    if IsImageName(files[0].name) && k == 0 {
      assert files[0].name == p[0].name;
    } else {
      var k' := if IsImageName(files[0].name) then k - 1 else k;
      assert p[k] == rest[k'];
      StepsAreOfImageFiles(files[1..], k');
      var j :| 0 <= j < |files[1..]| && files[1..][j].name == rest[k'].name && IsImageName(files[1..][j].name);
      assert files[j + 1] == files[1..][j];
    }
  }

  /** A name has a step exactly when an image file has that name. */
  lemma {:induction false} PassOverNames(files: seq<CachedFile>, name: string)
    ensures (exists k :: 0 <= k < |PassOver(files)| && PassOver(files)[k].name == name)
            <==> (exists j :: 0 <= j < |files| && files[j].name == name && IsImageName(name))
  {
    if exists j :: 0 <= j < |files| && files[j].name == name && IsImageName(name) {
      var j :| 0 <= j < |files| && files[j].name == name && IsImageName(name);
      var k := ImageFilesHaveSteps(files, j);
    }
    if exists k :: 0 <= k < |PassOver(files)| && PassOver(files)[k].name == name {
      var k :| 0 <= k < |PassOver(files)| && PassOver(files)[k].name == name;
      StepsAreOfImageFiles(files, k);
    }
  }
}
