/**
 * The recolouring rules applied to vector (SVG) logos in create.py: a tree of
 * shapes, each with an optional fill and an optional stroke colour, is turned
 * to greyscale, tested for being "mostly white" and, if so, inverted.
 */
module ShapeTree {
  import opened Wrappers

  /** An RGB colour with channels in reportlab's 0..1 scale, idealised as reals. */
  datatype RGB = RGB(r: real, g: real, b: real)

  const White := RGB(1.0, 1.0, 1.0)
  const Black := RGB(0.0, 0.0, 0.0)

  /** A shape of the drawing; a Group (the Drawing itself is one) has children. */
  datatype Shape =
    | Leaf(fill: Option<RGB>, stroke: Option<RGB>)
    | Group(fill: Option<RGB>, stroke: Option<RGB>, children: seq<Shape>)

  // ---------------------------------------------------------------- colours

  /** The grey with every channel equal to the mean of the channels of c. */
  function Grey(c: RGB): RGB {
    var m := (c.r + c.g + c.b) / 3.0;
    RGB(m, m, m)
  }

  /** The colour with every channel x replaced by 1 - x. */
  function Inverse(c: RGB): RGB {
    RGB(1.0 - c.r, 1.0 - c.g, 1.0 - c.b)
  }

  /** Perceptual luminance with the weights 0.299, 0.587, 0.114. */
  function Luminance(c: RGB): real {
    0.299 * c.r + 0.587 * c.g + 0.114 * c.b
  }

  predicate IsGrey(c: RGB) {
    c.r == c.g == c.b
  }

  /** The weights sum to one, so inverting a colour inverts its luminance. */
  lemma InverseLuminance(c: RGB)
    ensures Luminance(Inverse(c)) == 1.0 - Luminance(c)
    ensures Inverse(Inverse(c)) == c
    ensures IsGrey(c) ==> IsGrey(Inverse(c))
  {
  }

  // ---------------------------------------------------------------- recolouring

  function Paint(o: Option<RGB>, f: RGB -> RGB): Option<RGB> {
    match o
    case None => None
    case Some(c) => Some(f(c))
  }

  /** Replace every present fill and stroke colour c, at every depth, by f(c). */
  function Recolour(s: Shape, f: RGB -> RGB): Shape {
    match s
    case Leaf(fl, st) => Leaf(Paint(fl, f), Paint(st, f))
    case Group(fl, st, cs) =>
      Group(Paint(fl, f), Paint(st, f), seq(|cs|, i requires 0 <= i < |cs| => Recolour(cs[i], f)))
  }

  function Greyscale(s: Shape): Shape {
    Recolour(s, Grey)
  }

  function Invert(s: Shape): Shape {
    Recolour(s, Inverse)
  }

  /** s and t have the same tree and the same colours present and absent. */
  ghost predicate SameShape(s: Shape, t: Shape) {
    s.Leaf? == t.Leaf? && s.fill.Some? == t.fill.Some? && s.stroke.Some? == t.stroke.Some? &&
    (s.Group? ==>
      |s.children| == |t.children| &&
      forall i :: 0 <= i < |s.children| ==> SameShape(s.children[i], t.children[i]))
  }

  // ---------------------------------------------------------------- colour lists

  /** The present fill colours, in the order the source visits them. */
  function Fills(s: Shape): seq<RGB>
    decreases s, 1
  {
    (if s.fill.Some? then [s.fill.value] else []) + (if s.Group? then FillsAll(s.children) else [])
  }

  function FillsAll(cs: seq<Shape>): seq<RGB>
    decreases cs, 0
  {
    if cs == [] then [] else FillsAll(cs[..|cs| - 1]) + Fills(cs[|cs| - 1])
  }

  /** The present stroke colours, in the order the source visits them. */
  function Strokes(s: Shape): seq<RGB>
    decreases s, 1
  {
    (if s.stroke.Some? then [s.stroke.value] else []) + (if s.Group? then StrokesAll(s.children) else [])
  }

  function StrokesAll(cs: seq<Shape>): seq<RGB>
    decreases cs, 0
  {
    if cs == [] then [] else StrokesAll(cs[..|cs| - 1]) + Strokes(cs[|cs| - 1])
  }

  function Mapped(cs: seq<RGB>, f: RGB -> RGB): (r: seq<RGB>)
    ensures |r| == |cs| && forall i :: 0 <= i < |cs| ==> r[i] == f(cs[i])
  {
    seq(|cs|, i requires 0 <= i < |cs| => f(cs[i]))
  }

  /** Every present colour of s, fill or stroke, at every depth, satisfies f(c) == c. */
  ghost predicate FixedBy(s: Shape, f: RGB -> RGB) {
    (forall c :: c in Fills(s) ==> f(c) == c) && (forall c :: c in Strokes(s) ==> f(c) == c)
  }

  ghost predicate AllGrey(s: Shape) {
    (forall c :: c in Fills(s) ==> IsGrey(c)) && (forall c :: c in Strokes(s) ==> IsGrey(c))
  }

  // ---------------------------------------------------------------- mostly white

  function LuminanceSum(cs: seq<RGB>): real {
    if cs == [] then 0.0 else LuminanceSum(cs[..|cs| - 1]) + Luminance(cs[|cs| - 1])
  }

  /**
   * The source's test: false when nothing is filled, otherwise whether the
   * mean fill luminance is strictly above 0.7. Strokes play no part.
   */
  predicate MostlyWhite(s: Shape) {
    var fills := Fills(s);
    |fills| > 0 && LuminanceSum(fills) / (|fills| as real) > 0.7
  }

  /** The SVG colour treatment: greyscale, then invert if the result is mostly white. */
  function Normalize(s: Shape): Shape {
    var g := Greyscale(s);
    if MostlyWhite(g) then Invert(g) else g
  }

  // ---------------------------------------------------------------- lemmas: colour lists

  lemma {:induction false} LuminanceSumAppend(a: seq<RGB>, b: seq<RGB>)
    ensures LuminanceSum(a + b) == LuminanceSum(a) + LuminanceSum(b)
    decreases |b|
  {
    if b != [] {
      var n := |b| - 1;
      assert (a + b)[..|a + b| - 1] == a + b[..n];
      LuminanceSumAppend(a, b[..n]);
    } else {
      assert a + b == a;
    }
  }

  lemma {:induction false} FillsAllHasChild(cs: seq<Shape>, i: nat, c: RGB)
    requires i < |cs| && c in Fills(cs[i])
    ensures c in FillsAll(cs)
    decreases |cs|
  {
    if i < |cs| - 1 {
      assert cs[..|cs| - 1][i] == cs[i];
      FillsAllHasChild(cs[..|cs| - 1], i, c);
    }
  }

  lemma {:induction false} StrokesAllHasChild(cs: seq<Shape>, i: nat, c: RGB)
    requires i < |cs| && c in Strokes(cs[i])
    ensures c in StrokesAll(cs)
    decreases |cs|
  {
    if i < |cs| - 1 {
      assert cs[..|cs| - 1][i] == cs[i];
      StrokesAllHasChild(cs[..|cs| - 1], i, c);
    }
  }

  /** A child's colours are among its parent's. */
  lemma ChildColours(s: Shape, i: nat)
    requires s.Group? && i < |s.children|
    ensures forall c :: c in Fills(s.children[i]) ==> c in Fills(s)
    ensures forall c :: c in Strokes(s.children[i]) ==> c in Strokes(s)
  {
    forall c | c in Fills(s.children[i]) ensures c in Fills(s) {
      FillsAllHasChild(s.children, i, c);
    }
    forall c | c in Strokes(s.children[i]) ensures c in Strokes(s) {
      StrokesAllHasChild(s.children, i, c);
    }
  }

  // ---------------------------------------------------------------- lemmas: recolouring

  /** Recolouring keeps the tree and which colours are present or absent. */
  lemma {:induction false} RecolourKeepsShape(s: Shape, f: RGB -> RGB)
    ensures SameShape(s, Recolour(s, f))
    decreases s
  {
    if s.Group? {
      forall i | 0 <= i < |s.children|
        ensures SameShape(s.children[i], Recolour(s, f).children[i])
      {
        RecolourKeepsShape(s.children[i], f);
      }
    }
  }

  /** Recolouring maps every present colour, in visiting order, through f. */
  lemma {:induction false} RecolourColours(s: Shape, f: RGB -> RGB)
    ensures Fills(Recolour(s, f)) == Mapped(Fills(s), f)
    ensures Strokes(Recolour(s, f)) == Mapped(Strokes(s), f)
    decreases s, 1
  {
    if s.Group? {
      RecolourColoursAll(s.children, f);
      assert Recolour(s, f).children == seq(|s.children|, i requires 0 <= i < |s.children| => Recolour(s.children[i], f));
    }
  }

  lemma {:induction false} RecolourColoursAll(cs: seq<Shape>, f: RGB -> RGB)
    ensures FillsAll(seq(|cs|, i requires 0 <= i < |cs| => Recolour(cs[i], f))) == Mapped(FillsAll(cs), f)
    ensures StrokesAll(seq(|cs|, i requires 0 <= i < |cs| => Recolour(cs[i], f))) == Mapped(StrokesAll(cs), f)
    decreases cs, 0
  {
    var ds := seq(|cs|, i requires 0 <= i < |cs| => Recolour(cs[i], f));
    if cs != [] {
      var n := |cs| - 1;
      var init := cs[..n];
      assert ds[..n] == seq(|init|, i requires 0 <= i < |init| => Recolour(init[i], f));
      assert ds[n] == Recolour(cs[n], f);
      RecolourColoursAll(init, f);
      RecolourColours(cs[n], f);
      assert FillsAll(ds) == FillsAll(ds[..n]) + Fills(ds[n]);
      assert FillsAll(cs) == FillsAll(init) + Fills(cs[n]);
      MappedAppend(FillsAll(init), Fills(cs[n]), f);
      assert StrokesAll(ds) == StrokesAll(ds[..n]) + Strokes(ds[n]);
      assert StrokesAll(cs) == StrokesAll(init) + Strokes(cs[n]);
      MappedAppend(StrokesAll(init), Strokes(cs[n]), f);
    }
  }

  lemma MappedAppend(a: seq<RGB>, b: seq<RGB>, f: RGB -> RGB)
    ensures Mapped(a + b, f) == Mapped(a, f) + Mapped(b, f)
  {
  }

  /** Recolouring with f changes nothing when f fixes every colour present. */
  lemma {:induction false} RecolourFixed(s: Shape, f: RGB -> RGB)
    requires FixedBy(s, f)
    ensures Recolour(s, f) == s
    decreases s
  {
    if s.fill.Some? {
      assert s.fill.value in Fills(s);
    }
    if s.stroke.Some? {
      assert s.stroke.value in Strokes(s);
    }
    if s.Group? {
      var cs := s.children;
      forall i | 0 <= i < |cs| ensures Recolour(cs[i], f) == cs[i] {
        ChildColours(s, i);
        RecolourFixed(cs[i], f);
      }
      assert Recolour(s, f).children == cs;
    }
  }

  /** Greyscale: every present colour becomes the grey of its channel mean. */
  lemma GreyscaleColours(s: Shape)
    ensures SameShape(s, Greyscale(s))
    ensures Fills(Greyscale(s)) == Mapped(Fills(s), Grey)
    ensures Strokes(Greyscale(s)) == Mapped(Strokes(s), Grey)
    ensures AllGrey(Greyscale(s))
  {
    RecolourKeepsShape(s, Grey);
    RecolourColours(s, Grey);
  }

  lemma GreyscaleIdempotent(s: Shape)
    ensures Greyscale(Greyscale(s)) == Greyscale(s)
  {
    GreyscaleColours(s);
    RecolourFixed(Greyscale(s), Grey);
  }

  /** The trees Greyscale leaves unchanged are exactly those already all grey. */
  lemma GreyscaleFixedPoints(s: Shape)
    ensures Greyscale(s) == s <==> AllGrey(s)
  {
    GreyscaleColours(s);
    if AllGrey(s) {
      RecolourFixed(s, Grey);
    }
  }

  /** Invert: every present colour c becomes its inverse, at every depth. */
  lemma InvertColours(s: Shape)
    ensures SameShape(s, Invert(s))
    ensures Fills(Invert(s)) == Mapped(Fills(s), Inverse)
    ensures Strokes(Invert(s)) == Mapped(Strokes(s), Inverse)
    ensures AllGrey(s) ==> AllGrey(Invert(s))
  {
    RecolourKeepsShape(s, Inverse);
    RecolourColours(s, Inverse);
    if AllGrey(s) {
      forall c | c in Fills(Invert(s)) ensures IsGrey(c) {
        var i :| 0 <= i < |Fills(s)| && c == Inverse(Fills(s)[i]);
        InverseLuminance(Fills(s)[i]);
      }
      forall c | c in Strokes(Invert(s)) ensures IsGrey(c) {
        var i :| 0 <= i < |Strokes(s)| && c == Inverse(Strokes(s)[i]);
        InverseLuminance(Strokes(s)[i]);
      }
    }
  }

  lemma {:induction false} InvertInvolution(s: Shape)
    ensures Invert(Invert(s)) == s
    decreases s
  {
    if s.Group? {
      var cs := s.children;
      forall i | 0 <= i < |cs| ensures Invert(Invert(cs[i])) == cs[i] {
        InvertInvolution(cs[i]);
      }
      assert Invert(Invert(s)).children == cs;
    }
  }

  // ---------------------------------------------------------------- lemmas: mostly white

  lemma {:induction false} LuminanceSumUniform(cs: seq<RGB>, c: RGB)
    requires forall i :: 0 <= i < |cs| ==> cs[i] == c
    ensures LuminanceSum(cs) == (|cs| as real) * Luminance(c)
    decreases |cs|
  {
    if cs != [] {
      LuminanceSumUniform(cs[..|cs| - 1], c);
    }
  }

  lemma MeanOfUniform(n: real, x: real)
    requires n > 0.0
    ensures (n * x) / n == x
  {
  }

  lemma MeanOfComplement(n: real, t: real)
    requires n > 0.0
    ensures (n - t) / n == 1.0 - t / n
  {
    assert n / n == 1.0;
    assert (n - t) / n == n / n - t / n;
  }

  /**
   * With no fill the test is false; when every fill has one colour c the mean
   * is Luminance(c), so all-white fills give true and all-black fills false.
   */
  lemma MostlyWhiteUniform(s: Shape, c: RGB)
    requires forall i :: 0 <= i < |Fills(s)| ==> Fills(s)[i] == c
    ensures Fills(s) == [] ==> !MostlyWhite(s)
    ensures Fills(s) != [] ==> (MostlyWhite(s) <==> Luminance(c) > 0.7)
    ensures Fills(s) != [] && c == White ==> MostlyWhite(s)
    ensures c == Black ==> !MostlyWhite(s)
  {
    var fills := Fills(s);
    if fills != [] {
      UniformMean(fills, c);
    }
    assert Luminance(White) == 1.0 && Luminance(Black) == 0.0;
  }

  lemma UniformMean(fills: seq<RGB>, c: RGB)
    requires fills != [] && forall i :: 0 <= i < |fills| ==> fills[i] == c
    ensures LuminanceSum(fills) / (|fills| as real) == Luminance(c)
  {
    LuminanceSumUniform(fills, c);
    MeanOfUniform(|fills| as real, Luminance(c));
  }

  lemma {:induction false} LuminanceSumInverse(cs: seq<RGB>)
    ensures LuminanceSum(Mapped(cs, Inverse)) == (|cs| as real) - LuminanceSum(cs)
    decreases |cs|
  {
    if cs != [] {
      var n := |cs| - 1;
      assert Mapped(cs, Inverse)[..n] == Mapped(cs[..n], Inverse);
      LuminanceSumInverse(cs[..n]);
      InverseLuminance(cs[n]);
    }
  }

  /** Inverting a tree turns a mean fill luminance m into 1 - m. */
  lemma InvertFlipsMean(s: Shape)
    ensures |Fills(Invert(s))| == |Fills(s)|
    ensures Fills(s) != [] ==>
      LuminanceSum(Fills(Invert(s))) / (|Fills(s)| as real) == 1.0 - LuminanceSum(Fills(s)) / (|Fills(s)| as real)
  {
    InvertColours(s);
    LuminanceSumInverse(Fills(s));
    if Fills(s) != [] {
      MeanOfComplement(|Fills(s)| as real, LuminanceSum(Fills(s)));
    }
  }

  /** Every stroke set to k, at every depth; fills untouched. */
  function WithStroke(s: Shape, k: Option<RGB>): Shape {
    match s
    case Leaf(fl, _) => Leaf(fl, k)
    case Group(fl, _, cs) => Group(fl, k, seq(|cs|, i requires 0 <= i < |cs| => WithStroke(cs[i], k)))
  }

  lemma {:induction false} WithStrokeFills(s: Shape, k: Option<RGB>)
    ensures Fills(WithStroke(s, k)) == Fills(s)
    decreases s, 1
  {
    if s.Group? {
      WithStrokeFillsAll(s.children, k);
    }
  }

  lemma {:induction false} WithStrokeFillsAll(cs: seq<Shape>, k: Option<RGB>)
    ensures FillsAll(seq(|cs|, i requires 0 <= i < |cs| => WithStroke(cs[i], k))) == FillsAll(cs)
    decreases cs, 0
  {
    var ds := seq(|cs|, i requires 0 <= i < |cs| => WithStroke(cs[i], k));
    if cs != [] {
      var n := |cs| - 1;
      var init := cs[..n];
      assert ds[..n] == seq(|init|, i requires 0 <= i < |init| => WithStroke(init[i], k));
      WithStrokeFillsAll(init, k);
      WithStrokeFills(cs[n], k);
    }
  }

  /** Stroke colours never affect the mostly-white test. */
  lemma StrokesIgnored(s: Shape, k: Option<RGB>)
    ensures MostlyWhite(WithStroke(s, k)) == MostlyWhite(s)
  {
    WithStrokeFills(s, k);
  }

  // ---------------------------------------------------------------- lemmas: the SVG treatment

  /**
   * The treated logo keeps the tree and the present colours, is all grey, and
   * is never mostly white: an inverted mean above 0.7 falls below 0.3.
   */
  lemma NormalizeResult(s: Shape)
    ensures SameShape(s, Normalize(s))
    ensures AllGrey(Normalize(s))
    ensures !MostlyWhite(Normalize(s))
  {
    var g := Greyscale(s);
    GreyscaleColours(s);
    if MostlyWhite(g) {
      InvertColours(g);
      InvertFlipsMean(g);
      RecolourKeepsShape(g, Inverse);
      SameShapeTransitive(s, g, Invert(g));
    }
  }

  /** Inversion happens exactly when the greyscaled tree is mostly white. */
  lemma NormalizeInvertsIff(s: Shape)
    ensures Normalize(s) == Greyscale(s) <==> !MostlyWhite(Greyscale(s))
    ensures MostlyWhite(Greyscale(s)) ==> Normalize(s) == Invert(Greyscale(s))
  {
    var g := Greyscale(s);
    if MostlyWhite(g) {
      NormalizeResult(s);
    }
  }

  lemma {:induction false} SameShapeTransitive(a: Shape, b: Shape, c: Shape)
    requires SameShape(a, b) && SameShape(b, c)
    ensures SameShape(a, c)
    decreases a
  {
    if a.Group? {
      forall i | 0 <= i < |a.children| ensures SameShape(a.children[i], c.children[i]) {
        SameShapeTransitive(a.children[i], b.children[i], c.children[i]);
      }
    }
  }

  // ---------------------------------------------------------------- the traversals

  /**
   * Visit s: recolour its fill and stroke when present, then visit each child
   * in order. The source reassigns the fields in place; here the visited tree
   * is rebuilt and returned.
   */
  method RecolourTree(s: Shape, f: RGB -> RGB) returns (t: Shape)
    ensures t == Recolour(s, f)
    decreases s
  {
    var fill, stroke := s.fill, s.stroke;
    if fill.Some? {
      fill := Some(f(fill.value));
    }
    if stroke.Some? {
      stroke := Some(f(stroke.value));
    }
    if s.Leaf? {
      return Leaf(fill, stroke);
    }
    var cs := s.children;
    var visited: seq<Shape> := [];
    for i := 0 to |cs|
      invariant visited == seq(i, j requires 0 <= j < i => Recolour(cs[j], f))
    {
      var child := RecolourTree(cs[i], f);
      visited := visited + [child];
    }
    t := Group(fill, stroke, visited);
  }

  method ConvertToGreyscale(drawing: Shape) returns (t: Shape)
    ensures t == Greyscale(drawing)
  {
    t := RecolourTree(drawing, Grey);
  }

  method InvertSvg(drawing: Shape) returns (t: Shape)
    ensures t == Invert(drawing)
  {
    t := RecolourTree(drawing, Inverse);
  }

  /** Add the luminance of every present fill of s to total, and their number to count. */
  method CalculateLuminance(s: Shape, total: real, count: nat) returns (total': real, count': nat)
    ensures total' == total + LuminanceSum(Fills(s))
    ensures count' == count + |Fills(s)|
    decreases s
  {
    var own := if s.fill.Some? then [s.fill.value] else [];
    total', count' := total, count;
    if s.fill.Some? {
      total' := total' + Luminance(s.fill.value);
      count' := count' + 1;
    }
    if s.Group? {
      var cs := s.children;
      for i := 0 to |cs|
        invariant total' == total + LuminanceSum(own + FillsAll(cs[..i]))
        invariant count' == count + |own + FillsAll(cs[..i])|
      {
        assert cs[..i + 1][..i] == cs[..i];
        assert own + FillsAll(cs[..i + 1]) == (own + FillsAll(cs[..i])) + Fills(cs[i]);
        LuminanceSumAppend(own + FillsAll(cs[..i]), Fills(cs[i]));
        total', count' := CalculateLuminance(cs[i], total', count');
      }
      assert cs[..|cs|] == cs;
    }
  }

  method IsMostlyWhite(drawing: Shape) returns (b: bool)
    ensures b == MostlyWhite(drawing)
  {
    var total, count := CalculateLuminance(drawing, 0.0, 0);
    b := count > 0 && total / (count as real) > 0.7;
  }
}
