/** The solid brush and its applicator (SolidBrush.cs): the applicator owns one
    row-wide buffer filled with the brush colour and, for each coverage scanline
    the rasterizer hands it, blends that colour into one destination row in place. */
module Processing {
  import opened PixelFormats
  import opened Memory

  /** The graphics options the applicator reads: the global blend percentage. */
  datatype GraphicsOptions = GraphicsOptions(blendPercentage: real)

  /** A colour in canonical form. */
  datatype Color = Color(vector: Vector4)
  {
    /** Color.ToPixel<TPixel>: the colour in the pixel encoding P. */
    function ToPixel<P>(ops: PixelOperations<P>): P
    {
      ops.fromVector(vector)
    }
  }

  /** The length both spans are clipped to in Apply, given the length of the
      destination row from column x on and the length of the scanline. */
  function Constrain(rowLength: nat, scanlineLength: nat): (n: nat)
    ensures n <= rowLength && n <= scanlineLength
    ensures n == rowLength || n == scanlineLength
  {
    if rowLength > scanlineLength then scanlineLength else rowLength
  }

  /** The blend amounts of the scratch buffer: each coverage value times the
      blend percentage. */
  function Scaled(scanline: seq<real>, blendPercentage: real): seq<real>
  {
    seq(|scanline|, i requires 0 <= i < |scanline| => scanline[i] * blendPercentage)
  }

  /** Row y of a pixel buffer. */
  ghost function Row<P>(buffer: array2<P>, y: int): (row: seq<P>)
    reads buffer
    requires 0 <= y < buffer.Length0
  {
    seq(buffer.Length1, c requires 0 <= c < buffer.Length1 reads buffer => buffer[y, c])
  }

  /** The row Apply leaves behind, given the blend amounts: the pixels from
      column x on, as many as both the row and the amounts have, are each blended
      with color by their amount; every other pixel keeps its value. */
  function ApplyToRow<P>(blender: PixelBlender<P>, row: seq<P>, x: nat, color: P, amount: seq<real>): (r: seq<P>)
    requires x <= |row|
    ensures |r| == |row|
    ensures forall c :: 0 <= c < |row| && !(x <= c < x + Constrain(|row| - x, |amount|)) ==> r[c] == row[c]
    ensures forall c :: x <= c < x + Constrain(|row| - x, |amount|) ==>
      r[c] == blender.blend(row[c], color, amount[c - x])
  {
    var n := Constrain(|row| - x, |amount|);
    var blended := seq(n, i requires 0 <= i < n => blender.blend(row[x + i], color, amount[i]));
    var r := row[..x] + blended + row[x + n..];
    assert forall c :: x <= c < x + n ==> (row[..x] + blended)[c] == blended[c - x];
    assert forall c :: x <= c < x + n ==> blended[c - x] == blender.blend(row[c], color, amount[c - x]);
    r
  }

  /** The solid brush; the region passed to CreateApplicator is not used by it. */
  datatype SolidBrush = SolidBrush(color: Color)
  {
    /** SolidBrush.CreateApplicator: an applicator for the frame whose colour
        buffer holds the brush colour converted once to the frame's pixel type. */
    method CreateApplicator<P(0)>(ops: PixelOperations<P>, blender: PixelBlender<P>,
                                  options: GraphicsOptions, source: array2<P>)
      returns (applicator: SolidBrushApplicator<P>)
      ensures fresh(applicator) && applicator.Valid() && !applicator.isDisposed
      ensures applicator.target == source && applicator.options == options && applicator.blender == blender
      ensures applicator.color == color.ToPixel(ops)
      ensures applicator.colors != null && fresh(applicator.colors) && fresh(applicator.colors.memory)
    {
      applicator := new SolidBrushApplicator(options, blender, source, color.ToPixel(ops));
    }
  }

  /** SolidBrush.SolidBrushApplicator, bound to one frame (target, indexed
      [row, column]); the blender is the one the options select. */
  class SolidBrushApplicator<P(0)> {
    const options: GraphicsOptions
    const blender: PixelBlender<P>
    const target: array2<P>
    /** The brush colour in the pixel type, which fills the colour buffer. */
    ghost const color: P
    /** The colour buffer; null once disposed. */
    var colors: MemoryOwner?<P>
    var isDisposed: bool

    /** Until disposal the colour buffer is live, as wide as the frame and filled
        with the colour; after disposal it is gone. */
    ghost predicate Valid()
      reads this, colors, if colors == null then {} else {colors.memory}
    {
      && (isDisposed ==> colors == null)
      && (!isDisposed ==>
            && colors != null
            && !colors.disposed
            && colors.memory.Length == target.Length1
            && forall i :: 0 <= i < colors.memory.Length ==> colors.memory[i] == color)
    }

    constructor(options: GraphicsOptions, blender: PixelBlender<P>, source: array2<P>, color: P)
      ensures Valid() && !isDisposed
      ensures this.options == options && this.blender == blender && target == source && this.color == color
      ensures colors != null && fresh(colors) && fresh(colors.memory)
    {
      var owner := new MemoryOwner<P>.Allocate(source.Length1);
      Fill(owner.memory, color);
      this.options := options;
      this.blender := blender;
      this.target := source;
      this.color := color;
      this.colors := owner;
      this.isDisposed := false;
    }

    /** Dispose(disposing): the first call hands the colour buffer back when
        disposing is true (on the finalizer path it is only dropped) and marks the
        applicator disposed; any later call changes nothing. */
    method Dispose(disposing: bool)
      requires Valid()
      modifies this, colors
      ensures Valid() && isDisposed && colors == null
      ensures old(isDisposed) ==> unchanged(this)
      ensures !old(isDisposed) ==> old(colors).disposed == disposing
    {
      if isDisposed {
        return;
      }
      if disposing {
        colors.Dispose();
      }
      colors := null;
      isDisposed := true;
    }

    /** Apply(scanline, x, y): blends the colour into row y from column x on,
        over as many pixels as both the row and the scanline have, by coverage
        times blend percentage; nothing else in the frame, and not the colour
        buffer, changes. */
    method Apply(scanline: seq<real>, x: int, y: int)
      requires Valid() && !isDisposed
      requires 0 <= y < target.Length0 && 0 <= x <= target.Length1
      modifies target
      ensures Valid()
      ensures forall r, c :: 0 <= r < target.Length0 && 0 <= c < target.Length1 && r != y ==>
        target[r, c] == old(target[r, c])
      ensures Row(target, y) == ApplyToRow(blender, old(Row(target, y)), x, color, Scaled(scanline, options.blendPercentage))
    {
      // the destination row is row y sliced from column x
      var destinationLength, scanlineLength := target.Length1 - x, |scanline|;
      if destinationLength > scanlineLength {
        destinationLength := scanlineLength;
      } else {
        scanlineLength := destinationLength;
      }
      assert destinationLength == scanlineLength == Constrain(target.Length1 - x, |scanline|);
      var clipped := scanline[..scanlineLength];
      ghost var before := Row(target, y);
      ghost var amount := Scaled(scanline, options.blendPercentage);

      if options.blendPercentage == 1.0 {
        Blend(blender, target, y, x, destinationLength, colors.memory, clipped);
        assert forall i :: 0 <= i < destinationLength ==> clipped[i] == amount[i];
      } else {
        var amountBuffer := new MemoryOwner<real>.Allocate(scanlineLength);
        var amountSpan := amountBuffer.memory;
        ScaleInto(amountSpan, clipped, options.blendPercentage);
        assert forall k :: 0 <= k < scanlineLength ==> amountSpan[k] == amount[k];
        Blend(blender, target, y, x, destinationLength, colors.memory, amountSpan[..]);
        amountBuffer.Dispose();
      }
      assert forall c :: 0 <= c < target.Length1 ==>
        target[y, c] == if x <= c < x + destinationLength then blender.blend(before[c], color, amount[c - x]) else before[c];
      ghost var expected := ApplyToRow(blender, before, x, color, amount);
      assert forall c :: 0 <= c < target.Length1 ==> Row(target, y)[c] == target[y, c];
      assert forall c :: 0 <= c < target.Length1 ==> Row(target, y)[c] == expected[c];
    }
  }

  /** The loop of Apply's general branch: the scratch buffer receives each
      coverage value times the blend percentage. */
  method ScaleInto(amountSpan: array<real>, scanline: seq<real>, blendPercentage: real)
    requires amountSpan.Length <= |scanline|
    modifies amountSpan
    ensures forall i :: 0 <= i < amountSpan.Length ==> amountSpan[i] == scanline[i] * blendPercentage
  {
    for i := 0 to amountSpan.Length
      invariant forall k :: 0 <= k < i ==> amountSpan[k] == scanline[k] * blendPercentage
    {
      amountSpan[i] := scanline[i] * blendPercentage;
    }
  }

  /** At a blend percentage of 1 the scaled amounts are the coverage itself, so
      the shortcut branch of Apply, which blends by the scanline directly, blends
      by the same amounts as the general branch. */
  lemma UnitPercentageKeepsCoverage(scanline: seq<real>)
    ensures Scaled(scanline, 1.0) == scanline
  {
    assert forall i :: 0 <= i < |scanline| ==> Scaled(scanline, 1.0)[i] == scanline[i];
  }

  /** A scanline of n equal coverage values. */
  function Uniform(n: nat, coverage: real): seq<real>
  {
    seq(n, _ => coverage)
  }

  /** Uniform coverage c at blend percentage p blends a row exactly as uniform
      coverage p at blend percentage c: the two scaling factors commute. */
  lemma {:induction false} ScalingFactorsCommute<P>(blender: PixelBlender<P>, row: seq<P>, x: nat, color: P,
                                                    n: nat, coverage: real, blendPercentage: real)
    requires x <= |row|
    ensures ApplyToRow(blender, row, x, color, Scaled(Uniform(n, coverage), blendPercentage))
         == ApplyToRow(blender, row, x, color, Scaled(Uniform(n, blendPercentage), coverage))
  {
    var a := Scaled(Uniform(n, coverage), blendPercentage);
    var b := Scaled(Uniform(n, blendPercentage), coverage);
    assert forall i :: 0 <= i < n ==> a[i] == coverage * blendPercentage == b[i];
    assert a == b;
  }

  /** The blender keeps the background at amount 0. */
  ghost predicate KeepsBackgroundAtZero<P(!new)>(blender: PixelBlender<P>)
  {
    forall background: P, source: P :: blender.blend(background, source, 0.0) == background
  }

  /** The blender gives the source at amount 1. */
  ghost predicate GivesSourceAtOne<P(!new)>(blender: PixelBlender<P>)
  {
    forall background: P, source: P :: blender.blend(background, source, 1.0) == source
  }

  /** With zero coverage everywhere, Apply leaves the row as it was, whatever the
      blend percentage. */
  lemma {:induction false} ZeroCoverageKeepsRow<P(!new)>(blender: PixelBlender<P>, row: seq<P>, x: nat,
                                                         color: P, scanline: seq<real>, blendPercentage: real)
    requires KeepsBackgroundAtZero(blender)
    requires x <= |row|
    requires forall i :: 0 <= i < |scanline| ==> scanline[i] == 0.0
    ensures ApplyToRow(blender, row, x, color, Scaled(scanline, blendPercentage)) == row
  {
    var amount := Scaled(scanline, blendPercentage);
    var r := ApplyToRow(blender, row, x, color, amount);
    forall c | 0 <= c < |row|
      ensures r[c] == row[c]
    {
      if x <= c < x + Constrain(|row| - x, |amount|) {
        assert amount[c - x] == 0.0 * blendPercentage == 0.0;
      }
    }
  }

  /** With full coverage and a blend percentage of 1, every clipped pixel of the
      row becomes the brush colour. */
  lemma {:induction false} FullCoverageFillsRow<P(!new)>(blender: PixelBlender<P>, row: seq<P>, x: nat,
                                                         color: P, scanline: seq<real>)
    requires GivesSourceAtOne(blender)
    requires x <= |row|
    requires forall i :: 0 <= i < |scanline| ==> scanline[i] == 1.0
    ensures var r := ApplyToRow(blender, row, x, color, Scaled(scanline, 1.0));
      forall c :: x <= c < x + Constrain(|row| - x, |scanline|) ==> r[c] == color
  {
    UnitPercentageKeepsCoverage(scanline);
  }
}
