/**
 * The video pipeline's kernels: `create_tiled_pattern`, which tiles a
 * pattern shrunk by `tile_scale` over the frame, and
 * `generate_autostereogram` (read-forward self-copy, policy R), which starts
 * from the tiled buffer and, for `x < width - shift`, overwrites pixel x
 * with the pixel `displacement(depth)` columns to its right.
 *
 * The displacement `int(shift * (1 - p / 255.0))` is floating point; the
 * kernel takes its 256 values as a table `disp` (entry p for depth p).
 * `IntDisplacement` is the exact-integer counterpart, with the same bounds.
 */
module AutoStereogram {
  import opened Grids
  import opened Tiling

  /** `max(1, side // tile_scale)`: the side of the resized pattern. */
  function ScaledSide(side: nat, tileScale: nat): (s: nat)
    requires tileScale > 0
    ensures 1 <= s <= Max(1, side)
    ensures side < tileScale ==> s == 1
    ensures side >= tileScale ==> s * tileScale <= side < (s + 1) * tileScale
  {
    DivBounds(side, tileScale);
    Max(1, side / tileScale)
  }

  lemma DivBounds(n: nat, d: nat)
    requires d > 0
    ensures (n / d) * d <= n < (n / d + 1) * d
    ensures n / d <= n
    ensures n >= d ==> n / d >= 1
  {
    var q, r := n / d, n % d;
    assert n == q * d + r;
    assert (q + 1) * d == q * d + d;
    if q >= 1 {
      MulAtLeast(d, q);
      assert d * q == q * d;
    }
  }

  /**
   * `create_tiled_pattern(pattern, h, w, tile_scale)`; `scaled` is the
   * pattern resized to `ScaledSide(patternHeight)` x `ScaledSide(patternWidth)`.
   */
  function CreateTiledPattern<T>(patternHeight: nat, patternWidth: nat, scaled: seq<seq<T>>,
                                 outputHeight: nat, outputWidth: nat, tileScale: nat): (t: seq<seq<T>>)
    requires tileScale > 0
    requires IsGrid(scaled, ScaledSide(patternHeight, tileScale), ScaledSide(patternWidth, tileScale))
    ensures IsGrid(t, outputHeight, outputWidth)
    ensures forall i, j :: 0 <= i < outputHeight && 0 <= j < outputWidth ==>
              t[i][j] == scaled[i % ScaledSide(patternHeight, tileScale)][j % ScaledSide(patternWidth, tileScale)]
  {
    var sh, sw := ScaledSide(patternHeight, tileScale), ScaledSide(patternWidth, tileScale);
    var tilesY, tilesX := outputHeight / sh + 1, outputWidth / sw + 1;
    TilesCover(outputHeight, sh);
    TilesCover(outputWidth, sw);
    TiledCrop(scaled, sh, sw, tilesY, tilesX, outputHeight, outputWidth);
    Crop(Tile(scaled, tilesY, tilesX), outputHeight, outputWidth)
  }

  /** `shift * (255 - p) // 255`: the displacement in exact integer arithmetic. */
  function IntDisplacement(shift: nat, p: byte): (d: nat)
    ensures d <= shift
    ensures p == 255 ==> d == 0
    ensures p == 0 ==> d == shift
  {
    MulMonotone(shift, 255 - p as int, 255);
    shift * (255 - p as int) / 255
  }

  lemma MulMonotone(a: nat, b: nat, c: nat)
    requires b <= c
    ensures a * b <= a * c
  {
  }

  /** A displacement table obeying the bound the float formula obeys. */
  predicate Bounded(disp: seq<nat>, shift: nat)
  {
    |disp| == 256 && forall p :: 0 <= p < 256 ==> disp[p] <= shift
  }

  /**
   * The integer table is bounded, with displacement 0 at depth 255.  It only
   * shows that `Bounded` can be met; the kernel runs with the float table.
   */
  lemma IntTableBounded(shift: nat)
    ensures var t := seq(256, p requires 0 <= p < 256 => IntDisplacement(shift, p as byte));
            Bounded(t, shift) && t[255] == 0 && t[0] == shift
  {
  }

  /**
   * The pixel at (y, x) after the loop, in terms of the tiled buffer only:
   * a sample of the same row, at or right of x, and x itself in the margin.
   */
  function ReadForward<T>(tiled: seq<seq<T>>, depth: seq<seq<byte>>, shift: nat, disp: seq<nat>, y: nat, x: nat): (v: T)
    requires IsRect(depth) && IsGrid(tiled, |depth|, Width(depth)) && |disp| == 256
    requires y < |depth| && x < Width(depth)
    ensures exists j :: x <= j < Width(depth) && v == tiled[y][j]
    ensures Width(depth) - shift <= x ==> v == tiled[y][x]
  {
    var d := disp[depth[y][x] as int];
    var src := if x < Width(depth) - shift && x + d < Width(depth) then x + d else x;
    tiled[y][src]
  }

  /** The finished frame as a remap of the tiled buffer. */
  function ReadForwardFrame<T>(tiled: seq<seq<T>>, depth: seq<seq<byte>>, shift: nat, disp: seq<nat>): (f: seq<seq<T>>)
    requires IsRect(depth) && IsGrid(tiled, |depth|, Width(depth)) && |disp| == 256
    ensures IsGrid(f, |depth|, Width(depth))
  {
    seq(|depth|, y requires 0 <= y < |depth| =>
      seq(Width(depth), x requires 0 <= x < Width(depth) => ReadForward(tiled, depth, shift, disp, y, x)))
  }

  /** The frame produced for a depth map, a resized pattern and a displacement table. */
  function Autostereogram<T>(depth: seq<seq<byte>>, patternHeight: nat, patternWidth: nat, scaled: seq<seq<T>>,
                             shift: nat, tileScale: nat, disp: seq<nat>): seq<seq<T>>
    requires IsRect(depth) && |disp| == 256 && tileScale > 0
    requires IsGrid(scaled, ScaledSide(patternHeight, tileScale), ScaledSide(patternWidth, tileScale))
  {
    var tiled := CreateTiledPattern(patternHeight, patternWidth, scaled, |depth|, Width(depth), tileScale);
    ReadForwardFrame(tiled, depth, shift, disp)
  }

  /**
   * `generate_autostereogram(depth_map, pattern, shift, tile_scale)`: the
   * output buffer is overwritten from its own cells, yet every read sees an
   * original tiled value, because reads are at or right of the write.
   */
  method GenerateAutostereogram<T>(depth: seq<seq<byte>>, patternHeight: nat, patternWidth: nat, scaled: seq<seq<T>>,
                                   shift: nat, tileScale: nat, disp: seq<nat>) returns (output: seq<seq<T>>)
    requires IsRect(depth) && |disp| == 256 && tileScale > 0
    requires IsGrid(scaled, ScaledSide(patternHeight, tileScale), ScaledSide(patternWidth, tileScale))
    ensures IsGrid(output, |depth|, Width(depth))
    ensures output == Autostereogram(depth, patternHeight, patternWidth, scaled, shift, tileScale, disp)
  {
    var height, width := |depth|, Width(depth);
    var tiled := CreateTiledPattern(patternHeight, patternWidth, scaled, height, width, tileScale);
    var buf := new T[height, width]((y, x) requires 0 <= y < height && 0 <= x < width => tiled[y][x]);
    for y := 0 to height
      invariant forall i, j :: 0 <= i < y && 0 <= j < width ==> buf[i, j] == ReadForward(tiled, depth, shift, disp, i, j)
      invariant forall i, j :: y <= i < height && 0 <= j < width ==> buf[i, j] == tiled[i][j]
    {
      var x := 0;
      while x < width - shift
        invariant 0 <= x <= Max(0, width - shift)
        invariant forall i, j :: 0 <= i < y && 0 <= j < width ==> buf[i, j] == ReadForward(tiled, depth, shift, disp, i, j)
        invariant forall i, j :: y < i < height && 0 <= j < width ==> buf[i, j] == tiled[i][j]
        invariant forall j :: 0 <= j < x ==> buf[y, j] == ReadForward(tiled, depth, shift, disp, y, j)
        invariant forall j :: x <= j < width ==> buf[y, j] == tiled[y][j]
      {
        var displacement := disp[depth[y][x] as int];
        if x + displacement < width {
          buf[y, x] := buf[y, x + displacement];
        }
        x := x + 1;
      }
    }
    output := Snapshot(buf);
    GridsEqual(output, ReadForwardFrame(tiled, depth, shift, disp), height, width);
  }

  /**
   * With a bounded table the guard never fails: every pixel left of
   * `width - shift` takes the tiled sample `disp(depth)` columns to its right.
   */
  lemma RemapOfTiled<T>(tiled: seq<seq<T>>, depth: seq<seq<byte>>, shift: nat, disp: seq<nat>, y: nat, x: nat)
    requires IsRect(depth) && IsGrid(tiled, |depth|, Width(depth)) && Bounded(disp, shift)
    requires y < |depth| && x < Width(depth) - shift
    ensures x + disp[depth[y][x] as int] < Width(depth)
    ensures ReadForwardFrame(tiled, depth, shift, disp)[y][x] == tiled[y][x + disp[depth[y][x] as int]]
  {
  }

  /** Columns from `width - shift` on keep their tiled sample. */
  lemma RightMarginKept<T>(tiled: seq<seq<T>>, depth: seq<seq<byte>>, shift: nat, disp: seq<nat>, y: nat, x: nat)
    requires IsRect(depth) && IsGrid(tiled, |depth|, Width(depth)) && |disp| == 256
    requires y < |depth| && Width(depth) - shift <= x < Width(depth)
    ensures ReadForwardFrame(tiled, depth, shift, disp)[y][x] == tiled[y][x]
  {
  }

  /**
   * The frame is the tiled buffer verbatim when the frame is no wider than
   * the shift, or when every depth has displacement 0 (depth 255 under the
   * source's formula).
   */
  lemma NoDisplacementGivesTiling<T>(tiled: seq<seq<T>>, depth: seq<seq<byte>>, shift: nat, disp: seq<nat>)
    requires IsRect(depth) && IsGrid(tiled, |depth|, Width(depth)) && |disp| == 256
    requires Width(depth) <= shift
             || forall y, x :: 0 <= y < |depth| && 0 <= x < Width(depth) ==> disp[depth[y][x] as int] == 0
    ensures ReadForwardFrame(tiled, depth, shift, disp) == tiled
  {
    GridsEqual(ReadForwardFrame(tiled, depth, shift, disp), tiled, |depth|, Width(depth));
  }

  /** Row y of the result depends only on row y of the tiled buffer and of the depth map. */
  lemma RowsIndependent<T>(t1: seq<seq<T>>, d1: seq<seq<byte>>, t2: seq<seq<T>>, d2: seq<seq<byte>>,
                           shift: nat, disp: seq<nat>, y: nat)
    requires IsRect(d1) && IsGrid(t1, |d1|, Width(d1))
    requires IsRect(d2) && IsGrid(t2, |d2|, Width(d2)) && |disp| == 256
    requires y < |d1| && y < |d2| && t1[y] == t2[y] && d1[y] == d2[y]
    ensures ReadForwardFrame(t1, d1, shift, disp)[y] == ReadForwardFrame(t2, d2, shift, disp)[y]
  {
    assert Width(d1) == |d1[y]| == Width(d2);
  }
}
