/**
 * The text stereogram's `generate_stereogram`: a 50x50 noise pattern tiled
 * an exact number of times (no crop) and rewritten by forward propagation
 * with shift `depth // 10`.  The noise and the depth map (rendered text or
 * an uploaded 400x400 image) are inputs.
 */
module TextStereogram {
  import opened Grids
  import opened Tiling
  import opened ForwardCopy

  const PatternSide: nat := 50

  /** `np.tile(pattern, (height // 50, width // 50))`. */
  function TextTiled<T>(pattern: seq<seq<T>>, height: nat, width: nat): (t: seq<seq<T>>)
    requires IsGrid(pattern, PatternSide, PatternSide)
    ensures IsGrid(t, height / PatternSide * PatternSide, width / PatternSide * PatternSide)
    ensures forall i, j :: 0 <= i < |t| && 0 <= j < width / PatternSide * PatternSide ==>
              t[i][j] == pattern[i % PatternSide][j % PatternSide]
  {
    TileShape(pattern, PatternSide, PatternSide, height / PatternSide, width / PatternSide);
    Tile(pattern, height / PatternSide, width / PatternSide)
  }

  /**
   * The exact tiling has the depth map's shape precisely when both sides
   * are multiples of 50; otherwise it falls short of the frame.
   */
  lemma TiledCoversIff<T>(pattern: seq<seq<T>>, height: nat, width: nat)
    requires IsGrid(pattern, PatternSide, PatternSide) && height > 0
    ensures IsGrid(TextTiled(pattern, height, width), height, width)
            <==> height % PatternSide == 0 && width % PatternSide == 0
  {
    var t := TextTiled(pattern, height, width);
    assert height == height / PatternSide * PatternSide + height % PatternSide;
    assert width == width / PatternSide * PatternSide + width % PatternSide;
    if IsGrid(t, height, width) {
      assert |t[0]| == width;
    }
  }

  /** The image the source produces, before the grey-to-RGB conversion. */
  function TextImage<T>(depth: seq<seq<byte>>, pattern: seq<seq<T>>): seq<seq<T>>
    requires IsRect(depth) && IsGrid(pattern, PatternSide, PatternSide)
    requires |depth| % PatternSide == 0 && Width(depth) % PatternSide == 0
  {
    ForwardFrame(TextTiled(pattern, |depth|, Width(depth)), depth)
  }

  /** `generate_stereogram(depth_map)` with the random pattern as a parameter. */
  method GenerateStereogram<T>(depth: seq<seq<byte>>, pattern: seq<seq<T>>) returns (image: seq<seq<T>>)
    requires IsRect(depth) && IsGrid(pattern, PatternSide, PatternSide)
    requires |depth| % PatternSide == 0 && Width(depth) % PatternSide == 0
    ensures IsGrid(image, |depth|, Width(depth))
    ensures image == TextImage(depth, pattern)
  {
    var height, width := |depth|, Width(depth);
    var tiled := TextTiled(pattern, height, width);
    var buf := Propagate(tiled, depth);
    image := Snapshot(buf);
    GridsEqual(image, TextImage(depth, pattern), height, width);
  }

  /** An all-zero depth map gives the tiled noise unchanged. */
  lemma FlatDepthGivesPattern<T>(depth: seq<seq<byte>>, pattern: seq<seq<T>>)
    requires IsRect(depth) && IsGrid(pattern, PatternSide, PatternSide)
    requires |depth| % PatternSide == 0 && Width(depth) % PatternSide == 0
    requires forall y, x :: 0 <= y < |depth| && 0 <= x < Width(depth) ==> depth[y][x] == 0
    ensures forall y, x :: 0 <= y < |depth| && 0 <= x < Width(depth) ==>
              TextImage(depth, pattern)[y][x] == pattern[y % PatternSide][x % PatternSide]
  {
    FlatFrameUnchanged(TextTiled(pattern, |depth|, Width(depth)), depth);
  }

  /**
   * Column x of a finished row is the value it held when the loop passed
   * it: writes only ever go at or to the right of the column being visited.
   */
  lemma PassedColumnsFinal<T>(depth: seq<seq<byte>>, pattern: seq<seq<T>>, y: nat, x: nat)
    requires IsRect(depth) && IsGrid(pattern, PatternSide, PatternSide)
    requires |depth| % PatternSide == 0 && Width(depth) % PatternSide == 0
    requires y < |depth| && x < Width(depth)
    ensures TextImage(depth, pattern)[y][x]
            == Prefix(TextTiled(pattern, |depth|, Width(depth))[y], RowShifts(depth[y]), x + 1)[x]
  {
    PassedColumnFinal(TextTiled(pattern, |depth|, Width(depth))[y], RowShifts(depth[y]), x, Width(depth));
  }
}
