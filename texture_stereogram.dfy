/**
 * `generate_3d_stereogram` (texture-indexed lookup, policy T): the texture
 * patch is tiled `(h // 50 + 1, w // 50 + 1)` times and cropped to the depth
 * map, then every output pixel is read from the tiled texture `d // 5`
 * columns to its right, or from its own column when that one does not
 * exist.  The function is the same in the still-image and the animated
 * front ends; the resampled patch is an input.
 */
module TextureStereogram {
  import opened Grids
  import opened Tiling

  /** `pattern_size`: the cell size assumed when counting repetitions. */
  const CellSide: nat := 50

  /** `int(d) // 5`. */
  function LookupShift(d: byte): (s: nat)
    ensures s <= 51
    ensures d == 0 ==> s == 0
    ensures s * 5 <= d as int < s * 5 + 5
  {
    d as int / 5
  }

  /**
   * The repetitions cover a side of `n` samples with a patch side of `t`
   * (the source indexes out of range otherwise).
   */
  predicate Covers(t: nat, n: nat)
  {
    t > 0 && t * (n / CellSide + 1) >= n
  }

  /** Any patch at least one cell wide covers every frame size. */
  lemma CellPatchCovers(t: nat, n: nat)
    requires t >= CellSide
    ensures Covers(t, n)
  {
    TilesCover(n, CellSide);
    assert t * (n / CellSide + 1) >= CellSide * (n / CellSide + 1);
  }

  /** The tiled and cropped texture. */
  function TiledTexture<T>(texture: seq<seq<T>>, height: nat, width: nat): (t: seq<seq<T>>)
    requires IsRect(texture) && Covers(|texture|, height) && Covers(Width(texture), width)
    ensures IsGrid(t, height, width)
    ensures forall y, x :: 0 <= y < height && 0 <= x < width ==>
              t[y][x] == texture[y % |texture|][x % Width(texture)]
  {
    var ry, rx := height / CellSide + 1, width / CellSide + 1;
    TiledCrop(texture, |texture|, Width(texture), ry, rx, height, width);
    Crop(Tile(texture, ry, rx), height, width)
  }

  /**
   * The output pixel at (y, x), read from the tiled texture only: a sample
   * of the same row, at most 51 columns right of x and never wrapped.
   */
  function Lookup<T>(tiled: seq<seq<T>>, depth: seq<seq<byte>>, y: nat, x: nat): (v: T)
    requires IsRect(depth) && IsGrid(tiled, |depth|, Width(depth))
    requires y < |depth| && x < Width(depth)
    ensures exists j :: x <= j < Width(depth) && j <= x + 51 && v == tiled[y][j]
    ensures depth[y][x] == 0 ==> v == tiled[y][x]
  {
    var s := LookupShift(depth[y][x]);
    var src := if x + s < Width(depth) then x + s else x;
    tiled[y][src]
  }

  /** The whole output frame, pixel by pixel. */
  function LookupFrame<T>(tiled: seq<seq<T>>, depth: seq<seq<byte>>): (f: seq<seq<T>>)
    requires IsRect(depth) && IsGrid(tiled, |depth|, Width(depth))
    ensures IsGrid(f, |depth|, Width(depth))
  {
    seq(|depth|, y requires 0 <= y < |depth| =>
      seq(Width(depth), x requires 0 <= x < Width(depth) => Lookup(tiled, depth, y, x)))
  }

  /** The stereogram for a depth map and a texture patch. */
  function Stereogram<T>(depth: seq<seq<byte>>, texture: seq<seq<T>>): seq<seq<T>>
    requires IsRect(depth) && IsRect(texture)
    requires Covers(|texture|, |depth|) && Covers(Width(texture), Width(depth))
  {
    LookupFrame(TiledTexture(texture, |depth|, Width(depth)), depth)
  }

  /**
   * `generate_3d_stereogram(depth_map, texture)`: a zero-initialised buffer
   * of the frame's shape in which the nested loop assigns every pixel.
   */
  method Generate3dStereogram<T(0)>(depth: seq<seq<byte>>, texture: seq<seq<T>>) returns (image: seq<seq<T>>)
    requires IsRect(depth) && IsRect(texture)
    requires Covers(|texture|, |depth|) && Covers(Width(texture), Width(depth))
    ensures IsGrid(image, |depth|, Width(depth))
    ensures image == Stereogram(depth, texture)
  {
    var height, width := |depth|, Width(depth);
    var tiled := TiledTexture(texture, height, width);
    var stereogram := new T[height, width];
    for y := 0 to height
      invariant forall i, j :: 0 <= i < y && 0 <= j < width ==> stereogram[i, j] == Lookup(tiled, depth, i, j)
    {
      for x := 0 to width
        invariant forall i, j :: 0 <= i < y && 0 <= j < width ==> stereogram[i, j] == Lookup(tiled, depth, i, j)
        invariant forall j :: 0 <= j < x ==> stereogram[y, j] == Lookup(tiled, depth, y, j)
      {
        var shift := LookupShift(depth[y][x]);
        if x + shift < width {
          stereogram[y, x] := tiled[y][x + shift];
        } else {
          stereogram[y, x] := tiled[y][x];
        }
      }
    }
    image := Snapshot(stereogram);
    GridsEqual(image, Stereogram(depth, texture), height, width);
  }

  /**
   * Each output pixel is the texture sample `d // 5` columns to the right
   * when that column is inside the frame, else its own; the read column
   * never wraps around and is always inside `[0, width)`.
   */
  lemma PixelSource<T>(depth: seq<seq<byte>>, texture: seq<seq<T>>, y: nat, x: nat)
    requires IsRect(depth) && IsRect(texture)
    requires Covers(|texture|, |depth|) && Covers(Width(texture), Width(depth))
    requires y < |depth| && x < Width(depth)
    ensures var s := LookupShift(depth[y][x]);
            var src := if x + s < Width(depth) then x + s else x;
            x <= src < Width(depth) && src <= x + 51
            && Stereogram(depth, texture)[y][x] == texture[y % |texture|][src % Width(texture)]
  {
  }

  /** An all-zero depth map gives the tiled texture verbatim. */
  lemma FlatDepthGivesTiling<T>(depth: seq<seq<byte>>, texture: seq<seq<T>>)
    requires IsRect(depth) && IsRect(texture)
    requires Covers(|texture|, |depth|) && Covers(Width(texture), Width(depth))
    requires forall y, x :: 0 <= y < |depth| && 0 <= x < Width(depth) ==> depth[y][x] == 0
    ensures Stereogram(depth, texture) == TiledTexture(texture, |depth|, Width(depth))
  {
    GridsEqual(Stereogram(depth, texture), TiledTexture(texture, |depth|, Width(depth)), |depth|, Width(depth));
  }

  /** Row y of the result depends only on row y of the tiled texture and of the depth map. */
  lemma RowsIndependent<T>(t1: seq<seq<T>>, d1: seq<seq<byte>>, t2: seq<seq<T>>, d2: seq<seq<byte>>, y: nat)
    requires IsRect(d1) && IsGrid(t1, |d1|, Width(d1))
    requires IsRect(d2) && IsGrid(t2, |d2|, Width(d2))
    requires y < |d1| && y < |d2| && t1[y] == t2[y] && d1[y] == d2[y]
    ensures LookupFrame(t1, d1)[y] == LookupFrame(t2, d2)[y]
  {
    assert Width(d1) == |d1[y]| == Width(d2);
  }

  /** The still-image front end resamples the texture to a 50x50 patch, which always covers. */
  lemma StillPatchCovers<T>(depth: seq<seq<byte>>, patch: seq<seq<T>>)
    requires IsRect(depth) && IsGrid(patch, 50, 50)
    ensures IsRect(patch) && Covers(|patch|, |depth|) && Covers(Width(patch), Width(depth))
  {
    CellPatchCovers(50, |depth|);
    CellPatchCovers(50, Width(depth));
  }
}
