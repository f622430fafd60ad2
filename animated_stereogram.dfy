/**
 * The animated front end: one policy-T stereogram per texture, in order,
 * refused when fewer than two frames result; and the five palette variants
 * of an uploaded texture, whose red channel is rotated by 20 per variant.
 * The resampled 100x100 patch and the random textures are inputs.
 */
module AnimatedStereogram {
  import opened Grids
  import opened Tiling
  import opened TextureStereogram

  /** Inter-frame delay of the GIF, in milliseconds. */
  const FrameDuration: nat := 500
  /** GIF loop count; 0 repeats forever. */
  const LoopForever: nat := 0
  const VariantCount: nat := 5
  const HueStep: nat := 20

  /** The frames and timing handed to the GIF encoder. */
  datatype Animation<T> = Animation(frames: seq<seq<seq<T>>>, duration: nat, loop: nat)

  /** Every texture can be tiled over the depth map. */
  predicate AllCover<T>(depth: seq<seq<byte>>, textures: seq<seq<seq<T>>>)
  {
    forall k :: 0 <= k < |textures| ==>
      IsRect(textures[k]) && Covers(|textures[k]|, |depth|) && Covers(Width(textures[k]), Width(depth))
  }

  /** `generate_animated_stereogram(depth_map, textures)`. */
  method GenerateAnimatedStereogram<T(0)>(depth: seq<seq<byte>>, textures: seq<seq<seq<T>>>)
    returns (r: Result<Animation<T>>)
    requires IsRect(depth) && AllCover(depth, textures)
    ensures r.Ok? <==> |textures| >= 2
    ensures r.Err? ==> r.error == NotEnoughFrames
    ensures r.Ok? ==> r.value.duration == FrameDuration && r.value.loop == LoopForever
    ensures r.Ok? ==> |r.value.frames| == |textures|
    ensures r.Ok? ==> forall k :: 0 <= k < |textures| ==> r.value.frames[k] == Stereogram(depth, textures[k])
  {
    var frames: seq<seq<seq<T>>> := [];
    for i := 0 to |textures|
      invariant |frames| == i
      invariant forall k :: 0 <= k < i ==> frames[k] == Stereogram(depth, textures[k])
    {
      var frame := Generate3dStereogram(depth, textures[i]);
      frames := frames + [frame];
    }
    if |frames| < 2 {
      return Err(NotEnoughFrames);
    }
    r := Ok(Animation(frames, FrameDuration, LoopForever));
  }

  /**
   * `(c + amount) % 256`, computed in 32 bits and cast back to 8: the sample
   * moved `amount` steps round the 256-value circle.
   */
  function RotateSample(c: byte, amount: nat): (r: byte)
    ensures (r as int - c as int - amount) % 256 == 0
    ensures amount % 256 == 0 ==> r == c
  {
    ((c as int + amount) % 256) as byte
  }

  /** The texture with channel 0 rotated by `amount`; channels 1 and 2 kept. */
  function RotateRed(texture: seq<seq<Rgb>>, amount: nat): (v: seq<seq<Rgb>>)
    ensures |v| == |texture|
    ensures forall y :: 0 <= y < |texture| ==> |v[y]| == |texture[y]|
    ensures forall y, x :: 0 <= y < |texture| && 0 <= x < |texture[y]| ==>
              v[y][x].g == texture[y][x].g && v[y][x].b == texture[y][x].b
              && (v[y][x].r as int - texture[y][x].r as int - amount) % 256 == 0
  {
    seq(|texture|, y requires 0 <= y < |texture| =>
      seq(|texture[y]|, x requires 0 <= x < |texture[y]| =>
        var p := texture[y][x]; Rgb(RotateSample(p.r, amount), p.g, p.b)))
  }

  /** Palette variant i of `texture`. */
  function Variant(texture: seq<seq<Rgb>>, i: nat): (v: seq<seq<Rgb>>)
    ensures |v| == |texture|
    ensures forall y :: 0 <= y < |texture| ==> |v[y]| == |texture[y]|
  {
    RotateRed(texture, HueStep * i)
  }

  /** The loop `for i in range(5)` that collects the palette variants. */
  method PaletteVariants(texture: seq<seq<Rgb>>) returns (textures: seq<seq<seq<Rgb>>>)
    ensures |textures| == VariantCount
    ensures forall i :: 0 <= i < VariantCount ==> textures[i] == Variant(texture, i)
  {
    textures := [];
    for i := 0 to VariantCount
      invariant |textures| == i
      invariant forall k :: 0 <= k < i ==> textures[k] == Variant(texture, k)
    {
      var varied := RotateRed(texture, i * HueStep);
      textures := textures + [varied];
    }
  }

  /**
   * A variant has the texture's shape; its channel 0 is `(c + 20 i) mod 256`
   * and its channels 1 and 2 are the texture's.
   */
  lemma VariantPixels(texture: seq<seq<Rgb>>, i: nat, y: nat, x: nat)
    requires y < |texture| && x < |texture[y]|
    ensures |Variant(texture, i)| == |texture| && |Variant(texture, i)[y]| == |texture[y]|
    ensures Variant(texture, i)[y][x].r as int == (texture[y][x].r as int + 20 * i) % 256
    ensures Variant(texture, i)[y][x].g == texture[y][x].g
    ensures Variant(texture, i)[y][x].b == texture[y][x].b
  {
  }

  /** Variant 0 is the base texture. */
  lemma FirstVariantIsBase(texture: seq<seq<Rgb>>)
    ensures Variant(texture, 0) == texture
  {
    var v := Variant(texture, 0);
    assert |v| == |texture|;
    forall y | 0 <= y < |texture|
      ensures v[y] == texture[y]
    {
      assert |v[y]| == |texture[y]|;
      forall x | 0 <= x < |texture[y]|
        ensures v[y][x] == texture[y][x]
      {
        var p := texture[y][x];
        assert RotateSample(p.r, 0) == p.r;
      }
    }
  }

  /** Two different variants of a non-empty texture differ. */
  lemma VariantsDistinct(texture: seq<seq<Rgb>>, i: nat, j: nat)
    requires |texture| > 0 && |texture[0]| > 0
    requires i < j < VariantCount
    ensures Variant(texture, i) != Variant(texture, j)
  {
    var c := texture[0][0].r as int;
    var a, b := (c + HueStep * i) % 256, (c + HueStep * j) % 256;
    assert Variant(texture, i)[0][0].r as int == a;
    assert Variant(texture, j)[0][0].r as int == b;
  }

  /**
   * The upload path of the route: the five variants of a 100x100 patch
   * always yield a five-frame animation, never the error.
   */
  method AnimateUploadedTexture(depth: seq<seq<byte>>, patch: seq<seq<Rgb>>) returns (r: Result<Animation<Rgb>>)
    requires IsRect(depth) && IsGrid(patch, 100, 100)
    ensures r.Ok? && |r.value.frames| == VariantCount
    ensures forall k :: 0 <= k < VariantCount ==> r.value.frames[k] == Stereogram(depth, Variant(patch, k))
  {
    var textures := PaletteVariants(patch);
    CellPatchCovers(100, |depth|);
    CellPatchCovers(100, Width(depth));
    forall k | 0 <= k < VariantCount
      ensures IsGrid(textures[k], 100, 100)
    {
      assert forall y :: 0 <= y < 100 ==> |textures[k][y]| == |patch[y]|;
    }
    r := GenerateAnimatedStereogram(depth, textures);
  }
}
