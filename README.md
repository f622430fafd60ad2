# Autostereogram synthesis kernels, modelled in Dafny

This project models the pixel-level core of the magic-eye autostereogram
generator. The generator has five front ends: a video converter, a still-image
web app, an animated-GIF web app, a text web app and a hidden-object puzzle
game. Each one tiles a small pattern over the frame and then moves pattern
samples sideways by an amount taken from a grey depth map. The model covers
that arithmetic:

- **Tiling.** `np.tile` followed by the `[:h, :w]` crop (`Tiling`). Each
  front end's own tiling is stated on top of it.
- **Policy R, read-forward self-copy** (`AutoStereogram`, from `main.py`). The
  output starts as the tiled buffer. For `x < width - shift` it is overwritten
  in place with `out[y][x] := out[y][x + disp]`. Reads are always at or to the
  right of the write, so the result is proved to be a remap of the tiled
  buffer.
- **Policy T, texture-indexed lookup** (`TextureStereogram`, from
  `3dStereogram.py`). Each pixel reads the tiled texture `d // 5` columns to
  its right, or its own column when that column is outside the frame.
  `animatedStereogram.py` has an identical copy of `generate_3d_stereogram`,
  so it is modelled once and `AnimatedStereogram` reuses it.
- **Policy F, forward write** (`ForwardCopy`, from `textStereogram.py`). For
  increasing `x`, the kernel does `buf[y][x + d // 10] := buf[y][x]` when the
  target column exists. Later reads see earlier writes. `stereogramGame.py`
  runs the same loop on its own depth map.
- **Animation** (`AnimatedStereogram`). One frame is made per texture, in
  order. Fewer than two frames is an error. The five palette variants rotate
  channel 0 by `20 i` modulo 256.
- **The puzzle** (`StereogramGame`). It covers the depth-block placement, the
  returned rectangle, the inclusive click test and the message / game-over
  state.

Images are values of type `seq<seq<T>>`, generic in the pixel type. Depth
samples have type `byte` (0..255). Each kernel allocates an `array2`, as numpy
does, and runs the source's nested loops in place. The kernel's postcondition
ties the final array to a specification function. `Snapshot` turns the array
into an immutable value: the returned array, or the image `Image.fromarray`
makes of it.

The following inputs become parameters, because they come from I/O or
randomness: the resampled pattern patch, the random noise patterns, the
puzzle's block corner, the click positions and the table of floating-point
displacements.

Where the written description of the system and the code disagree, the model
follows the code:

- Policy R only visits `x < width - shift`. It does not visit every column
  whose target is in range.
- The text and puzzle front ends tile an exact number of times and never crop.
  So their tiled buffer matches the frame only when both sides are multiples
  of 50.
- The click test accepts a 21×21 region around the 20×20 block.
- The animated front end builds all frames before it checks that there are at
  least two.

## Model

| member | source | states |
|---|---|---|
| Tiling.Repeat | main.py:26 | repeating a sequence n times gives length n·len |
| Tiling.RepeatAt | main.py:26 | element i of an n-fold repetition is element i mod len of the original |
| Tiling.Tile | main.py:26 | `np.tile` of p by (ry, rx) has ry·len(p) rows, row i being row i mod len(p) repeated rx times; `TileShape` gives the cells |
| Tiling.Crop | main.py:27 | the `[:h, :w]` slice keeps min(h, rows) rows, each a prefix of its row of min(w, len) samples; `TiledCrop` gives the cells after tiling |
| Tiling.TileShape | textStereogram.py:43 | `np.tile` of a ph×pw pattern by (ry, rx) is exactly ry·ph × rx·pw, and cell (i, j) is pattern (i mod ph, j mod pw) |
| Tiling.TiledCrop | main.py:26-27 | tile then crop to h×w gives min(h, ry·ph) × min(w, rx·pw) cells, each the pattern cell (i mod ph, j mod pw) |
| Tiling.TilesCover | main.py:22-23 | `(n // s + 1) * s > n` for s ≥ 1, so the repetition count always covers the frame |
| AutoStereogram.ScaledSide | main.py:17-18 | the resized side is at least 1 (no division by zero) and at most the original; it is exactly 1 when side < tile_scale, and `side // tile_scale` (s·ts ≤ side < (s+1)·ts) otherwise |
| AutoStereogram.CreateTiledPattern | main.py:6-29 | the tiled pattern is exactly output_height × output_width, and cell (i, j) is scaled (i mod sh, j mod sw) |
| AutoStereogram.IntDisplacement | main.py:50-51 | the integer displacement lies in [0, shift], is 0 at depth 255 and is shift at depth 0 |
| AutoStereogram.IntTableBounded | main.py:51 | the exact-integer displacement table meets `Bounded`, so the bound the kernel's lemmas assume can be met (the kernel itself runs with the float table) |
| AutoStereogram.GenerateAutostereogram | main.py:32-55 | the in-place self-copying loop ends with exactly the pure remap `ReadForwardFrame` of the tiled buffer (no read sees an overwritten pixel), of the depth map's shape |
| AutoStereogram.ReadForward | main.py:49-53 | the final pixel (y, x) is a tiled sample of row y at or right of x, and the tiled sample at x itself from `width - shift` on; `RemapOfTiled` gives the column |
| AutoStereogram.RemapOfTiled | main.py:48-53 | with displacements in [0, shift], the guard always holds for x < width - shift and the pixel is tiled[y][x + disp] |
| AutoStereogram.RightMarginKept | main.py:49 | columns x ≥ width - shift keep their tiled value |
| AutoStereogram.NoDisplacementGivesTiling | main.py:45-53 | if width ≤ shift, or every depth has displacement 0 (uniform 255), the output is the tiled buffer verbatim |
| AutoStereogram.RowsIndependent | main.py:48-53 | output row y depends only on row y of the tiled buffer and of the depth map |
| TextureStereogram.LookupShift | 3dStereogram.py:47 | `int(d) // 5` is the floor of d/5, lies in [0, 51] and is 0 for depth 0 |
| TextureStereogram.CellPatchCovers | 3dStereogram.py:38 | a patch with side ≥ 50, tiled (n // 50 + 1) times, covers a frame side of n |
| TextureStereogram.TiledTexture | 3dStereogram.py:38-39 | the cropped tiling is exactly height×width, and cell (y, x) is texture (y mod th, x mod tw) |
| TextureStereogram.Lookup | 3dStereogram.py:47-51 | the pixel is a tiled sample of row y at column j with x ≤ j ≤ x + 51 and j < width, and the sample at x for depth 0; `PixelSource` gives the column |
| TextureStereogram.LookupFrame | 3dStereogram.py:45-51 | the lookup frame has the depth map's shape; `PixelSource`, `FlatDepthGivesTiling` and `RowsIndependent` characterise it |
| TextureStereogram.Generate3dStereogram | 3dStereogram.py:31-55 | the nested loop assigns every pixel of a zero-initialised buffer, and the image equals `Stereogram`: the lookup frame of the tiled texture, of the depth map's shape |
| TextureStereogram.PixelSource | 3dStereogram.py:45-51 | pixel (y, x) is texture sample (y mod th, src mod tw), where src = x + d//5 if that is < width and x otherwise; src lies in [x, width) and never wraps |
| TextureStereogram.FlatDepthGivesTiling | 3dStereogram.py:47-49 | an all-zero depth map gives the tiled texture verbatim |
| TextureStereogram.RowsIndependent | 3dStereogram.py:45-51 | output row y depends only on row y of the tiled texture and of the depth map |
| TextureStereogram.StillPatchCovers | 3dStereogram.py:23-29 | the 50×50 patch of the still-image app covers any depth map |
| AnimatedStereogram.GenerateAnimatedStereogram | animatedStereogram.py:42-62 | succeeds iff at least 2 textures are given, otherwise fails with NotEnoughFrames; on success there is exactly one frame per texture, in input order, each the policy-T stereogram of that texture, with 500 ms delay and loop 0 |
| AnimatedStereogram.PaletteVariants | animatedStereogram.py:82-85 | exactly 5 variants are produced, variant i being the texture with channel 0 rotated by 20 i |
| AnimatedStereogram.RotateSample | animatedStereogram.py:84 | the rotated sample is congruent to c + amount modulo 256, and a multiple of 256 leaves it unchanged |
| AnimatedStereogram.RotateRed | animatedStereogram.py:83-84 | the texture keeps its shape and channels 1 and 2; channel 0 moves by amount modulo 256 |
| AnimatedStereogram.Variant | animatedStereogram.py:83-84 | variant i keeps the texture's shape; `VariantPixels`, `FirstVariantIsBase` and `VariantsDistinct` give its samples |
| AnimatedStereogram.VariantPixels | animatedStereogram.py:83-84 | a variant keeps the texture's shape; channel 0 is (c + 20 i) mod 256; channels 1 and 2 are unchanged |
| AnimatedStereogram.FirstVariantIsBase | animatedStereogram.py:82-84 | variant 0 equals the base texture |
| AnimatedStereogram.VariantsDistinct | animatedStereogram.py:82-85 | two different variants of a non-empty texture differ |
| AnimatedStereogram.AnimateUploadedTexture | animatedStereogram.py:77-91 | the five variants of a 100×100 patch always tile over the depth map and give a 5-frame animation, never the error |
| ForwardCopy.ForwardShift | textStereogram.py:48 | `int(d) // 10` is the floor of d/10 and lies in [0, 25] |
| ForwardCopy.Step | textStereogram.py:48-51 | one loop step writes the sample of column x into column x + s when it exists and changes no other column |
| ForwardCopy.Prefix | textStereogram.py:46-51 | after the loop has visited columns 0 .. n-1 the row keeps its length and holds only samples of the original row; `PrefixKeeps` and `PassedColumnFinal` say which |
| ForwardCopy.ForwardFrame | textStereogram.py:46-51 | the propagated frame has the depth map's shape (writes are guarded, nothing wraps) |
| ForwardCopy.PrefixKeeps | textStereogram.py:49-51 | between two points of the loop, a column that no positive shift targets keeps its value |
| ForwardCopy.PassedColumnFinal | textStereogram.py:46-51 | once the loop has passed column k, column k never changes again |
| ForwardCopy.RepeatsAtShift | stereogramGame.py:38-43 | if column x has shift k and no later column other than a self-copy targets x+k, the finished row has the same value at x+k as at x |
| ForwardCopy.UntargetedColumn | textStereogram.py:46-51 | a column that no earlier column targets with a positive shift ends with its tiled value |
| ForwardCopy.FlatRowUnchanged | textStereogram.py:48-51 | a depth row below 10 everywhere (all shifts 0) leaves the row unchanged |
| ForwardCopy.FlatFrameUnchanged | textStereogram.py:46-51 | an all-zero depth map leaves the tiled buffer verbatim |
| ForwardCopy.RowsIndependent | textStereogram.py:46-51 | output row y depends only on row y of the tiled buffer and of the depth map |
| ForwardCopy.Propagate | textStereogram.py:46-51 | the in-place loop over a buffer initialised from the tiled pattern ends with exactly `ForwardFrame` |
| TextStereogram.TextTiled | textStereogram.py:42-43 | the exact tiling is (h//50·50) × (w//50·50) with cell (i, j) = pattern (i mod 50, j mod 50) |
| TextStereogram.TiledCoversIff | textStereogram.py:43 | the exact tiling has the depth map's shape iff height and width are multiples of 50 |
| TextStereogram.GenerateStereogram | textStereogram.py:30-55 | the result has the depth map's shape and equals forward propagation over the exact tiling |
| TextStereogram.FlatDepthGivesPattern | textStereogram.py:46-51 | an all-zero depth map gives pattern[y mod 50][x mod 50] everywhere |
| TextStereogram.PassedColumnsFinal | textStereogram.py:46-51 | each output pixel is the value its column held right after the loop visited it |
| StereogramGame.DepthMap | stereogramGame.py:26-31 | the depth map is 750×750, 30 inside [sy, sy+20) × [sx, sx+20) and 0 elsewhere |
| StereogramGame.ShiftInsideBlock | stereogramGame.py:40 | the shift is 3 inside the block and 0 outside |
| StereogramGame.GameTiled | stereogramGame.py:34-35 | 15×15 repetitions of the 50×50 pattern are exactly 750×750, with cell (y, x) = pattern (y mod 50, x mod 50) |
| StereogramGame.GenerateStereogram | stereogramGame.py:21-47 | the image is the 750×750 forward propagation of the tiled pattern over the block depth map, and the returned rectangle is exactly (sx, sy, 20, 20) |
| StereogramGame.UnchangedOutsideReach | stereogramGame.py:38-43 | pixels outside the block rows, and block-row pixels outside columns [sx+3, sx+23), keep the tiled pattern value |
| StereogramGame.BlockRepeatsAtThree | stereogramGame.py:38-43 | for every block pixel with x+3 < 750, the final image has the same value at x+3 as at x |
| StereogramGame.Hit | stereogramGame.py:72-73 | for a rectangle of non-negative size, the inclusive test accepts its own pixels plus the column just right of it and the row just below it |
| StereogramGame.HitRegion | stereogramGame.py:72-73 | a click hits iff it is on a block pixel or on the one-pixel strip right of or below the block (inclusive test, 21×21 region) |
| StereogramGame.Click | stereogramGame.py:69-77 | a click is ignored once the game is over; otherwise it ends the game iff it hits, with "Congratulations! You found it!", else "Try again!"; `PlayOutcome` and `OverIsFinal` extend it to click sequences |
| StereogramGame.OverIsFinal | stereogramGame.py:69 | once game_over is set, further clicks change neither the message nor game_over |
| StereogramGame.PlayOutcome | stereogramGame.py:69-77 | from a state that is not over, a click sequence ends the game iff some click hits; then the message is "Congratulations! You found it!"; otherwise it is "Try again!" after at least one click |
| StereogramGame.Game.constructor | stereogramGame.py:58-60 | the game starts with the prompt message and game_over false |
| StereogramGame.Game.OnMouseDown | stereogramGame.py:69-78 | a mouse click updates the message and game_over fields exactly as the pure transition `Click` does |

## Left out

- Web plumbing is not modelled: the Flask routes, `request.files`, `send_file` and `render_template`.
- Video I/O in `process_video` is not modelled: capture, writers, `applyColorMap`, the PNG dump and the progress prints.
- The pygame parts of the game are not modelled: display, fonts, event polling, the QUIT event and the clock. Click coordinates are parameters.
- `cv2.resize` and the Lanczos `resize` are foreign float filters. The resized patch is an input with the requested dimensions.
- `resize_to_minimum_size` is not modelled, because it uses float scale factors.
- `generate_depth_map_from_text` is not modelled, because it rasterises fonts. The depth map is an input.
- Random generation is not modelled: `np.random.randint` and `random.randint`. Patterns, the random textures of the animated app and the block corner are parameters. `ValidCorner` states the range `random.randint` picks from.
- Image format conversion is not modelled: GIF/PNG encoding, `convert("RGB")` of the grey outputs, and `astype(np.uint8)` of a non-uint8 depth map in the text app. Depth maps are bytes from the start.
- AutoStereogram.GenerateAutostereogram: the displacement `int(shift * (1 - p/255.0))` is floating point. The kernel takes its 256 values as the table `disp`. `IntDisplacement` is the exact floor `shift*(255-p) // 255`. It meets the same bounds but may differ from the float value by one at some depths.
- TextStereogram.GenerateStereogram: requires both sides of the depth map to be multiples of 50, as the callers' 400×400 maps are. For other shapes the source raises IndexError on the first out-of-range access, and whether that happens depends on the data. That path is not modelled.
- TextureStereogram.Generate3dStereogram: requires a non-empty texture whose repetitions cover the frame (`Covers`). The 50×50 and 100×100 patches the apps pass always do. Otherwise the source raises IndexError, and that path is not modelled.
- A depth map with no rows is given width 0.
