/**
 * Pattern tiling as numpy performs it: `np.tile(p, (ry, rx))` places `ry`
 * copies of `p` one below the other, each row itself repeated `rx` times
 * side by side, and the slice `[:h, :w]` keeps the top-left corner, clamped
 * to what exists.
 */
module Tiling {
  import opened Grids

  /** `s` followed by itself until it occurs `n` times. */
  function Repeat<T>(s: seq<T>, n: nat): (r: seq<T>)
    ensures |r| == n * |s|
  {
    if n == 0 then [] else s + Repeat(s, n - 1)
  }

  lemma MulAtLeast(k: int, m: int)
    requires k >= 1 && m > 0
    ensures k * m >= m
  {
    var j := k - 1;
    assert k * m == j * m + m;
  }

  /** Euclidean remainder is determined by any decomposition `q*m + r`. */
  lemma ModUnique(i: int, m: int, q: int, r: int)
    requires m > 0 && 0 <= r < m && i == q * m + r
    ensures i % m == r
  {
    var q', r' := i / m, i % m;
    assert i == q' * m + r';
    var d := q - q';
    assert d * m == r' - r by {
      assert q * m - q' * m == d * m;
    }
    if d > 0 {
      MulAtLeast(d, m);
    } else if d < 0 {
      MulAtLeast(-d, m);
    }
  }

  lemma ModStep(i: nat, m: nat)
    requires 0 < m <= i
    ensures (i - m) % m == i % m
  {
    var q, r := (i - m) / m, (i - m) % m;
    assert i - m == q * m + r;
    assert i == (q + 1) * m + r;
    ModUnique(i, m, q + 1, r);
  }

  /** Element `i` of a repetition is element `i mod |s|` of the original. */
  lemma {:induction false} RepeatAt<T>(s: seq<T>, n: nat, i: nat)
    requires i < n * |s|
    ensures Repeat(s, n)[i] == s[i % |s|]
  {
    assert |s| > 0 && n > 0;
    var m := n - 1;
    assert n * |s| == |s| + m * |s|;
    assert Repeat(s, n) == s + Repeat(s, m);
    if i < |s| {
      ModUnique(i, |s|, 0, i);
    } else {
      ModStep(i, |s|);
      RepeatAt(s, m, i - |s|);
    }
  }

  /** Every element of a repetition, at once. */
  lemma RepeatAll<T>(s: seq<T>, n: nat)
    ensures forall i :: 0 <= i < n * |s| ==> Repeat(s, n)[i] == s[i % |s|]
  {
    forall i | 0 <= i < n * |s|
      ensures Repeat(s, n)[i] == s[i % |s|]
    {
      RepeatAt(s, n, i);
    }
  }

  /** `np.tile(p, (ry, rx))`: `ry` copies of `p`, row i being row `i mod |p|` repeated `rx` times. */
  function Tile<T>(p: seq<seq<T>>, ry: nat, rx: nat): (t: seq<seq<T>>)
    ensures |t| == ry * |p|
    ensures forall i :: 0 <= i < |t| ==> t[i] == Repeat(p[i % |p|], rx)
  {
    var rows := seq(|p|, i requires 0 <= i < |p| => Repeat(p[i], rx));
    RepeatAll(rows, ry);
    Repeat(rows, ry)
  }

  /**
   * The slice `g[:h, :w]`: numpy clamps both bounds to the buffer, so the
   * result keeps the first `min(h, |g|)` rows, each cut to a prefix of at
   * most `w` samples.
   */
  function Crop<T>(g: seq<seq<T>>, h: nat, w: nat): (c: seq<seq<T>>)
    ensures |c| == Min(h, |g|)
    ensures forall i :: 0 <= i < |c| ==> |c[i]| == Min(w, |g[i]|) && c[i] <= g[i]
  {
    seq(Min(h, |g|), i requires 0 <= i < Min(h, |g|) => g[i][..Min(w, |g[i]|)])
  }

  /** A tiling of a `ph`x`pw` pattern is `ry*ph`x`rx*pw` and periodic. */
  lemma TileShape<T>(p: seq<seq<T>>, ph: nat, pw: nat, ry: nat, rx: nat)
    requires IsGrid(p, ph, pw) && ph > 0 && pw > 0
    ensures IsGrid(Tile(p, ry, rx), ry * ph, rx * pw)
    ensures forall i, j :: 0 <= i < ry * ph && 0 <= j < rx * pw ==>
              Tile(p, ry, rx)[i][j] == p[i % ph][j % pw]
  {
    var rows := seq(|p|, i requires 0 <= i < |p| => Repeat(p[i], rx));
    var t := Tile(p, ry, rx);
    forall i | 0 <= i < ry * ph
      ensures |t[i]| == rx * pw
      ensures forall j :: 0 <= j < rx * pw ==> t[i][j] == p[i % ph][j % pw]
    {
      RepeatAt(rows, ry, i);
      assert t[i] == Repeat(p[i % ph], rx);
      forall j | 0 <= j < rx * pw
        ensures t[i][j] == p[i % ph][j % pw]
      {
        RepeatAt(p[i % ph], rx, j);
      }
    }
  }

  /**
   * Tiling then cropping to `h`x`w` gives a buffer of `min(h, ry*ph)` rows and
   * `min(w, rx*pw)` columns whose cell (i, j) is pattern cell (i mod ph, j mod pw).
   */
  lemma TiledCrop<T>(p: seq<seq<T>>, ph: nat, pw: nat, ry: nat, rx: nat, h: nat, w: nat)
    requires IsGrid(p, ph, pw) && ph > 0 && pw > 0
    ensures IsGrid(Crop(Tile(p, ry, rx), h, w), Min(h, ry * ph), Min(w, rx * pw))
    ensures forall i, j :: 0 <= i < Min(h, ry * ph) && 0 <= j < Min(w, rx * pw) ==>
              Crop(Tile(p, ry, rx), h, w)[i][j] == p[i % ph][j % pw]
  {
    TileShape(p, ph, pw, ry, rx);
  }

  /** `(n // s + 1) * s` strictly exceeds `n`: enough tiles always fit. */
  lemma TilesCover(n: nat, s: nat)
    requires s >= 1
    ensures (n / s + 1) * s > n
  {
    assert n == (n / s) * s + n % s;
    assert (n / s + 1) * s == (n / s) * s + s;
  }
}
