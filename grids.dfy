/**
 * Pixel and buffer vocabulary shared by every synthesis mode: 8-bit samples,
 * RGB pixels, rectangular 2D buffers held as sequences of rows, and the
 * conversion of a finished numpy-style array into an immutable image value.
 */
module Grids {

  /** An unsigned 8-bit sample (numpy uint8). */
  newtype byte = x: int | 0 <= x < 256

  /** A colour pixel; channel 0 is `r`. */
  datatype Rgb = Rgb(r: byte, g: byte, b: byte)

  /** The failures the core raises. */
  datatype Error = NotEnoughFrames

  datatype Result<T> = Ok(value: T) | Err(error: Error)

  function Min(a: int, b: int): int { if a <= b then a else b }

  function Max(a: int, b: int): int { if a >= b then a else b }

  /** `g` has exactly `h` rows of exactly `w` samples. */
  predicate IsGrid<T>(g: seq<seq<T>>, h: nat, w: nat)
  {
    |g| == h && forall i :: 0 <= i < h ==> |g[i]| == w
  }

  /** Width of a buffer; a buffer without rows has width 0. */
  function Width<T>(g: seq<seq<T>>): nat
  {
    if |g| == 0 then 0 else |g[0]|
  }

  /** Every row has the width of the first one (a well-formed 2D array). */
  predicate IsRect<T>(g: seq<seq<T>>)
  {
    IsGrid(g, |g|, Width(g))
  }

  /** The immutable image holding the current contents of `a`. */
  function Snapshot<T>(a: array2<T>): (g: seq<seq<T>>)
    reads a
    ensures IsGrid(g, a.Length0, a.Length1)
    ensures forall i, j :: 0 <= i < a.Length0 && 0 <= j < a.Length1 ==> g[i][j] == a[i, j]
  {
    seq(a.Length0, i requires 0 <= i < a.Length0 reads a =>
      seq(a.Length1, j requires 0 <= j < a.Length1 reads a => a[i, j]))
  }

  /** Two buffers of one shape that agree on every cell are equal. */
  lemma GridsEqual<T>(a: seq<seq<T>>, b: seq<seq<T>>, h: nat, w: nat)
    requires IsGrid(a, h, w) && IsGrid(b, h, w)
    requires forall i, j :: 0 <= i < h && 0 <= j < w ==> a[i][j] == b[i][j]
    ensures a == b
  {
    forall i | 0 <= i < h
      ensures a[i] == b[i]
    {
      assert forall j :: 0 <= j < w ==> a[i][j] == b[i][j];
    }
  }
}
