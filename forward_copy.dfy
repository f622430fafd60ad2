/**
 * Forward propagation (policy F), the kernel shared by the text stereogram
 * and the puzzle game: the buffer starts as the tiled pattern and, row by
 * row and for increasing x, the sample at column x is copied to column
 * x + depth/10 whenever that column exists.  Later reads see earlier writes.
 */
module ForwardCopy {
  import opened Grids

  /** `int(depth) // 10` on an 8-bit sample. */
  function ForwardShift(d: byte): (s: nat)
    ensures s <= 25
    ensures s * 10 <= d as int < s * 10 + 10
  {
    d as int / 10
  }

  /** The shifts of one depth-map row. */
  function RowShifts(drow: seq<byte>): (s: seq<nat>)
    ensures |s| == |drow|
    ensures forall x :: 0 <= x < |drow| ==> s[x] == ForwardShift(drow[x])
  {
    seq(|drow|, x requires 0 <= x < |drow| => ForwardShift(drow[x]))
  }

  /**
   * The body of the inner loop at column x: column x + s takes the sample at
   * x when it exists, and no other column changes.
   */
  function Step<T>(row: seq<T>, s: nat, x: nat): (r: seq<T>)
    requires x < |row|
    ensures |r| == |row|
    ensures forall j :: 0 <= j < |row| && j != x + s ==> r[j] == row[j]
    ensures x + s < |row| ==> r[x + s] == row[x]
  {
    if x + s < |row| then row[x + s := row[x]] else row
  }

  /** A row after the inner loop has visited columns 0 .. n-1. */
  function Prefix<T>(row: seq<T>, shifts: seq<nat>, n: nat): (r: seq<T>)
    requires |shifts| == |row| && n <= |row|
    ensures |r| == |row|
    ensures forall j :: 0 <= j < |row| ==> r[j] in row
  {
    if n == 0 then row else Step(Prefix(row, shifts, n - 1), shifts[n - 1], n - 1)
  }

  /** A finished row. */
  function ForwardRow<T>(row: seq<T>, drow: seq<byte>): (r: seq<T>)
    requires |row| == |drow|
    ensures |r| == |row|
  {
    Prefix(row, RowShifts(drow), |row|)
  }

  /** The finished frame: each row is processed on its own. */
  function ForwardFrame<T>(tiled: seq<seq<T>>, depth: seq<seq<byte>>): (f: seq<seq<T>>)
    requires IsRect(depth) && IsGrid(tiled, |depth|, Width(depth))
    ensures IsGrid(f, |depth|, Width(depth))
  {
    seq(|depth|, y requires 0 <= y < |depth| => ForwardRow(tiled[y], depth[y]))
  }

  /**
   * Between visiting columns m and n, a column that is the target of no
   * non-zero shift keeps its value (a zero shift only copies a sample onto
   * itself).
   */
  lemma {:induction false} PrefixKeeps<T>(row: seq<T>, shifts: seq<nat>, m: nat, n: nat, c: nat)
    requires |shifts| == |row| && m <= n <= |row| && c < |row|
    requires forall x :: m <= x < n && x + shifts[x] == c ==> shifts[x] == 0
    ensures Prefix(row, shifts, n)[c] == Prefix(row, shifts, m)[c]
  {
    if n > m {
      PrefixKeeps(row, shifts, m, n - 1, c);
    }
  }

  /** Once the loop has passed column k, column k is never written again. */
  lemma {:induction false} PassedColumnFinal<T>(row: seq<T>, shifts: seq<nat>, k: nat, n: nat)
    requires |shifts| == |row| && k < n <= |row|
    ensures Prefix(row, shifts, n)[k] == Prefix(row, shifts, k + 1)[k]
  {
    PrefixKeeps(row, shifts, k + 1, n, k);
  }

  /**
   * If column x carries shift k and no later column other than a self-copy
   * targets x + k, the finished row repeats column x at column x + k.
   */
  lemma RepeatsAtShift<T>(row: seq<T>, shifts: seq<nat>, x: nat)
    requires |shifts| == |row| && x < |row| && x + shifts[x] < |row|
    requires forall z :: x < z < |row| && z + shifts[z] == x + shifts[x] ==> shifts[z] == 0
    ensures Prefix(row, shifts, |row|)[x + shifts[x]] == Prefix(row, shifts, |row|)[x]
  {
    var k := shifts[x];
    PrefixKeeps(row, shifts, x + 1, |row|, x + k);
    PassedColumnFinal(row, shifts, x, |row|);
  }

  /** A column no positive shift lands on ends with its original sample. */
  lemma UntargetedColumn<T>(row: seq<T>, drow: seq<byte>, c: nat)
    requires |row| == |drow| && c < |row|
    requires forall x :: 0 <= x < c && x + ForwardShift(drow[x]) == c ==> ForwardShift(drow[x]) == 0
    ensures ForwardRow(row, drow)[c] == row[c]
  {
    var sh := RowShifts(drow);
    forall x | 0 <= x < |row| && x + sh[x] == c
      ensures sh[x] == 0
    {
      assert x <= c;
    }
    PrefixKeeps(row, sh, 0, |row|, c);
  }

  /** An all-zero depth row leaves the row as it was. */
  lemma FlatRowUnchanged<T>(row: seq<T>, drow: seq<byte>)
    requires |row| == |drow|
    requires forall x :: 0 <= x < |drow| ==> drow[x] < 10
    ensures ForwardRow(row, drow) == row
  {
    forall c | 0 <= c < |row|
      ensures ForwardRow(row, drow)[c] == row[c]
    {
      UntargetedColumn(row, drow, c);
    }
  }

  /** An all-zero depth map leaves the tiled buffer verbatim. */
  lemma FlatFrameUnchanged<T>(tiled: seq<seq<T>>, depth: seq<seq<byte>>)
    requires IsRect(depth) && IsGrid(tiled, |depth|, Width(depth))
    requires forall y, x :: 0 <= y < |depth| && 0 <= x < Width(depth) ==> depth[y][x] == 0
    ensures ForwardFrame(tiled, depth) == tiled
  {
    forall y | 0 <= y < |depth|
      ensures ForwardFrame(tiled, depth)[y] == tiled[y]
    {
      FlatRowUnchanged(tiled[y], depth[y]);
    }
  }

  /** Row y of the result depends only on row y of the buffer and of the depth map. */
  lemma RowsIndependent<T>(t1: seq<seq<T>>, d1: seq<seq<byte>>, t2: seq<seq<T>>, d2: seq<seq<byte>>, y: nat)
    requires IsRect(d1) && IsGrid(t1, |d1|, Width(d1))
    requires IsRect(d2) && IsGrid(t2, |d2|, Width(d2))
    requires y < |d1| && y < |d2| && t1[y] == t2[y] && d1[y] == d2[y]
    ensures ForwardFrame(t1, d1)[y] == ForwardFrame(t2, d2)[y]
  {
  }

  /**
   * The in-place kernel: a fresh buffer initialised from `tiled` is
   * rewritten row by row, each write `buf[y, x + s] := buf[y, x]` guarded by
   * `x + s < width`.
   */
  method Propagate<T>(tiled: seq<seq<T>>, depth: seq<seq<byte>>) returns (buf: array2<T>)
    requires IsRect(depth) && IsGrid(tiled, |depth|, Width(depth))
    ensures buf.Length0 == |depth| && buf.Length1 == Width(depth)
    ensures forall y, x :: 0 <= y < |depth| && 0 <= x < Width(depth) ==>
              buf[y, x] == ForwardFrame(tiled, depth)[y][x]
  {
    var height, width := |depth|, Width(depth);
    buf := new T[height, width]((y, x) requires 0 <= y < height && 0 <= x < width => tiled[y][x]);
    ghost var frame := ForwardFrame(tiled, depth);
    for y := 0 to height
      invariant forall i, j :: 0 <= i < y && 0 <= j < width ==> buf[i, j] == frame[i][j]
      invariant forall i, j :: y <= i < height && 0 <= j < width ==> buf[i, j] == tiled[i][j]
    {
      ghost var shifts := RowShifts(depth[y]);
      for x := 0 to width
        invariant forall i, j :: 0 <= i < y && 0 <= j < width ==> buf[i, j] == frame[i][j]
        invariant forall i, j :: y < i < height && 0 <= j < width ==> buf[i, j] == tiled[i][j]
        invariant forall j :: 0 <= j < width ==> buf[y, j] == Prefix(tiled[y], shifts, x)[j]
      {
        var shift := ForwardShift(depth[y][x]);
        var target := x + shift;
        if target < width {
          buf[y, target] := buf[y, x];
        }
      }
    }
  }
}
