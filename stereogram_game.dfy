/**
 * The hidden-object puzzle: a 750x750 stereogram of a tiled 50x50 noise
 * pattern with one 20x20 block at depth 30 (shift 3), the rectangle the
 * player must click, and the message / game-over state the clicks drive.
 * The noise, the block's corner and the click positions are inputs.
 */
module StereogramGame {
  import opened Grids
  import opened Tiling
  import opened ForwardCopy

  const PatternSide: nat := 50
  const Repetitions: nat := 15
  /** `pattern_size[0] * 15`, the width and height of the frame. */
  const Side: nat := PatternSide * Repetitions
  const HiddenSide: nat := 20
  const HiddenDepth: byte := 30

  datatype Rect = Rect(x: int, y: int, w: int, h: int)

  /** Pixel (y, x) lies in the slice `[sy : sy + 20, sx : sx + 20]`. */
  predicate InBlock(sx: nat, sy: nat, y: int, x: int)
  {
    sy <= y < sy + HiddenSide && sx <= x < sx + HiddenSide
  }

  /** The corner `random.randint` may pick: the block fits inside the frame. */
  predicate ValidCorner(sx: nat, sy: nat)
  {
    sx <= Side - HiddenSide && sy <= Side - HiddenSide
  }

  /** The depth map after the slice assignment of the block. */
  function DepthMap(sx: nat, sy: nat): (d: seq<seq<byte>>)
    ensures IsGrid(d, Side, Side) && IsRect(d)
    ensures forall y, x :: 0 <= y < Side && 0 <= x < Side ==>
              d[y][x] == if InBlock(sx, sy, y, x) then HiddenDepth else 0
  {
    seq(Side, y requires 0 <= y < Side =>
      seq(Side, x requires 0 <= x < Side => if InBlock(sx, sy, y, x) then HiddenDepth else 0))
  }

  /** The block shifts by 3, everything else by 0. */
  lemma ShiftInsideBlock(sx: nat, sy: nat, y: nat, x: nat)
    requires y < Side && x < Side
    ensures ForwardShift(DepthMap(sx, sy)[y][x]) == if InBlock(sx, sy, y, x) then 3 else 0
  {
  }

  /** `np.tile(pattern, (15, 15))`: exactly one frame, no crop needed. */
  function GameTiled<T>(pattern: seq<seq<T>>): (t: seq<seq<T>>)
    requires IsGrid(pattern, PatternSide, PatternSide)
    ensures IsGrid(t, Side, Side)
    ensures forall y, x :: 0 <= y < Side && 0 <= x < Side ==>
              t[y][x] == pattern[y % PatternSide][x % PatternSide]
  {
    TileShape(pattern, PatternSide, PatternSide, Repetitions, Repetitions);
    Tile(pattern, Repetitions, Repetitions)
  }

  /** The grey stereogram the source builds. */
  function GameImage<T>(pattern: seq<seq<T>>, sx: nat, sy: nat): seq<seq<T>>
    requires IsGrid(pattern, PatternSide, PatternSide)
  {
    ForwardFrame(GameTiled(pattern), DepthMap(sx, sy))
  }

  /** `generate_stereogram()` with the noise and the block corner as parameters. */
  method GenerateStereogram<T>(pattern: seq<seq<T>>, sx: nat, sy: nat) returns (image: seq<seq<T>>, hidden: Rect)
    requires IsGrid(pattern, PatternSide, PatternSide) && ValidCorner(sx, sy)
    ensures IsGrid(image, Side, Side)
    ensures image == GameImage(pattern, sx, sy)
    ensures hidden == Rect(sx, sy, HiddenSide, HiddenSide)
  {
    var depth := DepthMap(sx, sy);
    var tiled := GameTiled(pattern);
    var buf := Propagate(tiled, depth);
    image := Snapshot(buf);
    GridsEqual(image, GameImage(pattern, sx, sy), Side, Side);
    hidden := Rect(sx, sy, HiddenSide, HiddenSide);
  }

  /**
   * Only block rows change, and in them only the columns `[sx+3, sx+23)`
   * that a shift of 3 can reach; every other pixel is the tiled noise.
   */
  lemma UnchangedOutsideReach<T>(pattern: seq<seq<T>>, sx: nat, sy: nat, y: nat, x: nat)
    requires IsGrid(pattern, PatternSide, PatternSide)
    requires y < Side && x < Side
    requires !(sy <= y < sy + HiddenSide && sx + 3 <= x < sx + HiddenSide + 3)
    ensures GameImage(pattern, sx, sy)[y][x] == pattern[y % PatternSide][x % PatternSide]
  {
    var depth := DepthMap(sx, sy);
    UntargetedColumn(GameTiled(pattern)[y], depth[y], x);
  }

  /**
   * Inside the block each column reappears three columns to the right in
   * the finished image, which is what makes the block float.
   */
  lemma BlockRepeatsAtThree<T>(pattern: seq<seq<T>>, sx: nat, sy: nat, y: nat, x: nat)
    requires IsGrid(pattern, PatternSide, PatternSide)
    requires y < Side && InBlock(sx, sy, y, x) && x + 3 < Side
    ensures GameImage(pattern, sx, sy)[y][x + 3] == GameImage(pattern, sx, sy)[y][x]
  {
    var depth := DepthMap(sx, sy);
    var shifts := RowShifts(depth[y]);
    RepeatsAtShift(GameTiled(pattern)[y], shifts, x);
  }

  /**
   * The click test: inclusive at both ends on both axes, so besides the
   * rectangle's own pixels it accepts the column just right of it and the
   * row just below it.
   */
  predicate Hit(r: Rect, x: int, y: int): (b: bool)
    ensures r.w >= 0 && r.h >= 0 ==>
              (b <==> (r.x <= x < r.x + r.w && r.y <= y < r.y + r.h)
                      || (x == r.x + r.w && r.y <= y <= r.y + r.h)
                      || (y == r.y + r.h && r.x <= x <= r.x + r.w))
  {
    r.x <= x <= r.x + r.w && r.y <= y <= r.y + r.h
  }

  /**
   * A click hits the returned rectangle exactly when it is on a pixel of
   * the block or on the one-pixel strip just right of or below it, so the
   * accepted region is 21x21.
   */
  lemma HitRegion(sx: nat, sy: nat, x: int, y: int)
    ensures Hit(Rect(sx, sy, HiddenSide, HiddenSide), x, y)
            <==> InBlock(sx, sy, y, x)
                 || (x == sx + HiddenSide && sy <= y <= sy + HiddenSide)
                 || (y == sy + HiddenSide && sx <= x <= sx + HiddenSide)
  {
  }

  const Prompt := "Find the hidden object in the stereogram!"
  const Found := "Congratulations! You found it!"
  const Missed := "Try again!"

  datatype GameState = GameState(message: string, gameOver: bool)

  /** The state the game starts in. */
  function Initial(): GameState { GameState(Prompt, false) }

  /**
   * One mouse click at (x, y): ignored once the game is over; otherwise it
   * ends the game exactly when it hits, with the matching message.
   */
  function Click(s: GameState, hidden: Rect, x: int, y: int): (t: GameState)
    ensures s.gameOver ==> t == s
    ensures t.gameOver <==> s.gameOver || Hit(hidden, x, y)
    ensures !s.gameOver ==> t.message == if t.gameOver then Found else Missed
  {
    if s.gameOver then s
    else if Hit(hidden, x, y) then GameState(Found, true)
    else GameState(Missed, false)
  }

  /** The state after a sequence of clicks, in order. */
  function Play(s: GameState, hidden: Rect, clicks: seq<(int, int)>): GameState
    decreases |clicks|
  {
    if clicks == [] then s else Play(Click(s, hidden, clicks[0].0, clicks[0].1), hidden, clicks[1..])
  }

  /** Once over, the game stays over and its message no longer changes. */
  lemma {:induction false} OverIsFinal(s: GameState, hidden: Rect, clicks: seq<(int, int)>)
    requires s.gameOver
    ensures Play(s, hidden, clicks) == s
    decreases |clicks|
  {
    if clicks != [] {
      OverIsFinal(s, hidden, clicks[1..]);
    }
  }

  /**
   * From any state that is not over, the game ends up over exactly when
   * some click hit, and then the message congratulates; otherwise the
   * message is "Try again!" after at least one click, and unchanged after none.
   */
  lemma {:induction false} PlayOutcome(s: GameState, hidden: Rect, clicks: seq<(int, int)>)
    requires !s.gameOver
    ensures var t := Play(s, hidden, clicks);
            (t.gameOver <==> exists k :: 0 <= k < |clicks| && Hit(hidden, clicks[k].0, clicks[k].1))
            && (t.gameOver ==> t.message == Found)
            && (!t.gameOver ==> t.message == if clicks == [] then s.message else Missed)
    decreases |clicks|
  {
    if clicks != [] {
      var c := clicks[0];
      var next := Click(s, hidden, c.0, c.1);
      if Hit(hidden, c.0, c.1) {
        OverIsFinal(next, hidden, clicks[1..]);
      } else {
        PlayOutcome(next, hidden, clicks[1..]);
        assert forall k :: 1 <= k < |clicks| ==> clicks[k] == clicks[1..][k - 1];
      }
    }
  }

  /** The game loop's state: the message shown and whether the game is over. */
  class Game {
    const hidden: Rect
    var message: string
    var gameOver: bool

    function State(): GameState
      reads this
    {
      GameState(message, gameOver)
    }

    constructor (hidden: Rect)
      ensures this.hidden == hidden && State() == Initial()
    {
      this.hidden := hidden;
      message := Prompt;
      gameOver := false;
    }

    /** A MOUSEBUTTONDOWN event at (x, y). */
    method OnMouseDown(x: int, y: int)
      modifies this
      ensures State() == Click(old(State()), hidden, x, y)
    {
      if !gameOver {
        if hidden.x <= x <= hidden.x + hidden.w && hidden.y <= y <= hidden.y + hidden.h {
          message := Found;
          gameOver := true;
        } else {
          message := Missed;
        }
      }
    }
  }
}
