/**
 * The bouncing-balls game: every frame each ball moves by its velocity over the frame time and
 * reverses a velocity component when its next position sticks out of the window on that axis;
 * then one sprite is drawn per ball. `glm::dvec2` components are `real` here, so the arithmetic
 * is exact.
 */
module PhysicsBalls {

  /** `GameData::Ball`. */
  datatype Ball = Ball(posX: real, posY: real, velX: real, velY: real, scale: real)

  datatype TextureID = BALL

  /** `RenderData::Sprite`; the colour is red, green, blue. */
  datatype Sprite = Sprite(posX: real, posY: real, sizeX: real, sizeY: real, rotation: real,
                           texture: TextureID, red: real, green: real, blue: real)

  const InitialBalls: nat := 10
  const BallScale: real := 50.0

  function Abs(x: real): real {
    if x < 0.0 then -x else x
  }

  /** Whether `p`, widened by `scale` on both sides, sticks out of `-half .. half`. */
  predicate OutOfWindow(p: real, scale: real, half: int) {
    p + scale > half as real || p - scale < -half as real
  }

  /**
   * The ball a ball becomes one frame later. The force `f` is zero, so the position advances by
   * `vel * dt` only; the bounce test is made on the old ball's scale and the new position.
   */
  function BallNext(ball: Ball, dt: real, halfWidth: int, halfHeight: int): (r: Ball)
    ensures r.posX == ball.posX + ball.velX * dt && r.posY == ball.posY + ball.velY * dt
    ensures r.velX == if OutOfWindow(r.posX, ball.scale, halfWidth) then -ball.velX else ball.velX
    ensures r.velY == if OutOfWindow(r.posY, ball.scale, halfHeight) then -ball.velY else ball.velY
    ensures r.scale == BallScale
  {
    var f := 0.0;
    var x := ball.posX + ball.velX * dt + f * (0.5 * dt * dt);
    var y := ball.posY + ball.velY * dt + f * (0.5 * dt * dt);
    var vx := ball.velX + f * dt;
    var vy := ball.velY + f * dt;
    Ball(x, y,
         if OutOfWindow(x, ball.scale, halfWidth) then -vx else vx,
         if OutOfWindow(y, ball.scale, halfHeight) then -vy else vy,
         BallScale)
  }

  /**
   * A frame never changes a ball's speed along either axis, and a ball that has crossed a wall
   * while moving outwards comes back moving inwards.
   */
  lemma BallNextBounces(ball: Ball, dt: real, halfWidth: int, halfHeight: int)
    ensures Abs(BallNext(ball, dt, halfWidth, halfHeight).velX) == Abs(ball.velX)
    ensures Abs(BallNext(ball, dt, halfWidth, halfHeight).velY) == Abs(ball.velY)
    ensures var r := BallNext(ball, dt, halfWidth, halfHeight);
      r.posX + ball.scale > halfWidth as real && ball.velX > 0.0 ==> r.velX < 0.0
    ensures var r := BallNext(ball, dt, halfWidth, halfHeight);
      r.posX - ball.scale < -halfWidth as real && ball.velX < 0.0 ==> r.velX > 0.0
    ensures var r := BallNext(ball, dt, halfWidth, halfHeight);
      !OutOfWindow(r.posX, ball.scale, halfWidth) && !OutOfWindow(r.posY, ball.scale, halfHeight) ==>
        r.velX == ball.velX && r.velY == ball.velY
  {
  }

  /** The sprite drawn for a ball: at its position, square of its scale, white, textured BALL. */
  function SpriteOf(ball: Ball): (r: Sprite)
    ensures r.posX == ball.posX && r.posY == ball.posY
    ensures r.sizeX == ball.scale && r.sizeY == ball.scale
    ensures r.texture == BALL && r.rotation == 0.0
    ensures r.red == 1.0 && r.green == 1.0 && r.blue == 1.0
  {
    Sprite(ball.posX, ball.posY, ball.scale, ball.scale, 0.0, BALL, 1.0, 1.0, 1.0)
  }

  class GameData {
    var balls: seq<Ball>
    var prevBalls: seq<Ball>

    /**
     * `InitGamedata`: ten balls, each drawn from four consecutive `rand()` values `rand(4k)` ..
     * `rand(4k + 3)`: a position from `-half / 4` up to `half - half / 4` (exclusive) on each axis, a velocity
     * between -100 and 99 on each axis, and scale 50. The window's half size must be positive for
     * the `%` to be defined.
     */
    constructor (rand: nat -> nat, halfWidth: int, halfHeight: int)
      requires halfWidth > 0 && halfHeight > 0
      ensures |balls| == InitialBalls && prevBalls == []
      ensures forall k :: 0 <= k < |balls| ==> balls[k].scale == BallScale
      ensures forall k :: 0 <= k < |balls| ==>
        -100.0 <= balls[k].velX < 100.0 && -100.0 <= balls[k].velY < 100.0
      ensures forall k :: 0 <= k < |balls| ==>
        -(halfWidth / 4) as real <= balls[k].posX < (halfWidth - halfWidth / 4) as real &&
        -(halfHeight / 4) as real <= balls[k].posY < (halfHeight - halfHeight / 4) as real
    {
      var made: seq<Ball> := [];
      for k := 0 to InitialBalls
        invariant |made| == k
        invariant forall m :: 0 <= m < k ==> made[m].scale == BallScale
        invariant forall m :: 0 <= m < k ==>
          -100.0 <= made[m].velX < 100.0 && -100.0 <= made[m].velY < 100.0
        invariant forall m :: 0 <= m < k ==>
          -(halfWidth / 4) as real <= made[m].posX < (halfWidth - halfWidth / 4) as real &&
          -(halfHeight / 4) as real <= made[m].posY < (halfHeight - halfHeight / 4) as real
      {
        var x := rand(4 * k) % halfWidth - halfWidth / 4;
        var y := rand(4 * k + 1) % halfHeight - halfHeight / 4;
        var vx := rand(4 * k + 2) % 200 - 100;
        var vy := rand(4 * k + 3) % 200 - 100;
        made := made + [Ball(x as real, y as real, vx as real, vy as real, BallScale)];
      }
      balls := made;
      prevBalls := [];
    }
  }

  /**
   * `Update`: the current balls become `prevBalls` and each is replaced, in order, by its next
   * ball; the frame then draws exactly one sprite per new ball, in the same order.
   */
  method Update(gameData: GameData, dt: real, halfWidth: int, halfHeight: int) returns (sprites: seq<Sprite>)
    modifies gameData
    ensures gameData.prevBalls == old(gameData.balls)
    ensures |gameData.balls| == |old(gameData.balls)|
    ensures forall k :: 0 <= k < |gameData.balls| ==>
      gameData.balls[k] == BallNext(old(gameData.balls)[k], dt, halfWidth, halfHeight)
    ensures |sprites| == |gameData.balls|
    ensures forall k :: 0 <= k < |sprites| ==> sprites[k] == SpriteOf(gameData.balls[k])
  {
    gameData.prevBalls := gameData.balls;
    gameData.balls := [];
    for k := 0 to |gameData.prevBalls|
      invariant gameData.prevBalls == old(gameData.balls)
      invariant |gameData.balls| == k
      invariant forall m :: 0 <= m < k ==>
        gameData.balls[m] == BallNext(gameData.prevBalls[m], dt, halfWidth, halfHeight)
    {
      gameData.balls := gameData.balls + [BallNext(gameData.prevBalls[k], dt, halfWidth, halfHeight)];
    }
    sprites := [];
    for k := 0 to |gameData.balls|
      invariant |sprites| == k
      invariant forall m :: 0 <= m < k ==> sprites[m] == SpriteOf(gameData.balls[m])
    {
      sprites := sprites + [SpriteOf(gameData.balls[k])];
    }
  }
}
