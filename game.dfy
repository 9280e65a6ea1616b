/**
 * The game view's state and the operations that change it in place: the
 * lazily grown pipe pool, one tick of the game loop, the alive/score check,
 * the touch that makes the bird jump, the fall after death and the reset.
 */
module Game {
  import opened Dimensions
  import opened Pipes
  import opened Physics
  import opened Collision

  /**
   * A pipe scores once per pass: a pipe already passed before a tick either
   * scrolls on and stays passed, untouched by the check and adding no point,
   * or is recycled, which alone clears its flag.
   */
  lemma PassedUntilRecycled(g: Geometry, birdX: real, birdY: real, ps: seq<Pipe>, count: nat,
                            newDraws: seq<real>, recycleDraws: seq<real>, i: nat)
    requires g.Valid() && |ps| <= count + 1
    requires |newDraws| == count + 1 && |recycleDraws| == count + 1
    requires AllFractions(newDraws) && AllFractions(recycleDraws)
    requires i < |ps| && ps[i].isPassed
    ensures var qs := AdvancedPool(g, ps, count, newDraws, recycleDraws);
            var o := AliveCheck(g, birdX, birdY, qs);
            (qs[i].position == ps[i].position - PipeVelocity ==> qs[i].isPassed && o.pipes[i] == qs[i]) &&
            (qs[i].position != ps[i].position - PipeVelocity ==> qs[i].position == g.measuredWidth && !qs[i].isPassed)
  {
    var qs := AdvancedPool(g, ps, count, newDraws, recycleDraws);
    assert qs[i] == Step(g, ps[i], recycleDraws[i]);
    MarksExactlyScoringPipes(g, birdX, birdY, qs, i);
  }

  class GameView {
    /** The view's size and the bitmap sizes, fixed for the life of the model. */
    const geo: Geometry
    var score: nat
    var alive: bool
    var running: bool
    var birdPosX: real
    var birdPosY: real
    var birdVelocity: real
    var pipes: seq<Pipe>
    var pipeCount: int
    /** How many GAME_OVER messages the view has sent to its handler. */
    var gameOverMessages: nat

    /**
     * The pool is either still empty (no tick since the last reset) or holds the
     * `pipeCount + 1` pipes the tick loop visits; every pipe is in place; the
     * velocity never exceeds its ceiling plus one acceleration step.
     */
    ghost predicate Valid()
      reads this
    {
      geo.Valid() && pipeCount >= 0 &&
      (|pipes| == 0 || |pipes| == pipeCount + 1) &&
      birdVelocity <= MaxVelocity &&
      PoolInPlace(geo, pipes)
    }

    /** A new view holds the field initialisers of the class. */
    constructor (g: Geometry)
      requires g.Valid()
      ensures Valid() && geo == g
      ensures score == 0 && alive && !running
      ensures birdPosX == 0.0 && birdPosY == 0.0 && birdVelocity == InitialVelocity
      ensures pipes == [] && pipeCount == 0 && gameOverMessages == 0
    {
      geo := g;
      score := 0;
      alive := true;
      running := false;
      birdPosX := 0.0;
      birdPosY := 0.0;
      birdVelocity := InitialVelocity;
      pipes := [];
      pipeCount := 0;
      gameOverMessages := 0;
    }

    /**
     * `resetData`: a new game starts with no score, the bird a third of the way
     * across and a third of the way down to the ground, an empty pool sized for
     * `PipeCount(geo) + 1` pipes, and both flags set.
     */
    method ResetData()
      requires Valid()
      modifies this`score, this`birdPosX, this`birdPosY, this`pipeCount
      modifies this`birdVelocity, this`pipes, this`running, this`alive
      ensures Valid()
      ensures score == 0
      ensures birdPosX == geo.measuredWidth as real / 3.0
      ensures birdPosY == (geo.measuredHeight as real - GroundHeight as real) / 3.0
      ensures pipeCount == PipeCount(geo) && pipes == []
      ensures birdVelocity == InitialVelocity
      ensures running && alive
    {
      score := 0;
      birdPosX := geo.measuredWidth as real / 3.0;
      birdPosY := (geo.measuredHeight as real - GroundHeight as real) / 3.0;
      pipeCount := PipeCount(geo);
      birdVelocity := InitialVelocity;
      pipes := [];
      running := true;
      alive := true;
    }

    /**
     * `getPipe`: the pipe at `index`, appending a new one at
     * `measuredWidth + (pipeWidth + pipeInterval) * index` when the pool ends
     * exactly there; earlier pipes are left as they are.
     */
    method GetPipe(index: nat, r: real) returns (p: Pipe)
      requires index <= |pipes| && IsFraction(r)
      modifies this`pipes
      ensures pipes == if index < old(|pipes|) then old(pipes) else old(pipes) + [NewPipe(geo, index, r)]
      ensures p == pipes[index]
    {
      if index >= |pipes| {
        var pipe := Pipe(geo.measuredWidth + (geo.pipeWidth + PipeInterval) * index,
                         PipeLength(geo.measuredHeight, r), false);
        pipes := pipes + [pipe];
      }
      p := pipes[index];
    }

    /**
     * The scroll loop of `run`: every index `0..pipeCount` (inclusive) is fetched
     * with `getPipe`, moved left by `PipeVelocity` and recycled once at or beyond
     * `-pipeWidth`.
     */
    method ScrollPipes(newDraws: seq<real>, recycleDraws: seq<real>)
      requires Valid()
      requires |newDraws| == pipeCount + 1 && |recycleDraws| == pipeCount + 1
      requires AllFractions(newDraws) && AllFractions(recycleDraws)
      modifies this`pipes
      ensures pipes == AdvancedPool(geo, old(pipes), pipeCount, newDraws, recycleDraws)
    {
      for index := 0 to pipeCount + 1
        invariant |pipes| == if index <= |old(pipes)| then |old(pipes)| else index
        invariant forall i :: 0 <= i < index ==>
                    pipes[i] == Step(geo, PooledOrNew(geo, old(pipes), i, newDraws), recycleDraws[i])
        invariant forall i :: index <= i < |pipes| ==> pipes[i] == old(pipes)[i]
      {
        var pipe := GetPipe(index, newDraws[index]);
        pipe := pipe.(position := pipe.position - PipeVelocity);
        if pipe.position <= -geo.pipeWidth {
          pipe := pipe.(position := geo.measuredWidth,
                        length := PipeLength(geo.measuredHeight, recycleDraws[index]),
                        isPassed := false);
        }
        pipes := pipes[index := pipe];
      }
    }

    /** `score`: one more point (the sound it plays is not modelled). */
    method Score()
      modifies this`score
      ensures score == old(score) + 1
    {
      score := score + 1;
    }

    /**
     * `isAlive`, called by the tick once the scroll loop has created every pipe,
     * so its `getPipe` calls only read the pool.
     */
    method IsAlive() returns (result: bool)
      requires pipeCount >= 0 && |pipes| == pipeCount + 1
      modifies this`pipes, this`score
      ensures var o := AliveCheck(geo, birdPosX, birdPosY, old(pipes));
              result == o.alive && pipes == o.pipes && score == old(score) + o.gained
    {
      GuardsLeavePoolAlone(geo, birdPosX, birdPosY, pipes);
      if geo.width == 0 || geo.height == 0 {
        return true;
      }
      if birdPosY <= TopMargin || birdPosY >= (geo.measuredHeight - GroundHeight) as real {
        return false;
      }
      result := ScanPipes();
    }

    /**
     * The loop of `isAlive` over the indices `0..pipeCount`: pipes are marked and
     * scored in index order until the first collision, which ends the scan.
     */
    method ScanPipes() returns (result: bool)
      requires pipeCount >= 0 && |pipes| == pipeCount + 1
      modifies this`pipes, this`score
      ensures var k := FirstCollision(geo, birdPosX, birdPosY, old(pipes));
              result == (k == |old(pipes)|) &&
              pipes == MarkPassed(geo, birdPosX, old(pipes)[..k]) + old(pipes)[k..] &&
              score == old(score) + CountScoring(geo, birdPosX, old(pipes)[..k])
    {
      ghost var ps := pipes;
      for index := 0 to pipeCount + 1
        invariant pipes == MarkPassed(geo, birdPosX, ps[..index]) + ps[index..]
        invariant score == old(score) + CountScoring(geo, birdPosX, ps[..index])
        invariant forall j :: 0 <= j < index ==> !Collides(geo, birdPosX, birdPosY, ps[j])
      {
        ScanStep(geo, birdPosX, ps, index);
        var pipe := pipes[index];
        if Engaged(geo, birdPosX, pipe) {
          if Overlaps(geo, birdPosX, pipe) {
            if OutsideGap(geo, birdPosY, pipe) {
              assert FirstCollision(geo, birdPosX, birdPosY, ps) == index;
              return false;
            }
          }
        } else if (pipe.position as real) < birdPosX && !pipe.isPassed {
          Score();
          pipes := pipes[index := pipe.(isPassed := true)];
        }
      }
      assert FirstCollision(geo, birdPosX, birdPosY, ps) == |ps|;
      return true;
    }

    /**
     * One pass of the body of `run`'s loop: the bird moves by its velocity, the
     * pipes scroll, `isAlive` decides, and gravity adds to the velocity while it
     * is at most `VelocityCeiling`. Afterwards the pool holds exactly
     * `pipeCount + 1` pipes, all right of `-pipeWidth`, and the score has not
     * gone down.
     */
    method Tick(newDraws: seq<real>, recycleDraws: seq<real>)
      requires Valid()
      requires |newDraws| == pipeCount + 1 && |recycleDraws| == pipeCount + 1
      requires AllFractions(newDraws) && AllFractions(recycleDraws)
      modifies this`birdPosY, this`pipes, this`alive, this`score, this`birdVelocity
      ensures Valid()
      ensures birdPosY == old(birdPosY) + old(birdVelocity)
      ensures birdVelocity == NextVelocity(old(birdVelocity))
      ensures var o := AliveCheck(geo, birdPosX, birdPosY,
                                  AdvancedPool(geo, old(pipes), pipeCount, newDraws, recycleDraws));
              alive == o.alive && pipes == o.pipes && score == old(score) + o.gained
      ensures |pipes| == pipeCount + 1 && old(|pipes|) <= |pipes|
      ensures score >= old(score)
      ensures forall i :: 0 <= i < |pipes| ==> -geo.pipeWidth < pipes[i].position
    {
      birdPosY := birdPosY + birdVelocity;
      ghost var before := pipes;
      ScrollPipes(newDraws, recycleDraws);
      AdvancedPoolInPlace(geo, before, pipeCount, newDraws, recycleDraws);
      ghost var scrolled := pipes;
      alive := IsAlive();
      assert forall i :: 0 <= i < |pipes| ==> InPlace(geo, i, scrolled[i]);
      if birdVelocity <= VelocityCeiling {
        birdVelocity := birdVelocity + Acceleration;
      }
    }

    /** The touch handler on `ACTION_DOWN`: the bird's velocity becomes `JumpVelocity`. */
    method OnTouchDown()
      requires Valid()
      modifies this`birdVelocity
      ensures Valid()
      ensures birdVelocity == JumpVelocity
    {
      birdVelocity := JumpVelocity;
    }

    /** `stopGame`: both flags cleared; calling it again changes nothing more. */
    method StopGame()
      modifies this`running, this`alive
      ensures !running && !alive
    {
      running := false;
      alive := false;
    }

    /**
     * `fall`: the dead bird drops 15 pixels per step until it is on or below the
     * ground, `FallSteps` steps in all (the rotation counter of the source is
     * `steps + 1` at the end), then the game stops and one GAME_OVER message is sent.
     */
    method Fall() returns (steps: nat)
      requires Valid()
      modifies this`birdPosY, this`running, this`alive, this`gameOverMessages
      ensures Valid()
      ensures steps == FallSteps(old(birdPosY), geo.GroundPosY())
      ensures birdPosY == old(birdPosY) + steps as real * FallStep
      ensures birdPosY >= geo.GroundPosY() as real
      ensures !running && !alive
      ensures gameOverMessages == old(gameOverMessages) + 1
    {
      var groundPosY := geo.measuredHeight - GroundHeight;
      steps := 0;
      while birdPosY < groundPosY as real
        invariant birdPosY == old(birdPosY) + steps as real * FallStep
        invariant gameOverMessages == old(gameOverMessages)
        invariant FallSteps(old(birdPosY), groundPosY) == steps + FallSteps(birdPosY, groundPosY)
        decreases if birdPosY < groundPosY as real then (groundPosY as real - birdPosY).Floor + 1 else 0
      {
        birdPosY := birdPosY + FallStep;
        steps := steps + 1;
      }
      StopGame();
      gameOverMessages := gameOverMessages + 1;
    }

    /**
     * What `run` does once its loop has ended: only a game that is still running
     * but whose bird is dead falls and reports game over.
     */
    method FinishRun()
      requires Valid()
      modifies this`birdPosY, this`running, this`alive, this`gameOverMessages
      ensures Valid()
      ensures old(running && !alive) ==>
                birdPosY == old(birdPosY) + FallSteps(old(birdPosY), geo.GroundPosY()) as real * FallStep &&
                !running && !alive && gameOverMessages == old(gameOverMessages) + 1
      ensures !old(running && !alive) ==>
                birdPosY == old(birdPosY) && running == old(running) && alive == old(alive) &&
                gameOverMessages == old(gameOverMessages)
    {
      if running && !alive {
        var _ := Fall();
      }
    }
  }
}
