/**
 * The pipes: one record per pipe, the random length of a pipe's upper part,
 * the creation of a pipe by index and the per-tick scroll that recycles a pipe
 * once it has left the screen.
 */
module Pipes {
  import opened Dimensions
  import opened KotlinMath

  /** A pipe: its left edge, the length of its upper part (the top of the gap)
      and whether the bird has already scored on it. */
  datatype Pipe = Pipe(position: int, length: int, isPassed: bool)

  /** A fraction drawn from `Random().nextFloat()`. */
  predicate IsFraction(r: real) {
    0.0 <= r < 1.0
  }

  predicate AllFractions(rs: seq<real>) {
    forall i :: 0 <= i < |rs| ==> IsFraction(rs[i])
  }

  /** The height the random part of a pipe's length may span. */
  function Baseline(measuredHeight: int): int {
    TruncDiv(measuredHeight - PipeGap - GroundHeight - PipeBaseLength * 2, 2)
  }

  /** The pipe lengths the generator produces on a screen tall enough for them. */
  predicate LengthInRange(measuredHeight: int, length: int) {
    PipeBaseLength + PipeLengthMargin <= length <= PipeBaseLength + Baseline(measuredHeight) + PipeLengthMargin
  }

  /**
   * `calculatePipeLength` with the random fraction `r` as a parameter.
   * On a screen where the baseline is not negative, the gap top is at least
   * 110 pixels down, strictly below the baseline's end when there is room,
   * and the gap's bottom stays above the ground.
   */
  function PipeLength(measuredHeight: int, r: real): (length: int)
    requires IsFraction(r)
    ensures Baseline(measuredHeight) >= 0 ==> LengthInRange(measuredHeight, length)
    ensures Baseline(measuredHeight) > 0 ==>
              length < PipeBaseLength + Baseline(measuredHeight) + PipeLengthMargin
    ensures Baseline(measuredHeight) >= 0 ==> length + PipeGap < measuredHeight - GroundHeight
  {
    var b := Baseline(measuredHeight);
    var spread := b as real * r;
    var length := TruncToInt(PipeBaseLength as real + spread) + PipeLengthMargin;
    assert b >= 0 ==> LengthInRange(measuredHeight, length) && (b > 0 ==> length < PipeBaseLength + b + PipeLengthMargin) by {
      if b >= 0 { TruncatedSpread(b, r); }
    }
    assert b >= 0 ==> length + PipeGap < measuredHeight - GroundHeight by {
      if b >= 0 { LongestGapAboveGround(measuredHeight); }
    }
    length
  }

  /** The truncated sum of the base length and a fraction of a non-negative baseline. */
  lemma TruncatedSpread(b: int, r: real)
    requires b >= 0 && IsFraction(r)
    ensures var n := TruncToInt(PipeBaseLength as real + b as real * r);
            PipeBaseLength <= n <= PipeBaseLength + b && (b > 0 ==> n < PipeBaseLength + b)
  {
    FractionOfPositive(b as real, r);
  }

  /** On a screen whose baseline is not negative, even the longest pipe leaves the gap's
      bottom at least 89 pixels above the ground. */
  lemma LongestGapAboveGround(measuredHeight: int)
    requires Baseline(measuredHeight) >= 0
    ensures PipeBaseLength + Baseline(measuredHeight) + PipeLengthMargin + PipeGap + 89 <= measuredHeight - GroundHeight
  {
  }

  /** A fraction of a non-negative amount lies between zero and that amount,
      strictly below it when the amount is positive. */
  lemma FractionOfPositive(x: real, r: real)
    requires x >= 0.0 && IsFraction(r)
    ensures 0.0 <= x * r <= x
    ensures x > 0.0 ==> x * r < x
  {
    assert x - x * r == x * (1.0 - r);
  }

  /** `pipeCount` as `resetData` computes it: how many more pipes fit after the first. */
  function PipeCount(g: Geometry): (n: int)
    requires g.Valid()
    ensures n >= 0
    ensures g.measuredWidth < g.pipeWidth ==> n == 0
    ensures g.pipeWidth <= g.measuredWidth ==>
              n * (g.pipeWidth + PipeInterval) + g.pipeWidth <= g.measuredWidth
    ensures g.measuredWidth < (n + 1) * (g.pipeWidth + PipeInterval) + g.pipeWidth
  {
    TruncDiv(g.measuredWidth - g.pipeWidth, g.pipeWidth + PipeInterval)
  }

  /** The pipe that `getPipe(index)` creates when the pool does not reach `index` yet. */
  function NewPipe(g: Geometry, index: nat, r: real): (p: Pipe)
    requires IsFraction(r)
  {
    Pipe(g.measuredWidth + (g.pipeWidth + PipeInterval) * index, PipeLength(g.measuredHeight, r), false)
  }

  /**
   * One tick of one pipe: it moves left by `PipeVelocity`; once its left edge is
   * at or beyond `-pipeWidth` it is recycled at the right edge of the view with a
   * fresh length `PipeLength(measuredHeight, r)` and its scored flag cleared.
   */
  function Step(g: Geometry, p: Pipe, r: real): (s: Pipe)
    requires g.Valid() && IsFraction(r)
    ensures -g.pipeWidth < s.position
    ensures s.isPassed <==> p.isPassed && s.position == p.position - PipeVelocity
    ensures s.position == p.position - PipeVelocity || s.position == g.measuredWidth
    ensures p.position - PipeVelocity > -g.pipeWidth ==> s == p.(position := p.position - PipeVelocity)
    ensures p.position - PipeVelocity <= -g.pipeWidth ==>
              s.position == g.measuredWidth && !s.isPassed &&
              (Baseline(g.measuredHeight) >= 0 ==> LengthInRange(g.measuredHeight, s.length))
  {
    var moved := p.(position := p.position - PipeVelocity);
    if moved.position <= -g.pipeWidth then
      moved.(position := g.measuredWidth, length := PipeLength(g.measuredHeight, r), isPassed := false)
    else
      moved
  }

  /** Where the pipe with index `i` may be: on or right of `-pipeWidth`, never right of
      where it was created, and, on a tall enough screen, with a length in range. */
  predicate InPlace(g: Geometry, i: nat, p: Pipe) {
    -g.pipeWidth < p.position <= g.measuredWidth + (g.pipeWidth + PipeInterval) * i &&
    (Baseline(g.measuredHeight) >= 0 ==> LengthInRange(g.measuredHeight, p.length))
  }

  ghost predicate PoolInPlace(g: Geometry, ps: seq<Pipe>) {
    forall i :: 0 <= i < |ps| ==> InPlace(g, i, ps[i])
  }

  /** The pipe that index `i` holds before the scroll of a tick: the pooled one,
      or the one `getPipe` creates. */
  function PooledOrNew(g: Geometry, ps: seq<Pipe>, i: nat, newDraws: seq<real>): Pipe
    requires i < |newDraws| && AllFractions(newDraws)
  {
    if i < |ps| then ps[i] else NewPipe(g, i, newDraws[i])
  }

  /**
   * The pool after the scroll loop of one tick, which visits the indices
   * `0..pipeCount` inclusive: `pipeCount + 1` pipes. The pipe at index `i` is
   * created with `newDraws[i]` when missing and recycled with `recycleDraws[i]`.
   */
  function AdvancedPool(g: Geometry, ps: seq<Pipe>, count: nat,
                        newDraws: seq<real>, recycleDraws: seq<real>): (qs: seq<Pipe>)
    requires g.Valid() && |ps| <= count + 1
    requires |newDraws| == count + 1 && |recycleDraws| == count + 1
    requires AllFractions(newDraws) && AllFractions(recycleDraws)
  {
    seq(count + 1, i requires 0 <= i < count + 1 =>
      Step(g, PooledOrNew(g, ps, i, newDraws), recycleDraws[i]))
  }

  /** A freshly created pipe is in place. */
  lemma NewPipeInPlace(g: Geometry, i: nat, r: real)
    requires g.Valid() && IsFraction(r)
    ensures InPlace(g, i, NewPipe(g, i, r))
  {
    assert (g.pipeWidth + PipeInterval) * i >= 0;
  }

  /** A pipe in place stays in place through a tick's scroll. */
  lemma StepInPlace(g: Geometry, i: nat, p: Pipe, r: real)
    requires g.Valid() && IsFraction(r) && InPlace(g, i, p)
    ensures InPlace(g, i, Step(g, p, r))
  {
    assert (g.pipeWidth + PipeInterval) * i >= 0;
  }

  /**
   * After the scroll of a tick the pool holds exactly `pipeCount + 1` pipes, it has
   * not lost any, every one of them is right of `-pipeWidth`, and every one is in
   * place provided the pooled ones were.
   */
  lemma AdvancedPoolInPlace(g: Geometry, ps: seq<Pipe>, count: nat,
                            newDraws: seq<real>, recycleDraws: seq<real>)
    requires g.Valid() && |ps| <= count + 1
    requires |newDraws| == count + 1 && |recycleDraws| == count + 1
    requires AllFractions(newDraws) && AllFractions(recycleDraws)
    requires PoolInPlace(g, ps)
    ensures var qs := AdvancedPool(g, ps, count, newDraws, recycleDraws);
            |qs| == count + 1 && |ps| <= |qs| && PoolInPlace(g, qs)
  {
    var qs := AdvancedPool(g, ps, count, newDraws, recycleDraws);
    forall i | 0 <= i < |qs| ensures InPlace(g, i, qs[i]) {
      if i >= |ps| {
        NewPipeInPlace(g, i, newDraws[i]);
      }
      StepInPlace(g, i, PooledOrNew(g, ps, i, newDraws), recycleDraws[i]);
    }
  }
}
