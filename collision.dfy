/**
 * `isAlive` as a function of the geometry, the bird's position and the pipe
 * pool: the zero-size guard, the top and ground test, the per-pipe collision
 * test that stops at the first hit, and the scoring of passed pipes.
 */
module Collision {
  import opened Dimensions
  import opened Pipes

  /** The view has no size yet: the checks are skipped. */
  predicate ZeroSize(g: Geometry) {
    g.width == 0 || g.height == 0
  }

  /** The bird touches the top or the ground. */
  predicate OutOfBounds(g: Geometry, birdY: real) {
    birdY <= TopMargin || birdY >= g.GroundPosY() as real
  }

  /** The pipe lies between the bird's left edge and the right border of the view. */
  predicate Engaged(g: Geometry, birdX: real, p: Pipe) {
    (p.position + g.pipeWidth) as real >= birdX && p.position < g.measuredWidth
  }

  /** The bird's horizontal span, inset by `BirdRightInset` on the right, meets the pipe's. */
  predicate Overlaps(g: Geometry, birdX: real, p: Pipe) {
    birdX + (g.birdWidth - BirdRightInset) as real >= p.position as real &&
    birdX <= (p.position + g.pipeWidth) as real
  }

  /** The bird's top is at or above the gap's top, or its bottom at or below the gap's bottom. */
  predicate OutsideGap(g: Geometry, birdY: real, p: Pipe) {
    birdY <= p.length as real || birdY + g.birdHeight as real >= (p.length + PipeGap) as real
  }

  predicate Collides(g: Geometry, birdX: real, birdY: real, p: Pipe) {
    Engaged(g, birdX, p) && Overlaps(g, birdX, p) && OutsideGap(g, birdY, p)
  }

  /** The pipe is left of the bird, out of the engaged zone, and not yet scored. */
  predicate Scores(g: Geometry, birdX: real, p: Pipe) {
    !Engaged(g, birdX, p) && (p.position as real) < birdX && !p.isPassed
  }

  /** The pipe as the scan leaves it: marked passed if it scores. */
  function Mark(g: Geometry, birdX: real, p: Pipe): Pipe {
    if Scores(g, birdX, p) then p.(isPassed := true) else p
  }

  function MarkPassed(g: Geometry, birdX: real, ps: seq<Pipe>): seq<Pipe> {
    seq(|ps|, i requires 0 <= i < |ps| => Mark(g, birdX, ps[i]))
  }

  /** The index of the first pipe the bird collides with, or `|ps|` when there is none. */
  function FirstCollision(g: Geometry, birdX: real, birdY: real, ps: seq<Pipe>): (k: nat)
    ensures k <= |ps|
    ensures forall j :: 0 <= j < k ==> !Collides(g, birdX, birdY, ps[j])
    ensures k < |ps| ==> Collides(g, birdX, birdY, ps[k])
    decreases |ps|
  {
    if |ps| == 0 then 0
    else if Collides(g, birdX, birdY, ps[0]) then 0
    else 1 + FirstCollision(g, birdX, birdY, ps[1..])
  }

  /** How many pipes of `ps` score. */
  function CountScoring(g: Geometry, birdX: real, ps: seq<Pipe>): nat
    decreases |ps|
  {
    if |ps| == 0 then 0
    else CountScoring(g, birdX, ps[..|ps| - 1]) + (if Scores(g, birdX, ps[|ps| - 1]) then 1 else 0)
  }

  /** How many pipes were switched from not passed to passed between `before` and `after`. */
  function NewlyPassed(before: seq<Pipe>, after: seq<Pipe>): nat
    requires |before| == |after|
    decreases |before|
  {
    if |before| == 0 then 0
    else
      var n := |before| - 1;
      NewlyPassed(before[..n], after[..n]) + (if !before[n].isPassed && after[n].isPassed then 1 else 0)
  }

  /** What one call of `isAlive` returns, the pool it leaves and the points it adds. */
  datatype Outcome = Outcome(alive: bool, pipes: seq<Pipe>, gained: nat)

  /** The pipes are examined: the view has a size and the bird is between top and ground. */
  predicate Scanned(g: Geometry, birdY: real) {
    !ZeroSize(g) && !OutOfBounds(g, birdY)
  }

  /**
   * `isAlive`. With no size it reports alive; touching the top or the ground it
   * reports dead; otherwise it scans the pipes in index order, scoring and marking
   * every passed pipe, and stops at the first collision, leaving the rest unexamined.
   * It never moves a pipe or changes a length.
   */
  function AliveCheck(g: Geometry, birdX: real, birdY: real, ps: seq<Pipe>): (o: Outcome)
    ensures |o.pipes| == |ps|
    ensures forall i :: 0 <= i < |ps| ==>
              o.pipes[i].position == ps[i].position && o.pipes[i].length == ps[i].length
  {
    if ZeroSize(g) then Outcome(true, ps, 0)
    else if OutOfBounds(g, birdY) then Outcome(false, ps, 0)
    else
      var k := FirstCollision(g, birdX, birdY, ps);
      Outcome(k == |ps|, MarkPassed(g, birdX, ps[..k]) + ps[k..], CountScoring(g, birdX, ps[..k]))
  }

  /** With no size, or with the bird at the top or on the ground, nothing is scored or marked. */
  lemma GuardsLeavePoolAlone(g: Geometry, birdX: real, birdY: real, ps: seq<Pipe>)
    ensures ZeroSize(g) ==> AliveCheck(g, birdX, birdY, ps) == Outcome(true, ps, 0)
    ensures !ZeroSize(g) && OutOfBounds(g, birdY) ==> AliveCheck(g, birdX, birdY, ps) == Outcome(false, ps, 0)
  {
  }

  /** The bird is reported alive exactly when the view has no size, or it is within
      bounds and collides with no pipe. */
  lemma AliveIffNoCollision(g: Geometry, birdX: real, birdY: real, ps: seq<Pipe>)
    ensures AliveCheck(g, birdX, birdY, ps).alive <==>
              ZeroSize(g) ||
              (!OutOfBounds(g, birdY) && forall i :: 0 <= i < |ps| ==> !Collides(g, birdX, birdY, ps[i]))
  {
    if Scanned(g, birdY) {
      var k := FirstCollision(g, birdX, birdY, ps);
      if k < |ps| {
        assert Collides(g, birdX, birdY, ps[k]);
      }
    }
  }

  /**
   * A pipe changes exactly when it is scored: the pipes are scanned, the pipe comes
   * before the first collision, and it is left of the bird, out of the engaged zone
   * and not yet passed. It then only becomes passed. An already passed pipe, and
   * every pipe from the first collision on, is left as it was.
   */
  lemma MarksExactlyScoringPipes(g: Geometry, birdX: real, birdY: real, ps: seq<Pipe>, i: nat)
    requires i < |ps|
    ensures var o := AliveCheck(g, birdX, birdY, ps);
            (o.pipes[i] != ps[i] <==>
               Scanned(g, birdY) && i < FirstCollision(g, birdX, birdY, ps) && Scores(g, birdX, ps[i])) &&
            (o.pipes[i] != ps[i] ==> o.pipes[i] == ps[i].(isPassed := true)) &&
            (ps[i].isPassed ==> o.pipes[i] == ps[i]) &&
            (Scanned(g, birdY) && i >= FirstCollision(g, birdX, birdY, ps) ==> o.pipes[i] == ps[i])
  {
    if Scanned(g, birdY) {
      var k := FirstCollision(g, birdX, birdY, ps);
      var o := AliveCheck(g, birdX, birdY, ps);
      if i < k {
        assert o.pipes[i] == Mark(g, birdX, ps[i]);
      } else {
        assert o.pipes[i] == ps[k..][i - k];
      }
    }
  }

  lemma {:induction false} NewlyPassedUnchanged(ps: seq<Pipe>)
    ensures NewlyPassed(ps, ps) == 0
    decreases |ps|
  {
    if |ps| > 0 {
      NewlyPassedUnchanged(ps[..|ps| - 1]);
    }
  }

  lemma {:induction false} NewlyPassedMarked(g: Geometry, birdX: real, ps: seq<Pipe>)
    ensures NewlyPassed(ps, MarkPassed(g, birdX, ps)) == CountScoring(g, birdX, ps)
    decreases |ps|
  {
    if |ps| > 0 {
      var n := |ps| - 1;
      assert MarkPassed(g, birdX, ps)[..n] == MarkPassed(g, birdX, ps[..n]);
      NewlyPassedMarked(g, birdX, ps[..n]);
    }
  }

  lemma {:induction false} NewlyPassedAppend(a1: seq<Pipe>, a2: seq<Pipe>, b1: seq<Pipe>, b2: seq<Pipe>)
    requires |a1| == |b1| && |a2| == |b2|
    ensures NewlyPassed(a1 + a2, b1 + b2) == NewlyPassed(a1, b1) + NewlyPassed(a2, b2)
    decreases |a2|
  {
    if |a2| == 0 {
      assert a1 + a2 == a1 && b1 + b2 == b1;
    } else {
      var n := |a2| - 1;
      assert (a1 + a2)[..|a1| + n] == a1 + a2[..n];
      assert (b1 + b2)[..|b1| + n] == b1 + b2[..n];
      NewlyPassedAppend(a1, a2[..n], b1, b2[..n]);
    }
  }

  /** The score rises by exactly the number of pipes switched from not passed to passed. */
  lemma ScoreIsNewlyPassed(g: Geometry, birdX: real, birdY: real, ps: seq<Pipe>)
    ensures var o := AliveCheck(g, birdX, birdY, ps);
            o.gained == NewlyPassed(ps, o.pipes)
  {
    if !Scanned(g, birdY) {
      NewlyPassedUnchanged(ps);
    } else {
      var k := FirstCollision(g, birdX, birdY, ps);
      assert ps == ps[..k] + ps[k..];
      NewlyPassedAppend(ps[..k], ps[k..], MarkPassed(g, birdX, ps[..k]), ps[k..]);
      NewlyPassedMarked(g, birdX, ps[..k]);
      NewlyPassedUnchanged(ps[k..]);
    }
  }

  lemma {:induction false} MarkedScoreNothing(g: Geometry, birdX: real, ps: seq<Pipe>)
    ensures CountScoring(g, birdX, MarkPassed(g, birdX, ps)) == 0
    decreases |ps|
  {
    if |ps| > 0 {
      var n := |ps| - 1;
      assert MarkPassed(g, birdX, ps)[..n] == MarkPassed(g, birdX, ps[..n]);
      MarkedScoreNothing(g, birdX, ps[..n]);
    }
  }

  /**
   * Scoring happens once: checking again with the bird where it was reports the
   * same outcome, leaves the pool as it is and adds no point.
   */
  lemma CheckIdempotent(g: Geometry, birdX: real, birdY: real, ps: seq<Pipe>)
    ensures var o := AliveCheck(g, birdX, birdY, ps);
            AliveCheck(g, birdX, birdY, o.pipes) == Outcome(o.alive, o.pipes, 0)
  {
    if Scanned(g, birdY) {
      var k := FirstCollision(g, birdX, birdY, ps);
      var marked := MarkPassed(g, birdX, ps[..k]);
      var qs := marked + ps[k..];
      forall j | 0 <= j < k ensures !Collides(g, birdX, birdY, qs[j]) {
        assert qs[j] == Mark(g, birdX, ps[j]);
      }
      if k < |ps| {
        assert qs[k] == ps[k];
      }
      var k' := FirstCollision(g, birdX, birdY, qs);
      assert k' == k;
      assert qs[..k] == marked;
      assert qs[k..] == ps[k..];
      assert MarkPassed(g, birdX, marked) == marked;
      MarkedScoreNothing(g, birdX, ps[..k]);
    }
  }

  /**
   * One step of the scan over `ps`: with the first `index` pipes marked, the pipe at
   * `index` is still the original one; marking it when it scores (and leaving the
   * pool alone when it does not) gives the state after `index + 1` pipes, and the
   * count of scoring pipes grows by that pipe's point.
   */
  lemma ScanStep(g: Geometry, birdX: real, ps: seq<Pipe>, index: nat)
    requires index < |ps|
    ensures var cur := MarkPassed(g, birdX, ps[..index]) + ps[index..];
            var next := MarkPassed(g, birdX, ps[..index + 1]) + ps[index + 1..];
            cur[index] == ps[index] &&
            (Scores(g, birdX, ps[index]) ==> cur[index := ps[index].(isPassed := true)] == next) &&
            (!Scores(g, birdX, ps[index]) ==> cur == next)
    ensures CountScoring(g, birdX, ps[..index + 1]) ==
              CountScoring(g, birdX, ps[..index]) + (if Scores(g, birdX, ps[index]) then 1 else 0)
  {
    assert ps[..index + 1][..index] == ps[..index];
    var cur := MarkPassed(g, birdX, ps[..index]) + ps[index..];
    var next := MarkPassed(g, birdX, ps[..index + 1]) + ps[index + 1..];
    assert cur[index := Mark(g, birdX, ps[index])] == next;
  }
}
