/**
 * The fixed layout constants of the game view and the view's geometry.
 *
 * The Android view supplies its size (`width`/`height` and the measured
 * `measuredWidth`/`measuredHeight`) and the decoded bitmaps supply the pipe
 * and bird sizes; the model takes all of them as one immutable value.
 */
module Dimensions {

  /** Height of the ground strip at the bottom of the view, in pixels. */
  const GroundHeight: int := 425
  /** Vertical size of the passable gap of every pipe. */
  const PipeGap: int := 450
  /** Shortest upper pipe, before the random part and the margin are added. */
  const PipeBaseLength: int := 100
  /** Extra pixels added to every generated pipe length. */
  const PipeLengthMargin: int := 10
  /** Pixels every pipe moves to the left per tick. */
  const PipeVelocity: int := 5
  /** Horizontal space between two neighbouring pipes. */
  const PipeInterval: int := 300
  /** The bird dies when its top edge is at or above this height. */
  const TopMargin: real := 5.0
  /** The bird's right edge used for collisions is this far inside its bitmap. */
  const BirdRightInset: int := 10

  datatype Geometry = Geometry(
    measuredWidth: int,
    measuredHeight: int,
    width: int,
    height: int,
    pipeWidth: int,
    birdWidth: int,
    birdHeight: int)
  {
    /** Sizes are never negative and decoded bitmaps are never empty. */
    predicate Valid() {
      measuredWidth >= 0 && measuredHeight >= 0 && width >= 0 && height >= 0 &&
      pipeWidth > 0 && birdWidth > 0 && birdHeight > 0
    }

    /** The y coordinate of the top of the ground. */
    function GroundPosY(): int {
      measuredHeight - GroundHeight
    }
  }
}
