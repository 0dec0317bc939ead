/**
 * The two record types of the engine-performance routine: a tri-axial
 * vibration sample and a pothole-detection window.
 *
 * Every field is a JavaScript `number` (an IEEE double) in the original;
 * here they are exact reals, so NaN, infinities and rounding are outside the
 * model.
 */
module Samples {

  /** One row of vibration data: a timestamp and three accelerations. */
  datatype Sample = Sample(time: real, x: real, y: real, z: real)

  /** A pothole detection, explaining every spike whose time lies in [startTime, endTime]. */
  datatype Window = Window(startTime: real, endTime: real)

  /** Both ends of a window are inclusive, and a window that covers anything is not reversed. */
  predicate Covers(w: Window, t: real)
    ensures Covers(w, t) ==> w.startTime <= w.endTime
    ensures w.startTime <= w.endTime && (t == w.startTime || t == w.endTime) ==> Covers(w, t)
  {
    w.startTime <= t <= w.endTime
  }

  /** The `.some(...)` test: at least one window covers time `t`; an empty list explains nothing. */
  predicate IsExplained(t: real, windows: seq<Window>)
    ensures windows == [] ==> !IsExplained(t, windows)
  {
    exists j :: 0 <= j < |windows| && Covers(windows[j], t)
  }

  /**
   * `.some` visits the windows in order: the first window decides, or else
   * the rest are asked.
   */
  lemma ExplainedByFirstOrRest(t: real, windows: seq<Window>)
    requires windows != []
    ensures IsExplained(t, windows) <==> Covers(windows[0], t) || IsExplained(t, windows[1..])
  {
    if IsExplained(t, windows[1..]) {
      var j :| 0 <= j < |windows[1..]| && Covers(windows[1..][j], t);
      assert windows[j + 1] == windows[1..][j];
    }
    if IsExplained(t, windows) && !Covers(windows[0], t) {
      var j :| 0 <= j < |windows| && Covers(windows[j], t);
      assert windows[1..][j - 1] == windows[j];
    }
  }
}
