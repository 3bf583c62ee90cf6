/** The monitor under the mouse pointer, from `get_current_monitor_bbox`
    (presuffix.py:51-57). The pointer position, the monitor rectangles in
    the order the display enumeration reports them, and the virtual-screen
    size are inputs. */
module MonitorLocator {
  import opened Common

  /** The half-open test `x1 <= x < x2 and y1 <= y < y2`. */
  predicate Contains(b: Box, x: int, y: int) {
    b.x1 <= x < b.x2 && b.y1 <= y < b.y2
  }

  predicate AnyContains(monitors: seq<Box>, x: int, y: int) {
    exists i :: 0 <= i < |monitors| && Contains(monitors[i], x, y)
  }

  /** The first monitor in list order whose box holds the pointer, or the
      whole virtual screen `(0, 0, vw, vh)` when none does. */
  function Locate(x: int, y: int, monitors: seq<Box>, vw: int, vh: int): (r: Box)
    ensures AnyContains(monitors, x, y) ==>
      exists i :: 0 <= i < |monitors| && r == monitors[i] && Contains(r, x, y) &&
                  forall j :: 0 <= j < i ==> !Contains(monitors[j], x, y)
    ensures !AnyContains(monitors, x, y) ==> r == Box(0, 0, vw, vh)
  {
    if monitors == [] then Box(0, 0, vw, vh)
    else if Contains(monitors[0], x, y) then monitors[0]
    else
      var r := Locate(x, y, monitors[1..], vw, vh);
      assert AnyContains(monitors, x, y) ==> AnyContains(monitors[1..], x, y) by {
        if AnyContains(monitors, x, y) {
          var i :| 0 <= i < |monitors| && Contains(monitors[i], x, y);
          assert monitors[1..][i - 1] == monitors[i];
        }
      }
      assert AnyContains(monitors[1..], x, y) ==> AnyContains(monitors, x, y) by {
        if AnyContains(monitors[1..], x, y) {
          var i :| 0 <= i < |monitors[1..]| && Contains(monitors[1..][i], x, y);
          assert monitors[i + 1] == monitors[1..][i];
        }
      }
      if AnyContains(monitors[1..], x, y) then
        var i :| 0 <= i < |monitors[1..]| && r == monitors[1..][i] && Contains(r, x, y) &&
                 forall j :: 0 <= j < i ==> !Contains(monitors[1..][j], x, y);
        assert forall j :: 0 <= j < i + 1 ==> !Contains(monitors[j], x, y) by {
          forall j | 0 <= j < i + 1 ensures !Contains(monitors[j], x, y) {
            if j > 0 {
              assert monitors[j] == monitors[1..][j - 1];
            }
          }
        }
        assert monitors[i + 1] == r;
        r
      else r
  }

  /** Monitors listed after the one that holds the pointer are never
      consulted. */
  lemma {:induction false} LocateIgnoresLater(x: int, y: int, front: seq<Box>, back: seq<Box>, vw: int, vh: int)
    requires AnyContains(front, x, y)
    ensures Locate(x, y, front + back, vw, vh) == Locate(x, y, front, vw, vh)
    decreases |front|
  {
    if !Contains(front[0], x, y) {
      assert (front + back)[1..] == front[1..] + back;
      var i :| 0 <= i < |front| && Contains(front[i], x, y);
      assert front[1..][i - 1] == front[i];
      LocateIgnoresLater(x, y, front[1..], back, vw, vh);
    }
  }

  /** Monitors that do not hold the pointer can be dropped from the front
      of the list without changing the answer. */
  lemma {:induction false} LocateSkipsMisses(x: int, y: int, front: seq<Box>, back: seq<Box>, vw: int, vh: int)
    requires forall i :: 0 <= i < |front| ==> !Contains(front[i], x, y)
    ensures Locate(x, y, front + back, vw, vh) == Locate(x, y, back, vw, vh)
    decreases |front|
  {
    if front == [] {
      assert front + back == back;
    } else {
      assert (front + back)[0] == front[0];
      assert (front + back)[1..] == front[1..] + back;
      LocateSkipsMisses(x, y, front[1..], back, vw, vh);
    }
  }
}
