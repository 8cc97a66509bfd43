/** The sampling grid of downloadImages: the export instants for a window
    [start, end] at a fixed interval, all in integer milliseconds. */
module SampleGrid {

  /** A span of at most one interval gives the two end points; a longer span
      gives `start + k * it` for `k = 0 .. span / it`, followed by `end`. */
  function Grid(start: int, end: int, it: int): (g: seq<int>)
    requires it > 0
    ensures |g| >= 2 && g[0] == start && g[|g| - 1] == end
  {
    var span := end - start;
    if span > it then
      seq(span / it + 1, k => start + k * it) + [end]
    else
      [start, end]
  }

  /** A window no longer than the interval gives exactly its two end points. */
  lemma GridShort(start: int, end: int, it: int)
    requires it > 0 && end - start <= it
    ensures Grid(start, end, it) == [start, end]
  {
  }

  /** A longer window gives `span / it + 2` instants: the first `q + 1` on the
      uniform grid from `start`, then `end`, which repeats the previous
      instant exactly when the span is a multiple of the interval. */
  lemma GridLong(start: int, end: int, it: int)
    requires it > 0 && end - start > it
    ensures var g := Grid(start, end, it); var q := (end - start) / it;
      |g| == q + 2 &&
      g[0] == start && g[|g| - 1] == end &&
      (forall k :: 0 <= k <= q ==> g[k] == start + k * it) &&
      start + q * it <= end < start + q * it + it &&
      (g[|g| - 2] == end <==> (end - start) % it == 0)
  {
    var span, q := end - start, (end - start) / it;
    assert span == q * it + span % it;
    var g := Grid(start, end, it);
    assert g[|g| - 2] == start + q * it;
  }

  /** Scaling by a positive interval keeps the order of the multipliers. */
  lemma ScaleMonotone(i: int, j: int, it: int)
    requires it > 0 && i <= j
    ensures i * it <= j * it
  {
    assert j * it == i * it + (j - i) * it;
  }

  /** For a non-empty window the grid runs from `start` to `end` in order:
      every gap but the last is exactly one interval, the last is at most one
      interval, and every instant lies inside the window. */
  lemma {:induction false} GridOrdered(start: int, end: int, it: int)
    requires it > 0 && start < end
    ensures var g := Grid(start, end, it);
      |g| >= 2 && g[0] == start && g[|g| - 1] == end &&
      (forall i :: 0 <= i < |g| - 2 ==> g[i + 1] == g[i] + it) &&
      g[|g| - 2] <= g[|g| - 1] <= g[|g| - 2] + it &&
      (forall i :: 0 <= i < |g| ==> start <= g[i] <= end)
  {
    var g := Grid(start, end, it);
    if end - start > it {
      GridLong(start, end, it);
      var q := (end - start) / it;
      forall i | 0 <= i < |g| - 2 ensures g[i + 1] == g[i] + it {
        assert g[i] == start + i * it;
        assert g[i + 1] == start + (i + 1) * it;
        assert (i + 1) * it == i * it + it;
      }
      forall i | 0 <= i < |g| ensures start <= g[i] <= end {
        if i <= q {
          assert g[i] == start + i * it;
          ScaleMonotone(0, i, it);
          ScaleMonotone(i, q, it);
        }
      }
    }
  }

  /** Hence the grid is sorted: a later instant is never earlier. */
  lemma {:induction false} GridSorted(start: int, end: int, it: int)
    requires it > 0 && start < end
    ensures var g := Grid(start, end, it);
      forall i, j :: 0 <= i <= j < |g| ==> g[i] <= g[j]
  {
    var g := Grid(start, end, it);
    GridOrdered(start, end, it);
    if end - start > it {
      GridLong(start, end, it);
      var q := (end - start) / it;
      forall i, j | 0 <= i <= j < |g| ensures g[i] <= g[j] {
        if j <= q {
          assert g[i] == start + i * it && g[j] == start + j * it;
          ScaleMonotone(i, j, it);
        }
      }
    }
  }

  /** 12:00:00 to 12:10:00 at three minutes gives 12:00, 12:03, 12:06, 12:09
      and 12:10 (milliseconds since midnight). */
  lemma TenMinuteWindow()
    ensures Grid(43200000, 43800000, 180000) ==
            [43200000, 43380000, 43560000, 43740000, 43800000]
  {
    var g := Grid(43200000, 43800000, 180000);
    assert (43800000 - 43200000) / 180000 == 3;
    assert |g| == 5;
    assert g[1] == 43200000 + 1 * 180000;
    assert g[2] == 43200000 + 2 * 180000;
    assert g[3] == 43200000 + 3 * 180000;
  }

  /** 12:45:00 to 12:46:00 at three minutes gives just 12:45 and 12:46. */
  lemma ShortEventWindow()
    ensures Grid(45900000, 45960000, 180000) == [45900000, 45960000]
  {
    GridShort(45900000, 45960000, 180000);
  }
}
