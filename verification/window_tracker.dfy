/** The sliding-window lane tracker (`get_whole_lanes`): from a lane base, up to
    nine 220x72 windows are walked up the mask, each re-centred on the mean
    column of the true cells in the one below, and the mask is copied into an
    otherwise blank output inside every window visited. */
module WindowTracker {

  import opened Raster
  import opened Sequences

  const WindowWidth: int := 220
  const WindowHeight: int := 72
  const HalfWidth: int := WindowWidth / 2
  const MaxWindows: nat := 9

  /** A window's top-left cell: columns [left, left+220), rows [top, top+72). */
  datatype Window = Window(left: int, top: int)

  predicate InWindow(win: Window, i: int, j: int)
  {
    win.top <= i < win.top + WindowHeight && win.left <= j < win.left + WindowWidth
  }

  /** The window lies entirely inside an h x w grid. */
  predicate Inside(win: Window, h: int, w: int)
  {
    0 <= win.top && win.top + WindowHeight <= h && 0 <= win.left && win.left + WindowWidth <= w
  }

  // ---------------------------------------------------------------------------
  // Counting the true cells of a window and summing their column indices

  /** Number of true cells of row `i` in columns [lo, lo+n). */
  function RowHits(mask: Mask, i: int, lo: int, n: nat): (r: nat)
    ensures r <= n
  {
    if n == 0 then 0
    else RowHits(mask, i, lo, n - 1) + (if Cell(mask, i, lo + n - 1) then 1 else 0)
  }

  /** Sum of the column indices of the true cells of row `i` in columns [lo, lo+n). */
  function RowMoment(mask: Mask, i: int, lo: int, n: nat): int
  {
    if n == 0 then 0
    else RowMoment(mask, i, lo, n - 1) + (if Cell(mask, i, lo + n - 1) then lo + n - 1 else 0)
  }

  lemma {:induction false} RowHitsZero(mask: Mask, i: int, lo: int, n: nat)
    ensures RowHits(mask, i, lo, n) == 0 <==> forall j :: lo <= j < lo + n ==> !Cell(mask, i, j)
  {
    if n > 0 {
      RowHitsZero(mask, i, lo, n - 1);
    }
  }

  /** Each counted column lies in [lo, lo+n), so the moment is between lo and
      lo+n-1 times the count. */
  lemma {:induction false} RowMomentBounds(mask: Mask, i: int, lo: int, n: nat)
    requires n > 0
    ensures lo * RowHits(mask, i, lo, n) <= RowMoment(mask, i, lo, n) <= (lo + n - 1) * RowHits(mask, i, lo, n)
  {
    var hits, moment := RowHits(mask, i, lo, n - 1), RowMoment(mask, i, lo, n - 1);
    if n == 1 {
    } else {
      RowMomentBounds(mask, i, lo, n - 1);
      MulMonotone(lo + n - 2, lo + n - 1, hits);
      MulStep(lo, hits);
      MulStep(lo + n - 1, hits);
    }
  }

  /** Number of true cells in the first `rows` rows of the window. */
  function BoxHits(mask: Mask, win: Window, rows: nat): nat
  {
    if rows == 0 then 0
    else BoxHits(mask, win, rows - 1) + RowHits(mask, win.top + rows - 1, win.left, WindowWidth)
  }

  /** Sum of the column indices of the true cells in the first `rows` rows of the window. */
  function BoxMoment(mask: Mask, win: Window, rows: nat): int
  {
    if rows == 0 then 0
    else BoxMoment(mask, win, rows - 1) + RowMoment(mask, win.top + rows - 1, win.left, WindowWidth)
  }

  lemma {:induction false} BoxHitsZero(mask: Mask, win: Window, rows: nat)
    ensures BoxHits(mask, win, rows) == 0 <==>
              forall i, j :: win.top <= i < win.top + rows && win.left <= j < win.left + WindowWidth ==> !Cell(mask, i, j)
  {
    if rows > 0 {
      BoxHitsZero(mask, win, rows - 1);
      RowHitsZero(mask, win.top + rows - 1, win.left, WindowWidth);
    }
  }

  lemma {:induction false} BoxMomentBounds(mask: Mask, win: Window, rows: nat)
    ensures win.left * BoxHits(mask, win, rows) <= BoxMoment(mask, win, rows)
                <= (win.left + WindowWidth - 1) * BoxHits(mask, win, rows)
  {
    if rows > 0 {
      var i := win.top + rows - 1;
      BoxMomentBounds(mask, win, rows - 1);
      RowMomentBounds(mask, i, win.left, WindowWidth);
      var a, b := BoxHits(mask, win, rows - 1), RowHits(mask, i, win.left, WindowWidth);
      MulAdd(win.left, a, b);
      MulAdd(win.left + WindowWidth - 1, a, b);
    }
  }

  /** x*(a+b) == x*a + x*b. */
  lemma MulAdd(x: int, a: int, b: int)
    ensures x * (a + b) == x * a + x * b
  {
  }

  /** Number of true cells in the window (`np.any(bounding_box)` is `Hits > 0`). */
  function Hits(mask: Mask, win: Window): nat
  {
    BoxHits(mask, win, WindowHeight)
  }

  /** Sum of the column indices of the window's true cells. */
  function Moment(mask: Mask, win: Window): int
  {
    BoxMoment(mask, win, WindowHeight)
  }

  /** A window counts zero hits exactly when none of its cells is true. */
  lemma EmptyWindowIffNoTrueCell(mask: Mask, win: Window)
    ensures Hits(mask, win) == 0 <==> forall i, j :: InWindow(win, i, j) ==> !Cell(mask, i, j)
  {
    BoxHitsZero(mask, win, WindowHeight);
  }

  /** a <= m/h <= b whenever a*h <= m <= b*h and h > 0. */
  lemma FloorDivBetween(m: int, h: int, a: int, b: int)
    requires h > 0 && a * h <= m <= b * h
    ensures a <= m / h <= b
  {
    var q := m / h;
    assert q * h <= m < (q + 1) * h;
    MulMonotone(q + 1, a, h);
    MulMonotone(b + 1, q, h);
  }

  /** `left + 110` is the floor of the mean column of the true cells of `win`:
      (left+110) * hits <= sum of their columns < (left+111) * hits. */
  predicate CentredOn(mask: Mask, win: Window, left: int)
  {
    (left + HalfWidth) * Hits(mask, win) <= Moment(mask, win) < (left + HalfWidth + 1) * Hits(mask, win)
  }

  /** The next window's left edge: `int(np.mean(x_values[bounding_box])) - 110`,
      the floor of the mean column of the window's true cells, minus half the width. */
  function Recentre(mask: Mask, win: Window): (left: int)
    requires Hits(mask, win) > 0
    ensures CentredOn(mask, win, left)
    ensures win.left - HalfWidth <= left <= win.left + WindowWidth - 1 - HalfWidth
  {
    var hits, moment := Hits(mask, win), Moment(mask, win);
    BoxMomentBounds(mask, win, WindowHeight);
    FloorDivBetween(moment, hits, win.left, win.left + WindowWidth - 1);
    moment / hits - HalfWidth
  }

  // ---------------------------------------------------------------------------
  // The walk and the painted output

  /** The windows visited from `win` with at most `fuel` iterations left: each
      is visited, and the walk stops after an empty one. */
  function Walk(mask: Mask, win: Window, fuel: nat): (ws: seq<Window>)
    ensures |ws| <= fuel
    ensures fuel > 0 ==> |ws| >= 1 && ws[0] == win
    ensures forall k :: 0 <= k < |ws| ==> ws[k].top == win.top - WindowHeight * k
    decreases fuel
  {
    if fuel == 0 then []
    else if Hits(mask, win) == 0 then [win]
    else [win] + Walk(mask, Window(Recentre(mask, win), win.top - WindowHeight), fuel - 1)
  }

  /** Cell (i, j) lies in one of the windows `ws`. */
  predicate Visited(ws: seq<Window>, i: int, j: int)
  {
    exists k :: 0 <= k < |ws| && InWindow(ws[k], i, j)
  }

  /** `rtn[by:by+72, bx:bx+220] = mask[by:by+72, bx:bx+220]`. */
  function Paint(out: Mask, mask: Mask, win: Window): (r: Mask)
    requires SameShape(out, mask)
    ensures SameShape(r, mask)
    ensures forall i, j :: 0 <= i < |r| && 0 <= j < |r[i]| ==>
              r[i][j] == if InWindow(win, i, j) then mask[i][j] else out[i][j]
  {
    seq(|out|, i requires 0 <= i < |out| =>
      seq(|out[i]|, j requires 0 <= j < |out[i]| =>
        if InWindow(win, i, j) then mask[i][j] else out[i][j]))
  }

  /** The loop of `get_whole_lanes` from window `win` with `fuel` iterations left:
      paint, stop if the window was empty, otherwise re-centre and move up. */
  function Run(mask: Mask, out: Mask, win: Window, fuel: nat): (r: Mask)
    requires SameShape(out, mask)
    ensures SameShape(r, mask)
    ensures forall i, j :: 0 <= i < |r| && 0 <= j < |r[i]| ==>
              r[i][j] == if Visited(Walk(mask, win, fuel), i, j) then mask[i][j] else out[i][j]
    decreases fuel
  {
    if fuel == 0 then out
    else
      var painted := Paint(out, mask, win);
      if Hits(mask, win) == 0 then
        assert forall i, j :: Visited([win], i, j) <==> InWindow(win, i, j) by {
          forall i, j ensures Visited([win], i, j) <==> InWindow(win, i, j) {
            if InWindow(win, i, j) {
              assert InWindow([win][0], i, j);
            }
          }
        }
        painted
      else
        var next := Window(Recentre(mask, win), win.top - WindowHeight);
        var r := Run(mask, painted, next, fuel - 1);
        VisitedCons(win, Walk(mask, next, fuel - 1));
        r
  }

  /** Visiting `win` then `rest` covers `win`'s cells and `rest`'s cells. */
  lemma VisitedCons(win: Window, rest: seq<Window>)
    ensures forall i, j :: Visited([win] + rest, i, j) <==> InWindow(win, i, j) || Visited(rest, i, j)
  {
    var ws := [win] + rest;
    forall i, j
      ensures Visited(ws, i, j) <==> InWindow(win, i, j) || Visited(rest, i, j)
    {
      if Visited(ws, i, j) {
        var k :| 0 <= k < |ws| && InWindow(ws[k], i, j);
        if k > 0 {
          assert ws[k] == rest[k - 1];
        }
      }
      if InWindow(win, i, j) {
        assert InWindow(ws[0], i, j);
      }
      if Visited(rest, i, j) {
        var k :| 0 <= k < |rest| && InWindow(rest[k], i, j);
        assert ws[k + 1] == rest[k];
      }
    }
  }

  /** The first window: horizontally centred on the lane base, on the bottom rows. */
  function StartWindow(height: int, base: int): (win: Window)
    ensures win.left + HalfWidth == base
    ensures win.top + WindowHeight == height
  {
    Window(base - HalfWidth, height - WindowHeight)
  }

  /** The windows visited for a lane starting at `base`. */
  function LaneWalk(mask: Mask, base: int): seq<Window>
  {
    Walk(mask, StartWindow(|mask|, base), MaxWindows)
  }

  /** Every visited window lies inside the h x w mask (where the original's
      slicing neither wraps around nor clips). */
  predicate WalkInside(mask: Mask, w: nat, base: int)
  {
    forall k :: 0 <= k < |LaneWalk(mask, base)| ==> Inside(LaneWalk(mask, base)[k], |mask|, w)
  }

  /** A base closer than half a window to the left edge starts the walk outside
      the grid. */
  lemma BaseNearLeftEdgeLeavesGrid(mask: Mask, w: nat, base: int)
    requires base < HalfWidth
    ensures !WalkInside(mask, w, base)
  {
    assert LaneWalk(mask, base)[0] == StartWindow(|mask|, base);
  }

  /** One lane of `get_whole_lanes`: the mask kept inside the visited windows,
      false everywhere else. */
  function WholeLane(mask: Mask, w: nat, base: int): (r: Mask)
    requires Rect(mask, w) && WalkInside(mask, w, base)
    ensures |r| == |mask| && Rect(r, w)
    ensures forall i, j :: 0 <= i < |mask| && 0 <= j < w ==>
              (r[i][j] <==> mask[i][j] && Visited(LaneWalk(mask, base), i, j))
  {
    Run(mask, Blank(|mask|, w), StartWindow(|mask|, base), MaxWindows)
  }

  /** `get_whole_lanes`: the left and right lane masks, each from its own base. */
  function WholeLanes(mask: Mask, w: nat, left: int, right: int): (r: (Mask, Mask))
    requires Rect(mask, w) && WalkInside(mask, w, left) && WalkInside(mask, w, right)
    ensures |r.0| == |mask| && Rect(r.0, w)
    ensures forall i, j :: 0 <= i < |mask| && 0 <= j < w ==>
              (r.0[i][j] <==> mask[i][j] && Visited(LaneWalk(mask, left), i, j))
    ensures |r.1| == |mask| && Rect(r.1, w)
    ensures forall i, j :: 0 <= i < |mask| && 0 <= j < w ==>
              (r.1[i][j] <==> mask[i][j] && Visited(LaneWalk(mask, right), i, j))
  {
    (WholeLane(mask, w, left), WholeLane(mask, w, right))
  }


  // ---------------------------------------------------------------------------
  // Properties of the walk

  /** Every window but the last had a true cell and the next one is re-centred on
      it; a walk shorter than its fuel ended on an empty window. */
  lemma {:induction false} WalkSteps(mask: Mask, win: Window, fuel: nat)
    ensures var ws := Walk(mask, win, fuel);
              && (forall k :: 0 <= k < |ws| - 1 ==>
                    Hits(mask, ws[k]) > 0 && ws[k + 1].left == Recentre(mask, ws[k]))
              && (0 < |ws| < fuel ==> Hits(mask, ws[|ws| - 1]) == 0)
    decreases fuel
  {
    if fuel > 0 && Hits(mask, win) > 0 {
      var next := Window(Recentre(mask, win), win.top - WindowHeight);
      var rest := Walk(mask, next, fuel - 1);
      var ws := Walk(mask, win, fuel);
      assert ws == [win] + rest;
      WalkSteps(mask, next, fuel - 1);
      forall k | 0 <= k < |ws| - 1
        ensures Hits(mask, ws[k]) > 0 && ws[k + 1].left == Recentre(mask, ws[k])
      {
        if k > 0 {
          assert ws[k] == rest[k - 1] && ws[k + 1] == rest[k];
        }
      }
    }
    WalkEndsEmpty(mask, win, fuel);
  }

  /** A walk shorter than its fuel ended on an empty window. */
  lemma {:induction false} WalkEndsEmpty(mask: Mask, win: Window, fuel: nat)
    ensures var ws := Walk(mask, win, fuel);
              0 < |ws| < fuel ==> Hits(mask, ws[|ws| - 1]) == 0
    decreases fuel
  {
    if fuel > 0 && Hits(mask, win) > 0 {
      var next := Window(Recentre(mask, win), win.top - WindowHeight);
      var rest := Walk(mask, next, fuel - 1);
      WalkEndsEmpty(mask, next, fuel - 1);
      assert Walk(mask, win, fuel) == [win] + rest;
    }
  }

  /** The lane's walk has one to nine windows; the first is centred on the base,
      and the k-th covers rows [H - 72(k+1), H - 72k). */
  lemma LaneWalkRows(mask: Mask, base: int)
    ensures var ws := LaneWalk(mask, base);
              && 1 <= |ws| <= MaxWindows
              && ws[0].left == base - HalfWidth
              && forall k :: 0 <= k < |ws| ==>
                   ws[k].top == |mask| - WindowHeight * (k + 1)
                   && ws[k].top + WindowHeight == |mask| - WindowHeight * k
  {
  }

  /** Each window after the first has its left edge at the floor of the mean
      column of the true cells in the window below, minus 110; so it moved by
      at most 110 columns left or 109 right. */
  lemma WalkFollowsCentroid(mask: Mask, win: Window, fuel: nat)
    ensures var ws := Walk(mask, win, fuel);
              forall k :: 0 <= k < |ws| - 1 ==>
                && Hits(mask, ws[k]) > 0
                && CentredOn(mask, ws[k], ws[k + 1].left)
                && ws[k].left - HalfWidth <= ws[k + 1].left <= ws[k].left + WindowWidth - 1 - HalfWidth
  {
    var ws := Walk(mask, win, fuel);
    WalkSteps(mask, win, fuel);
    forall k | 0 <= k < |ws| - 1
      ensures Hits(mask, ws[k]) > 0
      ensures CentredOn(mask, ws[k], ws[k + 1].left)
      ensures ws[k].left - HalfWidth <= ws[k + 1].left <= ws[k].left + WindowWidth - 1 - HalfWidth
    {
      var next := Recentre(mask, ws[k]);
      assert ws[k + 1].left == next;
    }
  }

  /** The walk stops at the first window with no true cell; one that stops before
      nine windows ended on such a window, and every earlier window had a true cell. */
  lemma LaneWalkStopsAtEmptyWindow(mask: Mask, base: int)
    ensures var ws := LaneWalk(mask, base);
              && (forall k :: 0 <= k < |ws| - 1 ==> exists i, j :: InWindow(ws[k], i, j) && Cell(mask, i, j))
              && (|ws| < MaxWindows ==> forall i, j :: InWindow(ws[|ws| - 1], i, j) ==> !Cell(mask, i, j))
  {
    var ws := LaneWalk(mask, base);
    WalkSteps(mask, StartWindow(|mask|, base), MaxWindows);
    LaneWalkRows(mask, base);
    forall k | 0 <= k < |ws| - 1
      ensures exists i, j :: InWindow(ws[k], i, j) && Cell(mask, i, j)
    {
      EmptyWindowIffNoTrueCell(mask, ws[k]);
    }
    EmptyWindowIffNoTrueCell(mask, ws[|ws| - 1]);
  }

  /** The output keeps exactly the mask's true cells inside the visited windows:
      it is a subset of the mask, equal to it inside every visited window and
      false outside all of them. */
  lemma WholeLaneWithinWindows(mask: Mask, w: nat, base: int, i: int, j: int)
    requires Rect(mask, w) && WalkInside(mask, w, base)
    requires 0 <= i < |mask| && 0 <= j < w
    ensures WholeLane(mask, w, base)[i][j] ==> mask[i][j]
    ensures forall k :: 0 <= k < |LaneWalk(mask, base)| && InWindow(LaneWalk(mask, base)[k], i, j) ==>
              WholeLane(mask, w, base)[i][j] == mask[i][j]
    ensures !Visited(LaneWalk(mask, base), i, j) ==> !WholeLane(mask, w, base)[i][j]
  {
  }

  /** Rows above the last visited window are blank in the output; in particular,
      once a window comes up empty nothing above it is ever marked. */
  lemma WholeLaneBlankAboveStop(mask: Mask, w: nat, base: int)
    requires Rect(mask, w) && WalkInside(mask, w, base)
    ensures var ws := LaneWalk(mask, base);
              forall i, j :: 0 <= i < ws[|ws| - 1].top && 0 <= j < w ==> !WholeLane(mask, w, base)[i][j]
  {
    var ws := LaneWalk(mask, base);
    var r := WholeLane(mask, w, base);
    LaneWalkRows(mask, base);
    forall i, j | 0 <= i < ws[|ws| - 1].top && 0 <= j < w
      ensures !r[i][j]
    {
      assert forall k :: 0 <= k < |ws| ==> ws[k].top >= ws[|ws| - 1].top;
    }
  }

  /** An all-false mask makes the walk stop after its first window and gives an
      all-false output. */
  lemma WholeLaneOfBlankMask(h: nat, w: nat, base: int)
    requires WalkInside(Blank(h, w), w, base)
    ensures |LaneWalk(Blank(h, w), base)| == 1
    ensures WholeLane(Blank(h, w), w, base) == Blank(h, w)
  {
    var mask := Blank(h, w);
    var start := StartWindow(h, base);
    EmptyWindowIffNoTrueCell(mask, start);
    var r := WholeLane(mask, w, base);
    forall i | 0 <= i < h
      ensures r[i] == mask[i]
    {
    }
  }

  /** The left output does not depend on the right base, nor the right on the left. */
  lemma LanesIndependent(mask: Mask, w: nat, left: int, right: int, left': int, right': int)
    requires Rect(mask, w)
    requires WalkInside(mask, w, left) && WalkInside(mask, w, right)
    requires WalkInside(mask, w, left') && WalkInside(mask, w, right')
    ensures left == left' ==> WholeLanes(mask, w, left, right).0 == WholeLanes(mask, w, left', right').0
    ensures right == right' ==> WholeLanes(mask, w, left, right).1 == WholeLanes(mask, w, left', right').1
  {
  }

}
