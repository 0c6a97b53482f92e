/**
  The grid phase of the compositor: the target is cut down to a whole number of
  tiles, then swept box by box, x outer and y inner; for each box the region's
  colour signature is matched against the pool, the match is withdrawn and its
  tile is pasted into the box. The output canvas is modelled as the sequence of
  pastes (box and tile file name) in the order they happen.
*/
module Mosaic {
  import opened Wrappers
  import opened Colour
  import opened Pool

  /** `width /= tilesize; width *= tilesize` with Python 2 integer division: the largest
      multiple of the tile size that fits. */
  function Truncate(n: nat, t: nat): (m: nat)
    requires t > 0
    ensures m <= n && m % t == 0 && n - m < t
  {
    TruncateBounds(n, t);
    (n / t) * t
  }

  lemma TruncateBounds(n: nat, t: nat)
    requires t > 0
    ensures var m := (n / t) * t; m <= n && m % t == 0 && n - m < t
  {
    var q := n / t;
    FloorDiv(n, t);
    MulModZero(q, t);
    assert q * t == t * q;
    assert t * (q + 1) == t * q + t;
  }

  lemma MulModZero(a: int, d: int)
    requires d > 0
    ensures (a * d) % d == 0
  {
    MulDivCancel(a, d);
    assert a * d == d * ((a * d) / d) + (a * d) % d;
  }

  lemma DivModUnique(k: int, q: int, r: int, d: int)
    requires d > 0 && 0 <= r < d && k == q * d + r
    ensures k / d == q && k % d == r
  {
    FloorDiv(k, d);
    var q' := k / d;
    if q' < q {
      MulMono(q' + 1, q, d);
    } else if q' > q {
      MulMono(q + 1, q', d);
    }
    assert k == d * q' + k % d;
  }

  /** The box (x, y, x + t, y + t) of one cell. */
  function CellBox(x: int, y: int, t: int): Box
  {
    Box(x, y, x + t, y + t)
  }

  /** The boxes of the inner loop `for y in range(0, height, tilesize)` at column x:
      y = 0, t, ..., (rows - 1) * t. */
  function ColumnBoxes(x: int, rows: nat, t: int): seq<Box>
  {
    if rows == 0 then [] else ColumnBoxes(x, rows - 1, t) + [CellBox(x, (rows - 1) * t, t)]
  }

  /** The boxes of the two nested loops over a grid of cols x rows cells, in sweep order. */
  function GridBoxes(cols: nat, rows: nat, t: int): seq<Box>
  {
    if cols == 0 then [] else GridBoxes(cols - 1, rows, t) + ColumnBoxes((cols - 1) * t, rows, t)
  }

  lemma {:induction false} ColumnBoxesShape(x: int, rows: nat, t: int)
    ensures |ColumnBoxes(x, rows, t)| == rows
    ensures forall j :: 0 <= j < rows ==> ColumnBoxes(x, rows, t)[j] == CellBox(x, j * t, t)
  {
    if rows > 0 {
      ColumnBoxesShape(x, rows - 1, t);
    }
  }

  /** The sweep visits cols * rows boxes, x outer and y inner: the k-th box is the cell
      in column k / rows and row k % rows. */
  lemma {:induction false} GridBoxesOrder(cols: nat, rows: nat, t: int)
    ensures |GridBoxes(cols, rows, t)| == cols * rows
    ensures forall k :: 0 <= k < |GridBoxes(cols, rows, t)| ==>
      rows > 0 && GridBoxes(cols, rows, t)[k] == CellBox((k / rows) * t, (k % rows) * t, t)
  {
    if cols > 0 {
      var g, p := GridBoxes(cols, rows, t), GridBoxes(cols - 1, rows, t);
      GridBoxesOrder(cols - 1, rows, t);
      ColumnBoxesShape((cols - 1) * t, rows, t);
      assert (cols - 1) * rows + rows == cols * rows;
      forall k | 0 <= k < |g|
        ensures rows > 0 && g[k] == CellBox((k / rows) * t, (k % rows) * t, t)
      {
        if k < |p| {
          assert g[k] == p[k];
        } else {
          var j := k - |p|;
          DivModUnique(k, cols - 1, j, rows);
          assert g[k] == ColumnBoxes((cols - 1) * t, rows, t)[j];
        }
      }
    }
  }

  predicate AllInside(boxes: seq<Box>, w: nat, h: nat)
  {
    forall i :: 0 <= i < |boxes| ==> Inside(boxes[i], w, h)
  }

  lemma {:induction false} ColumnBoxesInside(x: int, rows: nat, t: int, w: nat, h: nat)
    requires t > 0 && 0 <= x && x + t <= w && rows * t <= h
    ensures AllInside(ColumnBoxes(x, rows, t), w, h)
  {
    if rows > 0 {
      assert (rows - 1) * t + t == rows * t;
      ColumnBoxesInside(x, rows - 1, t, w, h);
    }
  }

  /** Every box of the sweep lies inside a canvas of cols * t by rows * t pixels. */
  lemma {:induction false} GridBoxesInside(cols: nat, rows: nat, t: int, w: nat, h: nat)
    requires t > 0 && cols * t <= w && rows * t <= h
    ensures AllInside(GridBoxes(cols, rows, t), w, h)
  {
    if cols > 0 {
      assert (cols - 1) * t + t == cols * t;
      GridBoxesInside(cols - 1, rows, t, w, h);
      ColumnBoxesInside((cols - 1) * t, rows, t, w, h);
    }
  }

  /** The box of the cell in column xi and row yi, at x = xi * t and y = yi * t, is the
      sweep's (xi * rows + yi)-th. */
  lemma GridCell(cols: nat, rows: nat, t: int, xi: nat, yi: nat, k: nat, x: int, y: int)
    requires xi < cols && yi < rows && k == xi * rows + yi && x == xi * t && y == yi * t
    ensures k < |GridBoxes(cols, rows, t)|
    ensures GridBoxes(cols, rows, t)[k] == Box(x, y, x + t, y + t)
  {
    GridBoxesOrder(cols, rows, t);
    MulMono(xi + 1, cols, rows);
    assert k < (xi + 1) * rows;
    DivModUnique(k, xi, yi, rows);
  }

  /** i * t as the loop `for v in range(0, ..., t)` reaches it: by adding t, i times. */
  function Times(i: nat, t: int): int
  {
    if i == 0 then 0 else Times(i - 1, t) + t
  }

  lemma {:induction false} TimesIsProduct(i: nat, t: int)
    ensures Times(i, t) == i * t
  {
    if i > 0 {
      TimesIsProduct(i - 1, t);
    }
  }

  /** For t > 0 the loop `for v in range(0, n * t, t)` goes on exactly while i < n. */
  lemma TimesBelow(i: nat, n: nat, t: int)
    requires t > 0
    ensures Times(i, t) < Times(n, t) <==> i < n
  {
    TimesIsProduct(i, t);
    TimesIsProduct(n, t);
    if i < n {
      MulMono(i + 1, n, t);
    } else {
      MulMono(n, i, t);
    }
  }

  /** The boxes of column xi of the sweep, at x = xi * t, come one after another from
      box k = xi * rows on. */
  lemma GridColumn(cols: nat, rows: nat, t: int, xi: nat, x: int, k: nat)
    requires xi < cols && x == Times(xi, t) && k == Times(xi, rows)
    ensures k + rows <= |GridBoxes(cols, rows, t)|
    ensures forall j :: 0 <= j < rows ==> GridBoxes(cols, rows, t)[k + j] == CellBox(x, j * t, t)
  {
    TimesIsProduct(xi, t);
    TimesIsProduct(xi, rows);
    GridBoxesOrder(cols, rows, t);
    MulMono(xi + 1, cols, rows);
    assert k + rows == (xi + 1) * rows;
    forall j | 0 <= j < rows
      ensures GridBoxes(cols, rows, t)[k + j] == CellBox(x, j * t, t)
    {
      GridCell(cols, rows, t, xi, j, k + j, x, j * t);
    }
  }

  // ---------------------------------------------------------------------------
  // The sweep as a function

  /** One paste: the box and the file name of the tile pasted into it. */
  datatype Placement = Placement(box: Box, key: Key)

  /** The sweep's state: whether it is still running (false once best_match gave up),
      the pastes so far and the pool. */
  datatype Sweep = Sweep(ok: bool, placed: seq<Placement>, pool: PoolState)

  /** The loop body for box b, whose region has colour c: best_match, then withdraw and paste. */
  function Place(s: Sweep, c: Rgb, b: Box, threshold: int): Sweep
  {
    var sel := Select(s.pool, c, threshold);
    match sel.winner
    case None => Sweep(false, s.placed, sel.pool)
    case Some(k) =>
      SelectWinnerIn(s.pool, c, threshold);
      Sweep(true, s.placed + [Placement(b, k)], Withdrawn(sel.pool, k))
  }

  /** The sweep over the first n of the given boxes of the target (w x h), from the pool start. */
  function Run(target: Image, w: nat, h: nat, boxes: seq<Box>, n: nat, start: PoolState, threshold: int): Sweep
    requires IsImage(target, w, h) && AllInside(boxes, w, h) && n <= |boxes|
    decreases n, 0
  {
    if n == 0 then Sweep(true, [], start) else Advance(target, w, h, boxes, n - 1, start, threshold)
  }

  /** The sweep once box k is done: the sweep over the boxes before it if that has
      already stopped, and otherwise the paste into box k. */
  function Advance(target: Image, w: nat, h: nat, boxes: seq<Box>, k: nat, start: PoolState, threshold: int): Sweep
    requires IsImage(target, w, h) && AllInside(boxes, w, h) && k < |boxes|
    decreases k, 2
  {
    var prev := Run(target, w, h, boxes, k, start, threshold);
    if !prev.ok then prev else Paste(target, w, h, boxes, k, start, threshold)
  }

  /** The loop body for box k, applied to the sweep over the boxes before it. */
  function Paste(target: Image, w: nat, h: nat, boxes: seq<Box>, k: nat, start: PoolState, threshold: int): Sweep
    requires IsImage(target, w, h) && AllInside(boxes, w, h) && k < |boxes|
    decreases k, 1
  {
    Place(Run(target, w, h, boxes, k, start, threshold), RegionColour(target, w, h, boxes[k]), boxes[k], threshold)
  }

  /** One more box: the sweep over the first k + 1 boxes is the sweep over the first k,
      followed, while it is still running, by the loop body for box k. */
  lemma RunStep(target: Image, w: nat, h: nat, boxes: seq<Box>, k: nat, start: PoolState, threshold: int, s: Sweep)
    requires IsImage(target, w, h) && AllInside(boxes, w, h) && k < |boxes|
    requires s == Run(target, w, h, boxes, k, start, threshold)
    ensures Run(target, w, h, boxes, k + 1, start, threshold) ==
      if !s.ok then s else Place(s, RegionColour(target, w, h, boxes[k]), boxes[k], threshold)
  {
    assert Run(target, w, h, boxes, k + 1, start, threshold) == Advance(target, w, h, boxes, k, start, threshold);
    if s.ok {
      assert Advance(target, w, h, boxes, k, start, threshold) == Paste(target, w, h, boxes, k, start, threshold);
    }
  }

  /** The grid phase on a w x h target with tile size t. */
  function GridPhase(target: Image, w: nat, h: nat, t: nat, start: PoolState, threshold: int): Sweep
    requires IsImage(target, w, h) && t > 0
  {
    var cols, rows := w / t, h / t;
    var _ := Truncate(w, t);
    var _ := Truncate(h, t);
    GridBoxesInside(cols, rows, t, w, h);
    var boxes := GridBoxes(cols, rows, t);
    Run(target, w, h, boxes, |boxes|, start, threshold)
  }

  /** Once best_match has given up, nothing further happens (the code's exit()). */
  lemma {:induction false} RunFailedStays(target: Image, w: nat, h: nat, boxes: seq<Box>, m: nat, n: nat,
                                          start: PoolState, threshold: int)
    requires IsImage(target, w, h) && AllInside(boxes, w, h) && m <= n <= |boxes|
    requires !Run(target, w, h, boxes, m, start, threshold).ok
    ensures Run(target, w, h, boxes, n, start, threshold) == Run(target, w, h, boxes, m, start, threshold)
  {
    if m < n {
      RunFailedStays(target, w, h, boxes, m, n - 1, start, threshold);
      RunStep(target, w, h, boxes, n - 1, start, threshold, Run(target, w, h, boxes, n - 1, start, threshold));
    }
  }

  /** The sweep pastes into the boxes in order: it completes exactly when it pastes into
      every box, and otherwise stops before the box whose match failed. */
  lemma {:induction false} RunPlacements(target: Image, w: nat, h: nat, boxes: seq<Box>, n: nat,
                                         start: PoolState, threshold: int)
    requires IsImage(target, w, h) && AllInside(boxes, w, h) && n <= |boxes|
    ensures var r := Run(target, w, h, boxes, n, start, threshold);
      |r.placed| <= n &&
      (r.ok <==> |r.placed| == n) &&
      forall i :: 0 <= i < |r.placed| ==> r.placed[i].box == boxes[i]
  {
    if n > 0 {
      RunPlacements(target, w, h, boxes, n - 1, start, threshold);
      RunStep(target, w, h, boxes, n - 1, start, threshold, Run(target, w, h, boxes, n - 1, start, threshold));
    }
  }

  /** The paste into box k keeps the pool invariant and the full tile set. */
  lemma PasteKeepsPool(target: Image, w: nat, h: nat, boxes: seq<Box>, k: nat, start: PoolState, threshold: int)
    requires IsImage(target, w, h) && AllInside(boxes, w, h) && k < |boxes|
    requires WellFormed(Run(target, w, h, boxes, k, start, threshold).pool)
    ensures var p, q := Run(target, w, h, boxes, k, start, threshold).pool, Paste(target, w, h, boxes, k, start, threshold).pool;
      WellFormed(q) && All(q) == All(p)
  {
    var p := Run(target, w, h, boxes, k, start, threshold).pool;
    var c := RegionColour(target, w, h, boxes[k]);
    var sel := Select(p, c, threshold);
    SelectKeepsPool(p, c, threshold);
    if sel.winner.Some? {
      SelectWinnerIn(p, c, threshold);
      WithdrawMoves(sel.pool, sel.winner.value);
    }
  }

  /** The sweep keeps the pool invariant and the full tile set, even when it gives up. */
  lemma {:induction false} RunKeepsPool(target: Image, w: nat, h: nat, boxes: seq<Box>, n: nat,
                                        start: PoolState, threshold: int)
    requires IsImage(target, w, h) && AllInside(boxes, w, h) && n <= |boxes| && WellFormed(start)
    ensures var r := Run(target, w, h, boxes, n, start, threshold);
      WellFormed(r.pool) && All(r.pool) == All(start)
  {
    if n > 0 {
      RunKeepsPool(target, w, h, boxes, n - 1, start, threshold);
      if Run(target, w, h, boxes, n - 1, start, threshold).ok {
        PasteKeepsPool(target, w, h, boxes, n - 1, start, threshold);
      }
    }
  }

  /** The paste into box k keeps the full tile set, whatever the pool. */
  lemma PasteKeepsAll(target: Image, w: nat, h: nat, boxes: seq<Box>, k: nat, start: PoolState, threshold: int)
    requires IsImage(target, w, h) && AllInside(boxes, w, h) && k < |boxes|
    ensures All(Paste(target, w, h, boxes, k, start, threshold).pool) == All(Run(target, w, h, boxes, k, start, threshold).pool)
  {
    var p := Run(target, w, h, boxes, k, start, threshold).pool;
    var c := RegionColour(target, w, h, boxes[k]);
    var sel := Select(p, c, threshold);
    SelectKeepsAll(p, c, threshold);
    if sel.winner.Some? {
      SelectWinnerIn(p, c, threshold);
      WithdrawKeepsAll(sel.pool, sel.winner.value);
    }
  }

  /** The full tile set never changes, whatever the pool. */
  lemma {:induction false} RunKeepsAll(target: Image, w: nat, h: nat, boxes: seq<Box>, n: nat,
                                       start: PoolState, threshold: int)
    requires IsImage(target, w, h) && AllInside(boxes, w, h) && n <= |boxes|
    ensures All(Run(target, w, h, boxes, n, start, threshold).pool) == All(start)
  {
    if n > 0 {
      RunKeepsAll(target, w, h, boxes, n - 1, start, threshold);
      if Run(target, w, h, boxes, n - 1, start, threshold).ok {
        PasteKeepsAll(target, w, h, boxes, n - 1, start, threshold);
      }
    }
  }

  /** Each of the pastes, into the box of the same position, uses a tile of the full tile
      set whose colour is within threshold of the colour of the target's region. */
  predicate PastesUsable(target: Image, w: nat, h: nat, boxes: seq<Box>, placed: seq<Placement>,
                         all: multiset<Entry>, threshold: int)
    requires IsImage(target, w, h) && AllInside(boxes, w, h)
  {
    forall i :: 0 <= i < |placed| && i < |boxes| ==>
      exists e :: e in all && e.key == placed[i].key && Usable(RegionColour(target, w, h, boxes[i]), e, threshold)
  }

  /** One more paste, into the next box, of a tile that is usable there. */
  lemma PastesUsableSnoc(target: Image, w: nat, h: nat, boxes: seq<Box>, placed: seq<Placement>,
                         all: multiset<Entry>, threshold: int, tile: Entry)
    requires IsImage(target, w, h) && AllInside(boxes, w, h) && |placed| < |boxes|
    requires PastesUsable(target, w, h, boxes, placed, all, threshold)
    requires tile in all && Usable(RegionColour(target, w, h, boxes[|placed|]), tile, threshold)
    ensures PastesUsable(target, w, h, boxes, placed + [Placement(boxes[|placed|], tile.key)], all, threshold)
  {
    var placed' := placed + [Placement(boxes[|placed|], tile.key)];
    forall i | 0 <= i < |placed'| && i < |boxes|
      ensures exists e :: e in all && e.key == placed'[i].key &&
                          Usable(RegionColour(target, w, h, boxes[i]), e, threshold)
    {
      if i == |placed| {
        assert placed'[i].key == tile.key;
      } else {
        assert placed'[i] == placed[i];
      }
    }
  }

  /** The loop body keeps PastesUsable: a paste it makes is of a tile the pool holds that
      is usable for the region of the next box. */
  lemma PlacePastesUsable(target: Image, w: nat, h: nat, boxes: seq<Box>, s: Sweep,
                          all: multiset<Entry>, threshold: int)
    requires IsImage(target, w, h) && AllInside(boxes, w, h) && |s.placed| < |boxes| && All(s.pool) == all
    requires PastesUsable(target, w, h, boxes, s.placed, all, threshold)
    ensures var b := boxes[|s.placed|];
      PastesUsable(target, w, h, boxes, Place(s, RegionColour(target, w, h, b), b, threshold).placed, all, threshold)
  {
    var b := boxes[|s.placed|];
    var c := RegionColour(target, w, h, b);
    var sel := Select(s.pool, c, threshold);
    if sel.winner.Some? {
      SelectUsable(s.pool, c, threshold);
      var tile :| tile in All(s.pool) && tile.key == sel.winner.value && Usable(c, tile, threshold);
      PastesUsableSnoc(target, w, h, boxes, s.placed, all, threshold, tile);
    }
  }

  /** The paste into box k keeps PastesUsable when the sweep reaches box k running. */
  lemma PasteKeepsUsable(target: Image, w: nat, h: nat, boxes: seq<Box>, k: nat, start: PoolState, threshold: int)
    requires IsImage(target, w, h) && AllInside(boxes, w, h) && k < |boxes|
    requires var prev := Run(target, w, h, boxes, k, start, threshold);
      |prev.placed| == k && All(prev.pool) == All(start) &&
      PastesUsable(target, w, h, boxes, prev.placed, All(start), threshold)
    ensures PastesUsable(target, w, h, boxes, Paste(target, w, h, boxes, k, start, threshold).placed, All(start), threshold)
  {
    PlacePastesUsable(target, w, h, boxes, Run(target, w, h, boxes, k, start, threshold), All(start), threshold);
  }

  /** Every paste uses a tile of the library whose colour is within threshold of the
      colour of the region it is pasted into. */
  lemma {:induction false} RunPastesUsable(target: Image, w: nat, h: nat, boxes: seq<Box>, n: nat,
                                           start: PoolState, threshold: int)
    requires IsImage(target, w, h) && AllInside(boxes, w, h) && n <= |boxes|
    ensures PastesUsable(target, w, h, boxes, Run(target, w, h, boxes, n, start, threshold).placed, All(start), threshold)
  {
    if n > 0 {
      RunPastesUsable(target, w, h, boxes, n - 1, start, threshold);
      if Run(target, w, h, boxes, n - 1, start, threshold).ok {
        RunPlacements(target, w, h, boxes, n - 1, start, threshold);
        RunKeepsAll(target, w, h, boxes, n - 1, start, threshold);
        PasteKeepsUsable(target, w, h, boxes, n - 1, start, threshold);
      }
    }
  }

  /** The grid phase: when it completes it has pasted (w / t) * (h / t) tiles, the k-th in
      column k / rows and row k % rows, and every box lies inside the truncated canvas. */
  lemma GridPhaseShape(target: Image, w: nat, h: nat, t: nat, start: PoolState, threshold: int)
    requires IsImage(target, w, h) && t > 0
    ensures var r, cols, rows := GridPhase(target, w, h, t, start, threshold), w / t, h / t;
      (r.ok <==> |r.placed| == cols * rows) &&
      |r.placed| <= cols * rows &&
      forall k :: 0 <= k < |r.placed| ==>
        r.placed[k].box == CellBox((k / rows) * t, (k % rows) * t, t) &&
        Inside(r.placed[k].box, Truncate(w, t), Truncate(h, t))
  {
    var cols, rows := w / t, h / t;
    var boxes := GridBoxes(cols, rows, t);
    var _ := Truncate(w, t);
    var _ := Truncate(h, t);
    GridBoxesInside(cols, rows, t, w, h);
    GridBoxesInside(cols, rows, t, Truncate(w, t), Truncate(h, t));
    GridBoxesOrder(cols, rows, t);
    RunPlacements(target, w, h, boxes, |boxes|, start, threshold);
  }

  // ---------------------------------------------------------------------------
  // The sweep as the code runs it

  /** rank_image(target.crop(box)): the colour signature of one cell of the target. */
  method RankRegion(target: Image, w: nat, h: nat, b: Box) returns (colour: Rgb)
    requires IsImage(target, w, h) && Inside(b, w, h)
    ensures colour == RegionColour(target, w, h, b)
    ensures AllInRange(target) ==> InRange(colour)
  {
    var region := Crop(target, w, h, b);
    colour := RankImage(region, b.x1 - b.x0, b.y1 - b.y0);
  }

  /** The body of the sweep for box k: crop the region, rank it, call best_match,
      withdraw the match and paste it. ok is false where best_match calls exit(). */
  method PlaceBox(target: Image, w: nat, h: nat, pool: TilePool, placed: seq<Placement>,
                  ghost boxes: seq<Box>, ghost k: nat, ghost start: PoolState, b: Box)
    returns (ok: bool, placed': seq<Placement>)
    requires IsImage(target, w, h) && AllInside(boxes, w, h) && k < |boxes| && boxes[k] == b
    requires pool.Valid() && Sweep(true, placed, pool.State()) == Run(target, w, h, boxes, k, start, pool.threshold)
    modifies pool
    ensures pool.Valid()
    ensures Sweep(ok, placed', pool.State()) == Run(target, w, h, boxes, k + 1, start, pool.threshold)
  {
    ghost var before := Sweep(true, placed, pool.State());
    RunStep(target, w, h, boxes, k, start, pool.threshold, before);
    var colour := RankRegion(target, w, h, b);
    var winner, tripped := pool.BestMatch(colour);
    ghost var sel := Select(before.pool, colour, pool.threshold);
    assert winner == sel.winner && pool.State() == sel.pool;
    if winner.None? {
      assert Place(before, colour, b, pool.threshold) == Sweep(false, placed, sel.pool);
      return false, placed;
    }
    pool.Withdraw(winner.value);
    ok, placed' := true, placed + [Placement(b, winner.value)];
    assert Place(before, colour, b, pool.threshold) == Sweep(true, placed', Withdrawn(sel.pool, winner.value));
  }

  /** The loop `for v in range(0, n * t, t)` at its i-th value v = i * t: the next value
      is (i + 1) * t, and the loop goes on exactly while i < n. */
  lemma RangeStep(i: nat, n: nat, t: nat)
    requires t > 0 && i <= n
    ensures i * t + t == (i + 1) * t
    ensures i * t < n * t <==> i < n
  {
    if i < n {
      MulMono(i + 1, n, t);
    }
  }

  lemma GridBoxesLength(cols: nat, rows: nat, t: int)
    ensures |GridBoxes(cols, rows, t)| == cols * rows
  {
    GridBoxesOrder(cols, rows, t);
  }

  /** The inner loop `for y in range(0, height, tilesize)` at column x, whose boxes are
      the boxes k .. k + rows - 1 of the sweep: from the sweep over the first k boxes to
      the sweep over the first k + rows. ok is false where best_match calls exit(). */
  method SweepColumn(target: Image, w: nat, h: nat, pool: TilePool, placed: seq<Placement>,
                     t: nat, x: nat, height: nat,
                     ghost boxes: seq<Box>, ghost rows: nat, ghost k: nat, ghost start: PoolState)
    returns (ok: bool, placed': seq<Placement>)
    requires IsImage(target, w, h) && t > 0 && height == rows * t
    requires AllInside(boxes, w, h) && k + rows <= |boxes|
    requires forall j :: 0 <= j < rows ==> boxes[k + j] == CellBox(x, j * t, t)
    requires pool.Valid()
    requires Sweep(true, placed, pool.State()) == Run(target, w, h, boxes, k, start, pool.threshold)
    modifies pool
    ensures pool.Valid()
    ensures Sweep(ok, placed', pool.State()) == Run(target, w, h, boxes, k + rows, start, pool.threshold)
  {
    placed' := placed;
    var y := 0;
    ghost var yi := 0;
    while y < height
      invariant 0 <= yi <= rows && y == yi * t
      invariant pool.Valid()
      invariant Sweep(true, placed', pool.State()) == Run(target, w, h, boxes, k + yi, start, pool.threshold)
    {
      RangeStep(yi, rows, t);
      var box := Box(x, y, x + t, y + t);
      assert boxes[k + yi] == CellBox(x, yi * t, t);
      ok, placed' := PlaceBox(target, w, h, pool, placed', boxes, k + yi, start, box);
      if !ok {
        RunFailedStays(target, w, h, boxes, k + yi + 1, k + rows, start, pool.threshold);
        return;
      }
      y := y + t;
      yi := yi + 1;
    }
    RangeStep(yi, rows, t);
    ok := true;
  }

  /** The outer loop `for x in range(0, width, tilesize)` over a canvas of cols x rows
      cells, each running the inner loop: from the pool's state on entry to the sweep
      over every box of the grid. ok is false where best_match calls exit(). */
  method SweepGrid(target: Image, w: nat, h: nat, pool: TilePool, t: nat, width: nat, height: nat,
                   ghost cols: nat, ghost rows: nat)
    returns (ok: bool, placed: seq<Placement>)
    requires IsImage(target, w, h) && t > 0 && width == cols * t && height == rows * t
    requires AllInside(GridBoxes(cols, rows, t), w, h)
    requires pool.Valid()
    modifies pool
    ensures pool.Valid()
    ensures var all := GridBoxes(cols, rows, t);
      Sweep(ok, placed, pool.State()) == Run(target, w, h, all, |all|, old(pool.State()), pool.threshold)
  {
    ghost var start := pool.State();
    ghost var all := GridBoxes(cols, rows, t);
    GridBoxesLength(cols, rows, t);
    TimesIsProduct(cols, t);
    TimesIsProduct(cols, rows);
    placed := [];
    var x := 0;
    ghost var xi: nat, k: nat := 0, 0;
    while x < width
      invariant xi <= cols && x == Times(xi, t) && k == Times(xi, rows) && k <= |all|
      invariant pool.Valid()
      invariant Sweep(true, placed, pool.State()) == Run(target, w, h, all, k, start, pool.threshold)
    {
      TimesBelow(xi, cols, t);
      GridColumn(cols, rows, t, xi, x, k);
      ok, placed := SweepColumn(target, w, h, pool, placed, t, x, height, all, rows, k, start);
      if !ok {
        RunFailedStays(target, w, h, all, k + rows, |all|, start, pool.threshold);
        return;
      }
      x := x + t;
      xi, k := xi + 1, k + rows;
    }
    TimesBelow(xi, cols, t);
    ok := true;
  }

  /** The block at the end of the script: truncate the canvas, then sweep, match,
      withdraw and paste. ok is false where the code would have called exit(). */
  method Compose(target: Image, w: nat, h: nat, t: nat, pool: TilePool)
    returns (ok: bool, placed: seq<Placement>, width: nat, height: nat)
    requires IsImage(target, w, h) && t > 0 && pool.Valid()
    modifies pool
    ensures pool.Valid()
    ensures width == Truncate(w, t) && height == Truncate(h, t)
    ensures Sweep(ok, placed, pool.State()) == GridPhase(target, w, h, t, old(pool.State()), pool.threshold)
  {
    width := w / t;
    width := width * t;
    height := h / t;
    height := height * t;
    ghost var cols, rows := w / t, h / t;
    TruncateBounds(w, t);
    TruncateBounds(h, t);
    GridBoxesInside(cols, rows, t, w, h);
    ok, placed := SweepGrid(target, w, h, pool, t, width, height, cols, rows);
  }
}
