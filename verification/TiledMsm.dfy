// The tiled, multi-threaded multiscalar multiplication: msm_blst.rs.
module TiledMsm {
  import opened Wrappers
  import opened Bits
  import opened Scalars
  import opened Vectors
  import Feldman
  import Modular
  import Pippenger

  const NBITS: nat := 255

  // ----- the breakdown into rows and columns -----

  function PippengerWindowSize(points: nat): nat {
    var bits := NumBits(points);
    if bits > 13 then bits - 4 else if bits > 5 then bits - 3 else 2
  }

  function DivCeil(a: nat, b: nat): nat
    requires b > 0
  {
    if a % b == 0 then a / b else a / b + 1
  }

  // One more column needs at most one more bit.
  lemma {:induction false} NumBitsGrows(x: nat, y: nat)
    requires y <= 2 * x + 1
    ensures NumBits(y) <= NumBits(x) + 1
  {
    if y > 1 {
      NumBitsGrows(x / 2, y / 2);
    }
  }

  lemma {:induction false} NumBitsMonotone(x: nat, y: nat)
    requires x <= y
    ensures NumBits(x) <= NumBits(y)
  {
    if x > 0 {
      NumBitsMonotone(x / 2, y / 2);
    }
  }

  // Few processors leave the first branch's subtraction in range.
  lemma SmallCut(window: nat, ncpus: nat)
    requires window >= 3 && NBITS > window * ncpus && window + NumBits(ncpus / 4) > 18
    ensures NumBits(ncpus / 4) < window
  {
    assert ncpus < 1024 by {
      if ncpus >= 1024 {
        MulAtLeast(window, 3, ncpus, 1024);
      }
    }
    assert window >= 10 ==> ncpus < 32 by {
      if window >= 10 && ncpus >= 32 {
        MulAtLeast(window, 10, ncpus, 32);
      }
    }
    FewBits(ncpus / 4);
  }

  lemma FewBits(x: nat)
    ensures x <= 255 ==> NumBits(x) <= 8
    ensures x <= 7 ==> NumBits(x) <= 3
  {
    assert NumBits(255) == 8 && NumBits(7) == 3;
    if x <= 255 {
      NumBitsMonotone(x, 255);
    }
    if x <= 7 {
      NumBitsMonotone(x, 7);
    }
  }

  lemma MulAtLeast(x: nat, x0: nat, y: nat, y0: nat)
    requires x >= x0 && y >= y0
    ensures x * y >= x0 * y0
  {
    assert x * y >= x0 * y && x0 * y >= x0 * y0;
  }

  // Columns are added until the tiles keep every processor busy.
  method SearchColumns(window: nat, ncpus: nat) returns (nx: nat, wnd: nat)
    requires window > 3
    ensures nx >= 1 && wnd >= 1 && nx <= Pow2(window - 1)
  {
    nx := 2;
    wnd := window - 2;
    assert NumBits(3) == 2;
    while wnd > 1 && (NBITS / wnd + 1) * nx < ncpus
      invariant nx >= 2 && wnd >= 1 && wnd + NumBits(3 * nx / 2) == window
      decreases ncpus - nx
    {
      ColumnsBelow(NBITS / wnd + 1, nx, ncpus);
      NumBitsGrows(3 * nx / 2, 3 * (nx + 1) / 2);
      nx := nx + 1;
      wnd := window - NumBits(3 * nx / 2);
    }
    NumBitsMonotone(3 * (nx - 1) / 2, 3 * nx / 2);
    ColumnsFit(nx - 1, window - 1);
    nx := nx - 1;
    wnd := window - NumBits(3 * nx / 2);
  }

  // Columns, rows and window. No subtraction underflows, the windows of the rows
  // cover every bit, and there are no more columns than the window leaves room for.
  method PippengerBreakdown(window: nat, ncpus: nat) returns (nx: nat, ny: nat, wnd: nat)
    requires window >= 3 && ncpus >= 1
    ensures nx >= 1 && ny >= 1 && wnd >= 1 && wnd * ny > NBITS
    ensures nx <= Pow2(window - 1)
  {
    nx := 1;
    wnd := window;
    assert nx <= Pow2(window - 1);
    if NBITS > window * ncpus {
      wnd := CutWindow(window, ncpus);
    } else if window > 3 {
      nx, wnd := SearchColumns(window, ncpus);
    }
    ny := NBITS / wnd + 1;
    RowsCover(ny);
    wnd := NBITS / ny + 1;
  }

  // Few processors: one column, with the window adjusted.
  method CutWindow(window: nat, ncpus: nat) returns (wnd: nat)
    requires window >= 3 && ncpus >= 1 && NBITS > window * ncpus
    ensures wnd >= 1
  {
    wnd := NumBits(ncpus / 4);
    if window + wnd > 18 {
      SmallCut(window, ncpus);
      wnd := window - wnd;
    } else {
      wnd := BalancedWindow(window, ncpus);
    }
  }

  // One bit more when that saves every processor a row.
  function BalancedWindow(window: nat, ncpus: nat): (r: nat)
    requires window >= 1 && ncpus >= 1
    ensures r >= window
  {
    if DivCeil(NBITS / (window + 1), ncpus) < DivCeil(NBITS / window, ncpus) then window + 1 else window
  }

  lemma ColumnsBelow(rows: nat, nx: nat, ncpus: nat)
    requires rows >= 1 && rows * nx < ncpus
    ensures nx < ncpus
  {
    MulAtLeast(rows, 1, nx, nx);
  }

  lemma ColumnsFit(nx: nat, bits: nat)
    requires NumBits(3 * nx / 2) <= bits
    ensures nx <= Pow2(bits)
  {
    NumBitsBounds(3 * nx / 2);
    Pow2Monotone(NumBits(3 * nx / 2), bits);
  }

  lemma RowsCover(ny: nat)
    requires ny >= 1
    ensures (NBITS / ny + 1) * ny > NBITS
  {
    assert NBITS == ny * (NBITS / ny) + NBITS % ny;
    assert (NBITS / ny + 1) * ny == ny * (NBITS / ny) + ny;
  }

  // At least 32 points leave a point for every column.
  lemma ColumnsHavePoints(points: nat, window: nat, nx: nat)
    requires points >= 32 && 1 <= window <= PippengerWindowSize(points) && nx <= Pow2(window - 1)
    ensures nx <= points
  {
    NumBitsBounds(points);
    Pow2Monotone(window - 1, NumBits(points) - 1);
  }

  lemma WindowAtLeastThree(points: nat)
    requires points >= 32
    ensures PippengerWindowSize(points) >= 3
  {
    assert NumBits(32) == 6;
    NumBitsMonotone(32, points);
  }

  // ----- tiles -----

  datatype Tile = Tile(x: nat, dx: nat, bit: nat)

  // The lowest bit of the k-th window.
  function LowBit(window: nat, k: nat): nat {
    window * k
  }

  function TileAt(points: nat, nx: nat, ny: nat, window: nat, row: nat, column: nat): (t: Tile)
    requires 1 <= nx <= points && row < ny && column < nx
    ensures t.x + t.dx <= points && t.dx > 0
  {
    var chunk := points / nx;
    ChunkFits(points, nx, column);
    Tile(column * chunk, if column + 1 == nx then points - column * chunk else chunk, LowBit(window, ny - row - 1))
  }

  lemma ChunkFits(points: nat, nx: nat, column: nat)
    requires 1 <= nx <= points && column < nx
    ensures points / nx >= 1 && column * (points / nx) + points / nx <= points
  {
    var chunk := points / nx;
    assert points == nx * chunk + points % nx;
    MulAtLeast(nx, column + 1, chunk, chunk);
    assert (column + 1) * chunk == column * chunk + chunk;
  }

  // The tiles of a row partition the points: each starts where the last one ended.
  lemma TilesPartition(points: nat, nx: nat, ny: nat, window: nat, row: nat, column: nat)
    requires 1 <= nx <= points && row < ny && column < nx
    ensures TileAt(points, nx, ny, window, row, 0).x == 0
    ensures column + 1 < nx ==>
      TileAt(points, nx, ny, window, row, column + 1).x ==
      TileAt(points, nx, ny, window, row, column).x + TileAt(points, nx, ny, window, row, column).dx
    ensures var last := TileAt(points, nx, ny, window, row, nx - 1); last.x + last.dx == points
  {
    var chunk := points / nx;
    assert (column + 1) * chunk == column * chunk + chunk;
  }

  // The tiles in the order they are handed out: row by row, the top window first.
  function RowTiles(points: nat, nx: nat, ny: nat, window: nat, row: nat): (r: seq<Tile>)
    requires 1 <= nx <= points && row < ny
    ensures |r| == nx
  {
    seq(nx, column requires 0 <= column < nx => TileAt(points, nx, ny, window, row, column))
  }

  function TilesUpTo(points: nat, nx: nat, ny: nat, window: nat, rows: nat): seq<Tile>
    requires 1 <= nx <= points && rows <= ny
  {
    if rows == 0 then [] else TilesUpTo(points, nx, ny, window, rows - 1) + RowTiles(points, nx, ny, window, rows - 1)
  }

  lemma {:induction false} TileCount(points: nat, nx: nat, ny: nat, window: nat, rows: nat)
    requires 1 <= nx <= points && rows <= ny
    ensures |TilesUpTo(points, nx, ny, window, rows)| == rows * nx
  {
    if rows > 0 {
      TileCount(points, nx, ny, window, rows - 1);
      assert rows * nx == (rows - 1) * nx + nx;
    }
  }

  lemma {:induction false} TileIndex(points: nat, nx: nat, ny: nat, window: nat, rows: nat, row: nat, column: nat)
    requires 1 <= nx <= points && row < rows <= ny && column < nx
    ensures 0 <= row * nx + column < |TilesUpTo(points, nx, ny, window, rows)|
    ensures TilesUpTo(points, nx, ny, window, rows)[row * nx + column] == TileAt(points, nx, ny, window, row, column)
  {
    TileCount(points, nx, ny, window, rows - 1);
    if row + 1 < rows {
      TileIndex(points, nx, ny, window, rows - 1, row, column);
    }
  }

  method MakeTiles(points: nat, nx: nat, ny: nat, window: nat) returns (tiles: seq<Tile>)
    requires 1 <= nx <= points
    ensures tiles == TilesUpTo(points, nx, ny, window, ny)
  {
    tiles := [];
    var chunk := points / nx;
    for row := 0 to ny
      invariant tiles == TilesUpTo(points, nx, ny, window, row)
    {
      var bit := LowBit(window, ny - row - 1);
      ghost var before := tiles;
      for column := 0 to nx
        invariant tiles == before + RowTiles(points, nx, ny, window, row)[..column]
      {
        ChunkFits(points, nx, column);
        var x := column * chunk;
        var dx := if column + 1 == nx then points - x else chunk;
        assert RowTiles(points, nx, ny, window, row)[column] == Tile(x, dx, bit);
        tiles := tiles + [Tile(x, dx, bit)];
      }
    }
  }

  // ----- the workers -----

  datatype Worker = Ready | Working(tile: nat) | Finished

  // The shared counter and outputs, the workers, and the tiles computed so far in order.
  datatype State = State(next: nat, outputs: seq<Element>, workers: seq<Worker>, computed: seq<nat>)

  function Start(tiles: nat, workers: nat): (s: State)
    ensures |s.workers| == workers
  {
    State(0, seq(tiles, k => Identity), seq(workers, k => Ready), [])
  }

  // Worker w either draws the next number from the counter, or stores the tile it has
  // computed. The two steps of different workers interleave freely.
  function Step(s: State, sums: seq<Element>, w: nat): State
    requires w < |s.workers| && |s.outputs| == |sums|
    requires s.workers[w].Working? ==> s.workers[w].tile < |sums|
  {
    match s.workers[w]
    case Ready =>
      s.(next := s.next + 1, workers := s.workers[w := if s.next < |sums| then Working(s.next) else Finished])
    case Working(k) =>
      s.(outputs := s.outputs[k := sums[k]], workers := s.workers[w := Ready], computed := s.computed + [k])
    case Finished => s
  }

  // How often tile k has been computed or is being computed.
  function Held(workers: seq<Worker>, k: nat): nat {
    if |workers| == 0 then 0
    else Held(workers[..|workers| - 1], k) + if workers[|workers| - 1] == Working(k) then 1 else 0
  }

  function Claims(s: State, k: nat): nat {
    multiset(s.computed)[k] + Held(s.workers, k)
  }

  ghost predicate Valid(s: State, sums: seq<Element>) {
    && |s.outputs| == |sums|
    && (forall k: nat :: Claims(s, k) == if k < s.next && k < |sums| then 1 else 0)
    && (forall k :: k in s.computed ==> k < |sums| && s.outputs[k] == sums[k])
    && (forall w :: 0 <= w < |s.workers| && s.workers[w].Working? ==> s.workers[w].tile < |sums|)
    && (forall w :: 0 <= w < |s.workers| && s.workers[w].Finished? ==> s.next >= |sums|)
  }

  lemma {:induction false} HeldUpdate(workers: seq<Worker>, w: nat, to: Worker, k: nat)
    requires w < |workers|
    ensures Held(workers[w := to], k) + (if workers[w] == Working(k) then 1 else 0)
         == Held(workers, k) + if to == Working(k) then 1 else 0
  {
    var n := |workers| - 1;
    if w < n {
      HeldUpdate(workers[..n], w, to, k);
      assert workers[w := to][..n] == workers[..n][w := to];
    } else {
      assert workers[w := to][..n] == workers[..n];
    }
  }

  lemma {:induction false} NoneHeld(workers: seq<Worker>, k: nat)
    requires forall w :: 0 <= w < |workers| ==> !workers[w].Working?
    ensures Held(workers, k) == 0
  {
    if |workers| > 0 {
      NoneHeld(workers[..|workers| - 1], k);
    }
  }

  lemma StartValid(workers: nat, sums: seq<Element>)
    ensures Valid(Start(|sums|, workers), sums)
  {
    var s := Start(|sums|, workers);
    forall k: nat
      ensures Claims(s, k) == 0
    {
      NoneHeld(s.workers, k);
    }
  }

  // No step hands a tile out twice or loses one.
  lemma StepValid(s: State, sums: seq<Element>, w: nat)
    requires Valid(s, sums) && w < |s.workers|
    ensures Valid(Step(s, sums, w), sums)
  {
    var s' := Step(s, sums, w);
    forall k: nat
      ensures Claims(s', k) == if k < s'.next && k < |sums| then 1 else 0
    {
      assert Claims(s, k) == if k < s.next && k < |sums| then 1 else 0;
      HeldUpdate(s.workers, w, s'.workers[w], k);
    }
  }

  function Run(s: State, sums: seq<Element>, schedule: seq<nat>): State
    requires Valid(s, sums) && forall i :: 0 <= i < |schedule| ==> schedule[i] < |s.workers|
    ensures Valid(Run(s, sums, schedule), sums) && |Run(s, sums, schedule).workers| == |s.workers|
  {
    if |schedule| == 0 then s
    else
      var before := Run(s, sums, schedule[..|schedule| - 1]);
      StepValid(before, sums, schedule[|schedule| - 1]);
      Step(before, sums, schedule[|schedule| - 1])
  }

  predicate Done(s: State) {
    forall w :: 0 <= w < |s.workers| ==> s.workers[w].Finished?
  }

  // The steps still to come.
  function Pending(workers: seq<Worker>): nat {
    if |workers| == 0 then 0
    else
      var rest := Pending(workers[..|workers| - 1]);
      match workers[|workers| - 1]
      case Ready => rest + 1
      case Working(_) => rest + 2
      case Finished => rest
  }

  function StepsLeft(s: State, tiles: nat): nat {
    Pending(s.workers) + if s.next < tiles then 2 * (tiles - s.next) else 0
  }

  function Weight(worker: Worker): nat {
    match worker
    case Ready => 1
    case Working(_) => 2
    case Finished => 0
  }

  lemma {:induction false} PendingUpdate(workers: seq<Worker>, w: nat, to: Worker)
    requires w < |workers|
    ensures Pending(workers[w := to]) + Weight(workers[w]) == Pending(workers) + Weight(to)
  {
    var n := |workers| - 1;
    if w < n {
      PendingUpdate(workers[..n], w, to);
      assert workers[w := to][..n] == workers[..n][w := to];
    } else {
      assert workers[w := to][..n] == workers[..n];
    }
  }

  lemma {:induction false} PendingBounds(workers: seq<Worker>)
    ensures Pending(workers) == 0 <==> forall w :: 0 <= w < |workers| ==> workers[w].Finished?
    ensures (forall w :: 0 <= w < |workers| ==> workers[w].Ready?) ==> Pending(workers) == |workers|
  {
    if |workers| > 0 {
      var n := |workers| - 1;
      PendingBounds(workers[..n]);
      assert (forall w :: 0 <= w < |workers| ==> workers[w].Finished?) ==
        (workers[n].Finished? && forall w :: 0 <= w < n ==> workers[..n][w].Finished?);
    }
  }

  // Every step of an unfinished worker is one step closer to the end.
  lemma StepAdvances(s: State, sums: seq<Element>, w: nat)
    requires Valid(s, sums) && w < |s.workers| && !s.workers[w].Finished?
    ensures StepsLeft(Step(s, sums, w), |sums|) == StepsLeft(s, |sums|) - 1
  {
    PendingUpdate(s.workers, w, Step(s, sums, w).workers[w]);
  }

  // Only workers that have not finished are scheduled.
  ghost predicate Effective(s: State, sums: seq<Element>, schedule: seq<nat>)
    requires Valid(s, sums) && forall i :: 0 <= i < |schedule| ==> schedule[i] < |s.workers|
  {
    |schedule| == 0 ||
    var n := |schedule| - 1;
    !Run(s, sums, schedule[..n]).workers[schedule[n]].Finished? && Effective(s, sums, schedule[..n])
  }

  lemma {:induction false} RunAdvances(s: State, sums: seq<Element>, schedule: seq<nat>)
    requires Valid(s, sums) && (forall i :: 0 <= i < |schedule| ==> schedule[i] < |s.workers|)
    requires Effective(s, sums, schedule)
    ensures StepsLeft(Run(s, sums, schedule), |sums|) + |schedule| == StepsLeft(s, |sums|)
  {
    if |schedule| > 0 {
      var n := |schedule| - 1;
      RunAdvances(s, sums, schedule[..n]);
      StepAdvances(Run(s, sums, schedule[..n]), sums, schedule[n]);
    }
  }

  // Whatever the interleaving, the workers finish after exactly two steps a tile and one a
  // worker, each tile has then been computed exactly once, and every output is in place.
  lemma EveryInterleaving(sums: seq<Element>, workers: nat, schedule: seq<nat>)
    requires workers >= 1 && forall i :: 0 <= i < |schedule| ==> schedule[i] < workers
    ensures Valid(Start(|sums|, workers), sums)
    ensures
      var end := Run(Start(|sums|, workers), sums, schedule);
      && (Done(end) ==> Correct(end, sums))
      && (Effective(Start(|sums|, workers), sums, schedule) ==>
        |schedule| <= 2 * |sums| + workers && (Done(end) <==> |schedule| == 2 * |sums| + workers))
  {
    StartValid(workers, sums);
    RunLength(Start(|sums|, workers), sums, schedule);
    StartSteps(|sums|, workers);
  }

  lemma StartSteps(tiles: nat, workers: nat)
    ensures StepsLeft(Start(tiles, workers), tiles) == 2 * tiles + workers
  {
    PendingBounds(Start(tiles, workers).workers);
  }

  lemma RunLength(s: State, sums: seq<Element>, schedule: seq<nat>)
    requires Valid(s, sums) && |s.workers| >= 1 && forall i :: 0 <= i < |schedule| ==> schedule[i] < |s.workers|
    ensures Effective(s, sums, schedule) ==> |schedule| <= StepsLeft(s, |sums|)
    ensures Effective(s, sums, schedule) ==> (Done(Run(s, sums, schedule)) <==> |schedule| == StepsLeft(s, |sums|))
    ensures Done(Run(s, sums, schedule)) ==> Correct(Run(s, sums, schedule), sums)
  {
    if Done(Run(s, sums, schedule)) {
      AllComputed(Run(s, sums, schedule), sums);
    }
    if Effective(s, sums, schedule) {
      RunAdvances(s, sums, schedule);
      DoneIsNothingLeft(Run(s, sums, schedule), sums);
    }
  }

  lemma DoneIsNothingLeft(s: State, sums: seq<Element>)
    requires Valid(s, sums) && |s.workers| >= 1
    ensures Done(s) <==> StepsLeft(s, |sums|) == 0
  {
    PendingBounds(s.workers);
    if Done(s) {
      assert s.workers[0].Finished?;
    }
  }

  // Every output is in place, and every tile was computed exactly once.
  ghost predicate Correct(s: State, sums: seq<Element>) {
    s.outputs == sums && forall k: nat :: multiset(s.computed)[k] == if k < |sums| then 1 else 0
  }

  lemma AllComputed(s: State, sums: seq<Element>)
    requires Valid(s, sums) && Done(s) && |s.workers| >= 1
    ensures Correct(s, sums)
  {
    assert s.workers[0].Finished?;
    forall k: nat
      ensures multiset(s.computed)[k] == if k < |sums| then 1 else 0
      ensures k < |sums| ==> s.outputs[k] == sums[k]
    {
      NoneHeld(s.workers, k);
      assert Claims(s, k) == if k < s.next && k < |sums| then 1 else 0;
      if k < |sums| {
        assert k in multiset(s.computed);
      }
    }
  }

  // ----- what the tiles add up to -----

  // The digit a window reads off a scalar: scalar, lowest bit, window width.
  type DigitOf = (nat, nat, nat) -> int

  // The number spelled by the digits of windows j and up, below window ny.
  function Above(digit: DigitOf, k: nat, window: nat, j: nat, ny: nat): int
    decreases ny - j
  {
    if j >= ny then 0
    else digit(k, LowBit(window, j), window) + Times(Pow2(window), Above(digit, k, window, j + 1, ny))
  }

  // Windows that reach past the last bit spell the scalar.
  ghost predicate Recomposes(digit: DigitOf, bits: nat) {
    forall k: nat, window: nat, ny: nat ::
      k < Pow2(bits) && window >= 1 && window * ny > bits ==> Above(digit, k, window, 0, ny) == k
  }

  function DigitsAt(digit: DigitOf, scalars: seq<nat>, bit: nat, window: nat): (r: seq<int>)
    ensures |r| == |scalars|
  {
    seq(|scalars|, i requires 0 <= i < |scalars| => digit(scalars[i], bit, window))
  }

  function AllAbove(digit: DigitOf, scalars: seq<nat>, window: nat, j: nat, ny: nat): (r: seq<int>)
    ensures |r| == |scalars|
  {
    seq(|scalars|, i requires 0 <= i < |scalars| => Above(digit, scalars[i], window, j, ny))
  }

  // The contract of one tile operation: the sum over its points, each weighed by the
  // digit of its window.
  function TileSum(digit: DigitOf, scalars: seq<nat>, points: seq<Element>, t: Tile, window: nat): Element
    requires |scalars| == |points| && t.x + t.dx <= |points|
  {
    Msm(DigitsAt(digit, scalars[t.x..t.x + t.dx], t.bit, window), points[t.x..t.x + t.dx])
  }

  predicate TilesFit(tiles: seq<Tile>, points: nat) {
    forall k :: 0 <= k < |tiles| ==> tiles[k].x + tiles[k].dx <= points
  }

  function TileSums(digit: DigitOf, scalars: seq<nat>, points: seq<Element>, tiles: seq<Tile>, window: nat): (r: seq<Element>)
    requires |scalars| == |points| && TilesFit(tiles, |points|)
    ensures |r| == |tiles|
  {
    seq(|tiles|, k requires 0 <= k < |tiles| => TileSum(digit, scalars, points, tiles[k], window))
  }

  lemma {:induction false} AllTilesFit(points: nat, nx: nat, ny: nat, window: nat, rows: nat)
    requires 1 <= nx <= points && rows <= ny
    ensures TilesFit(TilesUpTo(points, nx, ny, window, rows), points)
  {
    if rows > 0 {
      AllTilesFit(points, nx, ny, window, rows - 1);
    }
  }

  // The workers, scheduled arbitrarily.
  method RunWorkers(digit: DigitOf, scalars: seq<nat>, points: seq<Element>, tiles: seq<Tile>, window: nat, workers: nat)
    returns (outputs: array<Element>)
    requires |scalars| == |points| && TilesFit(tiles, |points|) && workers >= 1
    ensures fresh(outputs) && outputs[..] == TileSums(digit, scalars, points, tiles, window)
  {
    ghost var sums := TileSums(digit, scalars, points, tiles, window);
    outputs := new Element[|tiles|](k => Identity);
    var next, pool := 0, seq(workers, k => Ready);
    ghost var computed := [];
    ghost var s := Start(|tiles|, workers);
    StartValid(workers, sums);
    assert outputs[..] == s.outputs;
    while exists w :: 0 <= w < |pool| && !pool[w].Finished?
      invariant s == State(next, outputs[..], pool, computed) && Valid(s, sums) && |pool| == workers
      invariant fresh(outputs) && outputs.Length == |tiles|
      decreases StepsLeft(s, |sums|)
    {
      var w :| 0 <= w < |pool| && !pool[w].Finished?;
      StepValid(s, sums, w);
      StepAdvances(s, sums, w);
      s := Step(s, sums, w);
      match pool[w] {
        case Ready =>
          var work := next;
          next := next + 1;
          pool := pool[w := if work < |tiles| then Working(work) else Finished];
        case Working(work) =>
          outputs[work] := TileSum(digit, scalars, points, tiles[work], window);
          pool := pool[w := Ready];
          computed := computed + [work];
      }
      assert outputs[..] == s.outputs;
    }
    AllComputed(s, sums);
  }

  // Where column c starts; the last column ends with the points.
  function Edge(points: nat, nx: nat, column: nat): nat
    requires 1 <= nx <= points && column <= nx
  {
    if column == nx then points else TileAt(points, nx, 1, 0, 0, column).x
  }

  lemma TileEdges(points: nat, nx: nat, ny: nat, window: nat, row: nat, column: nat)
    requires 1 <= nx <= points && row < ny && column < nx
    ensures
      var t := TileAt(points, nx, ny, window, row, column);
      && t.bit == LowBit(window, ny - row - 1)
      && t.x == Edge(points, nx, column) && t.x + t.dx == Edge(points, nx, column + 1) <= points
  {
    if column + 1 < nx {
      TilesPartition(points, nx, ny, window, row, column);
    }
  }

  // Adding the next tile extends the row's sum by the tile's points.
  lemma TileExtends(digit: DigitOf, scalars: seq<nat>, points: seq<Element>, nx: nat, ny: nat, window: nat, row: nat, column: nat)
    requires |scalars| == |points| && 1 <= nx <= |points| && row < ny && column < nx
    ensures Edge(|points|, nx, column) <= |points| && Edge(|points|, nx, column + 1) <= |points|
    ensures
      var t := TileAt(|points|, nx, ny, window, row, column);
      var digits := DigitsAt(digit, scalars, LowBit(window, ny - row - 1), window);
      var from, to := Edge(|points|, nx, column), Edge(|points|, nx, column + 1);
      Red(Dot(digits[..to], points[..to])) == Red(Dot(digits[..from], points[..from]) + TileSum(digit, scalars, points, t, window))
  {
    TileEdges(|points|, nx, ny, window, row, column);
    var t := TileAt(|points|, nx, ny, window, row, column);
    var digits := DigitsAt(digit, scalars, t.bit, window);
    var from, to := t.x, t.x + t.dx;
    assert DigitsAt(digit, scalars[from..to], t.bit, window) == digits[from..to];
    DotConcat(digits[..from], digits[from..to], points[..from], points[from..to]);
    assert digits[..from] + digits[from..to] == digits[..to];
    assert points[..from] + points[from..to] == points[..to];
    RedAdd(Dot(digits[..from], points[..from]), Dot(digits[..from], points[..from]),
           Dot(digits[from..to], points[from..to]), TileSum(digit, scalars, points, t, window));
  }

  lemma RowsStep(digit: DigitOf, scalars: seq<nat>, points: seq<Element>, window: nat, j: nat, ny: nat)
    requires |scalars| == |points| && j < ny
    ensures Dot(AllAbove(digit, scalars, window, j, ny), points)
         == Times(Pow2(window), Dot(AllAbove(digit, scalars, window, j + 1, ny), points))
          + Dot(DigitsAt(digit, scalars, LowBit(window, j), window), points)
  {
    var digits := DigitsAt(digit, scalars, LowBit(window, j), window);
    var above := AllAbove(digit, scalars, window, j + 1, ny);
    DotPlus(digits, Scale(Pow2(window), above), points);
    DotScale(Pow2(window), above, points);
    assert AllAbove(digit, scalars, window, j, ny) == Plus(digits, Scale(Pow2(window), above));
  }

  // One row of tiles onto the shifted sum.
  method AddRow(digit: DigitOf, scalars: seq<nat>, points: seq<Element>, outputs: array<Element>, nx: nat, ny: nat, window: nat,
                row: nat, start: Element) returns (result: Element)
    requires |scalars| == |points| && 1 <= nx <= |points| && row < ny
    requires TilesFit(TilesUpTo(|points|, nx, ny, window, ny), |points|)
    requires outputs[..] == TileSums(digit, scalars, points, TilesUpTo(|points|, nx, ny, window, ny), window)
    ensures result == Red(start + Dot(DigitsAt(digit, scalars, LowBit(window, ny - row - 1), window), points))
  {
    ghost var digits := DigitsAt(digit, scalars, LowBit(window, ny - row - 1), window);
    result := start;
    TileEdges(|points|, nx, ny, window, row, 0);
    DotEnds(digits, points);
    for column := 0 to nx
      invariant Edge(|points|, nx, column) <= |points|
      invariant result == Red(start + Dot(digits[..Edge(|points|, nx, column)], points[..Edge(|points|, nx, column)]))
    {
      TileIndex(|points|, nx, ny, window, ny, row, column);
      ghost var t := TileAt(|points|, nx, ny, window, row, column);
      assert outputs[row * nx + column] == outputs[..][row * nx + column] == TileSum(digit, scalars, points, t, window);
      TileExtends(digit, scalars, points, nx, ny, window, row, column);
      ghost var sum := Dot(digits[..Edge(|points|, nx, column)], points[..Edge(|points|, nx, column)]);
      ghost var tile := outputs[row * nx + column];
      RedAdd(result, start + sum, tile, tile);
      RedAdd(start, start, Dot(digits[..Edge(|points|, nx, column + 1)], points[..Edge(|points|, nx, column + 1)]), sum + tile);
      result := ElementAdd(result, outputs[row * nx + column]);
    }
  }

  // Double and add over the rows.
  method Combine(digit: DigitOf, scalars: seq<nat>, points: seq<Element>, outputs: array<Element>, nx: nat, ny: nat, window: nat)
    returns (result: Element)
    requires |scalars| == |points| && 1 <= nx <= |points|
    requires TilesFit(TilesUpTo(|points|, nx, ny, window, ny), |points|)
    requires outputs[..] == TileSums(digit, scalars, points, TilesUpTo(|points|, nx, ny, window, ny), window)
    ensures result == Msm(AllAbove(digit, scalars, window, 0, ny), points)
  {
    result := Identity;
    NothingAbove(digit, scalars, points, window, ny);
    for row := 0 to ny
      invariant result == Msm(AllAbove(digit, scalars, window, ny - row, ny), points)
    {
      ghost var above := Dot(AllAbove(digit, scalars, window, ny - row, ny), points);
      TimesUnits(Pow2(window));
      if row != 0 {
        RedMul(Pow2(window), Pow2(window), result, above);
        result := Pippenger.DoubleTimes(result, window);
      }
      assert result == Red(Times(Pow2(window), above));
      RowsStep(digit, scalars, points, window, ny - row - 1, ny);
      ghost var digits := Dot(DigitsAt(digit, scalars, LowBit(window, ny - row - 1), window), points);
      RedAdd(result, Times(Pow2(window), above), digits, digits);
      result := AddRow(digit, scalars, points, outputs, nx, ny, window, row, result);
    }
  }

  lemma NothingAbove(digit: DigitOf, scalars: seq<nat>, points: seq<Element>, window: nat, ny: nat)
    requires |scalars| == |points|
    ensures Dot(AllAbove(digit, scalars, window, ny, ny), points) == 0
  {
    Feldman.ZeroDot(AllAbove(digit, scalars, window, ny, ny), points);
  }

  function Min(a: nat, b: nat): nat {
    if a < b then a else b
  }

  // The fast multiplication is the plain sum, for any number of processors.
  method SegmentedMult(digit: DigitOf, scalars: seq<nat>, points: seq<Element>, ncpus: nat) returns (result: Element)
    requires |scalars| == |points| >= 32 && ncpus >= 1
    requires Recomposes(digit, NBITS) && forall i :: 0 <= i < |scalars| ==> scalars[i] < Pow2(NBITS)
    ensures result == Msm(scalars, points)
  {
    WindowAtLeastThree(|points|);
    var inputWindow := Min(PippengerWindowSize(|points|), 16);
    var nx, ny, window := PippengerBreakdown(inputWindow, ncpus);
    ColumnsHavePoints(|points|, inputWindow, nx);
    var tiles := MakeTiles(|points|, nx, ny, window);
    AllTilesFit(|points|, nx, ny, window, ny);
    TileCount(|points|, nx, ny, window, ny);
    MulAtLeast(ny, 1, nx, 1);
    var outputs := RunWorkers(digit, scalars, points, tiles, window, Min(ncpus, |tiles|));
    result := Combine(digit, scalars, points, outputs, nx, ny, window);
    WindowsSpellScalars(digit, scalars, window, ny, NBITS);
  }

  lemma WindowsSpellScalars(digit: DigitOf, scalars: seq<nat>, window: nat, ny: nat, bits: nat)
    requires Recomposes(digit, bits) && window >= 1 && window * ny > bits
    requires forall i :: 0 <= i < |scalars| ==> scalars[i] < Pow2(bits)
    ensures AllAbove(digit, scalars, window, 0, ny) == scalars
  {
  }

  // ----- digits that recompose -----

  function PlainDigit(k: nat, bit: nat, window: nat): int {
    Pippenger.BitsFrom(k, bit, window)
  }

  // The bit just below the window.
  function Borrow(k: nat, bit: nat): nat {
    if bit == 0 then 0 else Bit(k, bit - 1)
  }

  // A signed window: its top bit counts negatively and is carried into the next one.
  function SignedDigit(k: nat, bit: nat, window: nat): int {
    Pippenger.BitsFrom(k, bit, window) + Borrow(k, bit) - Times(Pow2(window), Borrow(k, bit + window))
  }

  lemma {:induction false} WindowShift(k: nat, bit: nat, window: nat)
    ensures Shr(k, bit) == Pippenger.BitsFrom(k, bit, window) + Times(Pow2(window), Shr(k, bit + window))
  {
    TimesUnits(Shr(k, bit + window));
    if window > 0 {
      WindowShift(k, bit, window - 1);
      var s := Shr(k, bit + window - 1);
      assert s == 2 * (s / 2) + s % 2;
      HalfShift(Pow2(window - 1), s / 2, s % 2);
    }
  }

  lemma HalfShift(p: nat, half: nat, low: nat)
    ensures Times(p, 2 * half + low) == low * p + Times(2 * p, half)
  {
    Products();
  }

  lemma {:induction false} PlainAbove(k: nat, window: nat, j: nat, ny: nat)
    requires j <= ny && Shr(k, LowBit(window, ny)) == 0
    ensures Above(PlainDigit, k, window, j, ny) == Shr(k, LowBit(window, j))
    decreases ny - j
  {
    if j < ny {
      PlainAbove(k, window, j + 1, ny);
      WindowShift(k, LowBit(window, j), window);
      NextWindow(window, j);
    }
  }

  lemma NextWindow(window: nat, j: nat)
    ensures LowBit(window, j + 1) == LowBit(window, j) + window
  {
  }

  lemma {:induction false} SignedAbove(k: nat, window: nat, j: nat, ny: nat)
    requires j <= ny && Shr(k, LowBit(window, ny)) == 0 && Borrow(k, LowBit(window, ny)) == 0
    ensures Above(SignedDigit, k, window, j, ny) == Shr(k, LowBit(window, j)) + Borrow(k, LowBit(window, j))
    decreases ny - j
  {
    if j < ny {
      SignedAbove(k, window, j + 1, ny);
      var bit := LowBit(window, j);
      WindowShift(k, bit, window);
      NextWindow(window, j);
      TimesDistributes(Pow2(window), Shr(k, bit + window), Borrow(k, bit + window));
    }
  }

  lemma PlainDigitsRecompose(bits: nat)
    ensures Recomposes(PlainDigit, bits)
  {
    forall k: nat, window: nat, ny: nat | k < Pow2(bits) && window >= 1 && window * ny > bits
      ensures Above(PlainDigit, k, window, 0, ny) == k
    {
      Pow2Monotone(bits, window * ny);
      ShrZero(k, window * ny);
      PlainAbove(k, window, 0, ny);
    }
  }

  // The signed windows need the strict bound: the last carry must vanish.
  lemma SignedDigitsRecompose(bits: nat)
    ensures Recomposes(SignedDigit, bits)
  {
    forall k: nat, window: nat, ny: nat | k < Pow2(bits) && window >= 1 && window * ny > bits
      ensures Above(SignedDigit, k, window, 0, ny) == k
    {
      Pow2Monotone(bits, window * ny - 1);
      ShrZero(k, window * ny - 1);
      SignedAbove(k, window, 0, ny);
    }
  }

  // ----- the mixed multiplication -----

  datatype Batch = Batch(scalars: seq<Scalar>, points: seq<Element>)

  predicate Paired(batches: seq<Batch>) {
    forall i :: 0 <= i < |batches| ==> |batches[i].scalars| == |batches[i].points|
  }

  function BatchesDot(batches: seq<Batch>): int
    requires Paired(batches)
  {
    if |batches| == 0 then 0
    else
      var n := |batches| - 1;
      BatchesDot(batches[..n]) + Dot(batches[n].scalars, batches[n].points)
  }

  // The inner product over the points that are not the identity is the whole one.
  method DropIdentities(scalars: seq<Scalar>, points: seq<Element>) returns (kept: Batch)
    requires |scalars| == |points|
    ensures |kept.scalars| == |kept.points| && Dot(kept.scalars, kept.points) == Dot(scalars, points)
    ensures Identity !in kept.points
  {
    kept := Batch([], []);
    DotEnds(scalars, points);
    DotEnds(kept.scalars, kept.points);
    assert kept.scalars == scalars[..0] && kept.points == points[..0];
    for i := 0 to |points|
      invariant |kept.scalars| == |kept.points| && Identity !in kept.points
      invariant Dot(kept.scalars, kept.points) == Dot(scalars[..i], points[..i])
    {
      DotPrefix(scalars, points, i);
      TimesUnits(scalars[i]);
      if points[i] != Identity {
        DotPush(kept, scalars[i], points[i]);
        kept := Batch(kept.scalars + [scalars[i]], kept.points + [points[i]]);
      }
    }
  }

  lemma DotPush(batch: Batch, scalar: Scalar, point: Element)
    requires |batch.scalars| == |batch.points|
    ensures Dot(batch.scalars + [scalar], batch.points + [point]) == Dot(batch.scalars, batch.points) + Times(scalar, point)
  {
    DotConcat(batch.scalars, [scalar], batch.points, [point]);
    DotEnds([scalar], [point]);
  }

  method Gather(batches: seq<Batch>, kept: Batch) returns (all: Batch)
    requires Paired(batches) && |kept.scalars| == |kept.points|
    ensures |all.scalars| == |all.points|
    ensures Dot(all.scalars, all.points) == BatchesDot(batches) + Dot(kept.scalars, kept.points)
  {
    all := Batch([], []);
    DotEnds(all.scalars, all.points);
    assert all.scalars[..0] == all.scalars && all.points[..0] == all.points;
    assert batches[..|batches|] == batches;
    for i := 0 to |batches|
      invariant |all.scalars| == |all.points| && Paired(batches[..i])
      invariant Dot(all.scalars, all.points) == BatchesDot(batches[..i])
    {
      DotConcat(all.scalars, batches[i].scalars, all.points, batches[i].points);
      assert batches[..i + 1][..i] == batches[..i];
      all := Batch(all.scalars + batches[i].scalars, all.points + batches[i].points);
    }
    DotConcat(all.scalars, kept.scalars, all.points, kept.points);
    all := Batch(all.scalars + kept.scalars, all.points + kept.points);
  }

  // However many points there are, the plain sum over all of them.
  method MsmMixed(digit: DigitOf, batches: seq<Batch>, dynamicScalars: seq<Scalar>, dynamicPoints: seq<Element>, ncpus: nat)
    returns (result: Element)
    requires Paired(batches) && |dynamicScalars| == |dynamicPoints| && ncpus >= 1
    requires Recomposes(digit, NBITS) && q <= Pow2(NBITS)
    ensures result == Red(BatchesDot(batches) + Dot(dynamicScalars, dynamicPoints))
  {
    var kept := DropIdentities(dynamicScalars, dynamicPoints);
    var all := Gather(batches, kept);
    if |all.points| == 0 {
      DotEnds(all.scalars, all.points);
      assert all.scalars[..0] == all.scalars && all.points[..0] == all.points;
      return Identity;
    }
    if |all.points| < 32 {
      return Msm(all.scalars, all.points);
    }
    result := SegmentedMult(digit, all.scalars, all.points, ncpus);
  }
}
