// The tick scheduler of src/engine/mod.rs on values: the wind pass, the
// column sweep (its direction set by the generation's parity) and the two
// generation bumps, as functions that `World.Tick` is proved against, and
// what they guarantee.

/** One step of the wind pass: `blow_wind` with the cell and the wind stored at (x, y). */
function BlowStep(g: Grid, x: nat, y: nat): (r: Grid)
  requires g.Valid() && g.InBounds(x, y)
  ensures SameLayout(g, r)
{
  BlowRule(g, x, y, g.GetCell(x, y), g.GetWind(x, y))
}

/** `blow_wind` applied at rows [0, rows) of column x, top to bottom. */
function WindColumn(g: Grid, x: nat, rows: nat): (r: Grid)
  requires g.Valid() && x < g.width && rows <= g.height
  ensures SameLayout(g, r)
  decreases rows, 0
{
  if rows == 0 then g else AfterBlow(g, x, rows - 1)
}

/** The wind column x through row y: rows [0, y), then `blow_wind` at (x, y). */
function AfterBlow(g: Grid, x: nat, y: nat): (r: Grid)
  requires g.Valid() && x < g.width && y < g.height
  ensures SameLayout(g, r)
  decreases y, 1
{
  BlowStep(WindColumn(g, x, y), x, y)
}

/** The wind pass over columns [0, cols), left to right. */
function WindPass(g: Grid, cols: nat): (r: Grid)
  requires g.Valid() && cols <= g.width
  ensures SameLayout(g, r)
  decreases cols
{
  if cols == 0 then g else WindColumn(WindPass(g, cols - 1), cols - 1, g.height)
}

/** One step of the wind pass only rearranges cells. */
lemma BlowStepPermutes(g: Grid, x: nat, y: nat)
  requires g.Valid() && g.InBounds(x, y)
  ensures multiset(BlowStep(g, x, y).cells) == multiset(g.cells)
{
  var i := g.Index(x, y);
  BlowRulePermutes(g, x, y, g.cells[i], g.winds[i]);
}

/** A column of the wind pass only rearranges cells. */
lemma {:induction false} WindColumnPermutes(g: Grid, x: nat, rows: nat)
  requires g.Valid() && x < g.width && rows <= g.height
  ensures multiset(WindColumn(g, x, rows).cells) == multiset(g.cells)
  decreases rows
{
  if rows > 0 {
    WindColumnPermutes(g, x, rows - 1);
    BlowStepPermutes(WindColumn(g, x, rows - 1), x, rows - 1);
  }
}

/** The wind pass only rearranges cells: every particle is kept. */
lemma {:induction false} WindPassPermutes(g: Grid, cols: nat)
  requires g.Valid() && cols <= g.width
  ensures multiset(WindPass(g, cols).cells) == multiset(g.cells)
  decreases cols
{
  if cols > 0 {
    WindPassPermutes(g, cols - 1);
    WindColumnPermutes(WindPass(g, cols - 1), cols - 1, g.height);
  }
}

/** The physical column visited at step x of a sweep: right to left on even generations. */
function ScanColumn(width: nat, generation: Byte, x: nat): (c: nat)
  requires x < width
  ensures c < width
{
  if generation % 2 == 0 then width - (1 + x) else x
}

/** The columns of one sweep, in the order they are visited. */
function SweepOrder(width: nat, generation: Byte): (order: seq<nat>)
  ensures |order| == width
  ensures forall k :: 0 <= k < width ==> order[k] < width
  ensures generation % 2 == 1 ==> forall k :: 0 <= k < width ==> order[k] == k
  ensures generation % 2 == 0 ==> forall k :: 0 <= k < width ==> order[k] + k == width - 1
{
  seq(width, x requires 0 <= x < width => ScanColumn(width, generation, x))
}

/** One step of the sweep: the rule of the cell stored at (x, y), with that slot's roll. */
function RuleStep(g: Grid, rolls: seq<Roll>, x: nat, y: nat): (r: Outcome)
  requires g.Valid() && RollsFit(rolls, |g.cells|) && g.InBounds(x, y)
  ensures r.Running? ==> SameLayout(g, r.grid)
  ensures r.Panicked? <==> !g.cells[g.Index(x, y)].species.Implemented()
{
  var i := g.Index(x, y);
  g.cells[i].species.Rule(g, x, y, g.cells[i], rolls[i])
}

/**
 * The column sweep of x over rows [0, rows), top to bottom: each row gets the
 * rule of the cell found there when the sweep reaches it; a panic ends the sweep.
 */
function SweepColumn(g: Grid, rolls: seq<Roll>, x: nat, rows: nat): (r: Outcome)
  requires g.Valid() && RollsFit(rolls, |g.cells|) && x < g.width && rows <= g.height
  ensures r.Running? ==> SameLayout(g, r.grid)
  decreases rows, 0
{
  if rows == 0 then Running(g) else AfterRow(g, rolls, x, rows - 1)
}

/** The column sweep of x through row y: rows [0, y), then the rule at (x, y). */
function AfterRow(g: Grid, rolls: seq<Roll>, x: nat, y: nat): (r: Outcome)
  requires g.Valid() && RollsFit(rolls, |g.cells|) && x < g.width && y < g.height
  ensures r.Running? ==> SameLayout(g, r.grid)
  decreases y, 1
{
  var h := SweepColumn(g, rolls, x, y);
  if h.Panicked? then Panicked else RuleStep(h.grid, rolls, x, y)
}

/** The sweep over the first `cols` columns of the scan order. */
function Sweep(g: Grid, rolls: seq<Roll>, cols: nat): (r: Outcome)
  requires g.Valid() && RollsFit(rolls, |g.cells|) && cols <= g.width
  ensures r.Running? ==> SameLayout(g, r.grid)
  decreases cols, 0
{
  if cols == 0 then Running(g) else AfterColumn(g, rolls, cols - 1)
}

/** The sweep through the k-th column of the scan order. */
function AfterColumn(g: Grid, rolls: seq<Roll>, k: nat): (r: Outcome)
  requires g.Valid() && RollsFit(rolls, |g.cells|) && k < g.width
  ensures r.Running? ==> SameLayout(g, r.grid)
  decreases k, 1
{
  var h := Sweep(g, rolls, k);
  if h.Panicked? then Panicked
  else SweepColumn(h.grid, rolls, ScanColumn(g.width, g.generation, k), g.height)
}

/** `World::tick` on values: it panics exactly when its sweep reaches a Gas or Oil cell. */
function TickRule(g: Grid, rolls: seq<Roll>): (r: Outcome)
  requires g.Valid() && RollsFit(rolls, |g.cells|)
  ensures r.Running? ==> r.grid.Valid() && r.grid.width == g.width && r.grid.height == g.height
  ensures r.Running? ==> r.grid.winds == g.winds && r.grid.generation == WrappingAdd(g.generation, 2)
{
  var blown := WindPass(g, g.width);
  var bumped := blown.(generation := WrappingAdd(blown.generation, 1));
  var swept := Sweep(bumped, rolls, g.width);
  if swept.Panicked? then Panicked
  else Running(swept.grid.(generation := WrappingAdd(swept.grid.generation, 1)))
}

// ---------------------------------------------------------------------------
// When the sweep panics
// ---------------------------------------------------------------------------

/** A prefix of a column sweep that completes completes too. */
lemma {:induction false} SweepColumnPrefixRuns(g: Grid, rolls: seq<Roll>, x: nat, k: nat, rows: nat)
  requires g.Valid() && RollsFit(rolls, |g.cells|) && x < g.width && k <= rows <= g.height
  requires SweepColumn(g, rolls, x, rows).Running?
  ensures SweepColumn(g, rolls, x, k).Running?
  decreases rows
{
  if k < rows {
    SweepColumnPrefixRuns(g, rolls, x, k, rows - 1);
  }
}

/** A prefix of a sweep that completes completes too. */
lemma {:induction false} SweepPrefixRuns(g: Grid, rolls: seq<Roll>, k: nat, cols: nat)
  requires g.Valid() && RollsFit(rolls, |g.cells|) && k <= cols <= g.width
  requires Sweep(g, rolls, cols).Running?
  ensures Sweep(g, rolls, k).Running?
  decreases cols
{
  if k < cols {
    SweepPrefixRuns(g, rolls, k, cols - 1);
  }
}

/** Where a completing sweep stands after its k-th column. */
lemma SweepStep(g: Grid, rolls: seq<Roll>, k: nat, cols: nat)
  requires g.Valid() && RollsFit(rolls, |g.cells|) && k < cols <= g.width
  requires Sweep(g, rolls, cols).Running?
  ensures Sweep(g, rolls, k).Running?
  ensures SweepColumn(Sweep(g, rolls, k).grid, rolls, ScanColumn(g.width, g.generation, k), g.height).Running?
  ensures Sweep(g, rolls, k + 1) == SweepColumn(Sweep(g, rolls, k).grid, rolls, ScanColumn(g.width, g.generation, k), g.height)
{
  SweepPrefixRuns(g, rolls, k + 1, cols);
}

/** A column sweep over a grid without Gas or Oil completes, and leaves none behind. */
lemma {:induction false} SweepColumnRuns(g: Grid, rolls: seq<Roll>, x: nat, rows: nat)
  requires g.Valid() && RollsFit(rolls, |g.cells|) && x < g.width && rows <= g.height
  requires AllImplemented(g.cells)
  ensures SweepColumn(g, rolls, x, rows).Running?
  ensures AllImplemented(SweepColumn(g, rolls, x, rows).grid.cells)
  decreases rows
{
  if rows > 0 {
    SweepColumnRuns(g, rolls, x, rows - 1);
    var h := SweepColumn(g, rolls, x, rows - 1).grid;
    var i := h.Index(x, rows - 1);
    assert ImplementedAt(h.cells, i);
    RuleKeepsImplemented(h.cells[i].species, h, x, rows - 1, h.cells[i], rolls[i]);
  }
}

/** A sweep over a grid without Gas or Oil completes, and leaves none behind. */
lemma {:induction false} SweepRuns(g: Grid, rolls: seq<Roll>, cols: nat)
  requires g.Valid() && RollsFit(rolls, |g.cells|) && cols <= g.width
  requires AllImplemented(g.cells)
  ensures Sweep(g, rolls, cols).Running?
  ensures AllImplemented(Sweep(g, rolls, cols).grid.cells)
  decreases cols
{
  if cols > 0 {
    SweepRuns(g, rolls, cols - 1);
    SweepColumnRuns(Sweep(g, rolls, cols - 1).grid, rolls, ScanColumn(g.width, g.generation, cols - 1), g.height);
  }
}

/** A tick of a grid without Gas or Oil never reaches `todo!()`, and leaves no Gas or Oil behind. */
lemma TickRunsWithoutGasOrOil(g: Grid, rolls: seq<Roll>)
  requires g.Valid() && RollsFit(rolls, |g.cells|) && AllImplemented(g.cells)
  ensures TickRule(g, rolls).Running?
  ensures AllImplemented(TickRule(g, rolls).grid.cells)
{
  var blown := WindPass(g, g.width);
  WindPassPermutes(g, g.width);
  PermutationKeepsImplemented(g.cells, blown.cells);
  var bumped := blown.(generation := WrappingAdd(blown.generation, 1));
  SweepRuns(bumped, rolls, g.width);
}

// ---------------------------------------------------------------------------
// Scan order
// ---------------------------------------------------------------------------

/** The columns 0, 1, ..., n - 1. */
function Columns(n: nat): (s: seq<nat>)
{
  seq(n, i requires 0 <= i < n => i)
}

/** The columns n - 1, ..., 1, 0 hold the same columns as 0, 1, ..., n - 1. */
lemma {:induction false} DescendingIsPermutation(n: nat)
  ensures multiset(seq(n, i requires 0 <= i < n => n - 1 - i)) == multiset(Columns(n))
{
  if n > 0 {
    DescendingIsPermutation(n - 1);
    var down := seq(n, i requires 0 <= i < n => n - 1 - i);
    var down' := seq(n - 1, i requires 0 <= i < n - 1 => n - 2 - i);
    assert down == [n - 1] + down';
    assert Columns(n) == Columns(n - 1) + [n - 1];
  }
}

/** Every sweep visits every column of [0, width) exactly once. */
lemma SweepVisitsEachColumnOnce(width: nat, generation: Byte)
  ensures |SweepOrder(width, generation)| == width
  ensures multiset(SweepOrder(width, generation)) == multiset(Columns(width))
  ensures forall i, j :: 0 <= i < j < width ==> SweepOrder(width, generation)[i] != SweepOrder(width, generation)[j]
{
  var order := SweepOrder(width, generation);
  if generation % 2 == 0 {
    assert order == seq(width, i requires 0 <= i < width => width - 1 - i);
    DescendingIsPermutation(width);
  } else {
    assert order == Columns(width);
  }
}

/**
 * A tick bumps the generation twice, so the sweep of the next tick runs at a
 * generation of the same parity and visits the columns in the same order.
 */
lemma SweepDirectionRepeats(width: nat, generation: Byte)
  ensures SweepOrder(width, WrappingAdd(generation, 2)) == SweepOrder(width, generation)
{
}

/** A tick keeps the parity of the generation. */
lemma TickKeepsParity(g: Grid, rolls: seq<Roll>)
  requires g.Valid() && RollsFit(rolls, |g.cells|) && TickRule(g, rolls).Running?
  ensures TickRule(g, rolls).grid.generation % 2 == g.generation % 2
{
}

/** The sweep of a tick that starts at an even generation scans the columns left to right. */
lemma EvenTickSweepsLeftToRight(width: nat, generation: Byte)
  requires generation % 2 == 0
  ensures SweepOrder(width, WrappingAdd(generation, 1)) == Columns(width)
{
}

// ---------------------------------------------------------------------------
// Grids that only hold Empty and Wall cells
// ---------------------------------------------------------------------------

predicate Inert(cells: seq<Cell>)
{
  forall i :: 0 <= i < |cells| ==> cells[i].species == Empty || cells[i].species == Wall
}

/** Every wind is within the threshold on both axes. */
predicate Calm(winds: seq<Wind>)
{
  forall i :: 0 <= i < |winds| ==> BlowDirection(winds[i]) == (0, 0)
}

lemma {:induction false} CalmWindColumnIsIdentity(g: Grid, x: nat, rows: nat)
  requires g.Valid() && x < g.width && rows <= g.height && Calm(g.winds)
  ensures WindColumn(g, x, rows) == g
  decreases rows
{
  if rows > 0 {
    CalmWindColumnIsIdentity(g, x, rows - 1);
    var i := g.Index(x, rows - 1);
    assert BlowDirection(g.winds[i]) == (0, 0);
  }
}

lemma {:induction false} CalmWindPassIsIdentity(g: Grid, cols: nat)
  requires g.Valid() && cols <= g.width && Calm(g.winds)
  ensures WindPass(g, cols) == g
  decreases cols
{
  if cols > 0 {
    CalmWindPassIsIdentity(g, cols - 1);
    CalmWindColumnIsIdentity(g, cols - 1, g.height);
  }
}

/** The rule of an Empty or Wall cell leaves the grid as it was. */
lemma InertRuleStepIsIdentity(g: Grid, rolls: seq<Roll>, x: nat, y: nat)
  requires g.Valid() && RollsFit(rolls, |g.cells|) && g.InBounds(x, y)
  requires Inert(g.cells)
  ensures RuleStep(g, rolls, x, y) == Running(g)
{
  var i := g.Index(x, y);
  assert g.cells[i].species == Empty || g.cells[i].species == Wall;
}

/** Sweeping a column of a grid of only Empty and Wall cells changes nothing. */
lemma {:induction false} InertSweepColumnIsIdentity(g: Grid, rolls: seq<Roll>, x: nat, rows: nat)
  requires g.Valid() && RollsFit(rolls, |g.cells|)
  requires x < g.width && rows <= g.height && Inert(g.cells)
  ensures SweepColumn(g, rolls, x, rows) == Running(g)
  decreases rows
{
  if rows > 0 {
    InertSweepColumnIsIdentity(g, rolls, x, rows - 1);
    InertRuleStepIsIdentity(g, rolls, x, rows - 1);
  }
}

/** Sweeping a grid of only Empty and Wall cells changes nothing. */
lemma {:induction false} InertSweepIsIdentity(g: Grid, rolls: seq<Roll>, cols: nat)
  requires g.Valid() && RollsFit(rolls, |g.cells|)
  requires cols <= g.width && Inert(g.cells)
  ensures Sweep(g, rolls, cols) == Running(g)
  decreases cols
{
  if cols > 0 {
    InertSweepIsIdentity(g, rolls, cols - 1);
    InertSweepColumnIsIdentity(g, rolls, ScanColumn(g.width, g.generation, cols - 1), g.height);
  }
}

/** Rearranging cells keeps a grid of only Empty and Wall cells so. */
lemma PermutationKeepsInert(a: seq<Cell>, b: seq<Cell>)
  requires multiset(a) == multiset(b) && Inert(a)
  ensures Inert(b)
{
  forall i | 0 <= i < |b|
    ensures b[i].species == Empty || b[i].species == Wall
  {
    assert b[i] in multiset(b);
    var j :| 0 <= j < |a| && a[j] == b[i];
  }
}

/** A tick of a grid of only Empty and Wall cells is its wind pass, plus the two generation bumps. */
lemma InertTickIsWindPass(g: Grid, rolls: seq<Roll>)
  requires g.Valid() && RollsFit(rolls, |g.cells|) && Inert(g.cells)
  ensures TickRule(g, rolls) == Running(WindPass(g, g.width).(generation := WrappingAdd(g.generation, 2)))
{
  var blown := WindPass(g, g.width);
  WindPassPermutes(g, g.width);
  PermutationKeepsInert(g.cells, blown.cells);
  var bumped := blown.(generation := WrappingAdd(blown.generation, 1));
  InertSweepIsIdentity(bumped, rolls, g.width);
}

/** Under calm winds, a grid of only Empty and Wall cells is left as it was, but for the generation. */
lemma InertCalmTickOnlyAdvancesGeneration(g: Grid, rolls: seq<Roll>)
  requires g.Valid() && RollsFit(rolls, |g.cells|) && Inert(g.cells) && Calm(g.winds)
  ensures TickRule(g, rolls) == Running(g.(generation := WrappingAdd(g.generation, 2)))
{
  CalmWindPassIsIdentity(g, g.width);
  InertTickIsWindPass(g, rolls);
}

/**
 * The winds of a new world are zero, which is not calm: on a 2 by 2 grid a tick
 * moves a Wall from (1, 1) into the free slot (0, 0), so even a grid of only
 * Empty and Wall cells is changed by a tick.
 */
lemma ZeroWindTickMovesWall(rolls: seq<Roll>)
  requires RollsFit(rolls, 4)
  ensures var wall := Cell(Wall, 0, 0, 0);
          var g := Grid(2, 2, [EmptyCell, EmptyCell, EmptyCell, wall], seq(4, _ => ZeroWind), 0);
          g.Valid() &&
          TickRule(g, rolls) == Running(Grid(2, 2, [wall, EmptyCell, EmptyCell, EmptyCell], g.winds, 2)) &&
          TickRule(g, rolls) != Running(g.(generation := WrappingAdd(g.generation, 2)))
{
  var wall := Cell(Wall, 0, 0, 0);
  var g := Grid(2, 2, [EmptyCell, EmptyCell, EmptyCell, wall], seq(4, _ => ZeroWind), 0);
  assert g.Valid();
  ZeroWindBlowsUpLeft();
  assert BlowStep(g, 0, 0) == g;
  assert WindColumn(g, 0, 1) == g;
  assert BlowStep(g, 0, 1) == g;
  assert WindPass(g, 1) == g;
  assert BlowStep(g, 1, 0) == g;
  assert WindColumn(g, 1, 1) == g;
  var moved := Grid(2, 2, [wall, EmptyCell, EmptyCell, EmptyCell], g.winds, 0);
  assert g.Swap(3, 0).cells == moved.cells;
  assert BlowStep(g, 1, 1) == moved;
  assert WindPass(g, 2) == moved;
  InertTickIsWindPass(g, rolls);
  assert moved.cells != g.cells;
}

/**
 * The sweep has no clock check, so a grain that falls into a row the sweep has
 * not reached yet is updated again in the same tick: on a 1 by 3 grid with
 * `dir = 0` everywhere, Sand at row 0 ends the tick at row 2.
 */
lemma SandFallsTwiceInOneTick(rolls: seq<Roll>)
  requires RollsFit(rolls, 3) && forall i :: 0 <= i < 3 ==> rolls[i].dir == 0
  ensures var g := Grid(1, 3, [Cell(Sand, 0, 0, 0), EmptyCell, EmptyCell], seq(3, _ => ZeroWind), 0);
          g.Valid() &&
          TickRule(g, rolls) == Running(Grid(1, 3, [Cell(Empty, 0, 0, 2), Cell(Empty, 0, 0, 2), Cell(Sand, 0, 0, 2)], g.winds, 2))
{
  var sand := Cell(Sand, 0, 0, 0);
  var g := Grid(1, 3, [sand, EmptyCell, EmptyCell], seq(3, _ => ZeroWind), 0);
  assert g.Valid();
  ZeroWindBlowsUpLeft();
  assert BlowStep(g, 0, 0) == g;
  assert WindColumn(g, 0, 1) == g;
  assert BlowStep(g, 0, 1) == g;
  assert WindColumn(g, 0, 2) == g;
  assert BlowStep(g, 0, 2) == g;
  assert WindPass(g, 1) == g;
  var b := g.(generation := 1);
  var e2, s2 := Cell(Empty, 0, 0, 2), Cell(Sand, 0, 0, 2);
  var b1 := b.(cells := [e2, s2, EmptyCell]);
  var b2 := b.(cells := [e2, e2, s2]);
  assert rolls[0].dir == 0 && rolls[1].dir == 0 && rolls[2].dir == 0;
  assert RuleStep(b, rolls, 0, 0) == Running(b1);
  assert SweepColumn(b, rolls, 0, 1) == Running(b1);
  assert RuleStep(b1, rolls, 0, 1) == Running(b2);
  assert SweepColumn(b, rolls, 0, 2) == Running(b2);
  assert RuleStep(b2, rolls, 0, 2) == Running(b2);
  assert SweepColumn(b, rolls, 0, 3) == Running(b2);
  assert Sweep(b, rolls, 1) == Running(b2);
}
